/** The scanline worker: one request carries a compressed scanline and the
    buffer that must receive it; the worker decodes, checks that the decoded
    length is exactly the buffer's length, and answers with exactly one reply
    that echoes the request. Message passing between threads is not part of
    this model; one call of OnMessage is one message handled. */
module PackBitsWorker {
  import opened Bytes
  import opened Decimal
  import PackBits

  /** A request: the compressed scanline and the pre-sized target buffer. */
  datatype Task = Task(source: seq<sbyte>, target: array<int>)

  /** The only failure: the decoded line is not as long as the target. */
  datatype LineLengthError = LineLengthDiffers(expected: nat, actual: nat)

  const ExpectedPrefix: string := "Line length differs. Expected: "
  const ActualInfix: string := " but is: "

  /** The text of the thrown Error. */
  function Message(e: LineLengthError): string {
    ExpectedPrefix + NatToString(e.expected) + ActualInfix + NatToString(e.actual)
  }

  /** Reads the two lengths back out of an error message. */
  function ParseMessage(msg: string): Option<LineLengthError> {
    if |msg| < |ExpectedPrefix| || msg[..|ExpectedPrefix|] != ExpectedPrefix then None
    else
      var (digits, rest) := SplitDigits(msg[|ExpectedPrefix|..]);
      if |rest| < |ActualInfix| || rest[..|ActualInfix|] != ActualInfix then None
      else
        match (ParseNat(digits), ParseNat(rest[|ActualInfix|..]))
        case (Some(expected), Some(actual)) => Some(LineLengthDiffers(expected, actual))
        case _ => None
  }

  /** The message names both lengths: they can be read back from it exactly,
      so two different mismatches never produce the same text. */
  lemma {:induction false} MessageNamesLengths(e: LineLengthError)
    ensures ParseMessage(Message(e)) == Some(e)
  {
    var msg := Message(e);
    var expected, actual := NatToString(e.expected), NatToString(e.actual);
    assert msg[..|ExpectedPrefix|] == ExpectedPrefix;
    assert msg[|ExpectedPrefix|..] == expected + (ActualInfix + actual);
    SplitDigitsOf(expected, ActualInfix + actual);
    var rest := ActualInfix + actual;
    assert rest[..|ActualInfix|] == ActualInfix;
    assert rest[|ActualInfix|..] == actual;
    ParseNatOfNatToString(e.expected);
    ParseNatOfNatToString(e.actual);
  }

  /** `toExec(data)`: decodes the scanline into `data.target` and fails unless
      the decoded count equals the target's length. */
  method ToExec(data: Task) returns (r: Result<Task, LineLengthError>)
    modifies data.target
    ensures data.target[..] == PackBits.Overlay(old(data.target[..]), PackBits.Decode(data.source))
    ensures r.Ok? <==> |PackBits.Decode(data.source)| == data.target.Length
    ensures r.Ok? ==> r.value == data && data.target[..] == PackBits.Decode(data.source)
    ensures r.Err? ==> r.error == LineLengthDiffers(data.target.Length, |PackBits.Decode(data.source)|)
  {
    var l := PackBits.DecodePackbits(data.source, data.target);
    if l != data.target.Length {
      return Err(LineLengthDiffers(data.target.Length, l));
    }
    return Ok(data);
  }

  /** The worker's reply: `{result, data}` or `{error, data}`. */
  datatype Reply = ResultReply(result: Task, data: Task) | ErrorReply(error: LineLengthError, data: Task)

  /** The message handler: one request, exactly one reply, echoing the request. */
  method OnMessage(data: Task) returns (reply: Reply)
    modifies data.target
    ensures data.target[..] == PackBits.Overlay(old(data.target[..]), PackBits.Decode(data.source))
    ensures reply.data == data
    ensures reply.ResultReply? <==> |PackBits.Decode(data.source)| == data.target.Length
    ensures reply.ResultReply? ==> reply.result == data
    ensures reply.ErrorReply? ==>
      reply.error == LineLengthDiffers(data.target.Length, |PackBits.Decode(data.source)|)
  {
    var r := ToExec(data);
    match r
    case Ok(result) => reply := ResultReply(result, data);
    case Err(error) => reply := ErrorReply(error, data);
  }
}
