/** The PackBits run-length decoder of TIFF Revision 6.0, Section 9, as the
    converter implements it: a control byte in [0,127] introduces a literal
    run, one in [-127,-1] a repeat run, and -128 is a no-op.

    The source is a stream of signed bytes. The target is a fixed-length typed
    array: a write past its end is dropped while the count keeps running, and
    a read past the end of the source (JavaScript `undefined`) is stored as 0. */
module PackBits {
  import opened Bytes

  /** The value read from the source at index i, as the target stores it. */
  function ByteAt(src: seq<sbyte>, i: int): int {
    if 0 <= i < |src| then src[i] else 0
  }

  /** The k-th data byte after the control byte at i. */
  function DataByte(src: seq<sbyte>, i: nat, k: nat): int {
    ByteAt(src, i + 1 + k)
  }

  /** How many bytes a control byte produces. */
  function RunLength(control: int): nat {
    if control == -128 then 0 else if control < 0 then 1 - control else 1 + control
  }

  /** Index of the control byte after the run that starts at i. */
  function NextRun(src: seq<sbyte>, i: nat): (j: nat)
    requires i < |src|
    ensures j > i
  {
    var b := src[i];
    if b == -128 then i + 1 else if b < 0 then i + 2 else i + 2 + b
  }

  /** The bytes one run produces. */
  function DecodeRun(src: seq<sbyte>, i: nat): (out: seq<int>)
    requires i < |src|
    ensures |out| == RunLength(src[i])
  {
    var b := src[i];
    if b == -128 then []
    else if b < 0 then seq(1 - b, _ => DataByte(src, i, 0))
    else seq(1 + b, (k: int) requires 0 <= k => DataByte(src, i, k))
  }

  /** What each kind of control byte produces and how far it advances: -128
      nothing and one byte, a repeat run its one data byte 1 - n times and two
      bytes, a literal run its n + 1 data bytes and n + 2 bytes. */
  lemma RunContents(src: seq<sbyte>, i: nat)
    requires i < |src|
    ensures var out := DecodeRun(src, i);
      && (src[i] == -128 ==> out == [] && NextRun(src, i) == i + 1)
      && (-128 < src[i] < 0 ==>
            NextRun(src, i) == i + 2 && forall k :: 0 <= k < |out| ==> out[k] == DataByte(src, i, 0))
      && (0 <= src[i] ==>
            NextRun(src, i) == i + 2 + src[i] && forall k :: 0 <= k < |out| ==> out[k] == DataByte(src, i, k))
  {
  }

  /** The concatenation of the runs from control byte i to the end. */
  function DecodeFrom(src: seq<sbyte>, i: nat): seq<int>
    decreases |src| - i
  {
    if i >= |src| then [] else DecodeRun(src, i) + DecodeFrom(src, NextRun(src, i))
  }

  /** The decoded stream: the concatenation of all runs. */
  function Decode(src: seq<sbyte>): seq<int> {
    DecodeFrom(src, 0)
  }

  /** The sum of the run lengths from control byte i on. */
  function RunLengthSum(src: seq<sbyte>, i: nat): nat
    decreases |src| - i
  {
    if i >= |src| then 0 else RunLength(src[i]) + RunLengthSum(src, NextRun(src, i))
  }

  /** Where the decoder's source index stops once the loop exits. */
  function EndIndex(src: seq<sbyte>, i: nat): nat
    decreases |src| - i
  {
    if i >= |src| then i else EndIndex(src, NextRun(src, i))
  }

  /** Every run from control byte i on lies inside the source. */
  predicate WellFormedFrom(src: seq<sbyte>, i: nat)
    decreases |src| - i
  {
    i <= |src| && (i < |src| ==> NextRun(src, i) <= |src| && WellFormedFrom(src, NextRun(src, i)))
  }

  predicate WellFormed(src: seq<sbyte>) {
    WellFormedFrom(src, 0)
  }

  /** The decoded length is the sum of the run lengths. */
  lemma {:induction false} DecodedLength(src: seq<sbyte>, i: nat)
    ensures |DecodeFrom(src, i)| == RunLengthSum(src, i)
    decreases |src| - i
  {
    if i < |src| {
      DecodedLength(src, NextRun(src, i));
    }
  }

  /** The source index always runs to the end of the source or past it, and
      stops exactly at the end precisely when no run is truncated. */
  lemma {:induction false} SourceConsumed(src: seq<sbyte>, i: nat)
    requires i <= |src|
    ensures EndIndex(src, i) >= |src|
    ensures EndIndex(src, i) == |src| <==> WellFormedFrom(src, i)
    decreases |src| - i
  {
    if i < |src| {
      var j := NextRun(src, i);
      if j <= |src| {
        SourceConsumed(src, j);
      } else {
        assert EndIndex(src, j) == j;
      }
    }
  }

  /** In a well-formed stream no run reads past the source, so every decoded
      byte is a byte of the source. */
  lemma {:induction false} WellFormedReadsSource(src: seq<sbyte>, i: nat, k: nat)
    requires WellFormedFrom(src, i) && k < |DecodeFrom(src, i)|
    ensures exists j :: i <= j < |src| && DecodeFrom(src, i)[k] == src[j]
    decreases |src| - i
  {
    var run := DecodeRun(src, i);
    if k < |run| {
      var b := src[i];
      if b < 0 {
        assert run[k] == src[i + 1];
      } else {
        assert run[k] == src[i + 1 + k];
      }
    } else {
      WellFormedReadsSource(src, NextRun(src, i), k - |run|);
    }
  }

  /** Decoding distributes over concatenation of a well-formed stream with
      any stream: runs never straddle the boundary. */
  lemma {:induction false} DecodeAppend(a: seq<sbyte>, b: seq<sbyte>, i: nat)
    requires WellFormedFrom(a, i)
    ensures DecodeFrom(a + b, i) == DecodeFrom(a, i) + DecodeFrom(b, 0)
    decreases |a| - i
  {
    if i == |a| {
      AppendAtEnd(a, b);
    } else {
      DecodeAppend(a, b, NextRun(a, i));
      AppendStep(a, b, i);
    }
  }

  /** Decoding a + b from the end of a is decoding b. */
  lemma AppendAtEnd(a: seq<sbyte>, b: seq<sbyte>)
    ensures DecodeFrom(a + b, |a|) == DecodeFrom(a, |a|) + DecodeFrom(b, 0)
  {
    SuffixOfAppend(a, b);
    ShiftedDecode(a + b, |a|, b, 0);
    DecodeFromEnd(a, |a|);
    ConcatEmpty(DecodeFrom(b, 0));
  }

  lemma SuffixOfAppend(a: seq<sbyte>, b: seq<sbyte>)
    ensures SuffixAt(a + b, |a|, b)
  {
    forall j | |a| <= j < |a| + |b| ensures (a + b)[j] == b[j - |a|] {
    }
  }

  lemma ConcatEmpty(s: seq<int>)
    ensures [] + s == s
  {
  }

  /** One run of a well-formed a extends the split of the rest to the split
      from the run's start. */
  lemma AppendStep(a: seq<sbyte>, b: seq<sbyte>, i: nat)
    requires i < |a| && NextRun(a, i) <= |a|
    requires DecodeFrom(a + b, NextRun(a, i)) == DecodeFrom(a, NextRun(a, i)) + DecodeFrom(b, 0)
    ensures DecodeFrom(a + b, i) == DecodeFrom(a, i) + DecodeFrom(b, 0)
  {
    PrefixStep(a, b, i);
    DecodeFromStep(a, i);
    ConcatAssoc(DecodeRun(a, i), DecodeFrom(a, NextRun(a, i)), DecodeFrom(b, 0));
  }

  /** Decoding a + b from a run that fits inside a starts with that run. */
  lemma PrefixStep(a: seq<sbyte>, b: seq<sbyte>, i: nat)
    requires i < |a| && NextRun(a, i) <= |a|
    ensures DecodeFrom(a + b, i) == DecodeRun(a, i) + DecodeFrom(a + b, NextRun(a, i))
  {
    DecodeFromStep(a + b, i);
    PrefixRun(a, b, i);
  }

  /** A run that fits inside a decodes alike inside a + b. */
  lemma PrefixRun(a: seq<sbyte>, b: seq<sbyte>, i: nat)
    requires i < |a| && NextRun(a, i) <= |a|
    ensures DecodeRun(a + b, i) == DecodeRun(a, i) && NextRun(a + b, i) == NextRun(a, i)
  {
    assert (a + b)[i] == a[i];
    forall k: nat | i + 1 + k < |a| ensures DataByte(a + b, i, k) == DataByte(a, i, k) {
      assert (a + b)[i + 1 + k] == a[i + 1 + k];
    }
    SameRunInput(a + b, i, a, i);
  }

  /** s2 is s1 with its first d bytes dropped. */
  predicate SuffixAt(s1: seq<sbyte>, d: nat, s2: seq<sbyte>) {
    |s1| == d + |s2| && forall j :: d <= j < |s1| ==> s1[j] == s2[j - d]
  }

  /** The data bytes after a control byte of s2 are the same seen from s1. */
  lemma ShiftedData(s1: seq<sbyte>, d: nat, s2: seq<sbyte>, i: nat)
    requires SuffixAt(s1, d, s2)
    ensures forall k: nat :: DataByte(s1, d + i, k) == DataByte(s2, i, k)
  {
    forall k: nat ensures DataByte(s1, d + i, k) == DataByte(s2, i, k) {
      if i + 1 + k < |s2| {
        assert s1[d + i + 1 + k] == s2[i + 1 + k];
      }
    }
  }

  /** A run of s2 is the same run seen from s1. */
  lemma ShiftedRun(s1: seq<sbyte>, d: nat, s2: seq<sbyte>, i: nat)
    requires SuffixAt(s1, d, s2) && i < |s2|
    ensures DecodeRun(s1, d + i) == DecodeRun(s2, i)
    ensures NextRun(s1, d + i) == d + NextRun(s2, i)
  {
    assert s1[d + i] == s2[i];
    ShiftedData(s1, d, s2, i);
    SameRunInput(s1, d + i, s2, i);
  }

  /** Decoding s2 from index i gives the same runs as decoding s1 from d + i. */
  lemma {:induction false} ShiftedDecode(s1: seq<sbyte>, d: nat, s2: seq<sbyte>, i: nat)
    requires SuffixAt(s1, d, s2)
    ensures DecodeFrom(s1, d + i) == DecodeFrom(s2, i)
    decreases |s2| - i
  {
    if i < |s2| {
      var j := NextRun(s2, i);
      ShiftedDecode(s1, d, s2, j);
      ShiftedStep(s1, d, s2, i, j);
    } else {
      DecodeFromEnd(s1, d + i);
      DecodeFromEnd(s2, i);
    }
  }

  /** One run of s2 extends the shifted decoding of the rest to the run's start. */
  lemma ShiftedStep(s1: seq<sbyte>, d: nat, s2: seq<sbyte>, i: nat, j: nat)
    requires SuffixAt(s1, d, s2) && i < |s2| && j == NextRun(s2, i)
    requires DecodeFrom(s1, d + j) == DecodeFrom(s2, j)
    ensures DecodeFrom(s1, d + i) == DecodeFrom(s2, i)
  {
    ShiftedRun(s1, d, s2, i);
    SameStep(s1, d + i, d + j, s2, i, j);
  }

  /** Past the last control byte nothing more is decoded. */
  lemma DecodeFromEnd(src: seq<sbyte>, i: nat)
    requires i >= |src|
    ensures DecodeFrom(src, i) == []
  {
  }

  /** Two positions whose runs agree, and whose remainders decode alike,
      decode alike. */
  lemma SameStep(s1: seq<sbyte>, i1: nat, j1: nat, s2: seq<sbyte>, i2: nat, j2: nat)
    requires i1 < |s1| && i2 < |s2| && DecodeRun(s1, i1) == DecodeRun(s2, i2)
    requires j1 == NextRun(s1, i1) && j2 == NextRun(s2, i2) && DecodeFrom(s1, j1) == DecodeFrom(s2, j2)
    ensures DecodeFrom(s1, i1) == DecodeFrom(s2, i2)
  {
    DecodeFromStep(s1, i1);
    DecodeFromStep(s2, i2);
  }

  /** Two runs whose control byte and data bytes agree decode alike and have
      the same extent. */
  lemma SameRunInput(s1: seq<sbyte>, i1: nat, s2: seq<sbyte>, i2: nat)
    requires i1 < |s1| && i2 < |s2| && s1[i1] == s2[i2]
    requires -128 < s1[i1] < 0 ==> DataByte(s1, i1, 0) == DataByte(s2, i2, 0)
    requires 0 <= s1[i1] ==> forall k: nat :: k <= s1[i1] ==> DataByte(s1, i1, k) == DataByte(s2, i2, k)
    ensures DecodeRun(s1, i1) == DecodeRun(s2, i2)
    ensures NextRun(s1, i1) - i1 == NextRun(s2, i2) - i2
  {
    var r1, r2 := DecodeRun(s1, i1), DecodeRun(s2, i2);
    assert |r1| == |r2|;
    forall k | 0 <= k < |r1| ensures r1[k] == r2[k] {
      if s1[i1] >= 0 {
        assert DataByte(s1, i1, k) == DataByte(s2, i2, k);
      }
    }
  }

  /** The target after the decoded bytes `out` are written from index 0 over
      `t`: writes past the end of the target are dropped. */
  function Overlay(t: seq<int>, out: seq<int>): (r: seq<int>)
    ensures |r| == |t|
    ensures forall k :: 0 <= k < |t| ==> r[k] == if k < |out| then out[k] else t[k]
  {
    seq(|t|, k requires 0 <= k < |t| => if k < |out| then out[k] else t[k])
  }

  lemma OverlayPush(t: seq<int>, out: seq<int>, v: int)
    ensures |out| < |t| ==> Overlay(t, out + [v]) == Overlay(t, out)[|out| := v]
    ensures |out| >= |t| ==> Overlay(t, out + [v]) == Overlay(t, out)
  {
  }

  lemma DecodeFromStep(src: seq<sbyte>, i: nat)
    requires i < |src|
    ensures DecodeFrom(src, i) == DecodeRun(src, i) + DecodeFrom(src, NextRun(src, i))
  {
  }

  /** One turn of the decoding loop: the run at i moves from the part still to
      decode to the part already produced. */
  lemma DecodeAdvance(src: seq<sbyte>, i: nat, out: seq<int>)
    requires i < |src| && Decode(src) == out + DecodeFrom(src, i)
    ensures Decode(src) == (out + DecodeRun(src, i)) + DecodeFrom(src, NextRun(src, i))
  {
  }

  /** The inner loop of a repeat run: writes `val` `length` times from
      `targetIndex` on and returns the advanced target index. */
  method WriteRepeat(target: array<int>, targetIndex: nat, val: int, length: nat,
                     ghost source: seq<sbyte>, ghost control: nat, ghost t0: seq<int>, ghost out: seq<int>)
    returns (newIndex: nat)
    requires control < |source| && -128 < source[control] < 0
    requires length == 1 - source[control] as int && val == DataByte(source, control, 0)
    requires targetIndex == |out| && target[..] == Overlay(t0, out)
    modifies target
    ensures newIndex == targetIndex + length
    ensures target[..] == Overlay(t0, out + DecodeRun(source, control))
  {
    newIndex := targetIndex;
    ghost var run := DecodeRun(source, control);
    ghost var written: seq<int> := out;
    for i := 0 to length
      invariant newIndex == |written| == targetIndex + i
      invariant written == out + run[..i]
      invariant target[..] == Overlay(t0, written)
    {
      OverlayPush(t0, written, val);
      if newIndex < target.Length {
        target[newIndex] := val;
      }
      newIndex := newIndex + 1;
      written := written + [val];
      assert run[..i + 1] == run[..i] + [val];
    }
    assert run[..length] == run;
  }

  /** The inner loop of a literal run: copies `length` source bytes from
      `sourceIndex` on, returning both advanced indices. */
  method CopyLiteral(source: seq<sbyte>, sourceIndex: nat, target: array<int>, targetIndex: nat,
                     length: nat, ghost control: nat, ghost t0: seq<int>, ghost out: seq<int>)
    returns (newSource: nat, newTarget: nat)
    requires control < |source| && 0 <= source[control]
    requires sourceIndex == control + 1 && length == 1 + source[control] as int
    requires targetIndex == |out| && target[..] == Overlay(t0, out)
    modifies target
    ensures newSource == NextRun(source, control) && newTarget == targetIndex + length
    ensures target[..] == Overlay(t0, out + DecodeRun(source, control))
  {
    newSource, newTarget := sourceIndex, targetIndex;
    ghost var run := DecodeRun(source, control);
    ghost var written: seq<int> := out;
    for j := 0 to length
      invariant newSource == sourceIndex + j
      invariant newTarget == |written| == targetIndex + j
      invariant written == out + run[..j]
      invariant target[..] == Overlay(t0, written)
    {
      var v := if newSource < |source| then source[newSource] else 0;
      assert v == run[j] == DataByte(source, control, j);
      OverlayPush(t0, written, v);
      if newTarget < target.Length {
        target[newTarget] := v;
      }
      newTarget := newTarget + 1;
      newSource := newSource + 1;
      written := written + [v];
      assert run[..j + 1] == run[..j] + [v];
    }
    assert run[..length] == run;
  }

  /** `decodePackbits(source, target)`: fills target with the decoded bytes
      from index 0 and returns how many bytes the stream decodes to. */
  method DecodePackbits(source: seq<sbyte>, target: array<int>) returns (count: nat)
    modifies target
    ensures count == |Decode(source)| == RunLengthSum(source, 0)
    ensures target[..] == Overlay(old(target[..]), Decode(source))
  {
    ghost var t0 := target[..];
    var targetIndex: nat := 0;
    var sourceIndex: nat := 0;
    ghost var out: seq<int> := [];
    while sourceIndex < |source|
      invariant Decode(source) == out + DecodeFrom(source, sourceIndex)
      invariant targetIndex == |out|
      invariant target[..] == Overlay(t0, out)
      decreases |source| - sourceIndex
    {
      DecodeAdvance(source, sourceIndex, out);
      ghost var control := sourceIndex;
      var b := source[sourceIndex];
      sourceIndex := sourceIndex + 1;
      if b == -128 {
        out := out + DecodeRun(source, control);
        continue;
      }
      if b < 0 {
        var length: nat := 1 - b as int;
        var val := if sourceIndex < |source| then source[sourceIndex] else 0;
        sourceIndex := sourceIndex + 1;
        targetIndex := WriteRepeat(target, targetIndex, val, length, source, control, t0, out);
      } else {
        var length: nat := 1 + b as int;
        sourceIndex, targetIndex := CopyLiteral(source, sourceIndex, target, targetIndex, length, control, t0, out);
      }
      out := out + DecodeRun(source, control);
    }
    DecodedLength(source, 0);
    count := targetIndex;
  }
}
