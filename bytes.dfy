/** Byte-level vocabulary shared by the decoders: unsigned and signed bytes,
    the conversion a JavaScript typed array applies on store, and the usual
    Option/Result wrappers for the error paths. */
module Bytes {

  /** An unsigned byte, the element of a Node.js Buffer. */
  type byte = x: int | 0 <= x < 256

  /** A signed byte, the element of an Int8Array. */
  type sbyte = x: int | -128 <= x < 128

  datatype Option<T> = None | Some(value: T)

  datatype Result<T, E> = Ok(value: T) | Err(error: E)

  datatype Outcome<E> = Pass | Fail(error: E)

  /** Sequence concatenation regroups freely. */
  lemma ConcatAssoc<T>(x: seq<T>, y: seq<T>, z: seq<T>)
    ensures x + (y + z) == (x + y) + z
  {
  }

  /** The value an integer becomes when stored into a Uint8Array or Buffer
      (ECMAScript ToUint8 on an integer: reduction modulo 256). */
  function ToUint8(v: int): (r: byte)
    ensures 0 <= v < 256 ==> r == v
    ensures (v - r) % 256 == 0
  {
    v % 256
  }

  /** Reinterprets an unsigned byte as the signed byte with the same bits. */
  function Signed(b: byte): (s: sbyte)
    ensures s < 0 <==> b >= 128
    ensures (b - s) % 256 == 0
  {
    if b < 128 then b else b - 256
  }

  /** Reinterprets a signed byte as the unsigned byte with the same bits. */
  function Unsigned(s: sbyte): (b: byte)
    ensures Signed(b) == s
  {
    if s < 0 then s + 256 else s
  }

  function SignedSeq(s: seq<byte>): (r: seq<sbyte>)
    ensures |r| == |s| && forall k :: 0 <= k < |s| ==> r[k] == Signed(s[k])
  {
    seq(|s|, k requires 0 <= k < |s| => Signed(s[k]))
  }
}
