/** Types and constants that several components share. */
module Wrappers {

  datatype Option<+T> = None | Some(value: T)

  datatype Result<+T, +E> = Ok(value: T) | Err(error: E)

  type byte = x: nat | x < 256

  const TWO64: nat := 0x1_0000_0000_0000_0000

  function Min(a: nat, b: nat): nat { if a < b then a else b }

  /** `bytes` laid over a sequence at a position. */
  function Splice(was: seq<byte>, at: nat, bytes: seq<byte>): (r: seq<byte>)
    requires at + |bytes| <= |was|
    ensures |r| == |was|
    ensures forall i :: 0 <= i < |was| ==> r[i] == if at <= i < at + |bytes| then bytes[i - at] else was[i]
  {
    was[..at] + bytes + was[at + |bytes|..]
  }
}
