/** Bytes, as the buffers and streams hold them. */
module Bytes {
  type byte = x: int | 0 <= x < 256

  lemma Regroup(a: seq<byte>, b: seq<byte>, c: seq<byte>)
    ensures a + (b + c) == (a + b) + c
  {
  }
}
