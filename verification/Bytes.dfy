/** Bytes and the few sequence facts that the other modules share. */
module Bytes {

  /** An `uchar`. */
  type byte = x: int | 0 <= x < 256

  const SPACE: byte := 0x20

  /** The sign of a three-way comparison, as the C callers use it. */
  function Sign(x: int): int {
    if x < 0 then -1 else if x > 0 then 1 else 0
  }

  function Min(x: int, y: int): int {
    if x < y then x else y
  }

  /** The end of the run of bytes with the property `p` at `i`. */
  function RunEnd(p: byte -> bool, s: seq<byte>, i: nat): (e: nat)
    requires i <= |s|
    ensures i <= e <= |s| && (forall k :: i <= k < e ==> p(s[k])) && (e < |s| ==> !p(s[e]))
    decreases |s| - i
  {
    if i < |s| && p(s[i]) then RunEnd(p, s, i + 1) else i
  }

  /** `memcpy` between two buffers. */
  method Memcpy(dst: array<byte>, at: nat, src: array<byte>, from: nat, len: nat)
    requires dst != src && at + len <= dst.Length && from + len <= src.Length
    modifies dst
    ensures dst[..at + len] == old(dst[..at]) + src[from..from + len]
    ensures dst[at + len..] == old(dst[at + len..])
  {
    for k := 0 to len
      invariant dst[..at + k] == old(dst[..at]) + src[from..from + k]
      invariant dst[at + k..] == old(dst[at + k..])
    {
      dst[at + k] := src[from + k];
    }
  }
}
