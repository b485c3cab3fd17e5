/** `bchange`: replacing a run of bytes at the start of a buffer by two overlapping moves. */
module Splice {
  import opened Bytes

  /** `bmove`, ascending: right when the destination does not reach into bytes still to be read. */
  method Bmove(buf: array<byte>, dst: nat, src: nat, len: nat)
    requires dst + len <= buf.Length && src + len <= buf.Length
    requires dst <= src || src + len <= dst
    modifies buf
    ensures buf[..] == old(buf[..dst]) + old(buf[src..src + len]) + old(buf[dst + len..])
  {
    var left, k := len, 0;
    while left != 0
      invariant 0 <= left <= len && k == len - left
      invariant forall x :: 0 <= x < buf.Length && !(dst <= x < dst + k) ==> buf[x] == old(buf[x])
      invariant forall x :: dst <= x < dst + k ==> buf[x] == old(buf[x - dst + src])
    {
      left := left - 1;
      buf[dst + k] := buf[src + k];
      k := k + 1;
    }
  }

  /** `bmove_upp`, descending from the ends `dst` and `src`. */
  method BmoveUpp(buf: array<byte>, dst: nat, src: nat, len: nat)
    requires len <= dst <= buf.Length && len <= src <= buf.Length
    requires src <= dst || dst <= src - len
    modifies buf
    ensures buf[..] == old(buf[..dst - len]) + old(buf[src - len..src]) + old(buf[dst..])
  {
    var left, d, s := len, dst, src;
    while left != 0
      invariant 0 <= left <= len && d == dst - (len - left) && s == src - (len - left)
      invariant forall x :: 0 <= x < buf.Length && !(d <= x < dst) ==> buf[x] == old(buf[x])
      invariant forall x :: d <= x < dst ==> buf[x] == old(buf[x - dst + src])
    {
      left, d, s := left - 1, d - 1, s - 1;
      buf[d] := buf[s];
    }
  }

  /** Overwriting the end of `x` in `x + r + t`. */
  lemma Overwrite(m: seq<byte>, x: seq<byte>, r: seq<byte>, t: seq<byte>, a: nat, s: seq<byte>, b: nat)
    requires m == x + r + t && |x| == b == a + |s|
    ensures m[..a] + s + m[b..] == x[..a] + s + r + t
  {
    assert m[b..] == r + t;
    assert m[..a] == x[..a];
  }

  /** The move of `bchange`, in the direction that never reads an overwritten byte. */
  method MoveRest(buf: array<byte>, dst: nat, oldLength: nat, newLength: nat, rest: nat)
    requires dst + oldLength + rest <= buf.Length && dst + newLength + rest <= buf.Length
    modifies buf
    ensures buf[..] == old(buf[..dst + newLength]) + old(buf[dst + oldLength..dst + oldLength + rest])
                       + old(buf[dst + newLength + rest..])
  {
    ghost var to, from := dst + newLength, dst + oldLength;
    if oldLength < newLength {
      BmoveUpp(buf, dst + rest + newLength, dst + oldLength + rest, rest);
      assert dst + rest + newLength - rest == to && dst + oldLength + rest - rest == from;
    } else {
      Bmove(buf, dst + newLength, dst + oldLength, rest);
    }
  }

  /**
   `bchange` on `buf[dst..]`: the first `oldLength` of its `totLength` bytes give way to `src`, the
   rest moves up or down and keeps its bytes, and nothing else is written.
   */
  method Bchange(buf: array<byte>, dst: nat, oldLength: nat, src: array<byte>, newLength: nat, totLength: nat)
    requires buf != src && newLength <= src.Length && oldLength <= totLength
    requires dst + totLength <= buf.Length && dst + newLength + (totLength - oldLength) <= buf.Length
    modifies buf
    ensures buf[..] == old(buf[..dst]) + old(src[..newLength]) + old(buf[dst + oldLength..dst + totLength])
                       + old(buf[dst + newLength + (totLength - oldLength)..])
  {
    var rest := totLength - oldLength;
    ghost var end := dst + newLength;
    ghost var x, r := buf[..end], buf[dst + oldLength..dst + totLength];
    ghost var t, s := buf[end + rest..], src[..newLength];
    assert x[..dst] == buf[..dst] && dst + oldLength + rest == dst + totLength;
    MoveRest(buf, dst, oldLength, newLength, rest);
    ghost var moved := buf[..];
    assert buf[..dst] == moved[..dst] && buf[end..] == moved[end..] && src[..newLength] == s;
    Memcpy(buf, dst, src, 0, newLength);
    Overwrite(moved, x, r, t, dst, s, end);
  }
}
