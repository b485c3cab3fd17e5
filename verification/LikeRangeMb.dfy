/** `my_like_range_mb` for a character set that is not Unicode and has no contractions. */
module LikeRangeMb {
  import opened Bytes
  import opened Charsets
  import opened LikeSpec
  import opened Collation
  import opened LikeRange

  /** The identity: the weights of the `_bin` collations. */
  function BinaryWeight(b: byte): byte { b }

  /** The largest byte, with which `pad_max_char` fills. */
  const MAX_BYTE: byte := 255

  /**
   The range buffer of `n` bytes for the tokens `t`, of at most `chars` characters: the literals, then
   `fill` from the first wildcard on, or spaces behind the last literal that fits.
   */
  ghost function RangeMb(t: seq<Token>, n: nat, chars: nat, fill: byte): (r: seq<byte>)
    ensures |r| == n
    decreases |t|
  {
    if t == [] || n == 0 || chars == 0 then Repeat(SPACE, n)
    else match t[0]
      case Many => Repeat(fill, n)
      case One => Repeat(fill, n)
      case Literal(x) =>
        if |x| > n then Repeat(SPACE, n) else x + RangeMb(t[1..], n - |x|, chars - 1, fill)
  }

  /** The number of bytes in front of the fill: the literals before the first wildcard, as far as they fit. */
  ghost function FixedMb(t: seq<Token>, n: nat, chars: nat): (r: nat)
    ensures r <= n
    decreases |t|
  {
    if t == [] || n == 0 || chars == 0 || !t[0].Literal? || |t[0].bytes| > n then 0
    else |t[0].bytes| + FixedMb(t[1..], n - |t[0].bytes|, chars - 1)
  }

  /** A wildcard ends the fixed part, rather than the end of the pattern or of the buffers. */
  ghost predicate OpenMb(t: seq<Token>, n: nat, chars: nat)
    decreases |t|
  {
    t != [] && n > 0 && chars > 0 &&
    (t[0].Literal? ==> |t[0].bytes| <= n && OpenMb(t[1..], n - |t[0].bytes|, chars - 1))
  }

  /** The bytes of a run of characters. */
  ghost function Flatten(c: seq<seq<byte>>): seq<byte> {
    if c == [] then [] else c[0] + Flatten(c[1..])
  }

  ghost predicate NonEmptyChars(c: seq<seq<byte>>) {
    forall k :: 0 <= k < |c| ==> c[k] != []
  }

  lemma {:induction false} CharsFlatten(cs: Charset, s: seq<byte>, i: nat)
    requires cs.Valid() && i <= |s|
    ensures Flatten(cs.Chars(s, i)) == s[i..] && NonEmptyChars(cs.Chars(s, i))
    decreases |s| - i
  {
    if i < |s| {
      cs.CharLenFits(s, i);
      var e := i + cs.CharLen(s, i);
      CharsFlatten(cs, s, e);
      var c := cs.Chars(s, i);
      assert c == [s[i..e]] + cs.Chars(s, e) && c[1..] == cs.Chars(s, e);
      assert s[i..] == s[i..e] + s[e..];
    }
  }

  /** Position by position, a matching string is no less than the low and no more than the high buffer. */
  lemma {:induction false} RangeMbAt(cs: Charset, t: seq<Token>, c: seq<seq<byte>>, n: nat, chars: nat, k: nat)
    requires cs.weight == BinaryWeight && NonEmptyChars(c) && |c| <= chars && |Flatten(c)| <= n
    requires Matches(cs, t, c)
    ensures WeightAt(BinaryWeight, RangeMb(t, n, chars, 0), k) <= WeightAt(BinaryWeight, Flatten(c), k)
    ensures WeightAt(BinaryWeight, Flatten(c), k) <= WeightAt(BinaryWeight, RangeMb(t, n, chars, MAX_BYTE), k)
    decreases |t|
  {
    if c == [] {
    } else if t != [] && t[0].Literal? {
      var x := t[0].bytes;
      assert x == c[0];
      if k >= |x| {
        RangeMbAt(cs, t[1..], c[1..], n - |x|, chars - 1, k - |x|);
      }
    }
  }

  /**
   Every string of at most `n` bytes and `n / mbmaxlen` characters that matches the pattern under a
   binary collation lies between the two buffers.
   */
  lemma RangeMbCovers(cs: Charset, m: Wild, p: seq<byte>, s: seq<byte>, n: nat, mbmaxlen: nat)
    requires cs.Valid() && cs.weight == BinaryWeight && mbmaxlen > 0
    requires |s| <= n && |cs.Chars(s, 0)| <= n / mbmaxlen
    requires Matches(cs, Tokens(cs, m, p, 0), cs.Chars(s, 0))
    ensures var t := Tokens(cs, m, p, 0);
            Between(BinaryWeight, RangeMb(t, n, n / mbmaxlen, 0), s, RangeMb(t, n, n / mbmaxlen, MAX_BYTE))
  {
    var t := Tokens(cs, m, p, 0);
    CharsFlatten(cs, s, 0);
    assert s[0..] == s;
    forall k: nat
      ensures WeightAt(BinaryWeight, RangeMb(t, n, n / mbmaxlen, 0), k) <= WeightAt(BinaryWeight, s, k)
      ensures WeightAt(BinaryWeight, s, k) <= WeightAt(BinaryWeight, RangeMb(t, n, n / mbmaxlen, MAX_BYTE), k)
    {
      RangeMbAt(cs, t, cs.Chars(s, 0), n, n / mbmaxlen, k);
    }
    PointwiseBetween(BinaryWeight, RangeMb(t, n, n / mbmaxlen, 0), s, RangeMb(t, n, n / mbmaxlen, MAX_BYTE));
  }

  /**
   With the pattern read up to `p`, `q` bytes filled and `chars` characters allowed, what the buffers will
   hold, and how far and to what end the fixed part will go.
   */
  ghost predicate Remains(cs: Charset, m: Wild, ptr: seq<byte>, p: nat, q: nat, chars: nat,
                          low: seq<byte>, high: seq<byte>, fixed: nat, open: bool)
  {
    && cs.Valid() && p <= |ptr| && q <= |low| == |high|
    && low[q..] == RangeMb(Tokens(cs, m, ptr, p), |low| - q, chars, 0)
    && high[q..] == RangeMb(Tokens(cs, m, ptr, p), |low| - q, chars, MAX_BYTE)
    && fixed == q + FixedMb(Tokens(cs, m, ptr, p), |low| - q, chars)
    && (open <==> OpenMb(Tokens(cs, m, ptr, p), |low| - q, chars))
  }

  /** A wildcard leaves the rest of the buffers open. */
  lemma WildRemains(cs: Charset, m: Wild, ptr: seq<byte>, p: nat, q: nat, chars: nat, low: seq<byte>, high: seq<byte>,
                                        fixed: nat, open: bool)
    requires Remains(cs, m, ptr, p, q, chars, low, high, fixed, open)
    requires p < |ptr| && q < |low| && chars > 0 && m.IsWild(ptr[p])
    ensures q == fixed && open && low[q..] == Repeat(0, |low| - q) && high[q..] == Repeat(MAX_BYTE, |low| - q)
  {
  }

  /** So does the end of the pattern or of the room, with spaces. */
  lemma EndRemains(cs: Charset, m: Wild, ptr: seq<byte>, p: nat, q: nat, chars: nat, low: seq<byte>, high: seq<byte>,
                                       fixed: nat, open: bool)
    requires Remains(cs, m, ptr, p, q, chars, low, high, fixed, open) && (p == |ptr| || q == |low| || chars == 0)
    ensures q == fixed && !open && low[q..] == high[q..] == Repeat(SPACE, |low| - q)
  {
  }

  /** A literal, at `k` behind an escape, goes into both buffers or, where it does not fit, ends them. */
  lemma LiteralRemains(cs: Charset, m: Wild, ptr: seq<byte>, p: nat, k: nat, q: nat, chars: nat,
                       low: seq<byte>, high: seq<byte>, fixed: nat, open: bool, next: nat, end: nat, left: nat)
    requires Remains(cs, m, ptr, p, q, chars, low, high, fixed, open)
    requires p < |ptr| && q < |low| && chars > 0 && !m.IsWild(ptr[p])
    requires k == p + EscapeLen(m, ptr, p) && k < |ptr| && left == chars - 1
    requires next == k + cs.CharLen(ptr, k) && end == q + cs.CharLen(ptr, k)
    ensures next <= |ptr|
    ensures if end > |low| then q == fixed && !open && low[q..] == high[q..] == Repeat(SPACE, |low| - q)
            else (forall x :: q <= x < end ==> low[x] == high[x] == ptr[k + x - q])
                 && Remains(cs, m, ptr, next, end, left, low, high, fixed, open)
  {
    cs.CharLenFits(ptr, k);
    var l := cs.CharLen(ptr, k);
    var t := Tokens(cs, m, ptr, p);
    assert t == [Literal(ptr[k..k + l])] + Tokens(cs, m, ptr, k + l) && t[1..] == Tokens(cs, m, ptr, k + l);
    if q + l <= |low| {
      forall x | q <= x < q + l ensures low[x] == high[x] == ptr[k + x - q] {
        assert low[x] == low[q..][x - q] && high[x] == high[q..][x - q] && ptr[k + x - q] == ptr[k..k + l][x - q];
      }
      assert low[q + l..] == low[q..][l..] && high[q + l..] == high[q..][l..];
    }
  }

  /** The loop of `my_like_range_mb`: how many bytes it fills, and whether a wildcard ended it. */
  method FillFixed(cs: Charset, ptr: seq<byte>, m: Wild, maxcharlen: nat, minStr: array<byte>, maxStr: array<byte>,
                   ghost low: seq<byte>, ghost high: seq<byte>, ghost fixed: nat, ghost ends: bool)
    returns (q: nat, open: bool)
    requires minStr.Length == maxStr.Length == |low| && minStr != maxStr
    requires m.escape != m.one && m.escape != m.many
    requires Remains(cs, m, ptr, 0, 0, maxcharlen, low, high, fixed, ends)
    modifies minStr, maxStr
    ensures q == fixed <= |low| && open == ends && minStr[..q] == low[..q] && maxStr[..q] == high[..q]
    ensures low[q..] == Repeat(if open then 0 else SPACE, |low| - q)
    ensures high[q..] == Repeat(if open then MAX_BYTE else SPACE, |low| - q)
  {
    var p: nat, chars: nat := 0, maxcharlen;
    q, open := 0, false;
    while p != |ptr| && q != minStr.Length && chars > 0
      invariant Remains(cs, m, ptr, p, q, chars, low, high, fixed, ends)
      invariant forall x :: 0 <= x < q ==> minStr[x] == low[x] && maxStr[x] == high[x]
      decreases |ptr| - p
    {
      if ptr[p] == m.one || ptr[p] == m.many {
        WildRemains(cs, m, ptr, p, q, chars, low, high, fixed, ends);
        return q, true;
      }
      var fits, next, end, left := PutLiteral(cs, ptr, m, p, q, chars, minStr, maxStr, low, high, fixed, ends);
      if !fits {
        return q, false;
      }
      p, q, chars := next, end, left;
    }
    EndRemains(cs, m, ptr, p, q, chars, low, high, fixed, ends);
  }

  /** Copy the character of the literal at `p` to both buffers, if it fits. */
  method PutLiteral(cs: Charset, ptr: seq<byte>, m: Wild, p: nat, q: nat, chars: nat,
                    minStr: array<byte>, maxStr: array<byte>, ghost low: seq<byte>, ghost high: seq<byte>,
                    ghost fixed: nat, ghost ends: bool)
    returns (fits: bool, next: nat, end: nat, left: nat)
    requires minStr.Length == maxStr.Length == |low| && minStr != maxStr
    requires Remains(cs, m, ptr, p, q, chars, low, high, fixed, ends)
    requires p < |ptr| && q < |low| && chars > 0 && !m.IsWild(ptr[p])
    modifies minStr, maxStr
    ensures fits ==> p < next && q < end && left == chars - 1
    ensures fits ==> Remains(cs, m, ptr, next, end, left, low, high, fixed, ends)
    ensures fits ==> forall x :: q <= x < end ==> minStr[x] == low[x] && maxStr[x] == high[x]
    ensures !fits ==> q == fixed && !ends && low[q..] == high[q..] == Repeat(SPACE, |low| - q)
    ensures forall x :: 0 <= x < q ==> minStr[x] == old(minStr[x]) && maxStr[x] == old(maxStr[x])
  {
    var k := if ptr[p] == m.escape && p + 1 != |ptr| then p + 1 else p;
    var l := cs.CharLen(ptr, k);
    fits, next, end, left := q + l <= minStr.Length, k + l, q + l, chars - 1;
    LiteralRemains(cs, m, ptr, p, k, q, chars, low, high, fixed, ends, next, end, left);
    if fits {
      CopyBoth(ptr, k, l, minStr, maxStr, q);
    }
  }

  /** Copy the `l` bytes of a character to both buffers. */
  method CopyBoth(ptr: seq<byte>, p: nat, l: nat, minStr: array<byte>, maxStr: array<byte>, q: nat)
    requires p + l <= |ptr| && q + l <= minStr.Length == maxStr.Length && minStr != maxStr
    modifies minStr, maxStr
    ensures forall x :: 0 <= x < q ==> minStr[x] == old(minStr[x]) && maxStr[x] == old(maxStr[x])
    ensures forall x :: q <= x < q + l ==> minStr[x] == maxStr[x] == ptr[p + x - q]
  {
    for k := 0 to l
      invariant forall x :: 0 <= x < q ==> minStr[x] == old(minStr[x]) && maxStr[x] == old(maxStr[x])
      invariant forall x :: q <= x < q + k ==> minStr[x] == maxStr[x] == ptr[p + x - q]
    {
      minStr[q + k], maxStr[q + k] := ptr[p + k], ptr[p + k];
    }
  }

  /** `my_like_range_mb`; `min_sort_char` is 0. */
  method LikeRangeMb(cs: Charset, ptr: seq<byte>, m: Wild, resLength: nat, mbmaxlen: nat, binsort: bool,
                     minStr: array<byte>, maxStr: array<byte>)
    returns (minLength: nat, maxLength: nat)
    requires cs.Valid() && m.Valid(cs) && mbmaxlen > 0
    requires minStr.Length == maxStr.Length == resLength && minStr != maxStr
    modifies minStr, maxStr
    ensures minStr[..] == RangeMb(Tokens(cs, m, ptr, 0), resLength, resLength / mbmaxlen, 0)
    ensures maxStr[..] == RangeMb(Tokens(cs, m, ptr, 0), resLength, resLength / mbmaxlen, MAX_BYTE)
    ensures var t, chars := Tokens(cs, m, ptr, 0), resLength / mbmaxlen;
            && minLength == (if OpenMb(t, resLength, chars) && !binsort then resLength
                             else FixedMb(t, resLength, chars))
            && maxLength == (if OpenMb(t, resLength, chars) then resLength else FixedMb(t, resLength, chars))
  {
    ghost var t0 := Tokens(cs, m, ptr, 0);
    ghost var low := RangeMb(t0, resLength, resLength / mbmaxlen, 0);
    ghost var high := RangeMb(t0, resLength, resLength / mbmaxlen, MAX_BYTE);
    ghost var fixed, ends := FixedMb(t0, resLength, resLength / mbmaxlen), OpenMb(t0, resLength, resLength / mbmaxlen);
    var q, open := FillFixed(cs, ptr, m, resLength / mbmaxlen, minStr, maxStr, low, high, fixed, ends);
    if open {
      minLength := if binsort then q else resLength;
      maxLength := resLength;
      Fill(minStr, maxStr, q, 0, MAX_BYTE);
    } else {
      minLength, maxLength := q, q;
      Fill(minStr, maxStr, q, SPACE, SPACE);
    }
    assert low == low[..q] + low[q..] && high == high[..q] + high[q..];
  }
}
