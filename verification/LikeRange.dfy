/** The range functions: two buffers between which every string matching a LIKE pattern lies. */
module LikeRange {
  import opened Bytes
  import opened Charsets
  import opened LikeSpec
  import opened Collation

  function Repeat(b: byte, n: nat): seq<byte> {
    seq(n, k => b)
  }

  /** `s` is at or above `low` and at or below `high`, with space padding. */
  ghost predicate Between(w: byte -> byte, low: seq<byte>, s: seq<byte>, high: seq<byte>) {
    !Less(w, s, low) && !Less(w, high, s)
  }

  /** Weights that are in order everywhere put the strings in order. */
  lemma PointwiseBetween(w: byte -> byte, low: seq<byte>, s: seq<byte>, high: seq<byte>)
    requires forall k: nat :: WeightAt(w, low, k) <= WeightAt(w, s, k) <= WeightAt(w, high, k)
    ensures Between(w, low, s, high)
  {
  }

  /** Fill the rest of both buffers. */
  method Fill(minStr: array<byte>, maxStr: array<byte>, q: nat, low: byte, high: byte)
    requires q <= minStr.Length == maxStr.Length && minStr != maxStr
    modifies minStr, maxStr
    ensures minStr[..] == old(minStr[..q]) + Repeat(low, minStr.Length - q)
    ensures maxStr[..] == old(maxStr[..q]) + Repeat(high, minStr.Length - q)
  {
    for k := q to minStr.Length
      invariant minStr[..k] == old(minStr[..q]) + Repeat(low, k - q)
      invariant maxStr[..k] == old(maxStr[..q]) + Repeat(high, k - q)
    {
      minStr[k], maxStr[k] := low, high;
    }
  }

  // ----- single-byte character sets

  /** The largest sort weight belongs to `c`. */
  ghost predicate IsMaxSortChar(w: byte -> byte, c: byte) {
    forall b: byte :: w(b) <= w(c)
  }

  /** `set_max_sort_char`, from any previous value of `max_sort_char`. */
  method SetMaxSortChar(w: byte -> byte, previous: byte) returns (c: byte)
    ensures IsMaxSortChar(w, c)
    ensures w(c) == w(previous) ==> c == previous
  {
    c := previous;
    for i := 0 to 256
      invariant forall b: byte :: b < i ==> w(b) <= w(c)
      invariant w(previous) <= w(c) && (w(c) == w(previous) ==> c == previous)
    {
      if w(i) > w(c) {
        c := i;
      }
    }
  }

  /** The range buffer of `n` bytes for the tokens `t`, with `fill` for what the pattern leaves open. */
  ghost function RangeSimple(t: seq<Token>, n: nat, fill: byte): (r: seq<byte>)
    ensures |r| == n
  {
    if n == 0 then []
    else if t == [] then Repeat(SPACE, n)
    else match t[0]
      case Many => Repeat(fill, n)
      case One => [fill] + RangeSimple(t[1..], n - 1, fill)
      case Literal(x) => [if x == [] then fill else x[0]] + RangeSimple(t[1..], n - 1, fill)
  }

  /** The number of leading tokens other than `%`, up to `n`: the length of the fixed part of the buffers. */
  ghost function FixedLength(t: seq<Token>, n: nat): (r: nat)
    ensures r <= n && r <= |t|
  {
    if n == 0 || t == [] || t[0] == Many then 0 else 1 + FixedLength(t[1..], n - 1)
  }

  /** A `%` ends the fixed part. */
  ghost predicate OpenEnded(t: seq<Token>, n: nat) {
    FixedLength(t, n) < n && FixedLength(t, n) < |t|
  }

  /** The byte that the code copies for the token at `j`, if that is not `%`. */
  function RangeByte(m: Wild, p: seq<byte>, j: nat, fill: byte): byte
    requires j < |p|
  {
    if p[j] == m.one then fill else p[j + EscapeLen(m, p, j)]
  }

  /** The position behind the token at `j` when characters are bytes. */
  function RangeNext(m: Wild, p: seq<byte>, j: nat): (e: nat)
    requires j < |p|
    ensures j < e <= |p|
  {
    if m.IsWild(p[j]) then j + 1 else j + EscapeLen(m, p, j) + 1
  }

  /** What the token at `j` contributes to the buffers and to their fixed length. */
  lemma RangeStep(w: byte -> byte, m: Wild, p: seq<byte>, j: nat, n: nat, fill: byte)
    requires j < |p| && n > 0
    ensures var t, t' := Tokens(EightBit(w), m, p, j), Tokens(EightBit(w), m, p, RangeNext(m, p, j));
            && t[1..] == t'
            && |t| == 1 + |t'|
            && (t[0] == Many <==> p[j] == m.many)
            && (t[0].Literal? ==> t[0].bytes == [RangeByte(m, p, j, fill)])
            && (if p[j] == m.many then RangeSimple(t, n, fill) == Repeat(fill, n) && FixedLength(t, n) == 0
                else RangeSimple(t, n, fill) == [RangeByte(m, p, j, fill)] + RangeSimple(t', n - 1, fill)
                     && FixedLength(t, n) == 1 + FixedLength(t', n - 1))
  {
    var cs := EightBit(w);
    assert TokenEnd(cs, m, p, j) == RangeNext(m, p, j);
    var t := Tokens(cs, m, p, j);
    assert t == [TokenAt(cs, m, p, j)] + Tokens(cs, m, p, RangeNext(m, p, j));
  }

  /** The literals of the pattern are single bytes. */
  ghost predicate ByteTokens(t: seq<Token>) {
    forall k :: 0 <= k < |t| && t[k].Literal? ==> |t[k].bytes| == 1
  }

  /** The characters `c` are the bytes of `s`. */
  ghost predicate ByteChars(c: seq<seq<byte>>, s: seq<byte>) {
    |c| == |s| && forall k :: 0 <= k < |s| ==> c[k] == [s[k]]
  }

  lemma {:induction false} EightBitTokens(w: byte -> byte, m: Wild, p: seq<byte>, j: nat)
    requires j <= |p|
    ensures ByteTokens(Tokens(EightBit(w), m, p, j))
    decreases |p| - j
  {
    if j < |p| {
      RangeStep(w, m, p, j, 1, 0);
      EightBitTokens(w, m, p, RangeNext(m, p, j));
      var t := Tokens(EightBit(w), m, p, j);
      assert t == [t[0]] + t[1..];
    }
  }

  lemma {:induction false} EightBitChars(w: byte -> byte, s: seq<byte>, i: nat)
    requires i <= |s|
    ensures ByteChars(EightBit(w).Chars(s, i), s[i..])
    decreases |s| - i
  {
    if i < |s| {
      EightBitChars(w, s, i + 1);
      assert s[i..i + 1] == [s[i]];
      assert EightBit(w).Chars(s, i) == [[s[i]]] + EightBit(w).Chars(s, i + 1);
      assert s[i..] == [s[i]] + s[i + 1..];
    }
  }

  /** Position by position, a matching string weighs no less than the low and no more than the high buffer. */
  lemma {:induction false} RangeSimpleAt(w: byte -> byte, t: seq<Token>, c: seq<seq<byte>>, s: seq<byte>, n: nat,
                                         least: byte, most: byte, k: nat)
    requires ByteTokens(t) && ByteChars(c, s) && |s| <= n
    requires forall b: byte :: w(least) <= w(b) <= w(most)
    requires Matches(EightBit(w), t, c)
    ensures WeightAt(w, RangeSimple(t, n, least), k) <= WeightAt(w, s, k) <= WeightAt(w, RangeSimple(t, n, most), k)
    decreases n
  {
    if n > 0 && t != [] && t[0] != Many && k > 0 {
      RangeSimpleAt(w, t[1..], c[1..], s[1..], n - 1, least, most, k - 1);
    }
  }

  /** Every string of at most `n` bytes that matches the pattern lies between the two buffers. */
  lemma RangeSimpleCovers(w: byte -> byte, m: Wild, p: seq<byte>, s: seq<byte>, n: nat, maxSortChar: byte)
    requires |s| <= n
    requires forall b: byte :: w(0) <= w(b)
    requires IsMaxSortChar(w, maxSortChar)
    requires Matches(EightBit(w), Tokens(EightBit(w), m, p, 0), EightBit(w).Chars(s, 0))
    ensures var t := Tokens(EightBit(w), m, p, 0);
            Between(w, RangeSimple(t, n, 0), s, RangeSimple(t, n, maxSortChar))
  {
    var t := Tokens(EightBit(w), m, p, 0);
    EightBitTokens(w, m, p, 0);
    EightBitChars(w, s, 0);
    assert s[0..] == s;
    forall k: nat
      ensures WeightAt(w, RangeSimple(t, n, 0), k) <= WeightAt(w, s, k)
      ensures WeightAt(w, s, k) <= WeightAt(w, RangeSimple(t, n, maxSortChar), k)
    {
      RangeSimpleAt(w, t, EightBit(w).Chars(s, 0), s, n, 0, maxSortChar, k);
    }
    PointwiseBetween(w, RangeSimple(t, n, 0), s, RangeSimple(t, n, maxSortChar));
  }

  /** The range of a pattern holds the string `s`. */
  ghost predicate InRange(w: byte -> byte, m: Wild, p: seq<byte>, s: seq<byte>, n: nat, maxSortChar: byte)
  {
    var t := Tokens(EightBit(w), m, p, 0);
    Between(w, RangeSimple(t, n, 0), s, RangeSimple(t, n, maxSortChar))
  }

  /** The ranges hold all strings of at most `n` bytes that match. */
  ghost predicate RangesCover(w: byte -> byte, m: Wild, n: nat, maxSortChar: byte)
  {
    forall p: seq<byte>, s: seq<byte> ::
      |s| <= n && Matches(EightBit(w), Tokens(EightBit(w), m, p, 0), EightBit(w).Chars(s, 0)) ==>
        InRange(w, m, p, s, n, maxSortChar)
  }

  /** The pattern `_` matches every string of one byte. */
  lemma OneMatches(w: byte -> byte, m: Wild, b: byte)
    requires m.one != m.many
    ensures Tokens(EightBit(w), m, [m.one], 0) == [One]
    ensures Matches(EightBit(w), Tokens(EightBit(w), m, [m.one], 0), EightBit(w).Chars([b], 0))
  {
    var cs := EightBit(w);
    EightBitChars(w, [b], 0);
    assert [b][0..] == [b];
    assert cs.Chars([b], 0) == [[b]] && [[b]][1..] == [];
    assert Tokens(cs, m, [m.one], 0) == [One] + Tokens(cs, m, [m.one], 1);
    assert [One][1..] == [];
    assert Matches(cs, [], []);
  }

  lemma OneByteRange(w: byte -> byte, m: Wild, n: nat, maxSortChar: byte, b: byte)
    requires m.one != m.many && n > 0 && RangesCover(w, m, n, maxSortChar)
    ensures w(0) <= w(b) <= w(maxSortChar)
  {
    var p, s := [m.one], [b];
    OneMatches(w, m, b);
    assert InRange(w, m, p, s, n, maxSortChar);
    FirstBytes(w, RangeSimple([One], n, 0), s, RangeSimple([One], n, maxSortChar));
  }

  lemma FirstBytes(w: byte -> byte, low: seq<byte>, s: seq<byte>, high: seq<byte>)
    requires low != [] && s != [] && high != [] && Between(w, low, s, high)
    ensures w(low[0]) <= w(s[0]) <= w(high[0])
  {
    assert !LessAt(w, s, low, 0) && !LessAt(w, high, s, 0);
  }

  /** They do exactly when byte 0 weighs least and the fill character most. */
  lemma RangesCoverIff(w: byte -> byte, m: Wild, n: nat, maxSortChar: byte)
    requires m.one != m.many && n > 0
    ensures RangesCover(w, m, n, maxSortChar) <==> forall b: byte :: w(0) <= w(b) <= w(maxSortChar)
  {
    if RangesCover(w, m, n, maxSortChar) {
      forall b: byte ensures w(0) <= w(b) <= w(maxSortChar) {
        OneByteRange(w, m, n, maxSortChar, b);
      }
    }
    if forall b: byte :: w(0) <= w(b) <= w(maxSortChar) {
      forall p: seq<byte>, s: seq<byte> |
        |s| <= n && Matches(EightBit(w), Tokens(EightBit(w), m, p, 0), EightBit(w).Chars(s, 0))
        ensures InRange(w, m, p, s, n, maxSortChar)
      {
        RangeSimpleCovers(w, m, p, s, n, maxSortChar);
      }
    }
  }

  /** With the pattern read up to `p` and `q` bytes filled, what the rest of the buffers will hold. */
  ghost predicate Remains(w: byte -> byte, m: Wild, ptr: seq<byte>, p: nat, q: nat, maxSortChar: byte,
                          low: seq<byte>, high: seq<byte>, count: nat, fixed: nat)
  {
    p <= |ptr| && q <= |low| == |high| &&
    var t := Tokens(EightBit(w), m, ptr, p);
    && low[q..] == RangeSimple(t, |low| - q, 0)
    && high[q..] == RangeSimple(t, |low| - q, maxSortChar)
    && count == q + |t| && fixed == q + FixedLength(t, |low| - q)
  }

  lemma RemainsStep(w: byte -> byte, m: Wild, ptr: seq<byte>, p: nat, q: nat, maxSortChar: byte,
                    low: seq<byte>, high: seq<byte>, count: nat, fixed: nat)
    requires Remains(w, m, ptr, p, q, maxSortChar, low, high, count, fixed) && p < |ptr| && q < |low|
    ensures if ptr[p] == m.many
            then low[q..] == Repeat(0, |low| - q) && high[q..] == Repeat(maxSortChar, |low| - q) && fixed == q < count
            else low[q] == RangeByte(m, ptr, p, 0) && high[q] == RangeByte(m, ptr, p, maxSortChar)
                 && Remains(w, m, ptr, RangeNext(m, ptr, p), q + 1, maxSortChar, low, high, count, fixed)
  {
    RangeStep(w, m, ptr, p, |low| - q, 0);
    RangeStep(w, m, ptr, p, |low| - q, maxSortChar);
    assert low[q + 1..] == low[q..][1..] && high[q + 1..] == high[q..][1..];
  }

  /** `my_like_range_simple` for a character set with `mbmaxlen` 1. */
  method LikeRangeSimple(w: byte -> byte, ptr: seq<byte>, m: Wild, resLength: nat, maxSortChar: byte, binsort: bool,
                         minStr: array<byte>, maxStr: array<byte>)
    returns (minLength: nat, maxLength: nat)
    requires m.Valid(EightBit(w))
    requires minStr.Length == maxStr.Length == resLength && minStr != maxStr
    modifies minStr, maxStr
    ensures var t := Tokens(EightBit(w), m, ptr, 0);
            && minStr[..] == RangeSimple(t, resLength, 0)
            && maxStr[..] == RangeSimple(t, resLength, maxSortChar)
            && minLength == (if OpenEnded(t, resLength) && !binsort then resLength else FixedLength(t, resLength))
            && maxLength == (if OpenEnded(t, resLength) then resLength else FixedLength(t, resLength))
  {
    ghost var t0 := Tokens(EightBit(w), m, ptr, 0);
    ghost var low, high := RangeSimple(t0, resLength, 0), RangeSimple(t0, resLength, maxSortChar);
    ghost var fixed := FixedLength(t0, resLength);
    var p, q, open := FillFixed(w, ptr, m, resLength, maxSortChar, minStr, maxStr, low, high, |t0|, fixed);
    if open {
      minLength := if binsort then q else resLength;
      maxLength := resLength;
      Fill(minStr, maxStr, q, 0, maxSortChar);
    } else {
      minLength, maxLength := q, q;
      Fill(minStr, maxStr, q, SPACE, SPACE);
    }
    assert low == low[..q] + low[q..] && high == high[..q] + high[q..];
  }

  /** The loop of `my_like_range_simple`: how far it gets, and whether a `%` ended it. */
  method FillFixed(w: byte -> byte, ptr: seq<byte>, m: Wild, resLength: nat, maxSortChar: byte,
                   minStr: array<byte>, maxStr: array<byte>,
                   ghost low: seq<byte>, ghost high: seq<byte>, ghost count: nat, ghost fixed: nat)
    returns (p: nat, q: nat, open: bool)
    requires minStr.Length == maxStr.Length == resLength == |low| && minStr != maxStr
    requires m.escape != m.one && m.escape != m.many && m.one != m.many
    requires Remains(w, m, ptr, 0, 0, maxSortChar, low, high, count, fixed)
    modifies minStr, maxStr
    ensures q <= resLength && minStr[..q] == low[..q] && maxStr[..q] == high[..q] && q == fixed
    ensures open <==> q < resLength && q < count
    ensures low[q..] == Repeat(if open then 0 else SPACE, resLength - q)
    ensures high[q..] == Repeat(if open then maxSortChar else SPACE, resLength - q)
  {
    var charlen := resLength;
    p, q, open := 0, 0, false;
    while p != |ptr| && q != resLength && charlen > 0
      invariant q <= resLength && charlen == resLength - q
      invariant Remains(w, m, ptr, p, q, maxSortChar, low, high, count, fixed)
      invariant forall k :: 0 <= k < q ==> minStr[k] == low[k] && maxStr[k] == high[k]
      decreases |ptr| - p
    {
      var next, end;
      open, next, end := PutToken(w, ptr, m, p, q, maxSortChar, minStr, maxStr, low, high, count, fixed);
      if open {
        return;
      }
      p, q, charlen := next, end, charlen - 1;
    }
    NothingRemains(w, m, ptr, p, q, maxSortChar, low, high, count, fixed);
  }

  /** At the end of the pattern or of the buffers. */
  lemma NothingRemains(w: byte -> byte, m: Wild, ptr: seq<byte>, p: nat, q: nat, maxSortChar: byte,
                       low: seq<byte>, high: seq<byte>, count: nat, fixed: nat)
    requires Remains(w, m, ptr, p, q, maxSortChar, low, high, count, fixed) && (p == |ptr| || q == |low|)
    ensures q == fixed && (q < |low| ==> count == q)
    ensures low[q..] == high[q..] == Repeat(SPACE, |low| - q)
  {
  }

  /** One turn of the loop: a byte for both buffers, or the finding that a `%` ends the fixed part. */
  method PutToken(w: byte -> byte, ptr: seq<byte>, m: Wild, p: nat, q: nat, maxSortChar: byte,
                  minStr: array<byte>, maxStr: array<byte>,
                  ghost low: seq<byte>, ghost high: seq<byte>, ghost count: nat, ghost fixed: nat)
    returns (open: bool, next: nat, end: nat)
    requires minStr.Length == maxStr.Length == |low| && minStr != maxStr
    requires m.escape != m.one && m.escape != m.many && m.one != m.many && p < |ptr| && q < |low|
    requires Remains(w, m, ptr, p, q, maxSortChar, low, high, count, fixed)
    modifies minStr, maxStr
    ensures open ==> p == next && q == end && fixed == q < count
    ensures open ==> low[q..] == Repeat(0, |low| - q) && high[q..] == Repeat(maxSortChar, |low| - q)
    ensures !open ==> p < next && end == q + 1 && minStr[q] == low[q] && maxStr[q] == high[q]
    ensures !open ==> Remains(w, m, ptr, next, end, maxSortChar, low, high, count, fixed)
    ensures forall k :: 0 <= k < q ==> minStr[k] == old(minStr[k]) && maxStr[k] == old(maxStr[k])
  {
    RemainsStep(w, m, ptr, p, q, maxSortChar, low, high, count, fixed);
    if ptr[p] == m.many {
      return true, p, q;
    }
    next := p;
    if ptr[p] == m.one {
      minStr[q], maxStr[q] := 0, maxSortChar;
    } else {
      if ptr[p] == m.escape && p + 1 != |ptr| {
        next := p + 1;
      }
      minStr[q], maxStr[q] := ptr[next], ptr[next];
    }
    next := next + 1;
    assert next == RangeNext(m, ptr, p);
    open, end := false, q + 1;
  }
}
