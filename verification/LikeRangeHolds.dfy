/** The matchers, the range functions and the comparisons together. */
module LikeRangeHolds {
  import opened Bytes
  import opened Charsets
  import opened LikeSpec
  import opened LikeMatch
  import opened Collation
  import opened LikeRange
  import opened LikeRangeMb

  /**
   Match `s` against the pattern and compare it with the ends of the range: a string of at most
   `resLength` bytes that `my_wildcmp_8bit` accepts is in the range of `my_like_range_simple` under
   `my_strnncollsp_simple`.
   */
  method MatchInRange8bit(w: byte -> byte, s: seq<byte>, ptr: seq<byte>, m: Wild, resLength: nat, previous: byte,
                          binsort: bool, after: byte)
    returns (match0: int, low: int, high: int)
    requires m.Valid(EightBit(w))
    requires |s| <= resLength && forall b: byte :: w(0) <= w(b)
    ensures match0 == 0 ==> low <= 0 <= high
  {
    match0 := Wildcmp8bit(w, s, 0, ptr, 0, m, after);
    var maxSortChar := SetMaxSortChar(w, previous);
    var minStr, maxStr := new byte[resLength], new byte[resLength];
    var minLength, maxLength := LikeRangeSimple(w, ptr, m, resLength, maxSortChar, binsort, minStr, maxStr);
    low := StrnncollspSimple(w, minStr[..], s);
    high := StrnncollspSimple(w, maxStr[..], s);
    if match0 == 0 {
      RangeSimpleCovers(w, m, ptr, s, resLength, maxSortChar);
    }
  }

  /** The same for `my_wildcmp_mb_bin`, `my_like_range_mb` and `my_strnncollsp_mb_bin`. */
  method MatchInRangeMb(cs: Charset, s: seq<byte>, ptr: seq<byte>, m: Wild, resLength: nat, mbmaxlen: nat,
                        binsort: bool, after: byte, signedChar: bool)
    returns (match0: int, low: int, high: int)
    requires cs.Valid() && cs.weight == BinaryWeight && m.Valid(cs) && mbmaxlen > 0
    requires cs.WellFormed(s, 0) && cs.WellFormed(ptr, 0)
    requires |s| <= resLength && |cs.Chars(s, 0)| <= resLength / mbmaxlen
    ensures match0 == 0 ==> low <= 0 <= high
  {
    match0 := WildcmpMb(cs, s, 0, ptr, 0, m, after, signedChar);
    var minStr, maxStr := new byte[resLength], new byte[resLength];
    var minLength, maxLength := LikeRangeMb.LikeRangeMb(cs, ptr, m, resLength, mbmaxlen, binsort, minStr, maxStr);
    low := StrnncollspSimple(BinaryWeight, minStr[..], s);
    high := StrnncollspSimple(BinaryWeight, maxStr[..], s);
    if match0 == 0 {
      RangeMbCovers(cs, m, ptr, s, resLength, mbmaxlen);
    }
  }
}
