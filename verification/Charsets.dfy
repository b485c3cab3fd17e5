/**
 Character sets, as the string functions see them: the length of the multi-byte
 character at a position, the bytes that may open one, and the sort weight of a byte.
 */
module Charsets {
  import opened Bytes

  /**
   `mblen(s, i)` is `my_ismbchar` at position `i` of `s`: the length of the multi-byte
   character there, or 0. `lead(b)` is `my_mbcharlen(b) > 1`, `single(b)` says that `b` on its own
   is a well-formed character, and `weight` is `sort_order` (the identity for binary collations).
   */
  datatype Charset = Charset(mblen: (seq<byte>, nat) -> nat, lead: byte -> bool, single: byte -> bool,
                             weight: byte -> byte)
  {
    ghost predicate Valid() {
      && (forall s, i :: MbFits(s, i))
      && (forall s, i, u, j :: SameHead(s, i, u, j))
      && (forall b: byte, h: byte :: Apart(b, h))
    }

    /** A multi-byte character lies inside the string, is longer than a byte and opens with a lead byte. */
    ghost predicate MbFits(s: seq<byte>, i: nat) {
      i < |s| && mblen(s, i) > 0 ==> 1 < mblen(s, i) <= |s| - i && lead(s[i])
    }

    /** The bytes of a multi-byte character are one wherever they stand. */
    ghost predicate SameHead(s: seq<byte>, i: nat, u: seq<byte>, j: nat) {
      (i < |s| && 0 < mblen(s, i) <= |s| - i && j + mblen(s, i) <= |u| &&
       u[j..j + mblen(s, i)] == s[i..i + mblen(s, i)]) ==> mblen(u, j) == mblen(s, i)
    }

    /** A single-byte character is no lead byte, and has another weight than any lead byte. */
    ghost predicate Apart(b: byte, h: byte) {
      single(b) ==> !lead(b) && (lead(h) ==> weight(b) != weight(h))
    }

    /** The length of the character at `i`: `INC_PTR`. */
    function CharLen(s: seq<byte>, i: nat): (l: nat)
      ensures l >= 1
    {
      if mblen(s, i) > 0 then mblen(s, i) else 1
    }

    lemma CharLenFits(s: seq<byte>, i: nat)
      requires Valid() && i < |s|
      ensures CharLen(s, i) <= |s| - i
      ensures CharLen(s, i) > 1 <==> mblen(s, i) > 0
    {
      assert MbFits(s, i);
    }

    /** The characters of `s` from position `i` on. */
    ghost function Chars(s: seq<byte>, i: nat): (r: seq<seq<byte>>)
      requires Valid() && i <= |s|
      decreases |s| - i
    {
      if i == |s| then []
      else
        CharLenFits(s, i);
        [s[i..i + CharLen(s, i)]] + Chars(s, i + CharLen(s, i))
    }

    /** From `i` on, `s` is a run of multi-byte characters and single-byte ones. */
    ghost predicate WellFormed(s: seq<byte>, i: nat)
      requires Valid() && i <= |s|
      decreases |s| - i
    {
      i == |s| ||
      (CharLenFits(s, i);
       (CharLen(s, i) > 1 || single(s[i])) && WellFormed(s, i + CharLen(s, i)))
    }

    /** Two characters that LIKE takes for the same: equal, or single bytes of the same weight. */
    predicate Same(c: seq<byte>, d: seq<byte>) {
      if |c| == 1 && |d| == 1 then weight(c[0]) == weight(d[0]) else c == d
    }

    lemma SingleLength(s: seq<byte>, i: nat)
      requires Valid() && i < |s| && single(s[i])
      ensures CharLen(s, i) == 1
    {
      assert MbFits(s, i) && Apart(s[i], s[i]);
    }
  }

  /** A single-byte character set with the given sort weights. */
  function EightBit(weight: byte -> byte): (cs: Charset)
    ensures cs.Valid()
  {
    Charset((s, i) => 0, b => false, b => true, weight)
  }

  predicate IsBig5Head(b: byte) { 0xa1 <= b <= 0xf9 }

  predicate IsBig5Tail(b: byte) { 0x40 <= b <= 0x7e || 0xa1 <= b <= 0xfe }

  function Big5CharLen(s: seq<byte>, i: nat): nat {
    if i + 1 < |s| && IsBig5Head(s[i]) && IsBig5Tail(s[i + 1]) then 2 else 0
  }

  /** `sort_order_big5`. */
  function Big5SortOrder(b: byte): byte {
    if 0x61 <= b <= 0x7a then b - 0x20
    else if b == 0x5b then 0x5c
    else if b == 0x5c then 0x5d
    else if b == 0x5d then 0x5b
    else if b == 0x60 then 0x45
    else if b == 0x7e then 0x59
    else b
  }

  /** big5 with the weights of `big5_chinese_ci` or, for `big5_bin`, with the bytes themselves. */
  function Big5(weight: byte -> byte): Charset {
    Charset(Big5CharLen, IsBig5Head, (b: byte) => b < 128, weight)
  }

  lemma Big5Valid()
    ensures Big5(Big5SortOrder).Valid()
    ensures Big5((b: byte) => b).Valid()
  {
    forall c: Charset | c == Big5(Big5SortOrder) || c == Big5((b: byte) => b)
      ensures c.Valid()
    {
      forall s, i: nat, u, j: nat ensures c.SameHead(s, i, u, j) {
        if i + 1 < |s| && j + 1 < |u| && u[j..j + 2] == s[i..i + 2] {
          assert u[j..j + 2][0] == u[j] && s[i..i + 2][0] == s[i] && u[j..j + 2][1] == u[j + 1];
        }
      }
    }
  }

  /** The limits of both bytes of a big5 character. */
  lemma Big5Bytes()
    ensures Big5CharLen([0xa1, 0x40], 0) == Big5CharLen([0xf9, 0x40], 0) == 2
    ensures Big5CharLen([0xa0, 0x40], 0) == Big5CharLen([0xfa, 0x40], 0) == 0
    ensures Big5CharLen([0xa4, 0x7e], 0) == Big5CharLen([0xa4, 0xa1], 0) == Big5CharLen([0xa4, 0xfe], 0) == 2
    ensures Big5CharLen([0xa4, 0x3f], 0) == Big5CharLen([0xa4, 0x7f], 0) == 0
    ensures Big5CharLen([0xa4, 0xa0], 0) == Big5CharLen([0xa4, 0xff], 0) == 0
  {
  }

  /** Well-formed and ill-formed texts in bytes. */
  lemma Big5Texts(good: seq<byte>, bad: seq<byte>)
    requires good in {[0x41, 0xa4, 0xa4], [0xa4, 0x40, 0x7f]}
    requires bad in {[0xa4], [0xa4, 0x7f], [0x41, 0xfa, 0x40], [0x80]}
    ensures Big5(Big5SortOrder).Valid()
    ensures Big5(Big5SortOrder).WellFormed(good, 0) && !Big5(Big5SortOrder).WellFormed(bad, 0)
  {
    Big5Valid();
    Big5Step(good, 0);
    Big5Step(good, Big5Next(good, 0));
    Big5Step(bad, 0);
    if Big5Next(bad, 0) > 0 {
      Big5Step(bad, 1);
    }
  }

  predicate IsSjisHead(b: byte) { 0x81 <= b <= 0x9f || 0xe0 <= b <= 0xfc }

  predicate IsSjisTail(b: byte) { 0x40 <= b <= 0x7e || 0x80 <= b <= 0xfc }

  function SjisCharLen(s: seq<byte>, i: nat): nat {
    if i + 1 < |s| && IsSjisHead(s[i]) && IsSjisTail(s[i + 1]) then 2 else 0
  }

  /** sjis as `sjis_bin` compares it; the half-width kana are single bytes above 127. */
  function SjisBin(): Charset {
    Charset(SjisCharLen, IsSjisHead, (b: byte) => b < 128 || 0xa1 <= b <= 0xdf, (b: byte) => b)
  }

  lemma SjisValid()
    ensures SjisBin().Valid()
  {
    var c := SjisBin();
    forall s, i: nat, u, j: nat ensures c.SameHead(s, i, u, j) {
      if i + 1 < |s| && j + 1 < |u| && u[j..j + 2] == s[i..i + 2] {
        assert u[j..j + 2][0] == u[j] && s[i..i + 2][0] == s[i] && u[j..j + 2][1] == u[j + 1];
      }
    }
  }

  /** The limits of both bytes of a sjis character, and of the half-width kana. */
  lemma SjisBytes()
    ensures SjisCharLen([0x81, 0x40], 0) == SjisCharLen([0x9f, 0x7e], 0) == 2
    ensures SjisCharLen([0xe0, 0x80], 0) == SjisCharLen([0xfc, 0xfc], 0) == 2
    ensures SjisCharLen([0x80, 0x40], 0) == SjisCharLen([0xa0, 0x40], 0) == SjisCharLen([0xfd, 0x40], 0) == 0
    ensures SjisCharLen([0x81, 0x3f], 0) == SjisCharLen([0x81, 0x7f], 0) == SjisCharLen([0x81, 0xfd], 0) == 0
    ensures SjisBin().single(0xa1) && SjisBin().single(0xdf) && !SjisBin().single(0xa0) && !SjisBin().single(0xe0)
  {
  }

  /** The position behind the well-formed character at `b`, or `b` itself if there is none. */
  function Big5Next(s: seq<byte>, b: nat): (e: nat)
    requires b < |s|
    ensures b <= e <= |s|
  {
    if s[b] < 128 then b + 1 else b + Big5CharLen(s, b)
  }

  /** From `i`, a number of `n` well-formed characters lead to `b`. */
  ghost predicate Big5Run(s: seq<byte>, i: nat, b: nat, n: nat)
    decreases n
  {
    if n == 0 then i == b <= |s| else i < |s| && Big5Next(s, i) > i && Big5Run(s, Big5Next(s, i), b, n - 1)
  }

  lemma {:induction false} Big5RunOn(s: seq<byte>, i: nat, b: nat, n: nat)
    requires Big5Run(s, i, b, n) && b < |s|
    ensures Big5Next(s, b) > b ==> Big5Run(s, i, Big5Next(s, b), n + 1)
    decreases n
  {
    if n > 0 {
      Big5RunOn(s, Big5Next(s, i), b, n - 1);
    }
  }

  /** A run ends at the end of the string exactly when the string is well formed. */
  lemma {:induction false} Big5RunWellFormed(s: seq<byte>, i: nat, b: nat, n: nat)
    requires Big5(Big5SortOrder).Valid() && Big5Run(s, i, b, n)
    requires i <= |s| && b <= |s|
    ensures var cs := Big5(Big5SortOrder);
            if b == |s| then cs.WellFormed(s, i)
            else if Big5Next(s, b) == b then !cs.WellFormed(s, i)
            else cs.WellFormed(s, i) <==> cs.WellFormed(s, b)
    decreases n
  {
    if b < |s| {
      Big5Step(s, b);
    }
    if n > 0 {
      Big5Step(s, i);
      Big5RunWellFormed(s, Big5Next(s, i), b, n - 1);
    }
  }

  /** One character of a well-formed string. */
  lemma Big5Step(s: seq<byte>, b: nat)
    requires Big5(Big5SortOrder).Valid() && b < |s|
    ensures var cs := Big5(Big5SortOrder);
            if Big5Next(s, b) == b then !cs.WellFormed(s, b)
            else cs.WellFormed(s, b) <==> cs.WellFormed(s, Big5Next(s, b))
  {
    assert s[b] < 128 ==> !IsBig5Head(s[b]);
  }

  /**
   `my_well_formed_len_big5`: the end of the longest run of at most `pos` well-formed characters, and
   whether an ill-formed one ended it.
   */
  method WellFormedLenBig5(s: seq<byte>, pos: nat) returns (b: nat, error: bool)
    ensures b <= |s| && exists n: nat :: Big5Run(s, 0, b, n) && n <= pos && (n == pos || error || b == |s|)
    ensures error ==> b < |s| && Big5Next(s, b) == b
    ensures Big5(Big5SortOrder).Valid()
    ensures pos >= |s| ==> (b == |s| && !error <==> Big5(Big5SortOrder).WellFormed(s, 0))
  {
    Big5Valid();
    b, error := 0, false;
    var left := pos;
    while left > 0 && b < |s|
      invariant b <= |s| && 0 <= left <= pos && Big5Run(s, 0, b, pos - left)
    {
      Big5RunOn(s, 0, b, pos - left);
      left := left - 1;
      if s[b] < 128 {
        b := b + 1;
      } else if b < |s| - 1 && IsBig5Head(s[b]) && IsBig5Tail(s[b + 1]) {
        b := b + 2;
      } else {
        assert Big5Run(s, 0, b, pos - (left + 1));
        Big5RunWellFormed(s, 0, b, pos - (left + 1));
        return b, true;
      }
    }
    assert Big5Run(s, 0, b, pos - left);
    Big5RunLength(s, 0, b, pos - left);
    Big5RunWellFormed(s, 0, b, pos - left);
  }

  /** A character has at least one byte. */
  lemma {:induction false} Big5RunLength(s: seq<byte>, i: nat, b: nat, n: nat)
    requires Big5Run(s, i, b, n)
    ensures b >= i + n
    decreases n
  {
    if n > 0 {
      Big5RunLength(s, Big5Next(s, i), b, n - 1);
    }
  }
}
