/** `my_strntoll_8bit` and `my_longlong10_to_str_8bit`. */
module Integers {
  import opened Bytes
  import opened Numbers

  /** The value of a digit or letter as a digit, 36 for any other byte. */
  function DigitOf(c: byte): (d: nat)
    ensures d <= 36
  {
    if 0x30 <= c <= 0x39 then c - 0x30
    else if 0x41 <= c <= 0x5a then c - 0x41 + 10
    else if 0x61 <= c <= 0x7a then c - 0x61 + 10
    else 36
  }

  /** The end of the run of digits of the base at `i`. */
  function DigitsEnd(s: seq<byte>, i: nat, base: nat): (e: nat)
    requires i <= |s|
    ensures i <= e <= |s| && (e < |s| ==> DigitOf(s[e]) >= base)
  {
    RunEnd((c: byte) => DigitOf(c) < base, s, i)
  }

  /** The value of `s[i..j]` in the base. */
  function Value(s: seq<byte>, i: nat, j: nat, base: nat): nat
    requires i <= j <= |s|
    decreases j
  {
    if i == j then 0 else Value(s, i, j - 1, base) * base + DigitOf(s[j - 1])
  }

  /** The exact number clamped to 64 bits, the error and the end pointer. */
  function Parsed(isSpace: byte -> bool, s: seq<byte>, base: nat): (int, Errno, nat) {
    var p := RunEnd(isSpace, s, 0);
    var negative := p < |s| && s[p] == 0x2d;
    var b := if p < |s| && (s[p] == 0x2d || s[p] == 0x2b) then p + 1 else p;
    var e := DigitsEnd(s, b, base);
    var n: int := if negative then 0 - Value(s, b, e, base) else Value(s, b, e, base);
    if e == b then (0, Domain, 0)
    else if n > LONGLONG_MAX then (LONGLONG_MAX, Range, e)
    else if n < LONGLONG_MIN then (LONGLONG_MIN, Range, e)
    else (n, NoError, e)
  }

  /** The cutoff test tells whether another digit still fits 64 bits. */
  lemma CutoffExact(i: nat, base: nat, c: nat)
    requires 2 <= base <= 36 && c < base
    ensures var cutoff, cutlim := ULONGLONG_MAX / base, ULONGLONG_MAX % base;
            i > cutoff || (i == cutoff && c > cutlim) <==> i * base + c > ULONGLONG_MAX
  {
    CutoffAt(i, base, c, ULONGLONG_MAX, ULONGLONG_MAX / base, ULONGLONG_MAX % base);
  }

  lemma CutoffAt(i: nat, base: nat, c: nat, max: nat, cutoff: nat, cutlim: nat)
    requires max == cutoff * base + cutlim && cutlim < base && c < base
    ensures i > cutoff || (i == cutoff && c > cutlim) <==> i * base + c > max
  {
    if i > cutoff {
      MulMonotone(cutoff + 1, i, base);
    } else if i < cutoff {
      MulMonotone(i + 1, cutoff, base);
    }
  }

  /** One more digit keeps an overflow, and the value of the digits is the accumulator's. */
  lemma AnotherDigit(s: seq<byte>, start: nat, e: nat, base: nat)
    requires start <= e < |s| && 2 <= base
    ensures Value(s, start, e + 1, base) == Value(s, start, e, base) * base + DigitOf(s[e]) >= Value(s, start, e, base)
  {
    var v := Value(s, start, e, base);
    assert v * base >= v * 1;
  }

  /** The digit loop of `my_strntoll_8bit`, with its 64-bit accumulator and overflow flag. */
  method ReadDigits(s: seq<byte>, start: nat, base: nat) returns (i: nat, overflow: bool, e: nat)
    requires start <= |s| && 2 <= base <= 36
    ensures e == DigitsEnd(s, start, base) && i <= ULONGLONG_MAX
    ensures if overflow then Value(s, start, e, base) > ULONGLONG_MAX else i == Value(s, start, e, base)
  {
    var cutoff, cutlim := ULONGLONG_MAX / base, ULONGLONG_MAX % base;
    i, overflow, e := 0, false, start;
    while e != |s|
      invariant start <= e <= |s| && i <= ULONGLONG_MAX
      invariant DigitsEnd(s, e, base) == DigitsEnd(s, start, base)
      invariant if overflow then Value(s, start, e, base) > ULONGLONG_MAX else i == Value(s, start, e, base)
    {
      var c := DigitOf(s[e]);
      if c >= base {
        break;
      }
      CutoffExact(i, base, c);
      AnotherDigit(s, start, e, base);
      if i > cutoff || (i == cutoff && c > cutlim) {
        overflow := true;
      } else {
        i := i * base;
        i := i + c;
      }
      e := e + 1;
    }
  }

  /** `my_strntoll_8bit` for bases 2 to 36; `isSpace` is the character set's `my_isspace`. */
  method Strntoll(isSpace: byte -> bool, s: seq<byte>, base: nat) returns (value: int, error: Errno, end: nat)
    requires 2 <= base <= 36
    ensures (value, error, end) == Parsed(isSpace, s, base)
  {
    var p := 0;
    while p < |s| && isSpace(s[p])
      invariant 0 <= p <= |s| && RunEnd(isSpace, s, p) == RunEnd(isSpace, s, 0)
    {
      p := p + 1;
    }
    if p == |s| {
      return 0, Domain, 0;
    }
    var negative := s[p] == 0x2d;
    if s[p] == 0x2d || s[p] == 0x2b {
      p := p + 1;
    }
    var i, overflow, e := ReadDigits(s, p, base);
    if e == p {
      return 0, Domain, 0;
    }
    if negative {
      if i > LONGLONG_MAX + 1 {
        overflow := true;
      }
    } else if i > LONGLONG_MAX {
      overflow := true;
    }
    if overflow {
      return if negative then LONGLONG_MIN else LONGLONG_MAX, Range, e;
    }
    return if negative then 0 - (i as int) else i, NoError, e;
  }

  // ----- printing

  function DigitChar(d: nat): byte
    requires d < 10
  {
    0x30 + d
  }

  /** The decimal digits of `n`. */
  function Digits(n: nat): (s: seq<byte>)
    ensures s != []
  {
    if n < 10 then [DigitChar(n)] else Digits(n / 10) + [DigitChar(n % 10)]
  }

  /** The text of a 64-bit value, as signed for radix -10 and as unsigned for radix 10. */
  function Text(val: int, signed: bool): seq<byte>
    requires LONGLONG_MIN <= val <= LONGLONG_MAX
  {
    if val < 0 then
      if signed then [0x2d] + Digits(0 - val) else Digits(val + ULONGLONG_MAX + 1)
    else Digits(val)
  }

  /** A number below `10^k` has at most `k` digits. */
  lemma {:induction false} DigitsLength(n: nat, k: nat)
    requires k > 0 && n < Pow10(k)
    ensures |Digits(n)| <= k
  {
    if n >= 10 {
      DigitsLength(n / 10, k - 1);
    }
  }

  lemma DigitsFit(n: nat)
    requires n <= ULONGLONG_MAX
    ensures |Digits(n)| <= 20
  {
    assert Pow10(5) == 1_00000;
    assert Pow10(10) == 1_00000_00000;
    assert Pow10(15) == 1_00000_00000_00000;
    assert Pow10(20) == 1_00000_00000_00000_00000;
    DigitsLength(n, 20);
  }

  /** The two division loops: the digits of `uval` into the end of `buffer`, from the returned position on. */
  method WriteDigits(buffer: array<byte>, uval0: nat) returns (p: nat)
    requires buffer.Length == 65 && 0 < uval0 <= ULONGLONG_MAX
    modifies buffer
    ensures p <= 64 && buffer[p..64] == Digits(uval0)
  {
    DigitsFit(uval0);
    p := 64;
    var uval := uval0;
    assert buffer[64..64] == [];
    while uval > LONG_MAX
      invariant 0 < uval <= uval0 && p <= 64
      invariant Digits(uval0) == Digits(uval) + buffer[p..64]
    {
      p, uval := WriteDigit(buffer, p, uval, Digits(uval0));
    }
    var longVal: nat := uval;
    while longVal != 0
      invariant longVal <= uval0 && p <= 64
      invariant Digits(uval0) == Leading(longVal) + buffer[p..64]
    {
      p, longVal := WriteDigit(buffer, p, longVal, Digits(uval0));
    }
  }

  /** The digits still to be written. */
  function Leading(n: nat): seq<byte> {
    if n == 0 then [] else Digits(n)
  }

  /** One division by ten. */
  method WriteDigit(buffer: array<byte>, p0: nat, v: nat, ghost all: seq<byte>) returns (p: nat, quo: nat)
    requires buffer.Length == 65 && p0 <= 64 && v > 0 && |all| <= 20
    requires all == Digits(v) + buffer[p0..64]
    modifies buffer
    ensures p <= 64 && quo == v / 10
    ensures all == Leading(quo) + buffer[p..64]
  {
    assert |buffer[p0..64]| == 64 - p0;
    quo := v / 10;
    p := p0 - 1;
    ghost var tail := buffer[p0..64];
    buffer[p] := DigitChar(v % 10);
    assert buffer[p..64] == [DigitChar(v % 10)] + tail;
  }

  /**
   The number of bytes written for the `len` that the caller gives: all of the text, cut to `len`. For a `len`
   of 0 the code writes the one byte of a zero nevertheless, and, as `len` wraps behind a sign, all of a
   negative number.
   */
  function BytesWritten(len: nat, val: int, signed: bool): nat
    requires LONGLONG_MIN <= val <= LONGLONG_MAX
  {
    if len == 0 && (val == 0 || (val < 0 && signed)) then |Text(val, signed)| else Min(len, |Text(val, signed)|)
  }

  /** `my_longlong10_to_str_8bit` with radix -10 (`signed`) or 10; `size_t` has 32 bits. */
  method Longlong10ToStr(dst: array<byte>, len0: nat, signed: bool, val: int) returns (r: nat)
    requires LONGLONG_MIN <= val <= LONGLONG_MAX && BytesWritten(len0, val, signed) <= dst.Length
    modifies dst
    ensures r == BytesWritten(len0, val, signed)
    ensures dst[..r] == Text(val, signed)[..r] && dst[r..] == old(dst[r..])
  {
    var uval := if val < 0 then val + ULONGLONG_MAX + 1 else val;
    var len, sign := len0, 0;
    if signed && val < 0 {
      uval := ULONGLONG_MAX + 1 - uval;
      dst[0] := 0x2d;
      len, sign := if len == 0 then UINT_MAX else len - 1, 1;
    }
    ghost var pre := dst[..sign];
    assert Text(val, signed) == pre + Digits(uval);
    DigitsFit(uval);
    len := CopyDigits(dst, sign, len, uval);
    r := len + sign;
    Prefix(Text(val, signed), pre, Digits(uval), len, r);
  }

  /** The rest of the function: digits to a local buffer, then to `dst[at..]`. */
  method CopyDigits(dst: array<byte>, at: nat, len0: nat, uval: nat) returns (len: nat)
    requires uval <= ULONGLONG_MAX
    requires at + (if uval == 0 then 1 else Min(len0, |Digits(uval)|)) <= dst.Length
    modifies dst
    ensures len == if uval == 0 then 1 else Min(len0, |Digits(uval)|)
    ensures len <= |Digits(uval)| && dst[..at + len] == old(dst[..at]) + Digits(uval)[..len]
    ensures dst[at + len..] == old(dst[at + len..])
  {
    var buffer := new byte[65];
    var p := 64;
    if uval == 0 {
      p := p - 1;
      buffer[p] := 0x30;
      len := 1;
      assert buffer[p..64] == [DigitChar(0)] == Digits(uval);
    } else {
      p := WriteDigits(buffer, uval);
      len := Min(len0, 64 - p);
    }
    Within(buffer[..], p, len, 64);
    assert buffer[..][p..64] == buffer[p..64] && buffer[..][p..p + len] == buffer[p..p + len];
    Memcpy(dst, at, buffer, p, len);
  }

  lemma Within(s: seq<byte>, p: nat, len: nat, end: nat)
    requires p + len <= end <= |s|
    ensures s[p..p + len] == s[p..end][..len]
  {
  }

  lemma Prefix(text: seq<byte>, pre: seq<byte>, digits: seq<byte>, len: nat, r: nat)
    requires text == pre + digits && len <= |digits| && r == |pre| + len
    ensures r <= |text| && text[..r] == pre + digits[..len]
  {
  }

  // ----- round trip

  lemma {:induction false} ValueOfDigits(pre: seq<byte>, n: nat)
    ensures var t := pre + Digits(n);
            Value(t, |pre|, |t|, 10) == n && forall k :: |pre| <= k < |t| ==> DigitOf(t[k]) < 10
  {
    var t := pre + Digits(n);
    if n >= 10 {
      ValueOfDigits(pre, n / 10);
      var u := pre + Digits(n / 10);
      assert t == u + [DigitChar(n % 10)];
      ValuePrefix(u, t, |pre|, |u|, 10);
      assert forall k :: |pre| <= k < |u| ==> t[k] == u[k];
    } else {
      assert Value(t, |pre|, |pre|, 10) == 0;
    }
  }

  lemma {:induction false} ValuePrefix(u: seq<byte>, t: seq<byte>, i: nat, j: nat, base: nat)
    requires i <= j <= |u| && u <= t
    ensures Value(u, i, j, base) == Value(t, i, j, base)
    decreases j
  {
    if i < j {
      ValuePrefix(u, t, i, j - 1, base);
    }
  }

  lemma DigitsEndAll(t: seq<byte>, i: nat)
    requires i <= |t| && forall k :: i <= k < |t| ==> DigitOf(t[k]) < 10
    ensures DigitsEnd(t, i, 10) == |t|
  {
  }

  /** Parsing the printed text gives back every 64-bit value, the smallest one included. */
  lemma PrintParse(isSpace: byte -> bool, val: int)
    requires LONGLONG_MIN <= val <= LONGLONG_MAX
    requires !isSpace(0x2d) && forall d: nat :: d < 10 ==> !isSpace(DigitChar(d))
    ensures Parsed(isSpace, Text(val, true), 10) == (val, NoError, |Text(val, true)|)
  {
    PrintParseAt(isSpace, val, if val < 0 then [0x2d] else [], if val < 0 then 0 - val else val);
  }

  lemma PrintParseAt(isSpace: byte -> bool, val: int, pre: seq<byte>, n: nat)
    requires LONGLONG_MIN <= val <= LONGLONG_MAX
    requires !isSpace(0x2d) && forall d: nat :: d < 10 ==> !isSpace(DigitChar(d))
    requires if val < 0 then pre == [0x2d] && n == -val else pre == [] && n == val
    ensures Parsed(isSpace, Text(val, true), 10) == (val, NoError, |Text(val, true)|)
  {
    var t := pre + Digits(n);
    assert Text(val, true) == t;
    PrintedDigits(pre, n);
    if val < 0 {
      assert t[0] == 0x2d;
      ParsedNegative(isSpace, t, val);
    } else {
      assert t[0] == DigitChar(DigitOf(t[0]));
      ParsedPositive(isSpace, t, val);
    }
  }

  /** The digits of the text, and that they go to its end. */
  lemma PrintedDigits(pre: seq<byte>, n: nat)
    ensures var t := pre + Digits(n);
            && |pre| < |t| && DigitOf(t[|pre|]) < 10
            && DigitsEnd(t, |pre|, 10) == |t| && Value(t, |pre|, |t|, 10) == n
  {
    ValueOfDigits(pre, n);
    DigitsEndAll(pre + Digits(n), |pre|);
  }

  lemma ParsedNegative(isSpace: byte -> bool, t: seq<byte>, val: int)
    requires LONGLONG_MIN <= val < 0 && 1 < |t| && t[0] == 0x2d && !isSpace(t[0])
    requires DigitsEnd(t, 1, 10) == |t| && Value(t, 1, |t|, 10) == -val
    ensures Parsed(isSpace, t, 10) == (val, NoError, |t|)
  {
  }

  lemma ParsedPositive(isSpace: byte -> bool, t: seq<byte>, val: int)
    requires 0 <= val <= LONGLONG_MAX && 0 < |t| && DigitOf(t[0]) < 10 && !isSpace(t[0])
    requires DigitsEnd(t, 0, 10) == |t| && Value(t, 0, |t|, 10) == val
    ensures Parsed(isSpace, t, 10) == (val, NoError, |t|)
  {
  }

  /** The unsigned text of a negative value is that of the value in two's complement. */
  lemma UnsignedText(val: int)
    requires LONGLONG_MIN <= val <= LONGLONG_MAX
    ensures var t := Text(val, false);
            && (forall k :: 0 <= k < |t| ==> 0x30 <= t[k] <= 0x39)
            && Value(t, 0, |t|, 10) == if val < 0 then val + 0x1_0000_0000_0000_0000 else val
  {
    var n := if val < 0 then val + 0x1_0000_0000_0000_0000 else val;
    ValueOfDigits([], n);
    DecimalDigits(n);
    assert [] + Digits(n) == Digits(n);
  }

  lemma {:induction false} DecimalDigits(n: nat)
    ensures forall k :: 0 <= k < |Digits(n)| ==> 0x30 <= Digits(n)[k] <= 0x39
  {
    if n >= 10 {
      DecimalDigits(n / 10);
    }
  }

  // ----- other bases

  /** A digit, or a letter of either case. */
  function NumeralDigit(d: nat, lower: bool): byte
    requires d < 36
  {
    if d < 10 then 0x30 + d else (if lower then 0x61 else 0x41) + (d - 10)
  }

  /** The text `t` has the digits `d` from `b` to `e`, with small letters for those whose positions are in `lower`. */
  ghost predicate Numeral(t: seq<byte>, b: nat, e: nat, d: seq<nat>, lower: set<nat>) {
    e == b + |d| <= |t| && forall k :: 0 <= k < |d| ==> d[k] < 36 && t[b + k] == NumeralDigit(d[k], k in lower)
  }

  /** The number with the digits `d`. */
  function NumberOf(d: seq<nat>, base: nat): nat {
    if d == [] then 0 else NumberOf(d[..|d| - 1], base) * base + d[|d| - 1]
  }

  lemma {:induction false} DigitsValue(t: seq<byte>, i: nat, j: nat, d: seq<nat>, base: nat)
    requires j == i + |d| <= |t| && forall k :: i <= k < j ==> DigitOf(t[k]) == d[k - i]
    ensures Value(t, i, j, base) == NumberOf(d, base)
    decreases |d|
  {
    if d != [] {
      DigitsValue(t, i, j - 1, d[..|d| - 1], base);
    }
  }

  /** The number, clamped to 64 bits, of a text of `end` bytes. */
  function Clamped(x: int, end: nat): (int, Errno, nat) {
    if x > LONGLONG_MAX then (LONGLONG_MAX, Range, end)
    else if x < LONGLONG_MIN then (LONGLONG_MIN, Range, end)
    else (x, NoError, end)
  }

  function Signed(minus: bool, n: nat): int {
    if minus then 0 - n else n
  }

  ghost predicate SignsAndDigitsNoSpace(isSpace: byte -> bool) {
    forall c: byte :: c == 0x2b || c == 0x2d || DigitOf(c) < 36 ==> !isSpace(c)
  }

  lemma NumeralDigits(t: seq<byte>, b: nat, e: nat, d: seq<nat>, lower: set<nat>)
    requires Numeral(t, b, e, d, lower)
    ensures forall k :: b <= k < e ==> DigitOf(t[k]) == d[k - b]
  {
    forall k | b <= k < e ensures DigitOf(t[k]) == d[k - b] {
      assert t[k] == t[b + (k - b)];
    }
  }

  /** Spaces up to `p`, and a sign up to `b`. */
  ghost predicate Lead(isSpace: byte -> bool, t: seq<byte>, p: nat, b: nat, minus: bool) {
    && p <= b <= p + 1 && b < |t| && (forall k :: 0 <= k < p ==> isSpace(t[k]))
    && (if b == p then !minus else t[p] == if minus then 0x2d else 0x2b)
  }

  /**
   A numeral in any base, with letters of any case, behind spaces and a sign, is parsed as its number clamped to
   64 bits, up to the first byte that is no digit of the base.
   */
  lemma {:induction false} NumeralParse(isSpace: byte -> bool, t: seq<byte>, p: nat, b: nat, e: nat, d: seq<nat>,
                                        base: nat, lower: set<nat>, minus: bool)
    requires 2 <= base <= 36 && d != [] && forall k :: 0 <= k < |d| ==> d[k] < base
    requires Lead(isSpace, t, p, b, minus) && Numeral(t, b, e, d, lower) && SignsAndDigitsNoSpace(isSpace)
    requires e < |t| ==> DigitOf(t[e]) >= base
    ensures Parsed(isSpace, t, base) == Clamped(Signed(minus, NumberOf(d, base)), e)
  {
    NumeralDigits(t, b, e, d, lower);
    DigitsValue(t, b, e, d, base);
    NumeralShape(isSpace, t, p, b, e, base, NumberOf(d, base), minus);
  }

  lemma NumeralShape(isSpace: byte -> bool, t: seq<byte>, p: nat, b: nat, e: nat, base: nat, n: nat, minus: bool)
    requires 2 <= base <= 36 && SignsAndDigitsNoSpace(isSpace) && Lead(isSpace, t, p, b, minus)
    requires b < e <= |t| && Value(t, b, e, base) == n && forall k :: b <= k < e ==> DigitOf(t[k]) < base
    requires e < |t| ==> DigitOf(t[e]) >= base
    ensures Parsed(isSpace, t, base) == Clamped(Signed(minus, n), e)
  {
    assert DigitOf(t[b]) < base && !isSpace(t[p]);
    assert RunEnd(isSpace, t, 0) == p;
    assert DigitsEnd(t, b, base) == e;
  }

  /** Without a digit of the base there is no number, and nothing is read. */
  lemma NoDigits(isSpace: byte -> bool, t: seq<byte>, base: nat)
    requires forall k :: 0 <= k < |t| ==> DigitOf(t[k]) >= base
    ensures Parsed(isSpace, t, base) == (0, Domain, 0)
  {
  }

  /** "fF" in base 16 is 255. */
  lemma HexExample(isSpace: byte -> bool, t: seq<byte>)
    requires t == [0x66, 0x46] && !isSpace(0x66)
    ensures Parsed(isSpace, t, 16) == (255, NoError, 2)
  {
    assert Value(t, 0, 1, 16) == 15;
    assert DigitsEnd(t, 0, 16) == 2;
  }
}
