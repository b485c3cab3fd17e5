/** `my_strntoull10rnd_8bit`: reading a decimal literal as a rounded 64-bit integer. */
module DecimalRound {
  import opened Bytes
  import opened Numbers
  import opened Decimal
  import opened DecimalShift
  import opened DecimalLiteral

  // ----- results

  /** The exits `ret_sign` and `ret_too_big` of the code. */
  function Finished(v: Scaled, negative: bool, unsigned: bool): (int, Errno) {
    match v
    case TooBig =>
      (if unsigned then ULONGLONG_MAX else if negative then -LONGLONG_MAX - 1 else LONGLONG_MAX, Range)
    case Fits(ull) =>
      if !unsigned then
        if negative then
          if ull > LONGLONG_MAX + 1 then (-LONGLONG_MAX - 1, Range) else (0 - ull, NoError)
        else if ull > LONGLONG_MAX then (LONGLONG_MAX, Range) else (ull, NoError)
      else if negative && ull > 0 then (0, Range) else (ull, NoError)
  }

  /** The exits clamp as documented, except for a negative number too big for 64 bits read as unsigned. */
  lemma FinishedIdeal(v: nat, negative: bool, unsigned: bool)
    ensures Finished(Clamped(v), negative, unsigned) == Ideal(v, negative, unsigned)
            <==> !(unsigned && negative && v > ULONGLONG_MAX)
  {
  }

  // ----- the digit scanner

  /** The digits up to `x` read as one integer; `x` is in front of the dot or behind it. */
  function Lead(s: seq<byte>, b: nat, x: nat): nat
    requires b <= |s| && (b <= x <= IntEnd(s, b) || FracBegin(s, b) <= x <= MantissaEnd(s, b))
  {
    if x <= IntEnd(s, b) then Read(0, s, b, x) else Read(Read(0, s, b, IntEnd(s, b)), s, FracBegin(s, b), x)
  }

  /** The number of digits behind `x`. */
  function After(s: seq<byte>, b: nat, x: nat): nat
    requires b <= |s| && (b <= x <= IntEnd(s, b) || FracBegin(s, b) <= x <= MantissaEnd(s, b))
  {
    if x <= IntEnd(s, b) then IntEnd(s, b) - x + FracLen(s, b) else MantissaEnd(s, b) - x
  }

  lemma {:induction false} ReadJoin(v: nat, s: seq<byte>, i: nat, m: nat, j: nat)
    requires i <= m <= j <= |s| && forall k :: i <= k < j ==> IsDigit(s[k])
    ensures Read(v, s, i, j) == Read(Read(v, s, i, m), s, m, j)
    decreases j
  {
    if m < j {
      ReadJoin(v, s, i, m, j - 1);
    }
  }

  lemma Nested(l: nat, p: nat, v: nat, q: nat, m: nat)
    requires l * p <= v < (l + 1) * p && v * q <= m < (v + 1) * q
    ensures l * (p * q) <= m < l * (p * q) + p * q
  {
    MulMonotone(l * p, v, q);
    MulMonotone(v + 1, (l + 1) * p, q);
    assert (l * p) * q == l * (p * q) && ((l + 1) * p) * q == l * (p * q) + p * q;
  }

  lemma ReadTwoBound(l: nat, s: seq<byte>, x: nat, n: nat, f: nat, e: nat, k: nat, m: nat)
    requires x <= n <= |s| && f <= e <= |s|
    requires (forall k :: x <= k < n ==> IsDigit(s[k])) && (forall k :: f <= k < e ==> IsDigit(s[k]))
    requires k == n - x + (e - f) && m == Read(Read(l, s, x, n), s, f, e)
    ensures l * Pow10(k) <= m < l * Pow10(k) + Pow10(k)
  {
    ReadBound(l, s, x, n);
    ReadBound(Read(l, s, x, n), s, f, e);
    Pow10Add(n - x, e - f);
    Nested(l, Pow10(n - x), Read(l, s, x, n), Pow10(e - f), m);
  }

  /** The mantissa is its leading digits, shifted, plus what the digits behind them are worth. */
  lemma LeadBound(s: seq<byte>, b: nat, x: nat)
    requires b <= |s| && (b <= x <= IntEnd(s, b) || FracBegin(s, b) <= x <= MantissaEnd(s, b))
    ensures var p := Pow10(After(s, b, x));
            Lead(s, b, x) * p <= Mantissa(s, b) < Lead(s, b, x) * p + p
  {
    var n, f, e := IntEnd(s, b), FracBegin(s, b), MantissaEnd(s, b);
    if x <= n {
      ReadJoin(0, s, b, x, n);
      ReadTwoBound(Lead(s, b, x), s, x, n, f, e, After(s, b, x), Mantissa(s, b));
    } else {
      ReadJoin(Read(0, s, b, n), s, f, x, e);
      ReadTwoBound(Lead(s, b, x), s, x, x, x, e, After(s, b, x), Mantissa(s, b));
    }
  }

  /** The first digit left out decides whether what is left out is at least a half. */
  lemma HalfByDigit(u: nat, digit: nat, k: nat, m: nat)
    requires k > 0 && digit < 10 && u * Pow10(k) <= m
    requires (u * 10 + digit) * Pow10(k - 1) <= m < (u * 10 + digit) * Pow10(k - 1) + Pow10(k - 1)
    ensures 2 * (m - u * Pow10(k)) >= Pow10(k) <==> digit >= 5
  {
    var p := Pow10(k - 1);
    assert (u * 10 + digit) * p == u * (10 * p) + digit * p;
    if digit >= 5 {
      MulMonotone(5, digit, p);
    } else {
      MulMonotone(digit, 4, p);
    }
  }

  /** The position `x` in the scan, with a dot seen or not. */
  predicate Scanning(s: seq<byte>, b: nat, x: nat, dotted: bool) {
    b <= |s| && if dotted then HasDot(s, b) && FracBegin(s, b) <= x <= MantissaEnd(s, b) else b <= x <= IntEnd(s, b)
  }

  /** What a scan that could not take the digit at `x` into `u` stands for. */
  lemma Overflowing(s: seq<byte>, b: nat, x: nat, dotted: bool) returns (rest: nat, rest1: nat)
    requires Scanning(s, b, x, dotted) && x < |s| && IsDigit(s[x])
    ensures Scanning(s, b, x + 1, dotted)
    ensures Lead(s, b, x + 1) == Lead(s, b, x) * 10 + DigitValue(s[x])
    ensures After(s, b, x) == After(s, b, x + 1) + 1
    ensures Mantissa(s, b) == Lead(s, b, x) * Pow10(After(s, b, x)) + rest && rest < Pow10(After(s, b, x))
    ensures Mantissa(s, b) == Lead(s, b, x + 1) * Pow10(After(s, b, x + 1)) + rest1 && rest1 < Pow10(After(s, b, x + 1))
    ensures 2 * rest >= Pow10(After(s, b, x)) <==> s[x] >= 0x35
    ensures Mantissa(s, b) >= Lead(s, b, x + 1)
  {
    LeadBound(s, b, x);
    LeadBound(s, b, x + 1);
    var u, k, m := Lead(s, b, x), After(s, b, x), Mantissa(s, b);
    rest := m - u * Pow10(k);
    rest1 := m - Lead(s, b, x + 1) * Pow10(k - 1);
    HalfByDigit(u, DigitValue(s[x]), k, m);
    MulMonotone(1, Pow10(k - 1), Lead(s, b, x + 1));
  }

  /** A second dot directly behind the mantissa. */
  predicate SecondDot(s: seq<byte>, b: nat)
    requires b <= |s|
  {
    HasDot(s, b) && MantissaEnd(s, b) < |s| && IsDot(s[MantissaEnd(s, b)])
  }

  /** The shift that the scanner hands over; in front of a second dot it forgets the decimal places. */
  function ScannedShift(s: seq<byte>, b: nat): int
    requires b <= |s|
  {
    var m := Mantissa(s, b);
    if SecondDot(s, b) && m <= ULONGLONG_MAX then 0 else CutDigits(m) - FracLen(s, b)
  }

  /** The loops from `ull` on: continue the first `x - b` digits, which gave `ul`. */
  method ScanMantissa(s: seq<byte>, b: nat, x: nat, ul: nat)
    returns (ull: nat, shift: int, addon: bool, digits: nat, str: nat)
    requires Scanning(s, b, x, false) && ul == Lead(s, b, x) <= ULONGLONG_MAX
    ensures str == MantissaEnd(s, b) && (digits > 0 <==> DigitCount(s, b) > 0)
    ensures ull == Leading(Mantissa(s, b)) && shift == ScannedShift(s, b) && (addon <==> RoundsUp(Mantissa(s, b)))
  {
    var dotted, dot := false, 0;
    ull, str, digits := ul, x, x - b;
    while str < |s|
      invariant str <= |s| && Scanning(s, b, str, dotted) && (dotted ==> dot == FracBegin(s, b))
      invariant ull == Lead(s, b, str) <= ULONGLONG_MAX
      invariant digits == if dotted then IntEnd(s, b) - b + (str - dot) else str - b
    {
      if IsDigit(s[str]) {
        ghost var rest0, rest1 := Overflowing(s, b, str, dotted);
        var ch := DigitValue(s[str]);
        if ull < CUTOFF || (ull == CUTOFF && ch <= CUTLIM) {
          ull := ull * 10 + ch;
          digits := digits + 1;
          str := str + 1;
          continue;
        }
        ull, shift, addon, str := CutMantissa(s, b, str, dotted, dot, ull);
        return;
      }
      if IsDot(s[str]) {
        if dotted {
          WholeMantissa(ull);
          shift, addon := 0, false;
          return;
        }
        dotted, dot := true, str + 1;
        str := str + 1;
        continue;
      }
      break;
    }
    WholeMantissa(ull);
    shift := if dotted then dot - str else 0;
    addon := false;
  }

  /** The branch taken when the digit at `x` would overflow `lead`: keep it for rounding and skip the others. */
  method CutMantissa(s: seq<byte>, b: nat, x: nat, dotted: bool, dot: nat, lead: nat)
    returns (ull: nat, shift: int, addon: bool, str: nat)
    requires Scanning(s, b, x, dotted) && (dotted ==> dot == FracBegin(s, b)) && x < |s| && IsDigit(s[x])
    requires lead == Lead(s, b, x) <= ULONGLONG_MAX && lead * 10 + DigitValue(s[x]) > ULONGLONG_MAX
    ensures str == MantissaEnd(s, b) && Mantissa(s, b) > ULONGLONG_MAX
    ensures ull == Leading(Mantissa(s, b)) && shift == ScannedShift(s, b) && (addon <==> RoundsUp(Mantissa(s, b)))
  {
    ghost var c;
    ghost var rest, rest1 := Overflowing(s, b, x, dotted);
    str := x;
    if lead == CUTOFF {
      ull, addon := ULONGLONG_MAX, true;
      str := str + 1;
      c := Saturated(After(s, b, str), rest1, DigitValue(s[x]));
    } else {
      ull, addon := lead, s[x] >= 0x35;
      c := Cut(After(s, b, str), rest);
    }
    if !dotted {
      shift, str := SkipIntAndFrac(s, b, str);
    } else {
      shift := dot - str;
      DigitsEndFrom(s, dot, str);
      str := SkipDigits(s, str);
    }
    RepresentsOnly(c, ull, shift, addon, Mantissa(s, b), 0 - FracLen(s, b));
  }

  /** Skip the digits at `i`. */
  method SkipDigits(s: seq<byte>, i: nat) returns (e: nat)
    requires i <= |s|
    ensures e == DigitsEnd(s, i)
  {
    e := i;
    while e < |s| && IsDigit(s[e])
      invariant i <= e <= |s| && DigitsEnd(s, e) == DigitsEnd(s, i)
    {
      e := e + 1;
    }
  }

  /** Skip all further digits "with an optional single dot", counting those in front of the dot. */
  method SkipIntAndFrac(s: seq<byte>, b: nat, i: nat) returns (shift: nat, e: nat)
    requires b <= |s| && b <= i <= IntEnd(s, b)
    ensures shift == IntEnd(s, b) - i && e == MantissaEnd(s, b)
  {
    DigitsEndFrom(s, b, i);
    e := SkipDigits(s, i);
    shift := e - i;
    if e < |s| && IsDot(s[e]) {
      e := SkipDigits(s, e + 1);
    }
  }

  lemma DigitsEndFrom(s: seq<byte>, b: nat, i: nat)
    requires b <= i <= |s| && i <= DigitsEnd(s, b)
    ensures DigitsEnd(s, i) == DigitsEnd(s, b)
  {
    DigitsEndIs(s, i, DigitsEnd(s, b));
  }

  // ----- the exponent

  /** `int` arithmetic, wrapping. */
  function Wrap32(x: int): int {
    (x + 0x8000_0000) % 0x1_0000_0000 - 0x8000_0000
  }

  /** An `E` and a sign, and nothing behind them. */
  predicate DanglingSign(s: seq<byte>, q: nat)
    requires q <= |s|
  {
    q + 2 == |s| && IsE(s[q]) && IsSign(s[q + 1])
  }

  /** Numbers that differ by a multiple of 2^32 wrap alike. */
  lemma WrapsAlike(x: int, y: int, k: int)
    requires x == y + k * 0x1_0000_0000
    ensures Wrap32(x) == Wrap32(y)
  {
  }

  /** The wrapped number, and that number of times 2^32, are the number. */
  lemma WrapOf(x: int) returns (k: int)
    ensures Wrap32(x) == x + k * 0x1_0000_0000
  {
    k := -((x + 0x8000_0000) / 0x1_0000_0000);
  }

  lemma WrapDigit(x: int, d: int)
    ensures Wrap32(Wrap32(x) * 10 + d) == Wrap32(x * 10 + d)
  {
    var k := WrapOf(x);
    WrapsAlike(Wrap32(x) * 10 + d, x * 10 + d, 10 * k);
  }

  lemma WrapNegated(x: int)
    ensures Wrap32(0 - Wrap32(x)) == Wrap32(0 - x)
  {
    var k := WrapOf(x);
    WrapsAlike(0 - Wrap32(x), 0 - x, -k);
  }

  lemma WrapSum(x: int, y: int)
    ensures Wrap32(x + Wrap32(y)) == Wrap32(x + y)
  {
    var k := WrapOf(y);
    WrapsAlike(x + Wrap32(y), x + y, k);
  }

  /** The exponent at `q`, as an `int`; a dangling sign makes the code leave out the scaling. */
  method ScanExponent(s: seq<byte>, q: nat) returns (exponent: int, str: nat, dangling: bool)
    requires q <= |s|
    ensures str == ExponentEnd(s, q) && (dangling <==> DanglingSign(s, q))
    ensures !dangling ==> exponent == Wrap32(Exponent(s, q))
  {
    exponent, str, dangling := 0, q, false;
    if str < |s| && IsE(s[str]) {
      str := str + 1;
      if str < |s| {
        var negativeExp := s[str] == 0x2d;
        if IsSign(s[str]) {
          str := str + 1;
          if str == |s| {
            return 0, str, true;
          }
        }
        exponent, str := ReadExponent(s, str);
        WrapNegated(ExponentDigits(s, q));
        exponent := if negativeExp then Wrap32(0 - exponent) else exponent;
      }
    }
  }

  /** The digits of the exponent in an `int`. */
  method ReadExponent(s: seq<byte>, x: nat) returns (exponent: int, str: nat)
    requires x <= |s|
    ensures str == DigitsEnd(s, x) && exponent == Wrap32(Read(0, s, x, str))
  {
    exponent, str := 0, x;
    while str < |s| && IsDigit(s[str])
      invariant x <= str <= |s| && DigitsEnd(s, str) == DigitsEnd(s, x)
      invariant exponent == Wrap32(Read(0, s, x, str))
    {
      WrapDigit(Read(0, s, x, str), DigitValue(s[str]));
      assert Read(0, s, x, str + 1) == Read(0, s, x, str) * 10 + DigitValue(s[str]);
      exponent := Wrap32(exponent * 10 + DigitValue(s[str]));
      str := str + 1;
    }
  }

  // ----- the shift

  /**
   The code from `if (shift == 0)` to the end of the left-shift loop. The negative of `INT_MIN` is no
   `int`, and nothing is said about what the code makes of it.
   */
  method ApplyShift(ull0: nat, shift0: int, addon: bool) returns (v: Scaled)
    requires ull0 <= ULONGLONG_MAX
    ensures shift0 != INT_MIN ==> v == Shifted(ull0, shift0, addon)
  {
    if shift0 == 0 {
      if addon {
        if ull0 == ULONGLONG_MAX {
          return TooBig;
        }
        return Fits(ull0 + 1);
      }
      return Fits(ull0);
    }
    if shift0 < 0 {
      if shift0 == INT_MIN {
        v := *;
        return;
      }
      if -shift0 >= DIGITS_IN_ULONGLONG {
        return Fits(0);
      }
      var ull := ShiftRight(ull0, Pow10(-shift0));
      return Fits(ull);
    }
    if shift0 > DIGITS_IN_ULONGLONG {
      return if ull0 == 0 then Fits(0) else TooBig;
    }
    v := ShiftLeft(ull0, shift0);
  }

  method ShiftRight(ull0: nat, d: nat) returns (ull: nat)
    requires d > 0
    ensures ull == RightShifted(ull0, d)
  {
    var r := ull0 % d * 2 % 0x1_0000_0000_0000_0000;
    ull := ull0 / d;
    if r >= d {
      ull := ull + 1;
    }
  }

  /** The left-shift loop. */
  method ShiftLeft(ull0: nat, shift0: nat) returns (v: Scaled)
    requires ull0 <= ULONGLONG_MAX
    ensures v == Clamped(LeftShifted(ull0, shift0))
  {
    var ull: nat, shift: nat := ull0, shift0;
    while shift > 0
      invariant shift <= shift0 && ull <= ULONGLONG_MAX
      invariant LeftShifted(ull, shift) == LeftShifted(ull0, shift0)
    {
      if ull > CUTOFF {
        LeftShiftOverflows(ull, shift);
        return TooBig;
      }
      OnePlace(ull, shift);
      shift, ull := shift - 1, ull * 10;
    }
    return Fits(ull);
  }

  lemma OnePlace(ull: nat, shift: nat)
    requires shift > 0
    ensures LeftShifted(ull * 10, shift - 1) == LeftShifted(ull, shift)
  {
    Associate(ull, 10, Pow10(shift - 1));
  }

  // ----- the result as a function of the string

  /** The code drops the decimal places: in front of a second dot, and where it leaves out the scaling. */
  predicate ForgetsScale(s: seq<byte>) {
    var b := Start(s);
    DanglingSign(s, MantissaEnd(s, b)) || (SecondDot(s, b) && Mantissa(s, b) <= ULONGLONG_MAX)
  }

  /** The shift, before it wraps. */
  function TotalShift(s: seq<byte>): int {
    Scale(s) + CutDigits(Mantissa(s, Start(s)))
  }

  /** The magnitude that the code gets. */
  function ScaledNumber(s: seq<byte>): Scaled {
    var m := Mantissa(s, Start(s));
    if ForgetsScale(s) then Fits(Leading(m)) else Shifted(Leading(m), Wrap32(TotalShift(s)), RoundsUp(m))
  }

  /** What the code returns for a string with digits. */
  function Computed(s: seq<byte>, unsigned: bool): (int, Errno) {
    Finished(ScaledNumber(s), Negative(s), unsigned)
  }

  /** The code negates no `INT_MIN`. */
  predicate ShiftNegates(s: seq<byte>) {
    ForgetsScale(s) || Wrap32(TotalShift(s)) != INT_MIN
  }

  /** No `int` overflows on the way. */
  predicate InInt(s: seq<byte>) {
    ExponentDigits(s, MantissaEnd(s, Start(s))) <= INT_MAX && -INT_MAX <= TotalShift(s) <= INT_MAX
  }

  /** The greatest magnitude of a signed result. */
  function Limit(negative: bool): nat {
    if negative then LONGLONG_MAX + 1 else LONGLONG_MAX
  }

  /**
   The forgotten scale does no harm to a zero; to an unsigned result that is 0 for the sign anyway, unless
   the number rounds to 0; where no shift and no rounding were left to do; and where both the number and
   its leading digits are out of range.
   */
  predicate Harmless(m: nat, places: nat, negative: bool, unsigned: bool) {
    || m == 0
    || (if unsigned && negative then Rounded(m, 0 - places) > 0 else places == CutDigits(m) && !RoundsUp(m))
    || (!unsigned && Leading(m) > Limit(negative) && Rounded(m, 0 - places) > Limit(negative))
  }

  /** When the code returns what it documents. */
  predicate Faithful(s: seq<byte>, unsigned: bool) {
    var m := Mantissa(s, Start(s));
    if ForgetsScale(s) then Harmless(m, FracLen(s, Start(s)), Negative(s), unsigned)
    else !JustBelowOne(m, Scale(s)) && !(unsigned && Negative(s) && Magnitude(s) > ULONGLONG_MAX)
  }

  lemma HarmlessExactly(m: nat, places: nat, negative: bool, unsigned: bool)
    ensures Finished(Fits(Leading(m)), negative, unsigned) == Ideal(Rounded(m, 0 - places), negative, unsigned)
            <==> Harmless(m, places, negative, unsigned)
  {
    if m > 0 {
      LeadingIsRounded(m, places);
    } else {
      ZeroRounds(places);
    }
  }

  lemma ZeroRounds(places: nat)
    ensures Leading(0) == 0 && Rounded(0, 0 - places) == 0
  {
    assert Pow10(0) == 1;
    QuotientIs(0, Pow10(places), 0, 0);
  }

  /** Scaling and finishing gives the documented result exactly outside two families. */
  lemma ScaledExactly(m: nat, scale: int, negative: bool, unsigned: bool)
    ensures Finished(Shifted(Leading(m), scale + CutDigits(m), RoundsUp(m)), negative, unsigned)
            == Ideal(Rounded(m, scale), negative, unsigned)
            <==> !JustBelowOne(m, scale) && !(unsigned && negative && Rounded(m, scale) > ULONGLONG_MAX)
  {
    var c := Represented(m, scale);
    var ull, shift, addon := Leading(m), scale + CutDigits(m), RoundsUp(m);
    WrapsExactly(c, ull, shift, addon, m, scale);
    if !DoublingWraps(ull, shift) {
      ShiftedExact(c, ull, shift, addon, m, scale);
      FinishedIdeal(Rounded(m, scale), negative, unsigned);
    }
  }

  /**
   For every string with digits, whatever is behind its longest literal: the code returns the documented
   result if and only if `Faithful`, provided that no `int` overflows.
   */
  lemma FaithfulExactly(s: seq<byte>, unsigned: bool)
    requires InInt(s)
    ensures Computed(s, unsigned) == Documented(s, unsigned) <==> Faithful(s, unsigned)
  {
    var b := Start(s);
    var m := Mantissa(s, b);
    if ForgetsScale(s) {
      assert Scale(s) == 0 - FracLen(s, b);
      HarmlessExactly(m, FracLen(s, b), Negative(s), unsigned);
    } else {
      assert Wrap32(TotalShift(s)) == TotalShift(s);
      ScaledExactly(m, Scale(s), Negative(s), unsigned);
    }
  }

  /** The end pointer is behind the longest literal exactly unless an `E` without digits is read with it. */
  lemma EndExactly(s: seq<byte>)
    ensures var q := MantissaEnd(s, Start(s));
            ExponentEnd(s, q) == LiteralEnd(s) <==> !(q < |s| && IsE(s[q]) && !HasExponent(s, q))
  {
  }

  // ----- the whole function

  /** What the whole function promises about its results. */
  ghost predicate Promised(s: seq<byte>, unsigned: bool, value: int, error: Errno, end: nat) {
    if !HasDigits(s) then
      value == 0 && error == Domain && end == Start(s)
    else
      && error != Domain && end == ExponentEnd(s, MantissaEnd(s, Start(s)))
      && (ShiftNegates(s) ==> (value, error) == Computed(s, unsigned))
      && (InInt(s) ==> ((value, error) == Documented(s, unsigned) <==> Faithful(s, unsigned)))
  }

  /** Skip the blanks and the sign. */
  method SkipSign(s: seq<byte>) returns (str: nat, negative: bool)
    ensures str == Start(s) && negative == Negative(s)
  {
    str, negative := 0, false;
    while str < |s| && IsBlank(s[str])
      invariant str <= |s| && BlankEnd(s, str) == BlankEnd(s, 0)
    {
      str := str + 1;
    }
    if str < |s| {
      negative := s[str] == 0x2d;
      if IsSign(s[str]) {
        str := str + 1;
      }
    }
  }

  /** The loop that accumulates up to nine digits in an `ulong`. */
  method SmallNumber(s: seq<byte>, beg: nat) returns (ul: nat, str: nat)
    requires beg <= |s|
    ensures beg <= str <= |s| && Scanning(s, beg, str, false) && ul == Lead(s, beg, str) < 1_000_000_000
    ensures str < |s| ==> str == beg + 9 || !IsDigit(s[str])
    ensures str == |s| ==> IntEnd(s, beg) == |s|
  {
    ul, str := 0, beg;
    var end9 := if beg + 9 > |s| then |s| else beg + 9;
    while str < end9 && IsDigit(s[str])
      invariant beg <= str <= end9 && Scanning(s, beg, str, false) && ul == Lead(s, beg, str)
      invariant ul < Pow10(str - beg)
    {
      ul := ul * 10 + DigitValue(s[str]);
      str := str + 1;
    }
    Pow10Values();
    Pow10Monotone(str - beg, 9);
  }

  /** A number of at most nine digits and nothing else. */
  lemma SmallLiteral(s: seq<byte>, unsigned: bool)
    requires IntEnd(s, Start(s)) == |s| && Start(s) < |s| && Lead(s, Start(s), |s|) < 1_000_000_000
    ensures HasDigits(s) && ExponentEnd(s, MantissaEnd(s, Start(s))) == |s| && InInt(s) && !ForgetsScale(s)
    ensures Wrap32(TotalShift(s)) == 0
    ensures Computed(s, unsigned) == Finished(Fits(Lead(s, Start(s), |s|)), Negative(s), unsigned)
  {
    assert Pow10(0) == 1;
  }

  /** A number that the first loop did not read completely. */
  method LongNumber(s: seq<byte>, unsigned: bool, x: nat, ul: nat) returns (value: int, error: Errno, end: nat)
    requires |s| <= INT_MAX && Scanning(s, Start(s), x, false) && ul == Lead(s, Start(s), x) <= ULONGLONG_MAX
    ensures Promised(s, unsigned, value, error, end)
  {
    var beg := Start(s);
    var ull, shift, addon, digits, str := ScanMantissa(s, beg, x, ul);
    if digits == 0 {
      return 0, Domain, beg;
    }
    var exponent, dangling;
    exponent, end, dangling := ScanExponent(s, str);
    var scaled := Fits(ull);
    if !dangling {
      scaled := ApplyExponent(s, ull, shift, addon, exponent);
    }
    var r := Finished(scaled, Negative(s), unsigned);
    value, error := r.0, r.1;
    if InInt(s) {
      FaithfulExactly(s, unsigned);
    }
  }

  /** Add the exponent to the shift and scale. */
  method ApplyExponent(s: seq<byte>, ull: nat, shift0: int, addon: bool, exponent: int) returns (scaled: Scaled)
    requires var b := Start(s);
             && shift0 == ScannedShift(s, b) && exponent == Wrap32(Exponent(s, MantissaEnd(s, b)))
             && !DanglingSign(s, MantissaEnd(s, b))
    requires ull == Leading(Mantissa(s, Start(s))) && (addon <==> RoundsUp(Mantissa(s, Start(s))))
    ensures ShiftNegates(s) ==> scaled == ScaledNumber(s)
  {
    var shift := Wrap32(shift0 + exponent);
    ShiftUsed(s, ull, shift0, addon, exponent, shift);
    scaled := ApplyShift(ull, shift, addon);
  }

  /** The scanner's shift and the exponent together. */
  lemma ShiftUsed(s: seq<byte>, ull: nat, shift0: int, addon: bool, exponent: int, shift: int)
    requires var b := Start(s);
             && shift0 == ScannedShift(s, b) && exponent == Wrap32(Exponent(s, MantissaEnd(s, b)))
             && !DanglingSign(s, MantissaEnd(s, b))
    requires ull == Leading(Mantissa(s, Start(s))) && (addon <==> RoundsUp(Mantissa(s, Start(s))))
    requires shift == Wrap32(shift0 + exponent)
    ensures Shifted(ull, shift, addon) == ScaledNumber(s) && (shift == INT_MIN ==> !ShiftNegates(s))
  {
    var e := Exponent(s, MantissaEnd(s, Start(s)));
    WrapSum(shift0, e);
    if ForgetsScale(s) {
      WholeMantissa(Mantissa(s, Start(s)));
      assert shift0 + e == 0 && shift == 0;
    } else {
      assert shift0 + e == TotalShift(s);
    }
  }

  /**
   `my_strntoull10rnd_8bit`: the number of the target type, the error and the end pointer. The result is
   the documented one exactly where `Faithful` says so.
   */
  method Strntoull10rnd(s: seq<byte>, unsigned: bool) returns (value: int, error: Errno, end: nat)
    requires |s| <= INT_MAX
    ensures Promised(s, unsigned, value, error, end)
  {
    var beg, negative := SkipSign(s);
    if beg == |s| {
      return 0, Domain, beg;
    }
    var ul, str := SmallNumber(s, beg);
    if str >= |s| {
      SmallLiteral(s, unsigned);
      FaithfulExactly(s, unsigned);
      if negative {
        if unsigned {
          return 0, if ul > 0 then Range else NoError, str;
        }
        return -(ul as int), NoError, str;
      }
      return ul, NoError, str;
    }
    value, error, end := LongNumber(s, unsigned, str, ul);
  }
}
