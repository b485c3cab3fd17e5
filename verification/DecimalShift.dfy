/**
 The scaling step of `my_strntoull10rnd_8bit`: a leading part of the digits that fits 64 bits, a
 decimal shift and a rounding digit give the same integer as the whole literal.
 */
module DecimalShift {
  import opened Bytes
  import opened Numbers
  import opened Decimal

  const CUTOFF := ULONGLONG_MAX / 10
  const CUTLIM := ULONGLONG_MAX % 10
  const DIGITS_IN_ULONGLONG := 20

  /** The last entry of `d10`, 10^19. */
  const D10_LAST := 10_000_000_000_000_000_000

  datatype Scaled = Fits(value: nat) | TooBig

  /** What the digit scanner may have put into `ull`, `shift` and `addon` for the literal `m * 10^scale`. */
  datatype Scan =
    | Whole                        // all digits are in `ull`
    | Cut(k: nat, rest: nat)       // the last `k` digits, `rest`, are left out
    | Saturated(k: nat, rest: nat, next: nat) // `ull` stands for 2^64 / 10 followed by a digit over the limit

  ghost predicate Represents(c: Scan, ull: nat, shift: int, addon: bool, m: nat, scale: int) {
    match c
    case Whole => ull == m <= ULONGLONG_MAX && shift == scale && !addon
    case Cut(k, rest) =>
      && k > 0 && m == ull * Pow10(k) + rest && rest < Pow10(k) && CUTOFF < ull <= ULONGLONG_MAX
      && shift == k + scale && (addon <==> 2 * rest >= Pow10(k))
    case Saturated(k, rest, next) =>
      && m == (CUTOFF * 10 + next) * Pow10(k) + rest && rest < Pow10(k) && CUTLIM < next < 10
      && ull == ULONGLONG_MAX && shift == k + scale && addon
  }

  // ----- the same as functions of the mantissa

  /** The number of digits at the end of `m` that the scanner leaves out. */
  function CutDigits(m: nat): nat {
    if m < 10 * (CUTOFF + 1) then 0 else 1 + CutDigits(m / 10)
  }

  /** What it puts into `ull`. */
  function Leading(m: nat): (u: nat)
    ensures u <= ULONGLONG_MAX
  {
    Min(m / Pow10(CutDigits(m)), ULONGLONG_MAX)
  }

  /** What it puts into `addon`. */
  predicate RoundsUp(m: nat) {
    var p := Pow10(CutDigits(m));
    m / p > ULONGLONG_MAX || 2 * (m % p) >= p
  }

  lemma {:induction false} CutDigitsIs(m: nat, u: nat, k: nat, rest: nat)
    requires m == u * Pow10(k) + rest && rest < Pow10(k)
    requires u < 10 * (CUTOFF + 1) && (k > 0 ==> u > CUTOFF)
    ensures CutDigits(m) == k && m / Pow10(k) == u && m % Pow10(k) == rest
    decreases k
  {
    QuotientIs(m, Pow10(k), u, rest);
    if k > 0 {
      var p := Pow10(k - 1);
      MulMonotone(1, p, u);
      LastDigit(m, u, p, rest);
      CutDigitsIs(m / 10, u, k - 1, rest / 10);
    }
  }

  lemma LastDigit(m: nat, u: nat, p: nat, rest: nat)
    requires m == u * (10 * p) + rest && rest < 10 * p && u * 1 <= u * p
    ensures m / 10 == u * p + rest / 10 && rest / 10 < p && m >= 10 * u
  {
    assert u * (10 * p) == 10 * (u * p);
  }

  /** How `m` is cut. */
  lemma {:induction false} Cutting(m: nat)
    ensures var k := CutDigits(m);
            m / Pow10(k) < 10 * (CUTOFF + 1) && (k > 0 ==> m / Pow10(k) > CUTOFF)
    decreases m
  {
    if m >= 10 * (CUTOFF + 1) {
      Cutting(m / 10);
      var p := Pow10(CutDigits(m / 10));
      var q, r := m / 10 / p, m / 10 % p;
      assert m / 10 == q * p + r;
      assert (q * p) * 10 == q * (10 * p);
      QuotientIs(m, 10 * p, q, 10 * r + m % 10);
    } else {
      assert Pow10(0) == 1;
    }
  }

  /** The scanner's choice is determined by the mantissa. */
  lemma RepresentsOnly(c: Scan, ull: nat, shift: int, addon: bool, m: nat, scale: int)
    requires Represents(c, ull, shift, addon, m, scale)
    ensures ull == Leading(m) && shift == scale + CutDigits(m) && (addon <==> RoundsUp(m))
  {
    match c
    case Whole =>
      assert Pow10(0) == 1;
    case Cut(k, rest) =>
      CutDigitsIs(m, ull, k, rest);
    case Saturated(k, rest, next) =>
      CutDigitsIs(m, CUTOFF * 10 + next, k, rest);
  }

  /** A mantissa of 64 bits is taken whole. */
  lemma WholeMantissa(m: nat)
    requires m <= ULONGLONG_MAX
    ensures Leading(m) == m && CutDigits(m) == 0 && !RoundsUp(m)
  {
    assert Pow10(0) == 1;
  }

  /** And it is there for every mantissa. */
  lemma Represented(m: nat, scale: int) returns (c: Scan)
    ensures Represents(c, Leading(m), scale + CutDigits(m), RoundsUp(m), m, scale)
  {
    Cutting(m);
    var k := CutDigits(m);
    var p := Pow10(k);
    assert m == m / p * p + m % p;
    if m / p > ULONGLONG_MAX {
      c := Saturated(k, m % p, m / p - CUTOFF * 10);
    } else if k > 0 {
      c := Cut(k, m % p);
    } else {
      c := Whole;
    }
  }

  // ----- a scale that is forgotten

  lemma {:induction false} RoundDivLess(u: nat, n: nat)
    requires u > 0 && n > 0
    ensures RoundDiv(u, Pow10(n)) < u && RoundDiv(u, Pow10(n)) <= u / 10 + 1
  {
    Pow10Monotone(1, n);
    assert Pow10(1) == 10;
    SmallQuotient(u, Pow10(n), u / Pow10(n), u % Pow10(n));
  }

  lemma SmallQuotient(u: nat, d: nat, q: nat, r: nat)
    requires u > 0 && d >= 10 && u == q * d + r && r < d
    ensures var rounded := q + (if 2 * r >= d then 1 else 0);
            rounded < u && rounded <= u / 10 + 1
  {
    MulMonotone(10, d, q);
    if q == 0 {
      assert q * d == 0;
    }
  }

  /** The leading digits are the rounded number exactly when nothing is left to shift or to round up. */
  lemma {:induction false} LeadingIsRounded(m: nat, places: nat)
    requires m > 0
    ensures Leading(m) > 0
    ensures Rounded(m, 0 - places) == Leading(m) <==> places == CutDigits(m) && !RoundsUp(m)
  {
    Cutting(m);
    var k := CutDigits(m);
    var p := Pow10(k);
    var u, rest := m / p, m % p;
    assert m == u * p + rest;
    assert Pow10(0) == 1;
    if places > k {
      CutRounds(u, k, rest, places - k);
      RoundDivLess(u, places - k);
    } else if places < k {
      MoreDigits(m, u, k, rest, places);
    } else {
      assert Rounded(m, 0 - places) == RoundDiv(m, p);
    }
  }

  /** Fewer places than digits left out make the number too big. */
  lemma MoreDigits(m: nat, u: nat, k: nat, rest: nat, places: nat)
    requires m == u * Pow10(k) + rest && u > CUTOFF && places < k
    ensures Rounded(m, 0 - places) > ULONGLONG_MAX
  {
    LeftOverflow(u, k, rest, k - places, m, 0 - places);
  }

  /** The doubled remainder of `ull / 10^19` does not fit 64 bits. */
  predicate DoublingWraps(ull: nat, shift: int) {
    shift == -19 && ull % D10_LAST >= 0x8000_0000_0000_0000
  }

  /** The right shift by a power of ten `d`. */
  function RightShifted(ull: nat, d: nat): nat
    requires d > 0
  {
    ull / d + (if ull % d * 2 % 0x1_0000_0000_0000_0000 >= d then 1 else 0)
  }

  function LeftShifted(ull: nat, shift: nat): nat {
    MulMonotone(0, ull, Pow10(shift));
    ull * Pow10(shift)
  }

  /** The scaling step as the code computes it, `(ull % d) * 2` wrapping to 64 bits. */
  function Shifted(ull: nat, shift: int, addon: bool): Scaled
    requires ull <= ULONGLONG_MAX
  {
    if shift == 0 then
      if !addon then Fits(ull) else if ull == ULONGLONG_MAX then TooBig else Fits(ull + 1)
    else if shift < 0 then
      if -shift >= DIGITS_IN_ULONGLONG then Fits(0)
      else Fits(RightShifted(ull, Pow10(-shift)))
    else if ull == 0 then Fits(0)
    else if shift > DIGITS_IN_ULONGLONG || LeftShifted(ull, shift) > ULONGLONG_MAX then TooBig
    else Fits(LeftShifted(ull, shift))
  }

  /** The rounded value, if it fits 64 bits. */
  function Clamped(v: nat): Scaled {
    if v > ULONGLONG_MAX then TooBig else Fits(v)
  }

  /** A doubled remainder below 2^64 gives the rounding. */
  lemma NoWrapRounds(ull: nat, d: nat)
    requires d > 0 && ull % d < 0x8000_0000_0000_0000
    ensures RightShifted(ull, d) == RoundDiv(ull, d)
  {
    var r := ull % d;
    assert r * 2 % 0x1_0000_0000_0000_0000 == 2 * r;
  }

  /** Where `(ull % d) * 2` does not wrap, the right shift rounds. */
  lemma RightShift(ull: nat, n: nat, shift: int)
    requires ull <= ULONGLONG_MAX && 0 < n && shift == 0 - n
    ensures !DoublingWraps(ull, shift) ==> Shifted(ull, shift, false) == Fits(RoundDiv(ull, Pow10(n)))
    ensures DoublingWraps(ull, shift) ==> Shifted(ull, shift, false) == Fits(0) && ull < D10_LAST
    ensures DoublingWraps(ull, shift) ==> RoundDiv(ull, Pow10(n)) == 1
  {
    Pow10Values();
    if n >= 20 {
      Pow10Monotone(20, n);
      QuotientIs(ull, Pow10(n), 0, ull);
    } else if n < 19 {
      Pow10Monotone(n, 18);
      NoWrapRounds(ull, Pow10(n));
    } else if ull % D10_LAST < 0x8000_0000_0000_0000 {
      NoWrapRounds(ull, D10_LAST);
    } else {
      assert ull < D10_LAST;
      assert RightShifted(ull, D10_LAST) == 0;
    }
  }

  /** A leading part above the cutoff overflows when it is shifted left. */
  lemma LeftShiftOverflows(u: nat, shift: nat)
    requires u > CUTOFF && shift > 0
    ensures u * Pow10(shift) > ULONGLONG_MAX
  {
    assert Pow10(1) == 10;
    Pow10Monotone(1, shift);
    MulMonotone(CUTOFF + 1, u, Pow10(shift));
    MulMonotone(10, Pow10(shift), CUTOFF + 1);
  }

  /** And so does the literal it was cut from. */
  lemma LeftOverflow(u: nat, k: nat, rest: nat, shift: nat, m: nat, scale: int)
    requires u > CUTOFF && m == u * Pow10(k) + rest && shift == k + scale && shift > 0
    ensures Rounded(m, scale) > ULONGLONG_MAX
  {
    LeftShiftOverflows(u, shift);
    if scale >= 0 {
      Pow10Add(k, scale);
      Associate(u, Pow10(k), Pow10(scale));
      MulMonotone(u * Pow10(k), m, Pow10(scale));
    } else {
      Pow10Add(shift, -scale);
      Associate(u, Pow10(shift), Pow10(-scale));
      QuotientAtLeast(m, Pow10(-scale), u * Pow10(shift));
    }
  }

  lemma Associate(a: nat, b: nat, c: nat)
    ensures a * (b * c) == (a * b) * c
  {
  }

  lemma QuotientAtLeast(m: nat, d: nat, q: nat)
    requires d > 0 && m >= q * d
    ensures RoundDiv(m, d) >= q
  {
    BoundQuotient(m, d, m / d, m % d, q);
  }

  lemma BoundQuotient(m: nat, d: nat, q: nat, r: nat, bound: nat)
    requires m == q * d + r && r < d && m >= bound * d
    ensures q >= bound
  {
    if q < bound {
      MulMonotone(q + 1, bound, d);
    }
  }

  /** Both stand-ins for a number whose last digit is dropped round alike. */
  lemma SaturatedRounds(next: nat, n: nat)
    requires CUTLIM < next < 10 && n > 0
    ensures RoundDiv(CUTOFF * 10 + next, Pow10(n)) == RoundDiv(ULONGLONG_MAX, Pow10(n))
  {
    if n == 1 {
      assert Pow10(1) == 10;
    } else {
      assert Pow10(n) == 10 * Pow10(n - 1);
      Pow10Even(n - 1);
      DropDigits(CUTOFF, 10, next, Pow10(n - 1));
      DropDigits(CUTOFF, 10, CUTLIM, Pow10(n - 1));
    }
  }

  /** Cutting digits off before a right shift does not change the rounding. */
  lemma CutRounds(u: nat, k: nat, rest: nat, n: nat)
    requires rest < Pow10(k) && n > 0
    ensures Rounded(u * Pow10(k) + rest, -(k + n)) == RoundDiv(u, Pow10(n))
  {
    Pow10Add(k, n);
    Pow10Even(n);
    DropDigits(u, Pow10(k), rest, Pow10(n));
  }

  /** `ShiftedExact` for a right shift. */
  lemma RightExact(c: Scan, ull: nat, shift: int, addon: bool, m: nat, scale: int)
    requires ull <= ULONGLONG_MAX && Represents(c, ull, shift, addon, m, scale) && shift < 0
    requires !DoublingWraps(ull, shift)
    ensures Shifted(ull, shift, addon) == Clamped(Rounded(m, scale))
  {
    var n: nat := 0 - shift;
    RightShift(ull, n, shift);
    QuotientSmall(ull, Pow10(n));
    RightRounded(c, ull, n, addon, m, scale);
    assert Shifted(ull, shift, addon) == Shifted(ull, shift, false);
  }

  /** What is cut off in front of a right shift does not change the rounding. */
  lemma RightRounded(c: Scan, ull: nat, n: nat, addon: bool, m: nat, scale: int)
    requires Represents(c, ull, 0 - n, addon, m, scale) && n > 0
    ensures Rounded(m, scale) == RoundDiv(ull, Pow10(n))
  {
    match c
    case Whole =>
    case Cut(k, rest) =>
      CutRounds(ull, k, rest, n);
    case Saturated(k, rest, next) =>
      CutRounds(CUTOFF * 10 + next, k, rest, n);
      SaturatedRounds(next, n);
  }

  /** `ShiftedExact` for a left shift. */
  lemma LeftExact(c: Scan, ull: nat, shift: int, addon: bool, m: nat, scale: int)
    requires ull <= ULONGLONG_MAX && Represents(c, ull, shift, addon, m, scale) && shift > 0
    ensures Shifted(ull, shift, addon) == Clamped(Rounded(m, scale))
  {
    match c
    case Whole =>
      if shift > DIGITS_IN_ULONGLONG && ull > 0 {
        Pow10Values();
        Pow10Monotone(20, shift);
        MulMonotone(1, ull, Pow10(shift));
      }
    case Cut(k, rest) =>
      LeftOverflow(ull, k, rest, shift, m, scale);
      LeftShiftOverflows(ull, shift);
    case Saturated(k, rest, next) =>
      LeftOverflow(CUTOFF * 10 + next, k, rest, shift, m, scale);
      LeftShiftOverflows(ull, shift);
  }

  /** Unless the doubling wraps, the scaling step rounds the literal exactly and detects overflow exactly. */
  lemma ShiftedExact(c: Scan, ull: nat, shift: int, addon: bool, m: nat, scale: int)
    requires ull <= ULONGLONG_MAX && Represents(c, ull, shift, addon, m, scale) && !DoublingWraps(ull, shift)
    ensures Shifted(ull, shift, addon) == Clamped(Rounded(m, scale))
  {
    if shift < 0 {
      RightExact(c, ull, shift, addon, m, scale);
    } else if shift > 0 {
      LeftExact(c, ull, shift, addon, m, scale);
    } else {
      UnshiftedExact(c, ull, addon, m, scale);
    }
  }

  /** `ShiftedExact` for no shift. */
  lemma UnshiftedExact(c: Scan, ull: nat, addon: bool, m: nat, scale: int)
    requires ull <= ULONGLONG_MAX && Represents(c, ull, 0, addon, m, scale)
    ensures Shifted(ull, 0, addon) == Clamped(Rounded(m, scale))
  {
    if c.Cut? {
      DropDigitsOnly(ull, Pow10(c.k), c.rest);
    } else if c.Saturated? {
      DropDigitsOnly(CUTOFF * 10 + c.next, Pow10(c.k), c.rest);
    } else {
      assert Pow10(0) == 1;
    }
  }

  lemma QuotientSmall(ull: nat, d: nat)
    requires ull <= ULONGLONG_MAX && d >= 2
    ensures RoundDiv(ull, d) <= ULONGLONG_MAX
  {
    var q, r := ull / d, ull % d;
    assert ull == q * d + r;
    MulMonotone(2, d, q);
  }

  /** The literal has a magnitude in [2^63 / 10^19, 1) and is written with 19 or more decimal places. */
  predicate JustBelowOne(m: nat, scale: int) {
    scale <= -19 && 0x8000_0000_0000_0000 <= m / Pow10(-scale - 19) < D10_LAST
  }

  /** The doubling wraps exactly on those literals, and then the code rounds to 0 what should be 1. */
  lemma WrapsExactly(c: Scan, ull: nat, shift: int, addon: bool, m: nat, scale: int)
    requires ull <= ULONGLONG_MAX && Represents(c, ull, shift, addon, m, scale)
    ensures DoublingWraps(ull, shift) <==> JustBelowOne(m, scale)
    ensures DoublingWraps(ull, shift) ==> Shifted(ull, shift, addon) == Fits(0) && Rounded(m, scale) == 1
  {
    Pow10Values();
    if DoublingWraps(ull, shift) {
      RightShift(ull, 19, shift);
      match c
      case Whole =>
        assert Pow10(0) == 1;
      case Cut(k, rest) =>
        QuotientIs(m, Pow10(k), ull, rest);
        CutRounds(ull, k, rest, 19);
      case Saturated(k, rest, next) =>
    }
    if JustBelowOne(m, scale) {
      JustBelowOneWraps(c, ull, shift, addon, m, scale);
    }
  }

  lemma JustBelowOneWraps(c: Scan, ull: nat, shift: int, addon: bool, m: nat, scale: int)
    requires ull <= ULONGLONG_MAX && Represents(c, ull, shift, addon, m, scale) && JustBelowOne(m, scale)
    ensures DoublingWraps(ull, shift)
  {
    var j: nat := -scale - 19;
    Division(m, Pow10(j));
    CutAtNineteen(c, ull, shift, addon, m, scale, m / Pow10(j), j, m % Pow10(j));
  }

  lemma Division(m: nat, p: nat)
    requires p > 0
    ensures m == m / p * p + m % p && m % p < p && m / p >= 0
  {
  }

  lemma CutAtNineteen(c: Scan, ull: nat, shift: int, addon: bool, m: nat, scale: int, v: nat, j: nat, low: nat)
    requires ull <= ULONGLONG_MAX && Represents(c, ull, shift, addon, m, scale)
    requires m == v * Pow10(j) + low && low < Pow10(j) && j == -scale - 19
    requires 0x8000_0000_0000_0000 <= v < D10_LAST
    ensures DoublingWraps(ull, shift)
  {
    if c.Whole? {
      TenfoldPrefix(v, j, low);
    } else {
      var u := if c.Cut? then ull else CUTOFF * 10 + c.next;
      SamePrefix(v, j, low, u, c.k, c.rest);
    }
  }

  lemma TenfoldPrefix(v: nat, j: nat, low: nat)
    ensures if j == 0 then v * Pow10(j) == v else v * Pow10(j) + low >= 10 * v
  {
    if j > 0 {
      Pow10Monotone(1, j);
      MulMonotone(10, Pow10(j), v);
    }
  }

  /** Two ways to cut `m` whose leading parts are both in (2^64 / 10, 10 * 2^64 / 10] are the same. */
  lemma SamePrefix(u: nat, j: nat, low: nat, v: nat, k: nat, rest: nat)
    requires low < Pow10(j) && rest < Pow10(k) && u * Pow10(j) + low == v * Pow10(k) + rest
    requires CUTOFF < u < 10 * CUTOFF && CUTOFF < v < 10 * CUTOFF + 10
    ensures j == k && u == v
  {
    if j < k {
      PrefixShorter(u, j, low, v, k, rest);
    } else if k < j {
      PrefixShorter(v, k, rest, u, j, low);
    } else {
      QuotientUnique(Pow10(j), u, low, v, rest);
    }
  }

  lemma PrefixShorter(u: nat, j: nat, low: nat, v: nat, k: nat, rest: nat)
    requires low < Pow10(j) && rest < Pow10(k) && u * Pow10(j) + low == v * Pow10(k) + rest && j < k
    ensures u >= 10 * v
  {
    Pow10Add(k - j, j);
    Pow10Monotone(1, k - j);
    Associate(v, Pow10(k - j), Pow10(j));
    BoundQuotient(u * Pow10(j) + low, Pow10(j), u, low, v * Pow10(k - j));
    MulMonotone(10, Pow10(k - j), v);
  }

  /** Such a literal: 0.9500000000000000000, with nineteen places, is read as 0. */
  lemma WrapExample()
    ensures JustBelowOne(9_500_000_000_000_000_000, -19)
    ensures Rounded(9_500_000_000_000_000_000, -19) == 1
    ensures Shifted(9_500_000_000_000_000_000, -19, false) == Fits(0)
  {
    var m := 9_500_000_000_000_000_000;
    assert Pow10(0) == 1;
    assert Represents(Whole, m, -19, false, m, -19) && m / Pow10(0) == m;
    WrapsExactly(Whole, m, -19, false, m, -19);
  }
}
