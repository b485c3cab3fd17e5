/** One string for each way in which `my_strntoull10rnd_8bit` misses the result that it documents. */
module DecimalExamples {
  import opened Bytes
  import opened Numbers
  import opened Decimal
  import opened DecimalShift
  import opened DecimalLiteral
  import opened DecimalRound

  /** Digits up to `i`, perhaps a dot and further digits up to `q`, with a minus sign in front if `b` is 1. */
  ghost predicate Parts(s: seq<byte>, b: nat, i: nat, q: nat) {
    && b <= 1 && b < i <= q <= |s| && (b == 1 ==> s[0] == 0x2d)
    && (forall k :: b <= k < i ==> IsDigit(s[k]))
    && (if q == i then q < |s| ==> IsE(s[q])
        else IsDot(s[i]) && (forall k :: i < k < q ==> IsDigit(s[k])) && (q < |s| ==> IsE(s[q]) || IsDot(s[q])))
  }

  lemma PartsFound(s: seq<byte>, b: nat, i: nat, q: nat)
    requires Parts(s, b, i, q)
    ensures Start(s) == b && (Negative(s) <==> b == 1) && HasDigits(s)
    ensures MantissaEnd(s, b) == q && FracLen(s, b) == if q == i then 0 else q - i - 1
    ensures var whole := Read(0, s, b, i);
            Mantissa(s, b) == if q == i then whole else Read(whole, s, i + 1, q)
  {
    assert !IsBlank(s[0]);
    assert BlankEnd(s, 0) == 0;
    DigitsEndIs(s, b, i);
    DigitsEndIs(s, if q == i then i else i + 1, q);
  }

  /** "1.5.": 15 instead of 2. */
  lemma SecondDotExample(s: seq<byte>)
    requires s == [0x31, 0x2e, 0x35, 0x2e]
    ensures Computed(s, true) == (15, NoError) && Documented(s, true) == (2, NoError)
  {
    PartsFound(s, 0, 1, 3);
    Fifteen(s);
    assert SecondDot(s, 0);
  }

  lemma Fifteen(s: seq<byte>)
    requires |s| >= 3 && s[0] == 0x31 && s[1] == 0x2e && s[2] == 0x35
    ensures Read(Read(0, s, 0, 1), s, 2, 3) == 15 && Leading(15) == 15 && Rounded(15, -1) == 2
  {
    assert Read(0, s, 0, 1) == 1;
    assert Read(1, s, 2, 2) == 1;
    WholeMantissa(15);
    assert Pow10(1) == 10;
  }

  /** "1.5e+": the same for a sign without an exponent. */
  lemma DanglingSignExample(s: seq<byte>)
    requires s == [0x31, 0x2e, 0x35, 0x65, 0x2b]
    ensures Computed(s, true) == (15, NoError) && Documented(s, true) == (2, NoError)
  {
    PartsFound(s, 0, 1, 3);
    Fifteen(s);
    assert DanglingSign(s, 3) && !HasExponent(s, 3);
  }

  /** "1e": the `E` is read too, although only "1" is a literal. */
  lemma LoneExponentExample(s: seq<byte>)
    requires s == [0x31, 0x65]
    ensures LiteralEnd(s) == 1 && ExponentEnd(s, MantissaEnd(s, Start(s))) == 2
  {
    PartsFound(s, 0, 1, 1);
    assert ExponentStart(s, 1) == 2;
  }

  /** The exponent of a string of digits and an exponent at `q`, whose digits are at `e`. */
  lemma ExponentFound(s: seq<byte>, q: nat, e: nat)
    requires q < e < |s| && IsE(s[q]) && (e == q + 1 || (e == q + 2 && IsSign(s[q + 1])))
    requires forall k :: e <= k < |s| ==> IsDigit(s[k])
    ensures HasExponent(s, q) && ExponentDigits(s, q) == Read(0, s, e, |s|) && !DanglingSign(s, q)
    ensures Exponent(s, q) == if s[q + 1] == 0x2d then 0 - Read(0, s, e, |s|) else Read(0, s, e, |s|)
  {
    assert IsDigit(s[e]);
    DigitsEndIs(s, e, |s|);
  }

  /** "-1e20", read as unsigned: the greatest number instead of 0. */
  lemma NegativeExample(s: seq<byte>)
    requires s == [0x2d, 0x31, 0x65, 0x32, 0x30]
    ensures Computed(s, true) == (ULONGLONG_MAX, Range) && Documented(s, true) == (0, Range)
  {
    PartsFound(s, 1, 2, 2);
    ExponentFound(s, 2, 3);
    assert Read(0, s, 1, 1) == 0 && Read(0, s, 3, 3) == 0;
    assert Read(0, s, 1, 2) == 1 && Read(0, s, 3, 4) == 2;
    assert Read(0, s, 3, 5) == 20;
    Scaled(s, true, 1, 20);
    WholeMantissa(1);
    Pow10Values();
  }

  /** "1e4294967296": the exponent wraps to 0. */
  lemma WrappedExponentExample(s: seq<byte>)
    requires s == [0x31, 0x65, 0x34, 0x32, 0x39, 0x34, 0x39, 0x36, 0x37, 0x32, 0x39, 0x36]
    ensures Computed(s, true) == (1, NoError) && Documented(s, true) == (ULONGLONG_MAX, Range) && !InInt(s)
  {
    PartsFound(s, 0, 1, 1);
    assert Read(0, s, 0, 0) == 0;
    assert Read(0, s, 0, 1) == 1;
    WrappedExponent(s);
    Scaled(s, true, 1, 4294967296);
    WrappedOne(4294967296);
  }

  lemma WrappedOne(n: nat)
    requires n == 4294967296
    ensures Finished(Shifted(Leading(1), Wrap32(n + CutDigits(1)), RoundsUp(1)), false, true) == (1, NoError)
    ensures Ideal(Rounded(1, n), false, true) == (ULONGLONG_MAX, Range) && n + CutDigits(1) > INT_MAX
  {
    WholeMantissa(1);
    HugeScale(n);
  }

  lemma WrappedExponent(s: seq<byte>)
    requires s == [0x31, 0x65, 0x34, 0x32, 0x39, 0x34, 0x39, 0x36, 0x37, 0x32, 0x39, 0x36]
    ensures HasExponent(s, 1) && Exponent(s, 1) == 4294967296 && !DanglingSign(s, 1)
  {
    ReadWrapped(s);
    ExponentFound(s, 1, 2);
  }

  lemma ReadWrapped(s: seq<byte>)
    requires s == [0x31, 0x65, 0x34, 0x32, 0x39, 0x34, 0x39, 0x36, 0x37, 0x32, 0x39, 0x36]
    ensures Read(0, s, 2, |s|) == 4294967296
  {
    ReadFive(0, s, 2, 4, 2, 9, 4, 9);
    ReadFive(42949, s, 7, 6, 7, 2, 9, 6);
    ReadJoin(0, s, 2, 7, |s|);
  }

  /** Five digits read behind a number. */
  lemma ReadFive(v: nat, s: seq<byte>, i: nat, a: nat, b: nat, c: nat, d: nat, e: nat)
    requires i + 5 <= |s| && a < 10 && b < 10 && c < 10 && d < 10 && e < 10
    requires s[i] == 0x30 + a && s[i + 1] == 0x30 + b && s[i + 2] == 0x30 + c && s[i + 3] == 0x30 + d
    requires s[i + 4] == 0x30 + e
    ensures Read(v, s, i, i + 5) == ((((v * 10 + a) * 10 + b) * 10 + c) * 10 + d) * 10 + e
  {
    assert Read(v, s, i, i + 1) == v * 10 + a;
    assert Read(v, s, i, i + 2) == (v * 10 + a) * 10 + b;
    assert Read(v, s, i, i + 3) == ((v * 10 + a) * 10 + b) * 10 + c;
    assert Read(v, s, i, i + 4) == (((v * 10 + a) * 10 + b) * 10 + c) * 10 + d;
  }

  lemma HugeScale(n: nat)
    requires n >= 20
    ensures Rounded(1, n) > ULONGLONG_MAX
  {
    Pow10Values();
    Pow10Monotone(20, n);
  }

  /** The results for a string without a second dot or dangling sign, from its mantissa and its scale. */
  lemma Scaled(s: seq<byte>, unsigned: bool, m: nat, scale: int)
    requires Mantissa(s, Start(s)) == m && Scale(s) == scale && !ForgetsScale(s)
    ensures Computed(s, unsigned)
            == Finished(Shifted(Leading(m), Wrap32(scale + CutDigits(m)), RoundsUp(m)), Negative(s), unsigned)
    ensures Documented(s, unsigned) == Ideal(Rounded(m, scale), Negative(s), unsigned)
    ensures InInt(s) ==> scale + CutDigits(m) <= INT_MAX
  {
  }

  /** The results where the scale is forgotten. */
  lemma Unscaled(s: seq<byte>, unsigned: bool, m: nat, places: nat)
    requires Mantissa(s, Start(s)) == m && Scale(s) == 0 - places && ForgetsScale(s)
    ensures Computed(s, unsigned) == Finished(Fits(Leading(m)), Negative(s), unsigned)
    ensures Documented(s, unsigned) == Ideal(Rounded(m, 0 - places), Negative(s), unsigned)
  {
  }

  /** `s` starts with `n` nines. */
  ghost predicate Nines(s: seq<byte>, n: nat) {
    n <= |s| && forall k :: 0 <= k < n ==> s[k] == 0x39
  }

  lemma {:induction false} ReadNines(s: seq<byte>, n: nat)
    requires Nines(s, n)
    ensures Read(0, s, 0, n) == Pow10(n) - 1
  {
    if n > 0 {
      ReadNines(s, n - 1);
    }
  }

  lemma NinesFound(s: seq<byte>, n: nat)
    requires Nines(s, n) && 0 < n < |s| && IsE(s[n])
    ensures Start(s) == 0 && !Negative(s) && MantissaEnd(s, 0) == n && FracLen(s, 0) == 0
    ensures Mantissa(s, 0) == Pow10(n) - 1 && !SecondDot(s, 0)
  {
    PartsFound(s, 0, n, n);
    ReadNines(s, n);
  }

  /** Nines and "e+", with the results for the number that they are. */
  lemma NinesDangling(s: seq<byte>, n: nat, m: nat, computed: (int, Errno), documented: (int, Errno))
    requires Nines(s, n) && 0 < n && |s| == n + 2 && s[n] == 0x65 && s[n + 1] == 0x2b && m == Pow10(n) - 1
    requires Finished(Fits(Leading(m)), false, true) == computed && Ideal(Rounded(m, 0), false, true) == documented
    ensures Computed(s, true) == computed && Documented(s, true) == documented
  {
    NinesFound(s, n);
    assert DanglingSign(s, n) && !HasExponent(s, n);
    Unscaled(s, true, m, 0);
  }

  /** Nines and an exponent, with the results for the number that they are. */
  lemma {:induction false} NinesScaled(s: seq<byte>, n: nat, m: nat, scale: int, computed: (int, Errno),
                                       documented: (int, Errno))
    requires Nines(s, n) && 0 < n < |s| && m == Pow10(n) - 1
    requires HasExponent(s, n) && Exponent(s, n) == scale && !DanglingSign(s, n)
    requires Finished(Shifted(Leading(m), Wrap32(scale + CutDigits(m)), RoundsUp(m)), false, true) == computed
    requires Ideal(Rounded(m, scale), false, true) == documented
    ensures Computed(s, true) == computed && Documented(s, true) == documented
    ensures Wrap32(scale + CutDigits(m)) != scale + CutDigits(m) ==> !InInt(s)
  {
    NinesFound(s, n);
    Scaled(s, true, m, scale);
  }

  lemma NineteenExponent(s: seq<byte>, q: nat)
    requires |s| == q + 4 && s[q] == 0x65 && s[q + 1] == 0x2d && s[q + 2] == 0x31 && s[q + 3] == 0x39
    ensures HasExponent(s, q) && Exponent(s, q) == -19 && !DanglingSign(s, q)
  {
    ReadNineteen(s, q + 2);
    ExponentFound(s, q, q + 2);
  }

  lemma ReadNineteen(s: seq<byte>, e: nat)
    requires e + 2 == |s| && s[e] == 0x31 && s[e + 1] == 0x39
    ensures Read(0, s, e, |s|) == 19
  {
    assert Read(0, s, e, e + 1) == 1;
  }

  /** Twenty nines and "e+": nineteen of them and no error, instead of the greatest number and `Range`. */
  lemma LongDanglingExample(s: seq<byte>)
    requires Nines(s, 20) && |s| == 22 && s[20] == 0x65 && s[21] == 0x2b
    ensures Computed(s, true) == (9_999_999_999_999_999_999, NoError) && Documented(s, true) == (ULONGLONG_MAX, Range)
  {
    var m := 99_999_999_999_999_999_999;
    Pow10Values();
    TwentyNines(m);
    NinesDangling(s, 20, m, (9_999_999_999_999_999_999, NoError), (ULONGLONG_MAX, Range));
  }

  /** Nineteen nines and "e-19": 0 instead of 1. */
  lemma WrappedDoublingExample(s: seq<byte>)
    requires Nines(s, 19) && |s| == 23 && s[19] == 0x65 && s[20] == 0x2d && s[21] == 0x31 && s[22] == 0x39
    ensures Computed(s, true) == (0, NoError) && Documented(s, true) == (1, NoError)
  {
    var m := 9_999_999_999_999_999_999;
    Pow10Values();
    NineteenNines(m);
    NineteenExponent(s, 19);
    NinesScaled(s, 19, m, -19, (0, NoError), (1, NoError));
  }

  lemma TwentyNines(m: nat)
    requires m == Pow10(20) - 1
    ensures Finished(Fits(Leading(m)), false, true) == (9_999_999_999_999_999_999, NoError)
    ensures Ideal(Rounded(m, 0), false, true) == (ULONGLONG_MAX, Range)
  {
    Pow10Values();
    assert Pow10(1) == 10 && Pow10(0) == 1;
    CutDigitsIs(m, 9_999_999_999_999_999_999, 1, 9);
  }

  lemma NineteenNines(m: nat)
    requires m == Pow10(19) - 1
    ensures Finished(Shifted(Leading(m), Wrap32(-19 + CutDigits(m)), RoundsUp(m)), false, true) == (0, NoError)
    ensures Ideal(Rounded(m, -19), false, true) == (1, NoError)
  {
    Pow10Values();
    WholeMantissa(m);
    DoublingExample(m, 19, -19);
  }

  lemma DoublingExample(m: nat, n: nat, shift: int)
    requires 0x8000_0000_0000_0000 <= m < D10_LAST && n == 19 && shift == -19
    ensures Shifted(m, shift, false) == Fits(0) && Rounded(m, shift) == 1
  {
    assert m % D10_LAST == m;
    RightShift(m, n, shift);
  }

  /** Twenty-one nines and "e2147483647", an exponent that is an `int`: its sum with the two digits left out wraps. */
  lemma WrappedShiftExample(s: seq<byte>)
    requires Nines(s, 21) && |s| == 32 && s[21..] == [0x65, 0x32, 0x31, 0x34, 0x37, 0x34, 0x38, 0x33, 0x36, 0x34, 0x37]
    ensures Computed(s, true) == (0, NoError) && Documented(s, true) == (ULONGLONG_MAX, Range) && !InInt(s)
  {
    var m := 999_999_999_999_999_999_999;
    Pow10Values();
    assert Pow10(21) == m + 1;
    TwentyOneNines(m);
    IntMaxExponent(s, 21);
    NinesScaled(s, 21, m, INT_MAX, (0, NoError), (ULONGLONG_MAX, Range));
  }

  lemma IntMaxExponent(s: seq<byte>, q: nat)
    requires q + 11 == |s| && s[q..] == [0x65, 0x32, 0x31, 0x34, 0x37, 0x34, 0x38, 0x33, 0x36, 0x34, 0x37]
    ensures IsE(s[q]) && HasExponent(s, q) && Exponent(s, q) == INT_MAX && !DanglingSign(s, q)
  {
    assert s[q] == s[q..][0] && s[q + 1] == s[q..][1];
    assert s[q + 1..] == s[q..][1..];
    ReadIntMax(s, q + 1);
    ExponentFound(s, q, q + 1);
  }

  lemma ReadIntMax(s: seq<byte>, e: nat)
    requires e + 10 == |s| && s[e..] == [0x32, 0x31, 0x34, 0x37, 0x34, 0x38, 0x33, 0x36, 0x34, 0x37]
    ensures (forall k :: e <= k < |s| ==> IsDigit(s[k])) && Read(0, s, e, |s|) == INT_MAX
  {
    forall k | e <= k < |s| ensures s[k] == s[e..][k - e] && IsDigit(s[k]) {
    }
    assert Read(0, s, e, e + 1) == 2;
    assert Read(0, s, e, e + 2) == 21;
    assert Read(0, s, e, e + 3) == 214;
    assert Read(0, s, e, e + 4) == 2147;
    assert Read(0, s, e, e + 5) == 21474;
    assert Read(0, s, e, e + 6) == 214748;
    assert Read(0, s, e, e + 7) == 2147483;
    assert Read(0, s, e, e + 8) == 21474836;
    assert Read(0, s, e, e + 9) == 214748364;
  }

  lemma TwentyOneNines(m: nat)
    requires m == 999_999_999_999_999_999_999
    ensures CutDigits(m) == 2 && Wrap32(INT_MAX + 2) == -INT_MAX
    ensures Finished(Shifted(Leading(m), Wrap32(INT_MAX + CutDigits(m)), RoundsUp(m)), false, true) == (0, NoError)
    ensures Ideal(Rounded(m, INT_MAX), false, true) == (ULONGLONG_MAX, Range)
  {
    assert Pow10(1) == 10;
    assert Pow10(2) == 100;
    CutDigitsIs(m, 9_999_999_999_999_999_999, 2, 99);
    Enlarged(m, INT_MAX);
  }

  lemma Enlarged(m: nat, n: nat)
    ensures Rounded(m, n) >= m
  {
    MulMonotone(1, Pow10(n), m);
  }
}
