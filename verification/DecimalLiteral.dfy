/**
 The numeric literals that `my_strntoull10rnd_8bit` reads, section 5.3 of ISO/IEC 9075-2, and the result
 that it documents: reading stops at the first byte that is no part of a literal.
 */
module DecimalLiteral {
  import opened Bytes
  import opened Numbers
  import opened Decimal

  predicate IsBlank(b: byte) { b == 0x20 || b == 0x09 }

  predicate IsSign(b: byte) { b == 0x2b || b == 0x2d }

  predicate IsDot(b: byte) { b == 0x2e }

  predicate IsE(b: byte) { b == 0x65 || b == 0x45 }

  // ----- the parts of a literal

  /** Behind the leading blanks. */
  function BlankEnd(s: seq<byte>, i: nat): (e: nat)
    requires i <= |s|
    ensures i <= e <= |s| && (forall k :: i <= k < e ==> IsBlank(s[k])) && (e < |s| ==> !IsBlank(s[e]))
  {
    RunEnd(IsBlank, s, i)
  }

  predicate Negative(s: seq<byte>) {
    BlankEnd(s, 0) < |s| && s[BlankEnd(s, 0)] == 0x2d
  }

  /** Behind the leading blanks and the sign. */
  function Start(s: seq<byte>): (b: nat)
    ensures b <= |s|
  {
    var p := BlankEnd(s, 0);
    if p < |s| && IsSign(s[p]) then p + 1 else p
  }

  /** The end of the digits in front of a dot. */
  function IntEnd(s: seq<byte>, b: nat): (e: nat)
    requires b <= |s|
    ensures b <= e <= |s|
  {
    DigitsEnd(s, b)
  }

  predicate HasDot(s: seq<byte>, b: nat)
    requires b <= |s|
  {
    IntEnd(s, b) < |s| && IsDot(s[IntEnd(s, b)])
  }

  /** Behind the dot, or where it would be. */
  function FracBegin(s: seq<byte>, b: nat): (e: nat)
    requires b <= |s|
    ensures b <= e <= |s|
  {
    if HasDot(s, b) then IntEnd(s, b) + 1 else IntEnd(s, b)
  }

  function MantissaEnd(s: seq<byte>, b: nat): (e: nat)
    requires b <= |s|
    ensures FracBegin(s, b) <= e <= |s|
  {
    DigitsEnd(s, FracBegin(s, b))
  }

  /** The number of decimal places. */
  function FracLen(s: seq<byte>, b: nat): nat
    requires b <= |s|
  {
    MantissaEnd(s, b) - FracBegin(s, b)
  }

  function DigitCount(s: seq<byte>, b: nat): nat
    requires b <= |s|
  {
    IntEnd(s, b) - b + FracLen(s, b)
  }

  /** All digits of the mantissa read as one integer. */
  function Mantissa(s: seq<byte>, b: nat): nat
    requires b <= |s|
  {
    Read(Read(0, s, b, IntEnd(s, b)), s, FracBegin(s, b), MantissaEnd(s, b))
  }

  predicate HasDigits(s: seq<byte>) {
    DigitCount(s, Start(s)) > 0
  }

  /** Behind the `E` at `q` and the sign of the exponent. */
  function ExponentStart(s: seq<byte>, q: nat): (e: nat)
    requires q < |s|
    ensures q < e <= |s|
  {
    if q + 1 < |s| && IsSign(s[q + 1]) then q + 2 else q + 1
  }

  /** Behind the digits of the exponent, or `q` where there is no `E`. */
  function ExponentEnd(s: seq<byte>, q: nat): (e: nat)
    requires q <= |s|
    ensures q <= e <= |s|
  {
    if q < |s| && IsE(s[q]) then DigitsEnd(s, ExponentStart(s, q)) else q
  }

  /** An `E` with at least one digit behind it or its sign. */
  predicate HasExponent(s: seq<byte>, q: nat)
    requires q <= |s|
  {
    q < |s| && IsE(s[q]) && ExponentEnd(s, q) > ExponentStart(s, q)
  }

  /** The magnitude of the exponent, 0 without one. */
  function ExponentDigits(s: seq<byte>, q: nat): nat
    requires q <= |s|
  {
    if HasExponent(s, q) then Read(0, s, ExponentStart(s, q), ExponentEnd(s, q)) else 0
  }

  function Exponent(s: seq<byte>, q: nat): int
    requires q <= |s|
  {
    if q + 1 < |s| && s[q + 1] == 0x2d then 0 - ExponentDigits(s, q) else ExponentDigits(s, q)
  }

  // ----- the literal that a string starts with

  /** The end of the longest literal that `s` starts with. */
  function LiteralEnd(s: seq<byte>): (e: nat)
    ensures e <= |s|
  {
    var q := MantissaEnd(s, Start(s));
    if HasExponent(s, q) then ExponentEnd(s, q) else q
  }

  /** The whole string is one numeric literal, blanks in front allowed. */
  predicate IsLiteral(s: seq<byte>) {
    HasDigits(s) && LiteralEnd(s) == |s|
  }

  /** The magnitude of the literal is `Mantissa * 10^Scale`. */
  function Scale(s: seq<byte>): int {
    Exponent(s, MantissaEnd(s, Start(s))) - FracLen(s, Start(s))
  }

  /** The magnitude of the literal, rounded half away from zero. */
  function Magnitude(s: seq<byte>): nat {
    Rounded(Mantissa(s, Start(s)), Scale(s))
  }

  // ----- a literal and what is behind it

  lemma RunOfPrefix(p: byte -> bool, s: seq<byte>, n: nat, i: nat)
    requires i <= n <= |s|
    ensures RunEnd(p, s[..n], i) == Min(n, RunEnd(p, s, i))
  {
  }

  lemma {:induction false} ReadOfPrefix(v: nat, s: seq<byte>, n: nat, i: nat, j: nat)
    requires i <= j <= n <= |s| && forall k :: i <= k < j ==> IsDigit(s[k])
    ensures Read(v, s[..n], i, j) == Read(v, s, i, j)
    decreases j
  {
    if i < j {
      ReadOfPrefix(v, s, n, i, j - 1);
    }
  }

  /** Blanks and sign are those of any beginning that reaches behind them. */
  lemma StartOfPrefix(s: seq<byte>, n: nat)
    requires n <= |s| && (Start(s) < n || Start(s[..n]) < n)
    ensures Start(s[..n]) == Start(s) && (Negative(s[..n]) <==> Negative(s))
  {
    RunOfPrefix(IsBlank, s, n, 0);
  }

  /** The mantissa of a beginning ends where that of `s` does, or at its end. */
  lemma MantissaEndOfPrefix(s: seq<byte>, n: nat, b: nat)
    requires b <= n <= |s|
    ensures IntEnd(s[..n], b) == Min(n, IntEnd(s, b)) && MantissaEnd(s[..n], b) == Min(n, MantissaEnd(s, b))
    ensures IntEnd(s, b) < n ==> FracBegin(s[..n], b) == FracBegin(s, b)
    ensures DigitCount(s[..n], b) <= DigitCount(s, b)
  {
    RunOfPrefix(IsDigit, s, n, b);
    if FracBegin(s, b) <= n {
      RunOfPrefix(IsDigit, s, n, FracBegin(s, b));
    }
  }

  /** The mantissa of `s` is that of any beginning that reaches behind it. */
  lemma MantissaOfPrefix(s: seq<byte>, n: nat, b: nat)
    requires b <= |s| && MantissaEnd(s, b) <= n <= |s|
    ensures FracLen(s[..n], b) == FracLen(s, b) && DigitCount(s[..n], b) == DigitCount(s, b)
    ensures Mantissa(s[..n], b) == Mantissa(s, b)
  {
    MantissaEndOfPrefix(s, n, b);
    ReadOfPrefix(0, s, n, b, IntEnd(s, b));
    ReadOfPrefix(Read(0, s, b, IntEnd(s, b)), s, n, FracBegin(s, b), MantissaEnd(s, b));
  }

  lemma ExponentOfPrefix(s: seq<byte>, q: nat, n: nat)
    requires q <= n <= |s| && n == (if HasExponent(s, q) then ExponentEnd(s, q) else q)
    ensures var t := s[..n];
            && (HasExponent(t, q) <==> HasExponent(s, q)) && Exponent(t, q) == Exponent(s, q)
            && (HasExponent(t, q) ==> ExponentEnd(t, q) == n)
  {
    if HasExponent(s, q) {
      var e := ExponentStart(s, q);
      RunOfPrefix(IsDigit, s, n, e);
      ReadOfPrefix(0, s, n, e, n);
    }
  }

  /** What `s` starts with up to `LiteralEnd` is a literal, and it has the sign and the magnitude given for `s`. */
  lemma StartsWithLiteral(s: seq<byte>)
    requires HasDigits(s)
    ensures var t := s[..LiteralEnd(s)];
            IsLiteral(t) && Magnitude(t) == Magnitude(s) && (Negative(t) <==> Negative(s))
  {
    var n, b := LiteralEnd(s), Start(s);
    var t, q := s[..n], MantissaEnd(s, b);
    StartOfPrefix(s, n);
    MantissaOfPrefix(s, n, b);
    MantissaEndOfPrefix(s, n, b);
    ExponentOfPrefix(s, q, n);
    assert MantissaEnd(t, b) == q && LiteralEnd(t) == n && Scale(t) == Scale(s);
  }

  /** And nothing longer is one. */
  lemma LongestLiteral(s: seq<byte>, n: nat)
    requires n <= |s| && IsLiteral(s[..n])
    ensures HasDigits(s) && n <= LiteralEnd(s)
  {
    var t, b := s[..n], Start(s[..n]);
    StartOfPrefix(s, n);
    MantissaEndOfPrefix(s, n, b);
    var q := MantissaEnd(t, b);
    if HasExponent(t, q) {
      LongerExponent(s, n, q);
    }
  }

  lemma LongerExponent(s: seq<byte>, n: nat, q: nat)
    requires q <= n <= |s| && HasExponent(s[..n], q)
    ensures HasExponent(s, q) && ExponentEnd(s[..n], q) <= ExponentEnd(s, q)
  {
    RunOfPrefix(IsDigit, s, n, ExponentStart(s[..n], q));
  }

  // ----- the documented result

  /** The documented result for a number of magnitude `v`: clamped to the target type, `Range` if clamped. */
  function Ideal(v: nat, negative: bool, unsigned: bool): (int, Errno) {
    if unsigned then
      if negative then (0, if v > 0 then Range else NoError)
      else if v > ULONGLONG_MAX then (ULONGLONG_MAX, Range) else (v, NoError)
    else if negative then
      if v > LONGLONG_MAX + 1 then (-LONGLONG_MAX - 1, Range) else (0 - v, NoError)
    else if v > LONGLONG_MAX then (LONGLONG_MAX, Range) else (v, NoError)
  }

  /** That is the nearest number of the type, and `Range` says that it is not the number itself. */
  lemma IdealClamps(v: nat, negative: bool, unsigned: bool)
    ensures var x: int := if negative then 0 - v else v;
            var low := if unsigned then 0 else -9_223_372_036_854_775_808;
            var high := if unsigned then 18_446_744_073_709_551_615 else 9_223_372_036_854_775_807;
            && Ideal(v, negative, unsigned).0 == (if x < low then low else if x > high then high else x)
            && Ideal(v, negative, unsigned).1 == (if low <= x <= high then NoError else Range)
  {
  }

  /** The documented result for a string that starts with a literal. */
  function Documented(s: seq<byte>, unsigned: bool): (int, Errno) {
    Ideal(Magnitude(s), Negative(s), unsigned)
  }
}
