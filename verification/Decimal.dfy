/** Decimal digit strings, powers of ten and rounding half away from zero. */
module Decimal {
  import opened Bytes
  import opened Numbers

  predicate IsDigit(b: byte) { 0x30 <= b <= 0x39 }

  function DigitValue(b: byte): int { b - 0x30 }

  /** The number `v` with the digits `s[i..j]` written behind it. */
  function Read(v: nat, s: seq<byte>, i: nat, j: nat): (r: nat)
    requires i <= j <= |s| && forall k :: i <= k < j ==> IsDigit(s[k])
    decreases j
  {
    if i == j then v
    else
      assert IsDigit(s[j - 1]);
      Read(v, s, i, j - 1) * 10 + DigitValue(s[j - 1])
  }

  /** The end of the run of digits at `i`. */
  function DigitsEnd(s: seq<byte>, i: nat): (e: nat)
    requires i <= |s|
    ensures i <= e <= |s| && (forall k :: i <= k < e ==> IsDigit(s[k])) && (e < |s| ==> !IsDigit(s[e]))
  {
    RunEnd(IsDigit, s, i)
  }

  /** The run of digits ends where the digits do. */
  lemma DigitsEndIs(s: seq<byte>, i: nat, e: nat)
    requires i <= e <= |s| && (forall k :: i <= k < e ==> IsDigit(s[k])) && (e < |s| ==> !IsDigit(s[e]))
    ensures DigitsEnd(s, i) == e
  {
  }

  lemma {:induction false} Pow10Add(m: nat, n: nat)
    ensures Pow10(m + n) == Pow10(m) * Pow10(n)
  {
    if m > 0 {
      Pow10Add(m - 1, n);
      assert 10 * (Pow10(m - 1) * Pow10(n)) == (10 * Pow10(m - 1)) * Pow10(n);
    }
  }

  lemma {:induction false} Pow10Monotone(m: nat, n: nat)
    requires m <= n
    ensures Pow10(m) <= Pow10(n)
  {
    if m < n {
      Pow10Monotone(m, n - 1);
    }
  }

  /** The values that `d10` holds for its last two entries, and the next one. */
  lemma Pow10Values()
    ensures Pow10(9) == 1_000_000_000
    ensures Pow10(18) == 1_000_000_000_000_000_000
    ensures Pow10(19) == 10_000_000_000_000_000_000
    ensures Pow10(20) == 100_000_000_000_000_000_000
  {
    assert Pow10(3) == 1_000;
    assert Pow10(6) == 1_000_000;
    assert Pow10(9) == 1_000_000_000;
    assert Pow10(12) == 1_000_000_000_000;
    assert Pow10(15) == 1_000_000_000_000_000;
    assert Pow10(18) == 1_000_000_000_000_000_000;
  }

  /** The digits behind `v` stand below its last place. */
  lemma {:induction false} ReadBound(v: nat, s: seq<byte>, i: nat, j: nat)
    requires i <= j <= |s| && forall k :: i <= k < j ==> IsDigit(s[k])
    ensures v * Pow10(j - i) <= Read(v, s, i, j) < (v + 1) * Pow10(j - i)
    decreases j
  {
    if i < j {
      ReadBound(v, s, i, j - 1);
      var p := Pow10(j - 1 - i);
      assert IsDigit(s[j - 1]);
      assert v * (10 * p) == v * p * 10 && (v + 1) * (10 * p) == (v + 1) * p * 10;
    }
  }

  // ----- rounding

  /** `m / d` rounded half up; for magnitudes this is half away from zero. */
  function RoundDiv(m: nat, d: nat): nat
    requires d > 0
  {
    m / d + (if 2 * (m % d) >= d then 1 else 0)
  }

  /** `m * 10^scale` rounded half up. */
  function Rounded(m: nat, scale: int): nat {
    if scale >= 0 then m * Pow10(scale) else RoundDiv(m, Pow10(-scale))
  }

  lemma QuotientIs(m: nat, d: nat, q: nat, r: nat)
    requires 0 <= r < d && m == q * d + r
    ensures m / d == q && m % d == r
  {
    QuotientUnique(d, m / d, m % d, q, r);
  }

  lemma QuotientUnique(d: nat, q: int, r: int, q1: int, r1: int)
    requires 0 <= r < d && 0 <= r1 < d && q * d + r == q1 * d + r1
    ensures q == q1 && r == r1
  {
    if q < q1 {
      MulMonotone(q + 1, q1, d);
    } else if q1 < q {
      MulMonotone(q1 + 1, q, d);
    }
  }

  /** The rounded quotient is the nearest integer, the greater one of two. */
  lemma RoundDivNearest(m: nat, d: nat, r: nat)
    requires d > 0
    ensures r == RoundDiv(m, d) <==> 2 * m - d < 2 * (r * d) <= 2 * m + d
  {
    NearestQuotient(m, d, m / d, m % d, r);
  }

  lemma NearestQuotient(m: nat, d: nat, q: nat, e: nat, r: nat)
    requires d > 0 && m == q * d + e && e < d
    ensures r == q + (if 2 * e >= d then 1 else 0) <==> 2 * m - d < 2 * (r * d) <= 2 * m + d
  {
    if r < q {
      MulMonotone(r + 1, q, d);
    } else if r > q + 1 {
      MulMonotone(q + 2, r, d);
    } else if r == q + 1 {
      assert r * d == q * d + d;
    }
  }

  /** Digits dropped behind `u` do not change the rounding of `u / d` for an even `d`. */
  lemma DropDigits(u: nat, k: nat, rest: nat, d: nat)
    requires k > 0 && rest < k && d > 0 && d % 2 == 0
    ensures k * d > 0 && RoundDiv(u * k + rest, k * d) == RoundDiv(u, d)
  {
    DropDigitsAt(u, k, rest, d, d / 2, u / d, u % d);
  }

  lemma DropDigitsAt(u: nat, k: nat, rest: nat, d: nat, half: nat, q: nat, r: nat)
    requires k > 0 && rest < k && d == 2 * half && r < d && u == q * d + r
    ensures k * d > 0 && (u * k + rest) / (k * d) == q
    ensures 2 * ((u * k + rest) % (k * d)) >= k * d <==> 2 * r >= d
  {
    var m, e := k * d, r * k + rest;
    Regroup(q, d, r, k);
    RemainderBounds(k, rest, d, half, r);
    QuotientIs(u * k + rest, m, q, e);
  }

  lemma Regroup(q: nat, d: nat, r: nat, k: nat)
    ensures (q * d + r) * k == q * (k * d) + r * k
  {
    assert (q * d + r) * k == (q * d) * k + r * k;
    assert (q * d) * k == q * (k * d);
  }

  lemma RemainderBounds(k: nat, rest: nat, d: nat, half: nat, r: nat)
    requires k > 0 && rest < k && d == 2 * half && r < d
    ensures 0 < k * d && r * k + rest < k * d
    ensures 2 * (r * k + rest) >= k * d <==> 2 * r >= d
  {
    MulMonotone(1, d, k);
    MulMonotone(r + 1, d, k);
    if r >= half {
      MulMonotone(half, r, k);
    } else {
      MulMonotone(r + 1, half, k);
    }
  }

  /** Digits dropped behind `u` decide the rounding to `u` by themselves. */
  lemma DropDigitsOnly(u: nat, k: nat, rest: nat)
    requires k > 0 && rest < k
    ensures RoundDiv(u * k + rest, k) == u + (if 2 * rest >= k then 1 else 0)
  {
    QuotientIs(u * k + rest, k, u, rest);
  }

  lemma Pow10Even(n: nat)
    requires n > 0
    ensures Pow10(n) % 2 == 0
  {
    assert Pow10(n) == 2 * (5 * Pow10(n - 1));
  }
}
