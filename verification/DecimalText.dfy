/**
 How numeric literals are written, section 5.3 of ISO/IEC 9075-2: the literals that `my_strntoull10rnd_8bit`
 reads are exactly the texts of this grammar, and their documented result is the number written.
 */
module DecimalText {
  import opened Bytes
  import opened Numbers
  import opened Decimal
  import opened DecimalShift
  import opened DecimalLiteral
  import opened DecimalRound
  import Integers

  type figure = d: nat | d < 10

  datatype Sign = NoSign | Plus | Minus

  datatype Power = NoPower | TenTo(upper: bool, sign: Sign, figures: seq<figure>)

  /** Blanks, a sign, figures, perhaps a dot and decimal places, perhaps an exponent. */
  datatype Literal = Literal(blanks: seq<byte>, sign: Sign, whole: seq<figure>, dot: bool, places: seq<figure>,
                             power: Power)
  {
    ghost predicate Valid() {
      && (forall k :: 0 <= k < |blanks| ==> blanks[k] in {0x20, 0x09})
      && |whole| + |places| > 0 && (!dot ==> places == [])
      && (power.TenTo? ==> power.figures != [])
    }
  }

  // ----- what a literal means

  /** The number with these figures. */
  function Number(d: seq<figure>): nat {
    if d == [] then 0 else Number(d[..|d| - 1]) * 10 + d[|d| - 1]
  }

  function PowerNumber(e: Power): int {
    match e
    case NoPower => 0
    case TenTo(_, sign, d) => if sign == Minus then 0 - Number(d) else Number(d)
  }

  function LiteralMantissa(l: Literal): nat {
    Number(l.whole + l.places)
  }

  function LiteralScale(l: Literal): int {
    PowerNumber(l.power) - |l.places|
  }

  /** The magnitude, rounded to an integer. */
  function LiteralNumber(l: Literal): nat {
    Rounded(LiteralMantissa(l), LiteralScale(l))
  }

  // ----- how it is written

  function FigureByte(d: figure): byte {
    0x30 + (d as int)
  }

  function Figures(d: seq<figure>): (s: seq<byte>)
    ensures |s| == |d|
  {
    seq(|d|, k requires 0 <= k < |d| => FigureByte(d[k]))
  }

  function SignText(sign: Sign): seq<byte> {
    match sign
    case NoSign => []
    case Plus => [0x2b]
    case Minus => [0x2d]
  }

  function PlacesText(dot: bool, places: seq<figure>): seq<byte> {
    if dot then [0x2e] + Figures(places) else []
  }

  function MantissaText(whole: seq<figure>, dot: bool, places: seq<figure>): seq<byte> {
    Figures(whole) + PlacesText(dot, places)
  }

  function PowerText(e: Power): seq<byte> {
    match e
    case NoPower => []
    case TenTo(upper, sign, d) => [if upper then 0x45 else 0x65] + (SignText(sign) + Figures(d))
  }

  function Text(l: Literal): seq<byte> {
    l.blanks + (SignText(l.sign) + (MantissaText(l.whole, l.dot, l.places) + PowerText(l.power)))
  }

  // ----- reading what is written

  /** `part` is in `t` from `i` to `j`. */
  ghost predicate Holds(t: seq<byte>, i: nat, j: nat, part: seq<byte>) {
    j == i + |part| <= |t| && t[i..j] == part
  }

  lemma HoldsParts(t: seq<byte>, i: nat, j: nat, x: seq<byte>, y: seq<byte>, m: nat)
    requires Holds(t, i, j, x + y) && m == i + |x|
    ensures Holds(t, i, m, x) && Holds(t, m, j, y)
  {
    assert t[i..m] == t[i..j][..|x|] && t[m..j] == t[i..j][|x|..];
  }

  /** A text with a byte in front. */
  lemma HoldsByte(t: seq<byte>, n: nat, q: nat, c: byte, y: seq<byte>)
    requires Holds(t, n, q, [c] + y)
    ensures n < |t| && t[n] == c && Holds(t, n + 1, q, y)
  {
    assert t[n] == t[n..q][0];
    assert t[n + 1..q] == t[n..q][1..];
  }

  lemma FiguresHeld(t: seq<byte>, i: nat, j: nat, d: seq<figure>)
    requires Holds(t, i, j, Figures(d))
    ensures forall k :: i <= k < j ==> t[k] == FigureByte(d[k - i]) && IsDigit(t[k])
  {
    forall k | i <= k < j ensures t[k] == FigureByte(d[k - i]) && IsDigit(t[k]) {
      assert t[k] == t[i..j][k - i];
    }
  }

  lemma {:induction false} ReadFigures(before: seq<figure>, t: seq<byte>, i: nat, j: nat, d: seq<figure>)
    requires j == i + |d| <= |t| && forall k :: i <= k < j ==> t[k] == FigureByte(d[k - i]) && IsDigit(t[k])
    ensures Read(Number(before), t, i, j) == Number(before + d)
    decreases |d|
  {
    if d == [] {
      assert before + d == before;
    } else {
      var all := before + d;
      ReadFigures(before, t, i, j - 1, d[..|d| - 1]);
      assert all[..|all| - 1] == before + d[..|d| - 1] && all[|all| - 1] == d[|d| - 1];
    }
  }

  /** A run of figures is read as their number. */
  lemma RunRead(before: seq<figure>, t: seq<byte>, i: nat, j: nat, d: seq<figure>)
    requires Holds(t, i, j, Figures(d)) && (j < |t| ==> !IsDigit(t[j]))
    ensures DigitsEnd(t, i) == j && Read(Number(before), t, i, j) == Number(before + d)
  {
    FiguresHeld(t, i, j, d);
    DigitsEndIs(t, i, j);
    ReadFigures(before, t, i, j, d);
  }

  /** A run of digits up to `q` without a dot behind it is the mantissa. */
  lemma WholeShape(t: seq<byte>, b: nat, q: nat)
    requires b <= |t| && DigitsEnd(t, b) == q && (q < |t| ==> !IsDot(t[q]))
    ensures MantissaEnd(t, b) == q && FracLen(t, b) == 0 && DigitCount(t, b) == q - b
    ensures Mantissa(t, b) == Read(0, t, b, q)
  {
    DigitsEndIs(t, q, q);
  }

  /** A run of digits, a dot and a run of digits are the mantissa. */
  lemma DottedShape(t: seq<byte>, b: nat, n: nat, q: nat)
    requires b <= |t| && DigitsEnd(t, b) == n && n < |t| && IsDot(t[n]) && DigitsEnd(t, n + 1) == q
    ensures MantissaEnd(t, b) == q && FracLen(t, b) == q - n - 1 && DigitCount(t, b) == n - b + (q - n - 1)
    ensures Mantissa(t, b) == Read(Read(0, t, b, n), t, n + 1, q)
  {
  }

  /** Figures without a dot behind them. */
  lemma WholeRead(t: seq<byte>, b: nat, q: nat, whole: seq<figure>)
    requires Holds(t, b, q, Figures(whole)) && (q < |t| ==> IsE(t[q]))
    ensures MantissaEnd(t, b) == q && FracLen(t, b) == 0 && DigitCount(t, b) == |whole|
    ensures Mantissa(t, b) == Number(whole)
  {
    RunRead([], t, b, q, whole);
    assert [] + whole == whole;
    WholeShape(t, b, q);
  }

  /** Figures and a dot, perhaps with decimal places. */
  lemma DottedRead(t: seq<byte>, b: nat, n: nat, q: nat, whole: seq<figure>, places: seq<figure>)
    requires Holds(t, b, n, Figures(whole)) && Holds(t, n, q, [0x2e] + Figures(places)) && (q < |t| ==> IsE(t[q]))
    ensures MantissaEnd(t, b) == q && FracLen(t, b) == |places| && DigitCount(t, b) == |whole| + |places|
    ensures Mantissa(t, b) == Number(whole + places)
  {
    HoldsByte(t, n, q, 0x2e, Figures(places));
    RunRead([], t, b, n, whole);
    assert [] + whole == whole;
    RunRead(whole, t, n + 1, q, places);
    DottedShape(t, b, n, q);
  }

  lemma MantissaRead(t: seq<byte>, b: nat, q: nat, whole: seq<figure>, dot: bool, places: seq<figure>)
    requires Holds(t, b, q, MantissaText(whole, dot, places)) && (!dot ==> places == [])
    requires q < |t| ==> IsE(t[q])
    ensures MantissaEnd(t, b) == q && FracLen(t, b) == |places| && DigitCount(t, b) == |whole| + |places|
    ensures Mantissa(t, b) == Number(whole + places)
  {
    var n := b + |whole|;
    HoldsParts(t, b, q, Figures(whole), PlacesText(dot, places), n);
    if dot {
      DottedRead(t, b, n, q, whole, places);
    } else {
      assert whole + places == whole;
      WholeRead(t, b, q, whole);
    }
  }

  lemma PowerRead(t: seq<byte>, q: nat, e: Power)
    requires Holds(t, q, |t|, PowerText(e)) && (e.TenTo? ==> e.figures != [])
    ensures q < |t| ==> IsE(t[q])
    ensures ExponentEnd(t, q) == |t| && (HasExponent(t, q) <==> e.TenTo?)
    ensures Exponent(t, q) == PowerNumber(e)
  {
    if e.TenTo? {
      PowerHeld(t, q, if e.upper then 0x45 else 0x65, e.sign, e.figures);
    }
  }

  lemma PowerHeld(t: seq<byte>, q: nat, letter: byte, sign: Sign, d: seq<figure>)
    requires Holds(t, q, |t|, [letter] + (SignText(sign) + Figures(d))) && IsE(letter) && d != []
    ensures q < |t| && IsE(t[q]) && ExponentEnd(t, q) == |t| && HasExponent(t, q)
    ensures Exponent(t, q) == if sign == Minus then 0 - Number(d) else Number(d)
  {
    var x := q + 1 + |SignText(sign)|;
    HoldsByte(t, q, |t|, letter, SignText(sign) + Figures(d));
    HoldsParts(t, q + 1, |t|, SignText(sign), Figures(d), x);
    FiguresHeld(t, x, |t|, d);
    RunRead([], t, x, |t|, d);
    assert [] + d == d;
    assert x == q + 2 ==> t[q + 1] == t[q + 1..x][0];
    ExponentShape(t, q, x);
  }

  /** An `E`, perhaps a sign, and digits to the end are an exponent. */
  lemma ExponentShape(t: seq<byte>, q: nat, x: nat)
    requires q < x < |t| && IsE(t[q]) && (x == q + 1 || (x == q + 2 && IsSign(t[q + 1])))
    requires IsDigit(t[x]) && DigitsEnd(t, x) == |t|
    ensures ExponentEnd(t, q) == |t| && HasExponent(t, q)
    ensures var n := Read(0, t, x, |t|);
            Exponent(t, q) == if x == q + 2 && t[q + 1] == 0x2d then 0 - n else n
  {
  }

  lemma StartRead(t: seq<byte>, blanks: seq<byte>, sign: Sign, p: nat, b: nat)
    requires Holds(t, 0, p, blanks) && (forall k :: 0 <= k < p ==> blanks[k] in {0x20, 0x09})
    requires Holds(t, p, b, SignText(sign)) && b < |t| && (IsDigit(t[b]) || IsDot(t[b]))
    ensures Start(t) == b && (Negative(t) <==> sign == Minus)
  {
    assert forall k :: 0 <= k < p ==> t[k] == t[0..p][k];
    if b > p {
      assert t[p] == t[p..b][0];
    }
    assert !IsBlank(t[p]);
    assert BlankEnd(t, 0) == p;
  }

  /** The first byte of a mantissa. */
  lemma MantissaBegins(t: seq<byte>, b: nat, q: nat, whole: seq<figure>, dot: bool, places: seq<figure>)
    requires Holds(t, b, q, MantissaText(whole, dot, places)) && |whole| + |places| > 0 && (!dot ==> places == [])
    ensures b < |t| && (IsDigit(t[b]) || IsDot(t[b]))
  {
    assert t[b] == t[b..q][0] == MantissaText(whole, dot, places)[0];
  }

  /** The parts of a text. */
  lemma TextHolds(l: Literal, t: seq<byte>, p: nat, b: nat, q: nat)
    requires t == Text(l) && p == |l.blanks| && b == p + |SignText(l.sign)|
    requires q == b + |MantissaText(l.whole, l.dot, l.places)|
    ensures Holds(t, 0, p, l.blanks) && Holds(t, p, b, SignText(l.sign))
    ensures Holds(t, b, q, MantissaText(l.whole, l.dot, l.places)) && Holds(t, q, |t|, PowerText(l.power))
  {
    var mantissa, power := MantissaText(l.whole, l.dot, l.places), PowerText(l.power);
    assert t[0..|t|] == t;
    HoldsParts(t, 0, |t|, l.blanks, SignText(l.sign) + (mantissa + power), p);
    HoldsParts(t, p, |t|, SignText(l.sign), mantissa + power, b);
    HoldsParts(t, b, |t|, mantissa, power, q);
  }

  /** What follows from where the parts end. */
  lemma LiteralShape(t: seq<byte>, b: nat, q: nat, m: nat, places: nat, e: int)
    requires Start(t) == b && MantissaEnd(t, b) == q && ExponentEnd(t, q) == |t| && DigitCount(t, b) > 0
    requires q == |t| || HasExponent(t, q)
    requires Mantissa(t, b) == m && FracLen(t, b) == places && Exponent(t, q) == e
    ensures IsLiteral(t) && Mantissa(t, Start(t)) == m && Scale(t) == e - places
  {
  }

  /** The parts in their places are read as the literal. */
  lemma PartsRead(l: Literal, t: seq<byte>, p: nat, b: nat, q: nat)
    requires l.Valid() && Holds(t, 0, p, l.blanks) && Holds(t, p, b, SignText(l.sign))
    requires Holds(t, b, q, MantissaText(l.whole, l.dot, l.places)) && Holds(t, q, |t|, PowerText(l.power))
    ensures IsLiteral(t) && (Negative(t) <==> l.sign == Minus)
    ensures Mantissa(t, Start(t)) == LiteralMantissa(l) && Scale(t) == LiteralScale(l)
  {
    MantissaBegins(t, b, q, l.whole, l.dot, l.places);
    StartRead(t, l.blanks, l.sign, p, b);
    PowerRead(t, q, l.power);
    MantissaRead(t, b, q, l.whole, l.dot, l.places);
    LiteralShape(t, b, q, LiteralMantissa(l), |l.places|, PowerNumber(l.power));
  }

  /** A text is read as the literal that it was written for. */
  lemma TextRead(l: Literal, t: seq<byte>)
    requires l.Valid() && t == Text(l)
    ensures IsLiteral(t) && (Negative(t) <==> l.sign == Minus)
    ensures Mantissa(t, Start(t)) == LiteralMantissa(l) && Scale(t) == LiteralScale(l)
  {
    var p := |l.blanks|;
    var b := p + |SignText(l.sign)|;
    var q := b + |MantissaText(l.whole, l.dot, l.places)|;
    TextHolds(l, t, p, b, q);
    PartsRead(l, t, p, b, q);
  }

  lemma DocumentedIs(t: seq<byte>, unsigned: bool, m: nat, scale: int, minus: bool, v: nat)
    requires Mantissa(t, Start(t)) == m && Scale(t) == scale && (Negative(t) <==> minus) && v == Rounded(m, scale)
    ensures Documented(t, unsigned) == Ideal(v, minus, unsigned)
  {
  }

  /** The documented result for it is the number written, clamped. */
  lemma TextDocumented(l: Literal, t: seq<byte>, unsigned: bool)
    requires l.Valid() && t == Text(l)
    ensures Documented(t, unsigned) == Ideal(LiteralNumber(l), l.sign == Minus, unsigned)
  {
    TextRead(l, t);
    DocumentedIs(t, unsigned, LiteralMantissa(l), LiteralScale(l), l.sign == Minus, LiteralNumber(l));
  }

  /** A literal has no second dot and no dangling sign. */
  lemma LiteralKeepsScale(t: seq<byte>, b: nat, q: nat)
    requires IsLiteral(t) && b == Start(t) && q == MantissaEnd(t, b)
    ensures !DanglingSign(t, q) && !SecondDot(t, b)
  {
    assert q == |t| || HasExponent(t, q);
  }

  /** And the computed one is the same exactly outside two families. */
  lemma TextComputed(l: Literal, t: seq<byte>, unsigned: bool)
    requires l.Valid() && t == Text(l) && InInt(t)
    ensures Computed(t, unsigned) == Ideal(LiteralNumber(l), l.sign == Minus, unsigned)
            <==> !JustBelowOne(LiteralMantissa(l), LiteralScale(l))
                 && !(unsigned && l.sign == Minus && LiteralNumber(l) > ULONGLONG_MAX)
  {
    TextRead(l, t);
    TextDocumented(l, t, unsigned);
    LiteralKeepsScale(t, Start(t), MantissaEnd(t, Start(t)));
    FaithfulExactly(t, unsigned);
  }

  // ----- writing what is read

  function FigureOf(c: byte): figure
    requires IsDigit(c)
  {
    var d: int := DigitValue(c);
    d
  }

  function Values(s: seq<byte>): (d: seq<figure>)
    requires forall k :: 0 <= k < |s| ==> IsDigit(s[k])
    ensures |d| == |s| && Figures(d) == s
  {
    seq(|s|, k requires 0 <= k < |s| => FigureOf(s[k]))
  }

  /** The sign at `i`. */
  function SignAt(s: seq<byte>, i: nat): Sign {
    if i < |s| && s[i] == 0x2b then Plus else if i < |s| && s[i] == 0x2d then Minus else NoSign
  }

  lemma PowerWritten(s: seq<byte>, q: nat) returns (e: Power)
    requires q <= |s| && (if HasExponent(s, q) then ExponentEnd(s, q) == |s| else q == |s|)
    ensures PowerText(e) == s[q..] && (e.TenTo? ==> e.figures != [])
  {
    if q < |s| {
      var x := ExponentStart(s, q);
      e := TenTo(s[q] == 0x45, SignAt(s, q + 1), Values(s[x..]));
      assert s[q..] == [s[q]] + (s[q + 1..x] + s[x..]);
      assert SignText(e.sign) == s[q + 1..x];
    } else {
      e := NoPower;
    }
  }

  lemma MantissaWritten(s: seq<byte>, b: nat) returns (whole: seq<figure>, dot: bool, places: seq<figure>)
    requires b <= |s|
    ensures MantissaText(whole, dot, places) == s[b..MantissaEnd(s, b)] && (!dot ==> places == [])
    ensures |whole| + |places| == DigitCount(s, b)
  {
    var n, f, q := IntEnd(s, b), FracBegin(s, b), MantissaEnd(s, b);
    whole, dot, places := Values(s[b..n]), HasDot(s, b), Values(s[f..q]);
    if dot {
      assert s[b..q] == s[b..n] + ([0x2e] + s[f..q]);
    } else {
      DigitsEndIs(s, n, n);
      assert s[b..q] == s[b..n] + [];
    }
  }

  /** Where the parts of a literal end. */
  lemma EndsOfParts(s: seq<byte>, p: nat, b: nat, q: nat)
    requires IsLiteral(s) && p == BlankEnd(s, 0) && b == Start(s) && q == MantissaEnd(s, b)
    ensures p <= b <= q <= |s| && b == (if p < |s| && IsSign(s[p]) then p + 1 else p)
    ensures forall k :: 0 <= k < p ==> s[..p][k] in {0x20, 0x09}
    ensures (if HasExponent(s, q) then ExponentEnd(s, q) == |s| else q == |s|) && DigitCount(s, b) > 0
  {
  }

  /** Every literal is such a text. */
  lemma LiteralWritten(s: seq<byte>) returns (l: Literal)
    requires IsLiteral(s)
    ensures l.Valid() && Text(l) == s
  {
    var p, b := BlankEnd(s, 0), Start(s);
    var q := MantissaEnd(s, b);
    EndsOfParts(s, p, b, q);
    l := PartsWritten(s, p, b, q);
  }

  lemma PartsWritten(s: seq<byte>, p: nat, b: nat, q: nat) returns (l: Literal)
    requires p <= b <= |s| && q == MantissaEnd(s, b) && b == (if p < |s| && IsSign(s[p]) then p + 1 else p)
    requires forall k :: 0 <= k < p ==> s[..p][k] in {0x20, 0x09}
    requires (if HasExponent(s, q) then ExponentEnd(s, q) == |s| else q == |s|) && DigitCount(s, b) > 0
    ensures l.Valid() && Text(l) == s
  {
    var whole, dot, places := MantissaWritten(s, b);
    var power := PowerWritten(s, q);
    l := Literal(s[..p], SignAt(s, p), whole, dot, places, power);
    SignWritten(s, p, b);
    FourParts(s, p, b, q);
    TextIs(l, s[..p], s[p..b], s[b..q], s[q..]);
  }

  lemma SignWritten(s: seq<byte>, p: nat, b: nat)
    requires p <= |s| && b == (if p < |s| && IsSign(s[p]) then p + 1 else p)
    ensures SignText(SignAt(s, p)) == s[p..b]
  {
  }

  lemma TextIs(l: Literal, blanks: seq<byte>, sign: seq<byte>, mantissa: seq<byte>, power: seq<byte>)
    requires l.blanks == blanks && SignText(l.sign) == sign && PowerText(l.power) == power
    requires MantissaText(l.whole, l.dot, l.places) == mantissa
    ensures Text(l) == blanks + (sign + (mantissa + power))
  {
  }

  lemma FourParts(s: seq<byte>, p: nat, b: nat, q: nat)
    requires p <= b <= q <= |s|
    ensures s == s[..p] + (s[p..b] + (s[b..q] + s[q..]))
  {
    assert s[b..q] + s[q..] == s[b..];
    assert s[p..b] + s[b..] == s[p..];
  }

  // ----- the letter of the exponent

  /** The same but for the case of the letter E. */
  ghost predicate AlikeE(s: seq<byte>, t: seq<byte>) {
    |s| == |t| && forall k :: 0 <= k < |s| ==> s[k] == t[k] || (s[k] in {0x45, 0x65} && t[k] in {0x45, 0x65})
  }

  lemma RunAlike(p: byte -> bool, s: seq<byte>, t: seq<byte>, i: nat)
    requires |s| == |t| && i <= |s| && forall k :: 0 <= k < |s| ==> (p(s[k]) <==> p(t[k]))
    ensures RunEnd(p, s, i) == RunEnd(p, t, i)
  {
  }

  lemma {:induction false} ReadAlike(v: nat, s: seq<byte>, t: seq<byte>, i: nat, j: nat)
    requires AlikeE(s, t) && i <= j <= |s| && (forall k :: i <= k < j ==> IsDigit(s[k]))
    ensures (forall k :: i <= k < j ==> IsDigit(t[k])) && Read(v, s, i, j) == Read(v, t, i, j)
    decreases j
  {
    if i < j {
      ReadAlike(v, s, t, i, j - 1);
    }
  }

  lemma StartAlike(s: seq<byte>, t: seq<byte>)
    requires AlikeE(s, t)
    ensures Start(s) == Start(t) && (Negative(s) <==> Negative(t))
  {
    RunAlike(IsBlank, s, t, 0);
  }

  lemma MantissaAlike(s: seq<byte>, t: seq<byte>, b: nat)
    requires AlikeE(s, t) && b <= |s|
    ensures MantissaEnd(s, b) == MantissaEnd(t, b) && FracLen(s, b) == FracLen(t, b)
    ensures DigitCount(s, b) == DigitCount(t, b) && Mantissa(s, b) == Mantissa(t, b)
  {
    RunAlike(IsDigit, s, t, b);
    assert FracBegin(s, b) == FracBegin(t, b);
    RunAlike(IsDigit, s, t, FracBegin(s, b));
    ReadAlike(0, s, t, b, IntEnd(s, b));
    ReadAlike(Read(0, s, b, IntEnd(s, b)), s, t, FracBegin(s, b), MantissaEnd(s, b));
  }

  lemma ExponentAlike(s: seq<byte>, t: seq<byte>, q: nat)
    requires AlikeE(s, t) && q <= |s|
    ensures ExponentEnd(s, q) == ExponentEnd(t, q) && (HasExponent(s, q) <==> HasExponent(t, q))
    ensures Exponent(s, q) == Exponent(t, q)
  {
    if q < |s| && IsE(s[q]) {
      var x := ExponentStart(s, q);
      RunAlike(IsDigit, s, t, x);
      ReadAlike(0, s, t, x, ExponentEnd(s, q));
    }
  }

  lemma DotsAlike(s: seq<byte>, t: seq<byte>, b: nat, q: nat)
    requires AlikeE(s, t) && b <= |s| && q == MantissaEnd(s, b) == MantissaEnd(t, b)
    ensures (DanglingSign(s, q) <==> DanglingSign(t, q)) && (SecondDot(s, b) <==> SecondDot(t, b))
  {
    RunAlike(IsDigit, s, t, b);
  }

  /** The result from what it depends on. */
  lemma ComputedIs(t: seq<byte>, unsigned: bool, m: nat, scale: int, minus: bool, forgets: bool)
    requires Mantissa(t, Start(t)) == m && Scale(t) == scale && (Negative(t) <==> minus)
    requires ForgetsScale(t) <==> forgets
    ensures Computed(t, unsigned)
            == Finished(if forgets then Fits(Leading(m))
                        else Shifted(Leading(m), Wrap32(scale + CutDigits(m)), RoundsUp(m)), minus, unsigned)
  {
  }

  lemma ResultsAlike(s: seq<byte>, t: seq<byte>, unsigned: bool, m: nat, scale: int, minus: bool, forgets: bool)
    requires (Negative(s) <==> minus) && (Negative(t) <==> minus)
    requires Mantissa(s, Start(s)) == Mantissa(t, Start(t)) == m && Scale(s) == Scale(t) == scale
    requires (ForgetsScale(s) <==> forgets) && (ForgetsScale(t) <==> forgets)
    ensures Documented(s, unsigned) == Documented(t, unsigned) && Computed(s, unsigned) == Computed(t, unsigned)
  {
    DocumentedIs(s, unsigned, m, scale, minus, Rounded(m, scale));
    DocumentedIs(t, unsigned, m, scale, minus, Rounded(m, scale));
    ComputedIs(s, unsigned, m, scale, minus, forgets);
    ComputedIs(t, unsigned, m, scale, minus, forgets);
  }

  /** The case of the letter E changes neither the end nor the result, documented or computed. */
  lemma CaseOfE(s: seq<byte>, t: seq<byte>, unsigned: bool)
    requires AlikeE(s, t)
    ensures LiteralEnd(s) == LiteralEnd(t) && (HasDigits(s) <==> HasDigits(t))
    ensures Documented(s, unsigned) == Documented(t, unsigned) && Computed(s, unsigned) == Computed(t, unsigned)
  {
    var b := Start(s);
    StartAlike(s, t);
    MantissaAlike(s, t, b);
    ExponentAlike(s, t, MantissaEnd(s, b));
    DotsAlike(s, t, b, MantissaEnd(s, b));
    ResultsAlike(s, t, unsigned, Mantissa(s, b), Scale(s), Negative(s), ForgetsScale(s));
  }

  // ----- decimal integers

  function FiguresOf(n: nat): (d: seq<figure>)
    ensures d != []
  {
    if n < 10 then [n] else FiguresOf(n / 10) + [n % 10]
  }

  lemma OneMoreFigure(d: seq<figure>, x: figure)
    ensures Number(d + [x]) == Number(d) * 10 + x && Figures(d + [x]) == Figures(d) + [FigureByte(x)]
  {
    assert (d + [x])[..|d|] == d;
  }

  lemma {:induction false} FiguresNumber(n: nat)
    ensures Number(FiguresOf(n)) == n
  {
    if n < 10 {
      OneMoreFigure([], n);
      assert [] + [n] == [n];
    } else {
      FiguresNumber(n / 10);
      OneMoreFigure(FiguresOf(n / 10), n % 10);
    }
  }

  lemma {:induction false} FiguresPrinted(n: nat)
    ensures Figures(FiguresOf(n)) == Integers.Digits(n)
  {
    if n >= 10 {
      FiguresPrinted(n / 10);
      OneMoreFigure(FiguresOf(n / 10), n % 10);
    }
  }

  /** The text that `my_longlong10_to_str_8bit` writes for a number, as a literal. */
  lemma DigitsText(n: nat, sign: Sign) returns (l: Literal)
    ensures l.Valid() && l.sign == sign && Text(l) == SignText(sign) + Integers.Digits(n)
    ensures LiteralMantissa(l) == n == LiteralNumber(l) && LiteralScale(l) == 0 && l.power == NoPower
  {
    var d := FiguresOf(n);
    l := Literal([], sign, d, false, [], NoPower);
    FiguresNumber(n);
    FiguresPrinted(n);
    assert d + [] == d;
    assert Pow10(0) == 1;
  }

  /** A decimal integer of any length is read as that integer, clamped. */
  lemma DigitsRead(n: nat, sign: Sign, unsigned: bool)
    ensures Documented(SignText(sign) + Integers.Digits(n), unsigned) == Ideal(n, sign == Minus, unsigned)
  {
    var l := DigitsText(n, sign);
    TextDocumented(l, Text(l), unsigned);
  }

  /** What is printed for 64 bits is read back, as signed or as unsigned. */
  lemma PrintedRead(val: int, signed: bool)
    requires LONGLONG_MIN <= val <= LONGLONG_MAX
    ensures var t, n := Integers.Text(val, signed), if val < 0 && !signed then val + 0x1_0000_0000_0000_0000 else val;
            IsLiteral(t) && Documented(t, !signed) == Computed(t, !signed) == (n, NoError)
  {
    var n: nat := if val >= 0 then val else if signed then 0 - val else val + 0x1_0000_0000_0000_0000;
    var sign := if val < 0 && signed then Minus else NoSign;
    var l := DigitsText(n, sign);
    assert Integers.Text(val, signed) == Text(l);
    TextRead(l, Text(l));
    TextInInt(l, Text(l), n, 0);
    TextDocumented(l, Text(l), !signed);
    TextComputed(l, Text(l), !signed);
  }

  // ----- examples in bytes

  /** "1E2" and "1e2" are 100. */
  lemma HundredExample(s: seq<byte>)
    requires s in {[0x31, 0x45, 0x32], [0x31, 0x65, 0x32]}
    ensures LiteralEnd(s) == 3 && Documented(s, true) == Computed(s, true) == (100, NoError)
  {
    var l := Literal([], NoSign, [1], false, [], TenTo(s[1] == 0x45, NoSign, [2]));
    assert Text(l) == s;
    OneFigure(1);
    OneFigure(2);
    assert [1] + [] == [1];
    assert Pow10(1) == 10 && Pow10(2) == 100;
    LiteralExample(l, s, true, 1, 2, 100);
  }

  /** A tab, a plus sign and a figure. */
  lemma PlusExample(s: seq<byte>)
    requires s == [0x09, 0x2b, 0x35]
    ensures LiteralEnd(s) == 3 && Documented(s, false) == Computed(s, false) == (5, NoError)
  {
    var l := Literal([0x09], Plus, [5], false, [], NoPower);
    assert Text(l) == s;
    OneFigure(5);
    assert [5] + [] == [5];
    assert Pow10(0) == 1;
    LiteralExample(l, s, false, 5, 0, 5);
  }

  /** A space, a tab and "-12.5": -13. */
  lemma MinusExample(s: seq<byte>)
    requires s == [0x20, 0x09, 0x2d, 0x31, 0x32, 0x2e, 0x35]
    ensures LiteralEnd(s) == 7 && Documented(s, false) == Computed(s, false) == (-13, NoError)
  {
    var l := Literal([0x20, 0x09], Minus, [1, 2], true, [5], NoPower);
    assert Text(l) == s;
    OneTwoFive(l.whole, l.places);
    LiteralExample(l, s, false, 125, -1, 13);
  }

  lemma OneTwoFive(whole: seq<figure>, places: seq<figure>)
    requires whole == [1, 2] && places == [5]
    ensures Number(whole + places) == 125 && Rounded(125, -1) == 13
  {
    OneFigure(1);
    OneMoreFigure([1], 2);
    OneMoreFigure(whole, 5);
    assert [1] + [2] == whole;
    assert Pow10(0) == 1 && Pow10(1) == 10;
  }

  lemma OneFigure(x: figure)
    ensures Number([x]) == x
  {
    OneMoreFigure([], x);
    assert [] + [x] == [x];
  }

  lemma LiteralExample(l: Literal, s: seq<byte>, unsigned: bool, m: nat, scale: int, v: nat)
    requires l.Valid() && s == Text(l) && LiteralMantissa(l) == m && LiteralScale(l) == scale && v == Rounded(m, scale)
    requires m <= 1000 && -9 <= scale <= 9 && |l.places| <= 9 && v <= LONGLONG_MAX && !(unsigned && l.sign == Minus)
    ensures LiteralEnd(s) == |s|
    ensures Documented(s, unsigned) == Computed(s, unsigned) == (if l.sign == Minus then 0 - v else v, NoError)
  {
    TextRead(l, s);
    TextInInt(l, s, m, scale);
    TextDocumented(l, s, unsigned);
    TextComputed(l, s, unsigned);
  }

  lemma TextInInt(l: Literal, t: seq<byte>, m: nat, scale: int)
    requires l.Valid() && t == Text(l) && LiteralMantissa(l) == m <= ULONGLONG_MAX && LiteralScale(l) == scale
    requires -INT_MAX <= PowerNumber(l.power) <= INT_MAX && -INT_MAX <= scale <= INT_MAX
    ensures InInt(t)
  {
    TextRead(l, t);
    WholeMantissa(m);
    TextPower(l, t);
  }

  /** The exponent in its text. */
  lemma TextPower(l: Literal, t: seq<byte>)
    requires l.Valid() && t == Text(l)
    ensures Exponent(t, MantissaEnd(t, Start(t))) == PowerNumber(l.power)
  {
    var p := |l.blanks|;
    var b := p + |SignText(l.sign)|;
    var q := b + |MantissaText(l.whole, l.dot, l.places)|;
    TextHolds(l, t, p, b, q);
    MantissaBegins(t, b, q, l.whole, l.dot, l.places);
    StartRead(t, l.blanks, l.sign, p, b);
    PowerRead(t, q, l.power);
    MantissaRead(t, b, q, l.whole, l.dot, l.places);
  }
}
