/** `escape_string_for_mysql` and `escape_quotes_for_mysql`, with the decoders that read their output. */
module Escaping {
  import opened Bytes
  import opened Charsets

  const BACKSLASH: byte := 0x5c
  const QUOTE: byte := 0x27

  /** The letter written behind a backslash for `b`, or 0. */
  function EscapeLetter(b: byte): byte {
    if b == 0 then 0x30               // '0'
    else if b == 0x0a then 0x6e       // 'n'
    else if b == 0x0d then 0x72       // 'r'
    else if b == BACKSLASH || b == QUOTE || b == 0x22 then b
    else if b == 0x1a then 0x5a       // 'Z'
    else 0
  }

  /** The byte that a backslash and the letter `b` stand for. */
  function UnescapeLetter(b: byte): byte {
    if b == 0x30 then 0
    else if b == 0x6e then 0x0a
    else if b == 0x72 then 0x0d
    else if b == 0x5a then 0x1a
    else b
  }

  /** No ASCII byte opens a multi-byte character. */
  ghost predicate AsciiAlone(cs: Charset) {
    forall b: byte :: b < 128 ==> !cs.lead(b)
  }

  /** Multi-byte characters have two bytes, and which pairs are characters depends on nothing else. */
  ghost predicate DoubleByte(cs: Charset) {
    && (forall s, i :: TwoBytes(cs, s, i))
    && (forall s, i, u, j :: PairDecides(cs, s, i, u, j))
  }

  ghost predicate TwoBytes(cs: Charset, s: seq<byte>, i: nat) {
    i < |s| ==> cs.mblen(s, i) == 0 || cs.mblen(s, i) == 2
  }

  ghost predicate PairDecides(cs: Charset, s: seq<byte>, i: nat, u: seq<byte>, j: nat) {
    i + 1 < |s| && j + 1 < |u| && s[i] == u[j] && s[i + 1] == u[j + 1] ==> cs.mblen(s, i) == cs.mblen(u, j)
  }

  lemma Big5Escapable(weight: byte -> byte)
    ensures AsciiAlone(Big5(weight)) && DoubleByte(Big5(weight))
  {
  }

  lemma EightBitEscapable(weight: byte -> byte)
    ensures AsciiAlone(EightBit(weight)) && DoubleByte(EightBit(weight))
  {
  }

  /** In `full`, `e` stands from `q` to `end` and `rest` behind that. */
  lemma Advance(full: seq<byte>, q: nat, e: seq<byte>, rest: seq<byte>, end: nat)
    requires q <= |full| && full[q..] == e + rest && end == q + |e|
    ensures end <= |full| && full[end..] == rest
    ensures full[..end] == full[..q] + e && forall x :: 0 <= x < |e| ==> full[q + x] == e[x]
  {
    assert full == full[..q] + full[q..];
  }

  lemma Halves(s: seq<byte>, i: nat, next: nat)
    requires i <= next <= |s|
    ensures s[i..] == s[i..next] + s[next..]
  {
  }

  /** What the escaper writes for the character at `i`. */
  function EscapedChar(cs: Charset, s: seq<byte>, i: nat): seq<byte>
    requires i < |s| && cs.CharLen(s, i) <= |s| - i
  {
    if cs.mblen(s, i) > 0 then s[i..i + cs.mblen(s, i)]
    else if cs.lead(s[i]) then [BACKSLASH, s[i]]
    else if EscapeLetter(s[i]) != 0 then [BACKSLASH, EscapeLetter(s[i])]
    else [s[i]]
  }

  /** The escaped form of `s[i..]`. */
  ghost function Escaped(cs: Charset, s: seq<byte>, i: nat): (r: seq<byte>)
    requires cs.Valid() && i <= |s|
    decreases |s| - i
  {
    if i == |s| then []
    else
      cs.CharLenFits(s, i);
      EscapedChar(cs, s, i) + Escaped(cs, s, i + cs.CharLen(s, i))
  }

  lemma EscapedSize(cs: Charset, s: seq<byte>, i: nat)
    requires cs.Valid() && i < |s| && cs.CharLen(s, i) <= |s| - i
    ensures var e := EscapedChar(cs, s, i);
            1 <= |e| <= 2 * cs.CharLen(s, i)
  {
  }

  lemma EscapedStep(cs: Charset, s: seq<byte>, i: nat) returns (e: seq<byte>, next: nat)
    requires cs.Valid() && i < |s|
    ensures next == i + cs.CharLen(s, i) && i < next <= |s| && e == EscapedChar(cs, s, i)
    ensures 1 <= |e| <= 2 * (next - i)
    ensures Escaped(cs, s, i) == e + Escaped(cs, s, next)
  {
    cs.CharLenFits(s, i);
    e, next := EscapedChar(cs, s, i), i + cs.CharLen(s, i);
    EscapedSize(cs, s, i);
    EscapedUnfold(cs, s, i, e, next);
  }

  lemma EscapedUnfold(cs: Charset, s: seq<byte>, i: nat, e: seq<byte>, next: nat)
    requires cs.Valid() && i < |s| && next == i + cs.CharLen(s, i) <= |s| && e == EscapedChar(cs, s, i)
    ensures Escaped(cs, s, i) == e + Escaped(cs, s, next)
  {
  }

  /** Reading an escaped string from position `i`, character by character. */
  ghost function Unescaped(cs: Charset, t: seq<byte>, i: nat): seq<byte>
    requires cs.Valid() && i <= |t|
    decreases |t| - i
  {
    if i == |t| then []
    else
      cs.CharLenFits(t, i);
      if cs.mblen(t, i) > 0 then t[i..i + cs.mblen(t, i)] + Unescaped(cs, t, i + cs.mblen(t, i))
      else if t[i] == BACKSLASH && i + 1 < |t| then [UnescapeLetter(t[i + 1])] + Unescaped(cs, t, i + 2)
      else [t[i]] + Unescaped(cs, t, i + 1)
  }

  /** What was written for one character is read back as that character. */
  lemma ReadBack(cs: Charset, s: seq<byte>, i: nat, t: seq<byte>, k: nat, e: seq<byte>,
                                    next: nat, end: nat)
    requires cs.Valid() && AsciiAlone(cs) && i < |s| && next == i + cs.CharLen(s, i) <= |s| && end == k + |e|
    requires e == EscapedChar(cs, s, i) && end <= |t| && forall x :: 0 <= x < |e| ==> t[k + x] == e[x]
    ensures Unescaped(cs, t, k) == s[i..next] + Unescaped(cs, t, end)
  {
    assert e[0] == t[k + 0];
    if cs.mblen(s, i) > 0 {
      assert t[k..k + |e|] == e;
      assert cs.SameHead(s, i, t, k);
    } else {
      assert cs.MbFits(t, k);
      if |e| == 2 {
        assert t[k + 1] == e[1] && UnescapeLetter(e[1]) == s[i];
      }
      assert s[i..i + 1] == [s[i]];
    }
  }

  lemma {:induction false} UnescapedEscaped(cs: Charset, s: seq<byte>, i: nat, t: seq<byte>, k: nat)
    requires cs.Valid() && AsciiAlone(cs) && i <= |s| && k <= |t| && t[k..] == Escaped(cs, s, i)
    ensures Unescaped(cs, t, k) == s[i..]
    decreases |s| - i
  {
    if i < |s| {
      var e, next := EscapedStep(cs, s, i);
      var end := k + |e|;
      Advance(t, k, e, Escaped(cs, s, next), end);
      ReadBack(cs, s, i, t, k, e, next, end);
      UnescapedEscaped(cs, s, next, t, end);
      Halves(s, i, next);
    }
  }

  /** Escaping is uniquely decodable. */
  lemma EscapeRoundTrip(cs: Charset, s: seq<byte>)
    requires cs.Valid() && AsciiAlone(cs)
    ensures Unescaped(cs, Escaped(cs, s, 0), 0) == s
  {
    var t := Escaped(cs, s, 0);
    assert t[0..] == t && s[0..] == s;
    UnescapedEscaped(cs, s, 0, t, 0);
  }

  /** The delimiters of a quoted string: the apostrophe and the double quote. */
  predicate IsDelimiter(d: byte) { d == 0x27 || d == 0x22 }

  /** Where a character-wise scan from `i` on finds the delimiter that ends a quoted string; `|t|` if nowhere. */
  ghost function ScanEnd(cs: Charset, d: byte, t: seq<byte>, i: nat): nat
    requires cs.Valid() && i <= |t|
    decreases |t| - i
  {
    if i == |t| then i
    else
      cs.CharLenFits(t, i);
      if cs.mblen(t, i) > 0 then ScanEnd(cs, d, t, i + cs.mblen(t, i))
      else if t[i] == BACKSLASH && i + 1 < |t| then ScanEnd(cs, d, t, i + 2)
      else if t[i] == d then i
      else ScanEnd(cs, d, t, i + 1)
  }

  /** The scan goes over what is written for one character. */
  lemma ScanOver(cs: Charset, d: byte, s: seq<byte>, i: nat, t: seq<byte>, k: nat, e: seq<byte>, end: nat)
    requires cs.Valid() && AsciiAlone(cs) && IsDelimiter(d)
    requires i < |s| && cs.CharLen(s, i) <= |s| - i && end == k + |e|
    requires e == EscapedChar(cs, s, i) && end <= |t| && forall x :: 0 <= x < |e| ==> t[k + x] == e[x]
    ensures ScanEnd(cs, d, t, k) == ScanEnd(cs, d, t, end)
  {
    assert e[0] == t[k + 0];
    if cs.mblen(s, i) > 0 {
      assert t[k..k + |e|] == e;
      assert cs.SameHead(s, i, t, k);
    } else {
      assert cs.MbFits(t, k);
    }
  }

  /** In `t` at `k` stand `e`, then `q` and then `close`. */
  lemma AdvanceBoth(t: seq<byte>, k: nat, e: seq<byte>, q: seq<byte>, close: seq<byte>, end: nat)
    requires k <= |t| && t[k..] == (e + q) + close && end == k + |e| && close != []
    ensures end < |t| && t[end..] == q + close && forall x :: 0 <= x < |e| ==> t[k + x] == e[x]
    ensures t[end] == if q == [] then close[0] else q[0]
  {
    assert (e + q) + close == e + (q + close);
    Advance(t, k, e, q + close, end);
    assert t[end] == t[end..][0] == (q + close)[0];
  }

  lemma {:induction false} ScanEscaped(cs: Charset, d: byte, s: seq<byte>, i: nat, t: seq<byte>, k: nat,
                                       close: seq<byte>)
    requires cs.Valid() && AsciiAlone(cs) && i <= |s| && k <= |t| && t[k..] == Escaped(cs, s, i) + close
    requires close != [] && close[0] == d && IsDelimiter(d)
    ensures ScanEnd(cs, d, t, k) == k + |Escaped(cs, s, i)|
    decreases |s| - i
  {
    if i == |s| {
      AdvanceBoth(t, k, [], [], close, k);
      assert cs.MbFits(t, k);
    } else {
      var e, next := EscapedStep(cs, s, i);
      var end := k + |e|;
      AdvanceBoth(t, k, e, Escaped(cs, s, next), close, end);
      ScanOver(cs, d, s, i, t, k, e, end);
      ScanEscaped(cs, d, s, next, t, end, close);
    }
  }

  /** A quoted string ends at the delimiter behind its escaped contents, whatever these are and whatever follows. */
  lemma QuotedEscapedEnds(cs: Charset, d: byte, s: seq<byte>, rest: seq<byte>)
    requires cs.Valid() && AsciiAlone(cs) && IsDelimiter(d)
    ensures ScanEnd(cs, d, [d] + Escaped(cs, s, 0) + [d] + rest, 1) == 1 + |Escaped(cs, s, 0)|
  {
    var t := [d] + Escaped(cs, s, 0) + [d] + rest;
    assert t[1..] == Escaped(cs, s, 0) + ([d] + rest);
    ScanEscaped(cs, d, s, 0, t, 1, [d] + rest);
  }

  /** The output is at most twice as long as the input. */
  lemma {:induction false} EscapedLength(cs: Charset, s: seq<byte>, i: nat)
    requires cs.Valid() && i <= |s|
    ensures |Escaped(cs, s, i)| <= 2 * (|s| - i)
    decreases |s| - i
  {
    if i < |s| {
      var e, next := EscapedStep(cs, s, i);
      EscapedLength(cs, s, next);
    }
  }

  /** The bytes 0, LF, CR and 0x1a. */
  predicate IsControl(b: byte) { b in {0x00, 0x0a, 0x0d, 0x1a} }

  /** No multi-byte character has such a byte. */
  ghost predicate NoControls(cs: Charset) {
    forall s, i :: CharWithoutControls(cs, s, i)
  }

  ghost predicate CharWithoutControls(cs: Charset, s: seq<byte>, i: nat) {
    i < |s| && 0 < cs.mblen(s, i) <= |s| - i ==> forall k :: i <= k < i + cs.mblen(s, i) ==> !IsControl(s[k])
  }

  lemma Big5NoControls(weight: byte -> byte)
    ensures NoControls(Big5(weight)) && NoControls(EightBit(weight))
  {
  }

  lemma CharClean(cs: Charset, s: seq<byte>, i: nat, e: seq<byte>)
    requires cs.Valid() && AsciiAlone(cs) && NoControls(cs) && i < |s| && cs.CharLen(s, i) <= |s| - i
    requires e == EscapedChar(cs, s, i)
    ensures forall k :: 0 <= k < |e| ==> !IsControl(e[k])
  {
    assert CharWithoutControls(cs, s, i);
  }

  /** The output has none of them, whatever the input. */
  lemma {:induction false} EscapedClean(cs: Charset, s: seq<byte>, i: nat)
    requires cs.Valid() && AsciiAlone(cs) && NoControls(cs) && i <= |s|
    ensures forall k :: 0 <= k < |Escaped(cs, s, i)| ==> !IsControl(Escaped(cs, s, i)[k])
    decreases |s| - i
  {
    if i < |s| {
      var e, next := EscapedStep(cs, s, i);
      CharClean(cs, s, i, e);
      EscapedClean(cs, s, next);
    }
  }

  /** Each byte on its own, in bytes: a control character as a letter behind a backslash, a quote behind one. */
  lemma ByteEscaped(cs: Charset, b: byte)
    requires cs.Valid() && AsciiAlone(cs)
    ensures Escaped(cs, [b], 0)
            == (if b == 0x00 then [0x5c, 0x30] else if b == 0x0a then [0x5c, 0x6e] else if b == 0x0d then [0x5c, 0x72]
                else if b == 0x1a then [0x5c, 0x5a] else if b in {0x22, 0x27, 0x5c} || cs.lead(b) then [0x5c, b]
                else [b])
    ensures Unescaped(cs, Escaped(cs, [b], 0), 0) == [b]
  {
    EscapeRoundTrip(cs, [b]);
    var e, next := EscapedStep(cs, [b], 0);
    assert cs.MbFits([b], 0);
    assert Escaped(cs, [b], 1) == [];
  }

  /** The number of bytes that may be written in front of the final NUL. */
  function Room(toLength: nat, length: nat): nat {
    if toLength > 0 then toLength - 1 else 2 * length
  }

  /** The result of both escapers, `(size_t) -1` being -1, and what they leave in the buffer. */
  ghost predicate Written(to: seq<byte>, r: int, full: seq<byte>, room: nat)
    requires room < |to|
  {
    if |full| <= room then r == |full| && to[..|full|] == full && to[|full|] == 0
    else r == -1 && exists q :: 0 <= q <= room && to[q] == 0 && to[..q] == full[..q]
  }

  /** Write `e` at `to[q]`, where it stands in `full`. */
  method Append(to: array<byte>, q: nat, e: seq<byte>, ghost full: seq<byte>) returns (end: nat)
    requires q + |e| <= to.Length && q + |e| <= |full|
    requires to[..q] == full[..q] && forall x :: 0 <= x < |e| ==> full[q + x] == e[x]
    modifies to
    ensures end == q + |e| && to[..end] == full[..end]
    ensures forall x :: end <= x < to.Length ==> to[x] == old(to[x])
  {
    end := q + |e|;
    assert forall x :: 0 <= x < q ==> to[x] == to[..q][x] == full[..q][x];
    for k := 0 to |e|
      invariant forall x :: 0 <= x < q + k ==> to[x] == full[x]
      invariant forall x :: q + k <= x < to.Length ==> to[x] == old(to[x])
    {
      to[q + k] := e[k];
    }
  }

  /** Write `e`, which is the next part of `full`, if there is room for it. */
  method Emit(to: array<byte>, q: nat, e: seq<byte>, room: nat, ghost full: seq<byte>, ghost rest: seq<byte>)
    returns (ok: bool, end: nat)
    requires q <= room < to.Length && q <= |full| && to[..q] == full[..q] && full[q..] == e + rest
    modifies to
    ensures ok ==> q <= end <= room && end <= |full| && to[..end] == full[..end] && full[end..] == rest
    ensures !ok ==> end == q && |full| > room && to[..q] == full[..q]
    ensures q <= end <= room && forall x :: room < x < to.Length ==> to[x] == old(to[x])
  {
    Advance(full, q, e, rest, q + |e|);
    ok, end := q + |e| <= room, q;
    if ok {
      end := Append(to, q, e, full);
    }
  }

  /** Write the final NUL. */
  method Terminate(to: array<byte>, q: nat, overflow: bool, room: nat, ghost full: seq<byte>) returns (r: int)
    requires q <= room < to.Length && q <= |full| && to[..q] == full[..q]
    requires if overflow then |full| > room else q == |full|
    modifies to
    ensures Written(to[..], r, full, room) && (r == -1 <==> |full| > room)
    ensures forall x :: room < x < to.Length ==> to[x] == old(to[x])
  {
    to[q] := 0;
    assert to[..][..q] == full[..q];
    return if overflow then -1 else q;
  }

  /** One turn of the loop of `escape_string_for_mysql`: the bytes for the character at `i`, and the next position. */
  method EscapeStep(cs: Charset, from: seq<byte>, i: nat) returns (e: seq<byte>, next: nat)
    requires cs.Valid() && i < |from|
    ensures i < next <= |from| && Escaped(cs, from, i) == e + Escaped(cs, from, next)
  {
    ghost var e0, n0 := EscapedStep(cs, from, i);
    e, next := EscapedChar(cs, from, i), i + cs.CharLen(from, i);
    assert e == e0 && next == n0;
  }

  /** `escape_string_for_mysql`; `toLength` 0 means "big enough". */
  method EscapeString(cs: Charset, to: array<byte>, toLength: nat, from: seq<byte>) returns (r: int)
    requires cs.Valid() && if toLength > 0 then toLength <= to.Length else 2 * |from| < to.Length
    modifies to
    ensures Written(to[..], r, Escaped(cs, from, 0), Room(toLength, |from|))
    ensures r == -1 <==> 0 < toLength <= |Escaped(cs, from, 0)|
    ensures var size := if toLength > 0 then toLength else 2 * |from| + 1;
            forall x :: size <= x < to.Length ==> to[x] == old(to[x])
  {
    ghost var full := Escaped(cs, from, 0);
    EscapedLength(cs, from, 0);
    var room := Room(toLength, |from|);
    var i: nat, q: nat, overflow := 0, 0, false;
    while i < |from|
      invariant i <= |from| && q <= room && q <= |full|
      invariant to[..q] == full[..q] && full[q..] == Escaped(cs, from, i)
      invariant forall x :: room < x < to.Length ==> to[x] == old(to[x])
      decreases |from| - i
    {
      var e, next := EscapeStep(cs, from, i);
      var ok;
      ok, q := Emit(to, q, e, room, full, Escaped(cs, from, next));
      if !ok {
        overflow := true;
        break;
      }
      i := next;
    }
    r := Terminate(to, q, overflow, room, full);
  }

  // ----- doubling of apostrophes

  /** What the doubler writes for the character at `i`. */
  function QuotedChar(cs: Charset, s: seq<byte>, i: nat): seq<byte>
    requires i < |s| && cs.CharLen(s, i) <= |s| - i
  {
    if cs.mblen(s, i) > 0 then s[i..i + cs.mblen(s, i)]
    else if s[i] == QUOTE then [QUOTE, QUOTE]
    else [s[i]]
  }

  /** The doubled form of `s[i..]`. */
  ghost function Quoted(cs: Charset, s: seq<byte>, i: nat): (r: seq<byte>)
    requires cs.Valid() && i <= |s|
    decreases |s| - i
  {
    if i == |s| then []
    else
      cs.CharLenFits(s, i);
      QuotedChar(cs, s, i) + Quoted(cs, s, i + cs.CharLen(s, i))
  }

  lemma QuotedSize(cs: Charset, s: seq<byte>, i: nat)
    requires cs.Valid() && i < |s| && cs.CharLen(s, i) <= |s| - i
    ensures var e := QuotedChar(cs, s, i);
            1 <= |e| <= 2 * cs.CharLen(s, i) && e[0] == s[i]
  {
  }

  lemma QuotedStep(cs: Charset, s: seq<byte>, i: nat) returns (e: seq<byte>, next: nat)
    requires cs.Valid() && i < |s|
    ensures next == i + cs.CharLen(s, i) && i < next <= |s| && e == QuotedChar(cs, s, i)
    ensures 1 <= |e| <= 2 * (next - i) && e[0] == s[i]
    ensures Quoted(cs, s, i) == e + Quoted(cs, s, next)
  {
    cs.CharLenFits(s, i);
    e, next := QuotedChar(cs, s, i), i + cs.CharLen(s, i);
    QuotedSize(cs, s, i);
    QuotedUnfold(cs, s, i, e, next);
  }

  lemma QuotedUnfold(cs: Charset, s: seq<byte>, i: nat, e: seq<byte>, next: nat)
    requires cs.Valid() && i < |s| && next == i + cs.CharLen(s, i) <= |s| && e == QuotedChar(cs, s, i)
    ensures Quoted(cs, s, i) == e + Quoted(cs, s, next)
  {
  }

  /** The doubled form starts as the string does. */
  lemma QuotedHead(cs: Charset, s: seq<byte>, i: nat)
    requires cs.Valid() && i <= |s|
    ensures if i == |s| then Quoted(cs, s, i) == [] else Quoted(cs, s, i) != [] && Quoted(cs, s, i)[0] == s[i]
  {
    if i < |s| {
      var e, next := QuotedStep(cs, s, i);
    }
  }

  /** Reading a doubled string from position `i`, character by character. */
  ghost function Unquoted(cs: Charset, t: seq<byte>, i: nat): seq<byte>
    requires cs.Valid() && i <= |t|
    decreases |t| - i
  {
    if i == |t| then []
    else
      cs.CharLenFits(t, i);
      if cs.mblen(t, i) > 0 then t[i..i + cs.mblen(t, i)] + Unquoted(cs, t, i + cs.mblen(t, i))
      else if t[i] == QUOTE && i + 1 < |t| && t[i + 1] == QUOTE then [QUOTE] + Unquoted(cs, t, i + 2)
      else [t[i]] + Unquoted(cs, t, i + 1)
  }

  /** `ReadBack` for doubling: a stray lead byte stays one because its next byte stays the same. */
  lemma ReadBackQuoted(cs: Charset, s: seq<byte>, i: nat, t: seq<byte>, k: nat, e: seq<byte>,
                                          next: nat, end: nat)
    requires cs.Valid() && AsciiAlone(cs) && DoubleByte(cs) && i < |s| && next == i + cs.CharLen(s, i) <= |s|
    requires end == k + |e|
    requires e == QuotedChar(cs, s, i) && end <= |t| && forall x :: 0 <= x < |e| ==> t[k + x] == e[x]
    requires cs.mblen(s, i) == 0 ==> if i + 1 == |s| then end == |t| else end < |t| && t[end] == s[i + 1]
    ensures Unquoted(cs, t, k) == s[i..next] + Unquoted(cs, t, end)
  {
    assert e[0] == t[k + 0];
    if cs.mblen(s, i) > 0 {
      assert t[k..k + |e|] == e;
      assert cs.SameHead(s, i, t, k);
    } else {
      assert cs.MbFits(t, k);
      if s[i] == QUOTE {
        assert t[k + 1] == e[1];
      } else if i + 1 < |s| {
        assert PairDecides(cs, s, i, t, k);
      }
      assert s[i..i + 1] == [s[i]];
    }
  }

  lemma {:induction false} UnquotedQuoted(cs: Charset, s: seq<byte>, i: nat, t: seq<byte>, k: nat)
    requires cs.Valid() && AsciiAlone(cs) && DoubleByte(cs) && i <= |s| && k <= |t| && t[k..] == Quoted(cs, s, i)
    ensures Unquoted(cs, t, k) == s[i..]
    decreases |s| - i
  {
    if i < |s| {
      var e, next := QuotedStep(cs, s, i);
      var end := k + |e|;
      Advance(t, k, e, Quoted(cs, s, next), end);
      QuotedHead(cs, s, next);
      assert t[end..] != [] ==> t[end] == t[end..][0];
      ReadBackQuoted(cs, s, i, t, k, e, next, end);
      UnquotedQuoted(cs, s, next, t, end);
      Halves(s, i, next);
    }
  }

  /** Doubling is uniquely decodable in the double-byte character sets. */
  lemma QuoteRoundTrip(cs: Charset, s: seq<byte>)
    requires cs.Valid() && AsciiAlone(cs) && DoubleByte(cs)
    ensures Unquoted(cs, Quoted(cs, s, 0), 0) == s
  {
    var t := Quoted(cs, s, 0);
    assert t[0..] == t && s[0..] == s;
    UnquotedQuoted(cs, s, 0, t, 0);
  }

  /** No two-byte character ends with an apostrophe. */
  ghost predicate QuoteNoTrail(cs: Charset) {
    forall t, k :: PairOpen(cs, t, k)
  }

  ghost predicate PairOpen(cs: Charset, t: seq<byte>, k: nat) {
    k + 1 < |t| && t[k + 1] == QUOTE ==> cs.mblen(t, k) == 0
  }

  lemma Big5QuoteNoTrail(weight: byte -> byte)
    ensures QuoteNoTrail(Big5(weight)) && QuoteNoTrail(EightBit(weight))
  {
  }

  /** `ScanEnd` where an apostrophe is doubled and a backslash is a byte like others. */
  ghost function ScanEndDoubled(cs: Charset, t: seq<byte>, i: nat): nat
    requires cs.Valid() && i <= |t|
    decreases |t| - i
  {
    if i == |t| then i
    else
      cs.CharLenFits(t, i);
      if cs.mblen(t, i) > 0 then ScanEndDoubled(cs, t, i + cs.mblen(t, i))
      else if t[i] != QUOTE then ScanEndDoubled(cs, t, i + 1)
      else if i + 1 < |t| && t[i + 1] == QUOTE then ScanEndDoubled(cs, t, i + 2)
      else i
  }

  /** `ScanOver` for doubling; what follows is the next byte of `s`, or the closing apostrophe. */
  lemma ScanOverQuoted(cs: Charset, s: seq<byte>, i: nat, t: seq<byte>, k: nat, e: seq<byte>, end: nat)
    requires cs.Valid() && AsciiAlone(cs) && DoubleByte(cs) && QuoteNoTrail(cs)
    requires i < |s| && cs.CharLen(s, i) <= |s| - i && end == k + |e| < |t|
    requires e == QuotedChar(cs, s, i) && forall x :: 0 <= x < |e| ==> t[k + x] == e[x]
    requires cs.mblen(s, i) == 0 ==> t[end] == if i + 1 == |s| then QUOTE else s[i + 1]
    ensures ScanEndDoubled(cs, t, k) == ScanEndDoubled(cs, t, end)
  {
    assert e[0] == t[k + 0];
    if cs.mblen(s, i) > 0 {
      assert t[k..k + |e|] == e;
      assert cs.SameHead(s, i, t, k);
    } else {
      assert cs.MbFits(t, k);
      if s[i] == QUOTE {
        assert t[k + 1] == e[1];
      } else if i + 1 < |s| {
        assert PairDecides(cs, s, i, t, k);
      } else {
        assert PairOpen(cs, t, k);
      }
    }
  }

  lemma {:induction false} ScanQuoted(cs: Charset, s: seq<byte>, i: nat, t: seq<byte>, k: nat, close: seq<byte>)
    requires cs.Valid() && AsciiAlone(cs) && DoubleByte(cs) && QuoteNoTrail(cs) && i <= |s| && k <= |t|
    requires t[k..] == Quoted(cs, s, i) + close
    requires close != [] && close[0] == QUOTE && (|close| > 1 ==> close[1] != QUOTE)
    ensures ScanEndDoubled(cs, t, k) == k + |Quoted(cs, s, i)|
    decreases |s| - i
  {
    if i == |s| {
      ScanEnded(cs, t, k, close);
    } else {
      var e, next := QuotedStep(cs, s, i);
      var end := k + |e|;
      ScanCharQuoted(cs, s, i, t, k, close, e, next, end);
      ScanQuoted(cs, s, next, t, end, close);
    }
  }

  /** The scan goes over one character, and the others are behind it. */
  lemma ScanCharQuoted(cs: Charset, s: seq<byte>, i: nat, t: seq<byte>, k: nat, close: seq<byte>, e: seq<byte>,
                       next: nat, end: nat)
    requires cs.Valid() && AsciiAlone(cs) && DoubleByte(cs) && QuoteNoTrail(cs) && i < |s| && k <= |t|
    requires next == i + cs.CharLen(s, i) <= |s| && e == QuotedChar(cs, s, i) && end == k + |e|
    requires t[k..] == (e + Quoted(cs, s, next)) + close && close != [] && close[0] == QUOTE
    ensures end <= |t| && t[end..] == Quoted(cs, s, next) + close
    ensures ScanEndDoubled(cs, t, k) == ScanEndDoubled(cs, t, end)
  {
    AdvanceBoth(t, k, e, Quoted(cs, s, next), close, end);
    QuotedHead(cs, s, next);
    ScanOverQuoted(cs, s, i, t, k, e, end);
  }

  lemma ScanEnded(cs: Charset, t: seq<byte>, k: nat, close: seq<byte>)
    requires cs.Valid() && AsciiAlone(cs) && k <= |t| && t[k..] == [] + close
    requires close != [] && close[0] == QUOTE && (|close| > 1 ==> close[1] != QUOTE)
    ensures ScanEndDoubled(cs, t, k) == k
  {
    ClosingQuote(t, k, close);
    assert cs.MbFits(t, k);
  }

  lemma ClosingQuote(t: seq<byte>, k: nat, close: seq<byte>)
    requires k <= |t| && t[k..] == [] + close && close != [] && close[0] == QUOTE && (|close| > 1 ==> close[1] != QUOTE)
    ensures k < |t| && t[k] == QUOTE && (k + 1 < |t| ==> t[k + 1] != QUOTE)
  {
    assert t[k] == t[k..][0];
    if k + 1 < |t| {
      assert t[k + 1] == t[k..][1];
    }
  }

  /** With doubling too a quoted string ends where it should, if no further apostrophe follows. */
  lemma QuotedDoubledEnds(cs: Charset, s: seq<byte>, rest: seq<byte>)
    requires cs.Valid() && AsciiAlone(cs) && DoubleByte(cs) && QuoteNoTrail(cs) && (rest == [] || rest[0] != QUOTE)
    ensures ScanEndDoubled(cs, [QUOTE] + Quoted(cs, s, 0) + [QUOTE] + rest, 1) == 1 + |Quoted(cs, s, 0)|
  {
    var t := [QUOTE] + Quoted(cs, s, 0) + [QUOTE] + rest;
    assert t[1..] == Quoted(cs, s, 0) + ([QUOTE] + rest);
    ScanQuoted(cs, s, 0, t, 1, [QUOTE] + rest);
  }

  /** The output is at most twice as long as the input. */
  lemma {:induction false} QuotedLength(cs: Charset, s: seq<byte>, i: nat)
    requires cs.Valid() && i <= |s|
    ensures |Quoted(cs, s, i)| <= 2 * (|s| - i)
    decreases |s| - i
  {
    if i < |s| {
      var e, next := QuotedStep(cs, s, i);
      QuotedLength(cs, s, next);
    }
  }

  /** Each byte on its own: the apostrophe, and nothing else, is doubled. */
  lemma ByteDoubled(cs: Charset, b: byte)
    requires cs.Valid()
    ensures Quoted(cs, [b], 0) == if b == 0x27 then [0x27, 0x27] else [b]
  {
    var e, next := QuotedStep(cs, [b], 0);
    assert cs.MbFits([b], 0);
    assert Quoted(cs, [b], 1) == [];
  }

  /** One turn of the loop of `escape_quotes_for_mysql`. */
  method QuoteStep(cs: Charset, from: seq<byte>, i: nat) returns (e: seq<byte>, next: nat)
    requires cs.Valid() && i < |from|
    ensures i < next <= |from| && Quoted(cs, from, i) == e + Quoted(cs, from, next)
  {
    ghost var e0, n0 := QuotedStep(cs, from, i);
    e, next := QuotedChar(cs, from, i), i + cs.CharLen(from, i);
    assert e == e0 && next == n0;
  }

  /** `escape_quotes_for_mysql`. */
  method EscapeQuotes(cs: Charset, to: array<byte>, toLength: nat, from: seq<byte>) returns (r: int)
    requires cs.Valid() && if toLength > 0 then toLength <= to.Length else 2 * |from| < to.Length
    modifies to
    ensures Written(to[..], r, Quoted(cs, from, 0), Room(toLength, |from|))
    ensures r == -1 <==> 0 < toLength <= |Quoted(cs, from, 0)|
    ensures var size := if toLength > 0 then toLength else 2 * |from| + 1;
            forall x :: size <= x < to.Length ==> to[x] == old(to[x])
  {
    ghost var full := Quoted(cs, from, 0);
    QuotedLength(cs, from, 0);
    var room := Room(toLength, |from|);
    var i: nat, q: nat, overflow := 0, 0, false;
    while i < |from|
      invariant i <= |from| && q <= room && q <= |full|
      invariant to[..q] == full[..q] && full[q..] == Quoted(cs, from, i)
      invariant forall x :: room < x < to.Length ==> to[x] == old(to[x])
      decreases |from| - i
    {
      var e, next := QuoteStep(cs, from, i);
      var ok;
      ok, q := Emit(to, q, e, room, full, Quoted(cs, from, next));
      if !ok {
        overflow := true;
        break;
      }
      i := next;
    }
    r := Terminate(to, q, overflow, room, full);
  }
}
