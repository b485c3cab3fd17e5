/** What the three special characters of a pattern are for. */
module LikeEscapes {
  import opened Bytes
  import opened Charsets
  import opened LikeSpec

  /**
   The string `u` as a pattern for itself: an escape in front of each special character and, as one likes,
   in front of the characters at the positions in `also`.
   */
  ghost function Quoted(cs: Charset, m: Wild, also: set<nat>, u: seq<byte>, i: nat): seq<byte>
    requires cs.Valid() && i <= |u|
    decreases |u| - i
  {
    if i == |u| then []
    else
      cs.CharLenFits(u, i);
      var next := i + cs.CharLen(u, i);
      var special := cs.mblen(u, i) == 0 && (u[i] == m.escape || u[i] == m.one || u[i] == m.many);
      (if special || i in also then [m.escape] else []) + u[i..next] + Quoted(cs, m, also, u, next)
  }

  /** Two strings have the same characters up to weight. */
  ghost predicate SameChars(cs: Charset, c: seq<seq<byte>>, d: seq<seq<byte>>) {
    |c| == |d| && forall k :: 0 <= k < |c| ==> cs.Same(c[k], d[k])
  }

  /** A pattern of literals. */
  ghost function Literals(c: seq<seq<byte>>): seq<Token> {
    seq(|c|, k requires 0 <= k < |c| => Literal(c[k]))
  }

  lemma {:induction false} LiteralsMatch(cs: Charset, c: seq<seq<byte>>, d: seq<seq<byte>>)
    ensures Matches(cs, Literals(c), d) <==> SameChars(cs, c, d)
    ensures !Blind(Literals(c), false) && !EndsBehind(Literals(c), false)
    decreases |c|
  {
    if c != [] {
      assert Literals(c)[1..] == Literals(c[1..]);
      if d != [] {
        LiteralsMatch(cs, c[1..], d[1..]);
        SameCharsCons(cs, c, d);
      } else {
        LiteralsMatch(cs, c[1..], []);
      }
    }
  }

  lemma SameCharsCons(cs: Charset, c: seq<seq<byte>>, d: seq<seq<byte>>)
    requires c != [] && d != []
    ensures SameChars(cs, c, d) <==> cs.Same(c[0], d[0]) && SameChars(cs, c[1..], d[1..])
  {
    if cs.Same(c[0], d[0]) && SameChars(cs, c[1..], d[1..]) {
      forall k | 0 <= k < |c| ensures cs.Same(c[k], d[k]) {
        assert k > 0 ==> c[k] == c[1..][k - 1] && d[k] == d[1..][k - 1];
      }
    }
  }

  /** The first part of `p[k..]`, and what is behind it. */
  lemma Parts(p: seq<byte>, k: nat, e: seq<byte>, rest: seq<byte>)
    requires k <= |p| && p[k..] == e + rest
    ensures k + |e| <= |p| && p[k..k + |e|] == e && p[k + |e|..] == rest
    ensures forall x :: 0 <= x < |e| ==> p[k + x] == e[x]
  {
    assert p == p[..k] + (e + rest);
  }

  /** A multi-byte character is one wherever it stands, and never a special character. */
  lemma MbPlaced(cs: Charset, m: Wild, u: seq<byte>, i: nat, c: seq<byte>, p: seq<byte>, at: nat, end: nat)
    requires cs.Valid() && m.Valid(cs) && i < |u| && cs.mblen(u, i) > 0
    requires i + |c| <= |u| && |c| == cs.mblen(u, i) && c == u[i..i + |c|]
    requires at < end <= |p| && end == at + |c| && p[at..end] == c
    ensures cs.mblen(p, at) == |c| > 1 && !m.IsWild(p[at]) && p[at] != m.escape
  {
    assert cs.SameHead(u, i, p, at) && cs.MbFits(u, i) && cs.MbFits(p, at);
    assert cs.Apart(m.escape, p[at]) && cs.Apart(m.one, p[at]) && cs.Apart(m.many, p[at]);
  }

  /** The token of a character, behind an escape or without need of one. */
  lemma TokenPlaced(cs: Charset, m: Wild, c: seq<byte>, p: seq<byte>, k: nat, at: nat, end: nat)
    requires cs.Valid() && m.Valid(cs) && at < end <= |p| && end == at + cs.CharLen(p, at) && p[at..end] == c
    requires |c| > 1 || cs.single(p[at])
    requires (at == k && !m.IsWild(p[at]) && p[at] != m.escape) || (at == k + 1 && p[k] == m.escape)
    ensures Tokens(cs, m, p, k) == [Literal(c)] + Tokens(cs, m, p, end)
    ensures cs.WellFormed(p, end) ==> cs.WellFormed(p, k)
  {
    assert cs.WellFormed(p, end) ==> cs.WellFormed(p, at);
    if at > k {
      cs.SingleLength(p, k);
    }
    assert TokenEnd(cs, m, p, k) == end && TokenAt(cs, m, p, k) == Literal(c);
  }

  /** Is the character at `i` escaped? */
  predicate Marked(cs: Charset, m: Wild, also: set<nat>, u: seq<byte>, i: nat)
    requires i < |u|
  {
    (cs.mblen(u, i) == 0 && (u[i] == m.escape || u[i] == m.one || u[i] == m.many)) || i in also
  }

  /** What is written for one character. */
  function QuotedChar(cs: Charset, m: Wild, also: set<nat>, u: seq<byte>, i: nat, next: nat): seq<byte>
    requires i < next <= |u|
  {
    if Marked(cs, m, also, u, i) then [m.escape] + u[i..next] else u[i..next]
  }

  lemma FirstOfQuoted(cs: Charset, m: Wild, also: set<nat>, u: seq<byte>, i: nat, next: nat)
    requires cs.Valid() && i < |u| && next == i + cs.CharLen(u, i) <= |u|
    ensures Quoted(cs, m, also, u, i) == QuotedChar(cs, m, also, u, i, next) + Quoted(cs, m, also, u, next)
  {
    var rest := Quoted(cs, m, also, u, next);
    assert [] + u[i..next] == u[i..next];
    assert Quoted(cs, m, also, u, i) == (if Marked(cs, m, also, u, i) then [m.escape] else []) + u[i..next] + rest;
  }

  lemma FirstOfLiterals(cs: Charset, u: seq<byte>, i: nat, next: nat)
    requires cs.Valid() && i < |u| && next == i + cs.CharLen(u, i) <= |u|
    ensures Literals(cs.Chars(u, i)) == [Literal(u[i..next])] + Literals(cs.Chars(u, next))
  {
    assert cs.Chars(u, i) == [u[i..next]] + cs.Chars(u, next);
  }

  /** Where the bytes of a character come to be. */
  lemma CharPlaced(cs: Charset, m: Wild, also: set<nat>, u: seq<byte>, i: nat, next: nat, p: seq<byte>, k: nat,
                   at: nat, end: nat)
    requires i < next <= |u| && at == (if Marked(cs, m, also, u, i) then k + 1 else k)
    requires end == k + |QuotedChar(cs, m, also, u, i, next)| <= |p|
    requires p[k..end] == QuotedChar(cs, m, also, u, i, next)
    ensures end == at + (next - i) && p[at..end] == u[i..next] && p[at] == u[i]
    ensures at > k ==> p[k] == m.escape
  {
    assert p[at..end] == p[k..end][at - k..] == u[i..next];
    assert p[at] == p[at..end][0] && p[k] == p[k..end][0];
  }

  /** The token of a character. */
  lemma TokenOfChar(cs: Charset, m: Wild, also: set<nat>, u: seq<byte>, i: nat, next: nat, p: seq<byte>, k: nat,
                    end: nat)
    requires cs.Valid() && m.Valid(cs) && i < |u| && cs.WellFormed(u, i) && next == i + cs.CharLen(u, i) <= |u|
    requires end == k + |QuotedChar(cs, m, also, u, i, next)| <= |p|
    requires p[k..end] == QuotedChar(cs, m, also, u, i, next)
    ensures Tokens(cs, m, p, k) == [Literal(u[i..next])] + Tokens(cs, m, p, end)
    ensures cs.WellFormed(p, end) ==> cs.WellFormed(p, k)
  {
    var at := if Marked(cs, m, also, u, i) then k + 1 else k;
    CharPlaced(cs, m, also, u, i, next, p, k, at, end);
    var c := u[i..next];
    if cs.mblen(u, i) > 0 {
      MbPlaced(cs, m, u, i, c, p, at, end);
    } else {
      cs.SingleLength(p, at);
    }
    TokenPlaced(cs, m, c, p, k, at, end);
  }

  lemma {:induction false} TokensQuoted(cs: Charset, m: Wild, also: set<nat>, u: seq<byte>, i: nat,
                                        p: seq<byte>, k: nat)
    requires cs.Valid() && m.Valid(cs) && i <= |u| && cs.WellFormed(u, i)
    requires k <= |p| && p[k..] == Quoted(cs, m, also, u, i)
    ensures Tokens(cs, m, p, k) == Literals(cs.Chars(u, i)) && cs.WellFormed(p, k)
    decreases |u| - i
  {
    if i < |u| {
      cs.CharLenFits(u, i);
      var next := i + cs.CharLen(u, i);
      var e := QuotedChar(cs, m, also, u, i, next);
      var end := k + |e|;
      FirstOfQuoted(cs, m, also, u, i, next);
      FirstOfLiterals(cs, u, i, next);
      Parts(p, k, e, Quoted(cs, m, also, u, next));
      TokensQuoted(cs, m, also, u, next, p, end);
      TokenOfChar(cs, m, also, u, i, next, p, k, end);
    }
  }

  /** A string with its special characters escaped, and others as one likes, matches exactly its own characters. */
  lemma QuotedMatches(cs: Charset, m: Wild, also: set<nat>, u: seq<byte>, s: seq<byte>)
    requires cs.Valid() && m.Valid(cs) && cs.WellFormed(u, 0)
    ensures var p := Quoted(cs, m, also, u, 0);
            && cs.WellFormed(p, 0)
            && (Matches(cs, Tokens(cs, m, p, 0), cs.Chars(s, 0)) <==> SameChars(cs, cs.Chars(u, 0), cs.Chars(s, 0)))
  {
    var p := Quoted(cs, m, also, u, 0);
    assert p[0..] == p;
    TokensQuoted(cs, m, also, u, 0, p, 0);
    LiteralsMatch(cs, cs.Chars(u, 0), cs.Chars(s, 0));
  }

  /** The matchers find exactly these, whatever can mislead them elsewhere. */
  lemma QuotedAnswer(cs: Charset, m: Wild, also: set<nat>, u: seq<byte>, s: seq<byte>, r: int,
                     signedChar: bool, sentinel: bool)
    requires cs.Valid() && m.Valid(cs) && cs.WellFormed(u, 0)
    requires Correct(cs, Tokens(cs, m, Quoted(cs, m, also, u, 0), 0), cs.Chars(s, 0), r, signedChar, sentinel)
    ensures r == 0 <==> SameChars(cs, cs.Chars(u, 0), cs.Chars(s, 0))
  {
    var p := Quoted(cs, m, also, u, 0);
    assert p[0..] == p;
    QuotedMatches(cs, m, also, u, s);
    TokensQuoted(cs, m, also, u, 0, p, 0);
    LiteralsMatch(cs, cs.Chars(u, 0), cs.Chars(s, 0));
  }

  /** One character of the set. */
  predicate IsChar(cs: Charset, c: seq<byte>) {
    c != [] && (if |c| == 1 then cs.single(c[0]) else cs.mblen(c, 0) == |c|)
  }

  ghost predicate WritableToken(cs: Charset, t: Token) { t.Literal? ==> IsChar(cs, t.bytes) }

  ghost predicate Writable(cs: Charset, t: seq<Token>) {
    forall k :: 0 <= k < |t| ==> WritableToken(cs, t[k])
  }

  /** How a user writes one token. */
  function WrittenToken(m: Wild, t: Token): seq<byte> {
    match t
    case One => [m.one]
    case Many => [m.many]
    case Literal(c) => if |c| == 1 && c[0] in {m.escape, m.one, m.many} then [m.escape] + c else c
  }

  /** How a user writes a pattern. */
  function Written(m: Wild, t: seq<Token>): seq<byte> {
    if t == [] then [] else WrittenToken(m, t[0]) + Written(m, t[1..])
  }

  lemma WildPlaced(cs: Charset, m: Wild, p: seq<byte>, k: nat)
    requires cs.Valid() && m.Valid(cs) && k < |p| && m.IsWild(p[k])
    ensures Tokens(cs, m, p, k) == [if p[k] == m.many then Many else One] + Tokens(cs, m, p, k + 1)
    ensures cs.WellFormed(p, k + 1) ==> cs.WellFormed(p, k)
  {
    cs.SingleLength(p, k);
  }

  lemma CharAt(cs: Charset, m: Wild, c: seq<byte>, p: seq<byte>, at: nat, end: nat)
    requires cs.Valid() && m.Valid(cs) && IsChar(cs, c) && at <= end <= |p| && end == at + |c| && p[at..end] == c
    ensures end == at + cs.CharLen(p, at) && (|c| > 1 || cs.single(p[at]))
    ensures |c| > 1 ==> !m.IsWild(p[at]) && p[at] != m.escape
  {
    assert p[at] == p[at..end][0];
    if |c| > 1 {
      assert c == c[0..0 + |c|];
      MbPlaced(cs, m, c, 0, c, p, at, end);
    } else {
      cs.SingleLength(p, at);
    }
  }

  lemma LiteralPlaced(cs: Charset, m: Wild, c: seq<byte>, p: seq<byte>, k: nat, end: nat)
    requires cs.Valid() && m.Valid(cs) && IsChar(cs, c)
    requires end == k + |WrittenToken(m, Literal(c))| <= |p| && p[k..end] == WrittenToken(m, Literal(c))
    ensures Tokens(cs, m, p, k) == [Literal(c)] + Tokens(cs, m, p, end)
    ensures cs.WellFormed(p, end) ==> cs.WellFormed(p, k)
  {
    var at := if |c| == 1 && c[0] in {m.escape, m.one, m.many} then k + 1 else k;
    assert p[at..end] == p[k..end][at - k..] == c;
    assert p[k] == p[k..end][0] && p[at] == p[at..end][0];
    CharAt(cs, m, c, p, at, end);
    TokenPlaced(cs, m, c, p, k, at, end);
  }

  lemma TokenRead(cs: Charset, m: Wild, t: Token, p: seq<byte>, k: nat, end: nat)
    requires cs.Valid() && m.Valid(cs) && WritableToken(cs, t)
    requires end == k + |WrittenToken(m, t)| <= |p| && p[k..end] == WrittenToken(m, t)
    ensures Tokens(cs, m, p, k) == [t] + Tokens(cs, m, p, end)
    ensures cs.WellFormed(p, end) ==> cs.WellFormed(p, k)
  {
    if t.Literal? {
      LiteralPlaced(cs, m, t.bytes, p, k, end);
    } else {
      assert p[k] == p[k..end][0];
      WildPlaced(cs, m, p, k);
    }
  }

  /** A pattern is read as the tokens that it was written for. */
  lemma {:induction false} WrittenRead(cs: Charset, m: Wild, t: seq<Token>, p: seq<byte>, k: nat)
    requires cs.Valid() && m.Valid(cs) && Writable(cs, t) && k <= |p| && p[k..] == Written(m, t)
    ensures Tokens(cs, m, p, k) == t && cs.WellFormed(p, k)
    decreases |t|
  {
    if t != [] {
      var e, rest := WrittenToken(m, t[0]), Written(m, t[1..]);
      var end := k + |e|;
      Parts(p, k, e, rest);
      WrittenRead(cs, m, t[1..], p, end);
      TokenRead(cs, m, t[0], p, k, end);
      assert t == [t[0]] + t[1..];
    }
  }

  /** The matchers answer what the pattern was written for. */
  lemma WrittenAnswer(cs: Charset, m: Wild, t: seq<Token>, s: seq<byte>, r: int, signedChar: bool, sentinel: bool)
    requires cs.Valid() && m.Valid(cs) && Writable(cs, t)
    requires Correct(cs, Tokens(cs, m, Written(m, t), 0), cs.Chars(s, 0), r, signedChar, sentinel)
    ensures Correct(cs, t, cs.Chars(s, 0), r, signedChar, sentinel)
  {
    var p := Written(m, t);
    assert p[0..] == p;
    WrittenRead(cs, m, t, p, 0);
  }

  /** A lone `%` matches every string, a lone `_` those of one character. */
  lemma Wildcards(cs: Charset, m: Wild, s: seq<byte>)
    requires cs.Valid() && m.Valid(cs)
    ensures Matches(cs, Tokens(cs, m, [m.many], 0), cs.Chars(s, 0))
    ensures Matches(cs, Tokens(cs, m, [m.one], 0), cs.Chars(s, 0)) <==> |cs.Chars(s, 0)| == 1
  {
    var c := cs.Chars(s, 0);
    OneToken(cs, m, m.many);
    OneToken(cs, m, m.one);
    ManyLast(cs, c);
    assert [One][1..] == [];
    assert c != [] ==> (Matches(cs, [], c[1..]) <==> c[1..] == []);
  }

  /** An escape at the end of a pattern stands for itself. */
  lemma LoneEscape(cs: Charset, m: Wild, s: seq<byte>)
    requires cs.Valid() && m.Valid(cs)
    ensures Matches(cs, Tokens(cs, m, [m.escape], 0), cs.Chars(s, 0)) <==> SameChars(cs, [[m.escape]], cs.Chars(s, 0))
  {
    var p := [m.escape];
    cs.SingleLength(p, 0);
    assert p[0..1] == p && Tokens(cs, m, p, 1) == [];
    assert Tokens(cs, m, p, 0) == [TokenAt(cs, m, p, 0)] + Tokens(cs, m, p, 1) == Literals([p]);
    LiteralsMatch(cs, [p], cs.Chars(s, 0));
  }

  lemma OneToken(cs: Charset, m: Wild, b: byte)
    requires cs.Valid() && m.Valid(cs) && m.IsWild(b)
    ensures Tokens(cs, m, [b], 0) == [if b == m.many then Many else One]
  {
    assert Tokens(cs, m, [b], 0) == [TokenAt(cs, m, [b], 0)] + Tokens(cs, m, [b], 1);
    assert Tokens(cs, m, [b], 1) == [];
  }

  /** `big5_chinese_ci` takes two ASCII letters for the same exactly if they are one letter up to case. */
  lemma Big5Case(a: byte, b: byte)
    requires (0x41 <= a <= 0x5a || 0x61 <= a <= 0x7a) && (0x41 <= b <= 0x5a || 0x61 <= b <= 0x7a)
    ensures Big5(Big5SortOrder).Same([a], [b]) <==> a == b || a == b + 0x20 || b == a + 0x20
  {
  }

  /** For all bytes: the backquote weighs as "E" and the tilde as "Y". */
  lemma Big5Same(a: byte, b: byte)
    ensures Big5(Big5SortOrder).Same([a], [b])
            <==> a == b || (0x41 <= a <= 0x5a && b == a + 0x20) || (0x41 <= b <= 0x5a && a == b + 0x20)
                 || (a in {0x45, 0x60, 0x65} && b in {0x45, 0x60, 0x65})
                 || (a in {0x59, 0x79, 0x7e} && b in {0x59, 0x79, 0x7e})
  {
  }
}
