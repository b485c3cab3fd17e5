/**
 The meaning of the LIKE predicate, section 8.5 of ISO/IEC 9075-2: a pattern is a sequence of
 literals, `_` (one character) and `%` (any run of characters).
 */
module LikeSpec {
  import opened Bytes
  import opened Charsets

  /** The three special characters of a LIKE predicate. */
  datatype Wild = Wild(escape: byte, one: byte, many: byte)
  {
    /** They are distinct ASCII bytes, and characters on their own. */
    ghost predicate Valid(cs: Charset) {
      && escape != one && escape != many && one != many
      && escape < 128 && one < 128 && many < 128
      && cs.single(escape) && cs.single(one) && cs.single(many)
    }

    predicate IsWild(b: byte) { b == one || b == many }
  }

  datatype Token = One | Many | Literal(bytes: seq<byte>)

  /** The number of bytes of the escape character at `j`, if it escapes anything. */
  function EscapeLen(m: Wild, w: seq<byte>, j: nat): nat
    requires j < |w|
  {
    if w[j] == m.escape && j + 1 != |w| then 1 else 0
  }

  /** The position behind the token at `j`. */
  function TokenEnd(cs: Charset, m: Wild, w: seq<byte>, j: nat): (e: nat)
    requires j < |w|
    ensures e > j
  {
    if m.IsWild(w[j]) then j + 1
    else j + EscapeLen(m, w, j) + cs.CharLen(w, j + EscapeLen(m, w, j))
  }

  /** The token at `j`. */
  function TokenAt(cs: Charset, m: Wild, w: seq<byte>, j: nat): Token
    requires j < |w| && TokenEnd(cs, m, w, j) <= |w|
  {
    if w[j] == m.many then Many
    else if w[j] == m.one then One
    else Literal(w[j + EscapeLen(m, w, j)..TokenEnd(cs, m, w, j)])
  }

  lemma TokenFits(cs: Charset, m: Wild, w: seq<byte>, j: nat)
    requires cs.Valid() && j < |w|
    ensures TokenEnd(cs, m, w, j) <= |w|
  {
    cs.CharLenFits(w, j + EscapeLen(m, w, j));
  }

  /** The tokens of the pattern from position `j` on. */
  ghost function Tokens(cs: Charset, m: Wild, w: seq<byte>, j: nat): (r: seq<Token>)
    requires cs.Valid() && j <= |w|
    decreases |w| - j
  {
    if j == |w| then []
    else
      TokenFits(cs, m, w, j);
      [TokenAt(cs, m, w, j)] + Tokens(cs, m, w, TokenEnd(cs, m, w, j))
  }

  /** The characters `c` are in the language of the pattern `t`. */
  ghost predicate Matches(cs: Charset, t: seq<Token>, c: seq<seq<byte>>)
    decreases |t|
  {
    if t == [] then c == []
    else match t[0]
      case One => c != [] && Matches(cs, t[1..], c[1..])
      case Literal(x) => c != [] && cs.Same(x, c[0]) && Matches(cs, t[1..], c[1..])
      case Many => exists k :: 0 <= k <= |c| && Matches(cs, t[1..], c[k..])
  }

  /** The suffix of `c` that starts with its character number `k` is in the language of `t`. */
  ghost predicate MatchesFrom(cs: Charset, t: seq<Token>, c: seq<seq<byte>>, k: nat)
    requires k <= |c|
  {
    Matches(cs, t, c[k..])
  }

  /** No suffix of `c` at a character boundary, `c` included, is in the language of `t`. */
  ghost predicate NoSuffix(cs: Charset, t: seq<Token>, c: seq<seq<byte>>) {
    forall k :: 0 <= k <= |c| ==> !MatchesFrom(cs, t, c, k)
  }

  lemma NoSuffixNoMatch(cs: Charset, t: seq<Token>, c: seq<seq<byte>>)
    requires NoSuffix(cs, t, c)
    ensures !Matches(cs, t, c)
  {
    assert !MatchesFrom(cs, t, c, 0) && c[0..] == c;
  }

  /**
   The question whether `c` matches `t` has the answer `yes`; and if no suffix of `c` matches `t`,
   then `abort`: it is right to end the enclosing searches too.
   */
  ghost predicate Answers(cs: Charset, t: seq<Token>, c: seq<seq<byte>>, yes: bool, abort: bool) {
    (yes <==> Matches(cs, t, c)) && (NoSuffix(cs, t, c) ==> abort)
  }

  /** A token that takes exactly one character can be dropped with that character. */
  lemma TakeOne(cs: Charset, t: seq<Token>, c: seq<seq<byte>>, yes: bool, abort: bool)
    requires Answers(cs, t, c, yes, abort) && t != [] && t[0] != Many && c != []
    requires t[0].Literal? ==> cs.Same(t[0].bytes, c[0])
    ensures Answers(cs, t[1..], c[1..], yes, abort)
  {
    if NoSuffix(cs, t[1..], c[1..]) {
      forall k | 0 <= k <= |c| ensures !MatchesFrom(cs, t, c, k) {
        if k < |c| {
          assert !MatchesFrom(cs, t[1..], c[1..], k) && c[k..][1..] == c[1..][k..];
        }
      }
    }
  }

  /** Nothing is left for a token that needs a character. */
  lemma TooShort(cs: Charset, t: seq<Token>)
    requires t != [] && t[0] != Many
    ensures NoSuffix(cs, t, []) && !Matches(cs, [Many] + t, [])
  {
    assert ([Many] + t)[1..] == t;
  }

  /** A pattern that opens with `%` and fits a suffix fits the string. */
  lemma ManyExtends(cs: Charset, t: seq<Token>, c: seq<seq<byte>>, k: nat)
    requires t != [] && t[0] == Many && k <= |c| && Matches(cs, t, c[k..])
    ensures Matches(cs, t, c)
  {
    var l :| 0 <= l <= |c[k..]| && Matches(cs, t[1..], c[k..][l..]);
    assert c[k..][l..] == c[k + l..];
  }

  /** A pattern that opens with `%` and misses the string misses all its suffixes. */
  lemma ManyAborts(cs: Charset, t: seq<Token>, c: seq<seq<byte>>)
    requires t != [] && t[0] == Many
    ensures Matches(cs, t, c) || NoSuffix(cs, t, c)
  {
    forall k | 0 <= k <= |c| && MatchesFrom(cs, t, c, k) ensures Matches(cs, t, c) {
      ManyExtends(cs, t, c, k);
    }
  }

  /** `%%` is `%`. */
  lemma ManyMany(cs: Charset, t: seq<Token>, c: seq<seq<byte>>)
    requires t != [] && t[0] == Many
    ensures Matches(cs, [Many] + t, c) <==> Matches(cs, t, c)
  {
    assert ([Many] + t)[1..] == t;
    if Matches(cs, [Many] + t, c) {
      var k :| 0 <= k <= |c| && Matches(cs, t, c[k..]);
      ManyExtends(cs, t, c, k);
    } else {
      assert c[0..] == c;
    }
  }

  /** `%_` is `_%`. */
  lemma ManyOne(cs: Charset, t: seq<Token>, c: seq<seq<byte>>)
    requires t != [] && t[0] == One && c != []
    ensures Matches(cs, [Many] + t, c) <==> Matches(cs, [Many] + t[1..], c[1..])
  {
    assert ([Many] + t)[1..] == t && ([Many] + t[1..])[1..] == t[1..];
    forall k | 0 <= k < |c|
      ensures Matches(cs, t, c[k..]) <==> Matches(cs, t[1..], c[1..][k..])
    {
      assert c[k..][1..] == c[1..][k..];
    }
    assert c[|c|..] == [];
  }

  /** A trailing `%` takes all. */
  lemma ManyLast(cs: Charset, c: seq<seq<byte>>)
    ensures Matches(cs, [Many], c)
  {
    assert c[|c|..] == [];
  }

  /** A candidate where the literal does not stand, or after which the rest misses, can be skipped. */
  lemma SkipCandidate(cs: Charset, t: seq<Token>, c: seq<seq<byte>>)
    requires t != [] && t[0].Literal? && c != []
    requires cs.Same(t[0].bytes, c[0]) ==> !Matches(cs, t[1..], c[1..])
    ensures Matches(cs, [Many] + t, c) <==> Matches(cs, [Many] + t, c[1..])
  {
    assert ([Many] + t)[1..] == t;
    if Matches(cs, [Many] + t, c) {
      var k :| 0 <= k <= |c| && Matches(cs, t, c[k..]);
      assert c[0..] == c;
      assert c[1..][k - 1..] == c[k..];
    }
    if Matches(cs, [Many] + t, c[1..]) {
      ManyExtends(cs, [Many] + t, c, 1);
    }
  }

  /** The literal stands here and the rest matches. */
  lemma HitCandidate(cs: Charset, t: seq<Token>, c: seq<seq<byte>>)
    requires t != [] && t[0].Literal? && c != []
    requires cs.Same(t[0].bytes, c[0]) && Matches(cs, t[1..], c[1..])
    ensures Matches(cs, [Many] + t, c)
  {
    assert ([Many] + t)[1..] == t && c[0..] == c;
    assert Matches(cs, t, c[0..]);
  }

  /** If no suffix after the first candidate fits the rest, no candidate does. */
  lemma AbortCandidate(cs: Charset, t: seq<Token>, c: seq<seq<byte>>)
    requires t != [] && t[0].Literal? && c != []
    requires NoSuffix(cs, t[1..], c[1..])
    ensures !Matches(cs, [Many] + t, c)
  {
    assert ([Many] + t)[1..] == t;
    forall k | 0 <= k <= |c| ensures !Matches(cs, t, c[k..]) {
      if k < |c| {
        assert !MatchesFrom(cs, t[1..], c[1..], k) && c[k..][1..] == c[1..][k..];
      }
    }
  }

  // ----- where the matchers miss a match

  /** A single byte above 127. */
  predicate Unseen(x: Token) {
    x.Literal? && |x.bytes| == 1 && x.bytes[0] >= 128
  }

  /**
   Such a literal is the first one behind wildcards with a `%` among them. `behind` says that `t` itself
   comes behind such wildcards.
   */
  predicate Blind(t: seq<Token>, behind: bool)
    decreases |t|
  {
    t != [] &&
    match t[0]
    case Many => Blind(t[1..], true)
    case One => Blind(t[1..], behind)
    case Literal(_) => (behind && Unseen(t[0])) || Blind(t[1..], false)
  }

  /** The last token is a literal, and the first one behind wildcards with a `%` among them. */
  predicate EndsBehind(t: seq<Token>, behind: bool)
    decreases |t|
  {
    t != [] &&
    match t[0]
    case Many => EndsBehind(t[1..], true)
    case One => EndsBehind(t[1..], behind)
    case Literal(_) => (behind && |t| == 1) || EndsBehind(t[1..], false)
  }

  /**
   Nothing misleads the matcher: neither the search for a single byte above 127 with a `char` that is
   signed, nor a `%` in memory behind the pattern.
   */
  predicate Sure(t: seq<Token>, behind: bool, signedChar: bool, sentinel: bool) {
    !(signedChar && Blind(t, behind)) && !(sentinel && EndsBehind(t, behind))
  }

  /** The same can mislead it in `t` as in `u`. */
  predicate Alike(t: seq<Token>, behindT: bool, u: seq<Token>, behindU: bool) {
    (Blind(t, behindT) <==> Blind(u, behindU)) && (EndsBehind(t, behindT) <==> EndsBehind(u, behindU))
  }

  /**
   What a matcher may answer: 0 exactly on a match, except for one that the search cannot see, and where
   a `%` in memory may end it too early; -1 only if no suffix matches.
   */
  ghost predicate Correct(cs: Charset, t: seq<Token>, c: seq<seq<byte>>, r: int, signedChar: bool, sentinel: bool) {
    && -1 <= r <= 1
    && (r == 0 ==> Matches(cs, t, c) && !(signedChar && Blind(t, false)))
    && (Sure(t, false, signedChar, sentinel) ==> (Matches(cs, t, c) ==> r == 0) && (r == -1 ==> NoSuffix(cs, t, c)))
  }

  /** Unless a `%` in memory can end it too early, the matcher finds exactly the matches that it can see. */
  lemma CorrectMeans(cs: Charset, t: seq<Token>, c: seq<seq<byte>>, r: int, signedChar: bool, sentinel: bool)
    requires Correct(cs, t, c, r, signedChar, sentinel) && !(sentinel && EndsBehind(t, false))
    ensures r == 0 <==> Matches(cs, t, c) && !(signedChar && Blind(t, false))
  {
  }

  /** Where all single-byte characters are ASCII it can see all. */
  lemma {:induction false} NeverBlind(cs: Charset, m: Wild, w: seq<byte>, j: nat, behind: bool)
    requires cs.Valid() && m.Valid(cs) && j <= |w| && cs.WellFormed(w, j)
    requires forall b: byte :: cs.single(b) ==> b < 128
    ensures !Blind(Tokens(cs, m, w, j), behind)
    decreases |w| - j
  {
    if j < |w| {
      var t, next := Tokens(cs, m, w, j), TokenEnd(cs, m, w, j);
      TokenFits(cs, m, w, j);
      TokenWellFormed(cs, m, w, j, next);
      assert t[1..] == Tokens(cs, m, w, next);
      NeverBlind(cs, m, w, next, true);
      NeverBlind(cs, m, w, next, false);
    }
  }

  /** A literal token is a character, and what follows a token is well formed. */
  lemma TokenWellFormed(cs: Charset, m: Wild, w: seq<byte>, j: nat, next: nat)
    requires cs.Valid() && m.Valid(cs) && j < |w| && cs.WellFormed(w, j) && next == TokenEnd(cs, m, w, j) <= |w|
    ensures cs.WellFormed(w, next)
    ensures var t := TokenAt(cs, m, w, j);
            t.Literal? && |t.bytes| == 1 ==> cs.single(t.bytes[0])
  {
    var k := j + EscapeLen(m, w, j);
    if m.IsWild(w[j]) || k != j {
      cs.SingleLength(w, j);
    }
    cs.CharLenFits(w, k);
  }
}
