/** The LIKE matchers: `my_wildcmp_8bit`/`my_wildcmp_bin` and `my_wildcmp_mb`/`my_wildcmp_mb_bin`. */
module LikeMatch {
  import opened Bytes
  import opened Charsets
  import opened LikeSpec

  /** What follows a wildcard is well formed. */
  lemma AfterWild(cs: Charset, m: Wild, w: seq<byte>, j: nat)
    requires cs.Valid() && m.Valid(cs) && j < |w| && m.IsWild(w[j]) && cs.WellFormed(w, j)
    ensures cs.WellFormed(w, j + 1)
  {
    cs.SingleLength(w, j);
  }

  /** The literal token at `j`, its character at `k` behind an escape, and what follows. */
  lemma LiteralToken(cs: Charset, m: Wild, w: seq<byte>, j: nat, k: nat)
    requires cs.Valid() && m.Valid(cs) && j < |w| && !m.IsWild(w[j]) && cs.WellFormed(w, j)
    requires k == j + EscapeLen(m, w, j)
    ensures k < |w| && 1 <= cs.CharLen(w, k) <= |w| - k
    ensures cs.CharLen(w, k) > 1 || cs.single(w[k])
    ensures cs.WellFormed(w, k + cs.CharLen(w, k))
    ensures Tokens(cs, m, w, j) == [Literal(w[k..k + cs.CharLen(w, k)])] + Tokens(cs, m, w, k + cs.CharLen(w, k))
  {
    if k != j {
      cs.SingleLength(w, j);
    }
    cs.CharLenFits(w, k);
  }

  /** The test of the literal loop: does the character at `wild[k]` stand at `str[i]`? */
  predicate StandsAt(cs: Charset, str: seq<byte>, i: nat, wild: seq<byte>, k: nat)
    requires i <= |str| && k < |wild| && cs.CharLen(wild, k) <= |wild| - k
  {
    var l := cs.mblen(wild, k);
    if l > 0 then i + l <= |str| && str[i..i + l] == wild[k..k + l]
    else i < |str| && cs.weight(wild[k]) == cs.weight(str[i])
  }

  /** The test of the search loop of `my_wildcmp_mb`, which also asks that a single byte be a character. */
  predicate FoundAt(cs: Charset, str: seq<byte>, i: nat, wild: seq<byte>, k: nat)
    requires i < |str| && k < |wild| && cs.CharLen(wild, k) <= |wild| - k
  {
    var l := cs.mblen(wild, k);
    if l > 0 then i + l <= |str| && str[i..i + l] == wild[k..k + l]
    else cs.mblen(str, i) == 0 && cs.weight(str[i]) == cs.weight(wild[k])
  }

  /** The same in `my_wildcmp_mb_bin`, where a signed `char` is compared with an `uchar`. */
  predicate SeenAt(cs: Charset, str: seq<byte>, i: nat, wild: seq<byte>, k: nat, signedChar: bool)
    requires i < |str| && k < |wild| && cs.CharLen(wild, k) <= |wild| - k
  {
    FoundAt(cs, str, i, wild, k) && (cs.mblen(wild, k) == 0 && signedChar ==> wild[k] < 128)
  }

  /** On well-formed strings both tests decide whether the characters are the same. */
  lemma LiteralTest(cs: Charset, s: seq<byte>, i: nat, w: seq<byte>, k: nat)
    requires cs.Valid() && i < |s| && k < |w| && cs.WellFormed(s, i)
    requires cs.CharLen(w, k) <= |w| - k && (cs.CharLen(w, k) > 1 || cs.single(w[k]))
    ensures cs.CharLen(s, i) <= |s| - i && cs.WellFormed(s, i + cs.CharLen(s, i))
    ensures cs.Same(w[k..k + cs.CharLen(w, k)], s[i..i + cs.CharLen(s, i)]) <==> StandsAt(cs, s, i, w, k)
    ensures FoundAt(cs, s, i, w, k) <==> StandsAt(cs, s, i, w, k)
    ensures StandsAt(cs, s, i, w, k) ==> cs.CharLen(s, i) == cs.CharLen(w, k)
  {
    cs.CharLenFits(s, i);
    cs.CharLenFits(w, k);
    assert cs.MbFits(s, i) && cs.Apart(w[k], s[i]);
    var l := cs.CharLen(w, k);
    if l > 1 && i + l <= |s| && s[i..i + l] == w[k..k + l] {
      assert cs.SameHead(w, k, s, i);
    }
  }

  /** The question at `str[i]` and `wild[j]` is the one that was asked, see `Answers`. */
  ghost predicate At(cs: Charset, m: Wild, str: seq<byte>, i: nat, wild: seq<byte>, j: nat,
                     yes: bool, abort: bool)
  {
    && cs.Valid() && m.Valid(cs) && i <= |str| && j <= |wild|
    && cs.WellFormed(str, i) && cs.WellFormed(wild, j)
    && Answers(cs, Tokens(cs, m, wild, j), cs.Chars(str, i), yes, abort)
  }

  /** One turn of the literal loop: `k` is the position behind an escape. */
  lemma LiteralTurn(cs: Charset, m: Wild, str: seq<byte>, i: nat, wild: seq<byte>, j: nat, k: nat,
                    yes: bool, abort: bool)
    requires At(cs, m, str, i, wild, j, yes, abort) && j < |wild| && !m.IsWild(wild[j])
    requires k == j + EscapeLen(m, wild, j)
    ensures k < |wild| && cs.CharLen(wild, k) <= |wild| - k
    ensures if StandsAt(cs, str, i, wild, k)
            then At(cs, m, str, i + cs.CharLen(wild, k), wild, k + cs.CharLen(wild, k), yes, abort)
            else !yes
  {
    LiteralToken(cs, m, wild, j, k);
    if i < |str| {
      LiteralTest(cs, str, i, wild, k);
    }
    if StandsAt(cs, str, i, wild, k) {
      LiteralHit(cs, m, str, i, wild, j, k, k + cs.CharLen(wild, k), i + cs.CharLen(wild, k), yes, abort);
    } else {
      LiteralMiss(cs, m, str, i, wild, j, k, yes, abort);
    }
  }

  /** The characters in front of the rest of a string. */
  lemma FirstChar(cs: Charset, str: seq<byte>, i: nat, end: nat)
    requires cs.Valid() && i < |str| && end == i + cs.CharLen(str, i)
    ensures end <= |str| && cs.Chars(str, i) == [str[i..end]] + cs.Chars(str, end)
  {
    cs.CharLenFits(str, i);
  }

  lemma LiteralHit(cs: Charset, m: Wild, str: seq<byte>, i: nat, wild: seq<byte>, j: nat, k: nat, next: nat, end: nat,
                   yes: bool, abort: bool)
    requires At(cs, m, str, i, wild, j, yes, abort) && i < end <= |str| && j <= k < next <= |wild|
    requires cs.WellFormed(str, end) && cs.WellFormed(wild, next) && end == i + cs.CharLen(str, i)
    requires Tokens(cs, m, wild, j) == [Literal(wild[k..next])] + Tokens(cs, m, wild, next)
    requires cs.Same(wild[k..next], str[i..end])
    ensures At(cs, m, str, end, wild, next, yes, abort)
  {
    FirstChar(cs, str, i, end);
    TakeOne(cs, Tokens(cs, m, wild, j), cs.Chars(str, i), yes, abort);
  }

  lemma LiteralMiss(cs: Charset, m: Wild, str: seq<byte>, i: nat, wild: seq<byte>, j: nat, k: nat,
                    yes: bool, abort: bool)
    requires At(cs, m, str, i, wild, j, yes, abort) && j <= k < |wild| && 1 <= cs.CharLen(wild, k) <= |wild| - k
    requires var next := k + cs.CharLen(wild, k);
             Tokens(cs, m, wild, j) == [Literal(wild[k..next])] + Tokens(cs, m, wild, next)
    requires i < |str| ==> cs.CharLen(str, i) <= |str| - i
                           && !cs.Same(wild[k..k + cs.CharLen(wild, k)], str[i..i + cs.CharLen(str, i)])
    ensures !yes
  {
    if i < |str| {
      FirstChar(cs, str, i, i + cs.CharLen(str, i));
    }
  }

  /** One turn of the `_` loop. */
  lemma OneTurn(cs: Charset, m: Wild, str: seq<byte>, i: nat, wild: seq<byte>, j: nat,
                yes: bool, abort: bool)
    requires At(cs, m, str, i, wild, j, yes, abort) && j < |wild| && wild[j] == m.one
    ensures if i == |str| then abort && !yes
            else At(cs, m, str, i + cs.CharLen(str, i), wild, j + 1, yes, abort)
  {
    var t, c := Tokens(cs, m, wild, j), cs.Chars(str, i);
    AfterWild(cs, m, wild, j);
    if i == |str| {
      TooShort(cs, t);
      NoSuffixNoMatch(cs, t, c);
    } else {
      cs.CharLenFits(str, i);
      assert c[1..] == cs.Chars(str, i + cs.CharLen(str, i)) && t[1..] == Tokens(cs, m, wild, j + 1);
      TakeOne(cs, t, c, yes, abort);
    }
  }

  /** At the end of the pattern only the end of the string matches. */
  lemma PatternEnd(cs: Charset, m: Wild, str: seq<byte>, i: nat, wild: seq<byte>,
                   yes: bool, abort: bool)
    requires At(cs, m, str, i, wild, |wild|, yes, abort)
    ensures yes <==> i == |str|
  {
  }

  /** From `wild[j]` on the same can mislead the matcher as in all of `t0`. */
  ghost predicate AlikeAt(cs: Charset, m: Wild, wild: seq<byte>, j: nat, behind: bool, t0: seq<Token>) {
    cs.Valid() && j <= |wild| && Alike(Tokens(cs, m, wild, j), behind, t0, false)
  }

  /** A literal that is compared in place, and a `_` in front of any `%`, mislead nobody. */
  lemma AlikeNext(cs: Charset, m: Wild, wild: seq<byte>, j: nat, next: nat, t0: seq<Token>)
    requires AlikeAt(cs, m, wild, j, false, t0) && j < |wild| && wild[j] != m.many
    requires next <= |wild| && next == TokenEnd(cs, m, wild, j)
    ensures AlikeAt(cs, m, wild, next, false, t0)
  {
    assert Tokens(cs, m, wild, j)[1..] == Tokens(cs, m, wild, next);
  }

  /** Wildcards with a `%` among them are passed over. */
  lemma AlikeBehind(cs: Charset, m: Wild, wild: seq<byte>, j: nat, behind: bool, t0: seq<Token>)
    requires AlikeAt(cs, m, wild, j, behind, t0) && j < |wild| && m.IsWild(wild[j]) && (behind || wild[j] == m.many)
    ensures AlikeAt(cs, m, wild, j + 1, true, t0)
  {
    assert Tokens(cs, m, wild, j)[1..] == Tokens(cs, m, wild, j + 1);
  }

  /** The end of a pattern misleads nobody. */
  lemma AlikeEnd(cs: Charset, m: Wild, wild: seq<byte>, behind: bool, t0: seq<Token>)
    requires AlikeAt(cs, m, wild, |wild|, behind, t0)
    ensures !Blind(t0, false) && !EndsBehind(t0, false)
  {
  }

  /** How a run of literals ended: with the answer 0 or 1, or in front of a wildcard. */
  datatype Run = Done(answer: int) | Wildcard(i: nat, j: nat)

  /** One turn of the literal loop of `my_wildcmp_mb`. */
  method LiteralStepMb(cs: Charset, str: seq<byte>, i: nat, wild: seq<byte>, j: nat, m: Wild,
                       ghost yes: bool, ghost abort: bool, ghost t0: seq<Token>)
    returns (stands: bool, end: nat, next: nat)
    requires At(cs, m, str, i, wild, j, yes, abort) && j < |wild| && !m.IsWild(wild[j])
    requires AlikeAt(cs, m, wild, j, false, t0)
    ensures stands ==> j < next && At(cs, m, str, end, wild, next, yes, abort) && AlikeAt(cs, m, wild, next, false, t0)
    ensures !stands ==> !yes
  {
    var k := if wild[j] == m.escape && j + 1 != |wild| then j + 1 else j;
    LiteralTurn(cs, m, str, i, wild, j, k, yes, abort);
    stands := StandsAt(cs, str, i, wild, k);
    var l := cs.CharLen(wild, k);
    end, next := i + l, k + l;
    AlikeNext(cs, m, wild, j, next, t0);
  }

  /** The literal loop of `my_wildcmp_mb`. */
  method LiteralRunMb(cs: Charset, str: seq<byte>, i0: nat, wild: seq<byte>, j0: nat, m: Wild,
                      ghost yes: bool, ghost abort: bool, ghost t0: seq<Token>)
    returns (r: Run)
    requires At(cs, m, str, i0, wild, j0, yes, abort) && j0 < |wild|
    requires AlikeAt(cs, m, wild, j0, false, t0)
    ensures r.Done? ==> 0 <= r.answer <= 1 && (r.answer == 0 <==> yes) && (yes ==> !Blind(t0, false))
    ensures r.Wildcard? ==> AlikeAt(cs, m, wild, r.j, false, t0)
    ensures r.Wildcard? ==> At(cs, m, str, r.i, wild, r.j, yes, abort) && j0 <= r.j < |wild| && m.IsWild(wild[r.j])
  {
    var i: nat, j: nat := i0, j0;
    while wild[j] != m.many && wild[j] != m.one
      invariant j0 <= j < |wild|
      invariant At(cs, m, str, i, wild, j, yes, abort) && AlikeAt(cs, m, wild, j, false, t0)
      decreases |wild| - j
    {
      var stands;
      stands, i, j := LiteralStepMb(cs, str, i, wild, j, m, yes, abort, t0);
      if !stands {
        return Done(1);
      }
      if j == |wild| {
        PatternEnd(cs, m, str, i, wild, yes, abort);
        AlikeEnd(cs, m, wild, false, t0);
        return Done(if i != |str| then 1 else 0);
      }
    }
    return Wildcard(i, j);
  }

  /** The loop over a run of `_`; `ended` says that the string ended before it. */
  method OneRunMb(cs: Charset, str: seq<byte>, i0: nat, wild: seq<byte>, j0: nat, m: Wild,
                  ghost yes: bool, ghost abort: bool, ghost t0: seq<Token>)
    returns (ended: bool, i: nat, j: nat)
    requires At(cs, m, str, i0, wild, j0, yes, abort) && j0 < |wild| && wild[j0] == m.one
    requires AlikeAt(cs, m, wild, j0, false, t0)
    ensures ended ==> abort && !yes
    ensures j0 <= j && (!ended ==> j0 < j && At(cs, m, str, i, wild, j, yes, abort))
    ensures !ended ==> AlikeAt(cs, m, wild, j, false, t0)
  {
    i, j := i0, j0;
    var more := true;
    while more
      invariant j0 <= j <= |wild| && (more || j0 < j) && (more ==> j < |wild| && wild[j] == m.one)
      invariant At(cs, m, str, i, wild, j, yes, abort) && AlikeAt(cs, m, wild, j, false, t0)
      decreases |wild| - j, more
    {
      OneTurn(cs, m, str, i, wild, j, yes, abort);
      AlikeNext(cs, m, wild, j, j + 1, t0);
      if i == |str| {
        return true, i, j;
      }
      i, j := i + cs.CharLen(str, i), j + 1;
      more := j < |wild| && wild[j] == m.one;
    }
    ended := false;
  }

  /**
   `my_wildcmp_mb` on `str[i0..]` and `wild[j0..]`. With the identity for weights it is `my_wildcmp_mb_bin`,
   and then `signedChar` says whether `char` is signed. `after` is the byte that the C code reads just
   behind the pattern. 0 is a match, 1 a miss, -1 a miss that ends every enclosing search as well.
   */
  method WildcmpMb(cs: Charset, str: seq<byte>, i0: nat, wild: seq<byte>, j0: nat, m: Wild, after: byte,
                   signedChar: bool)
    returns (r: int)
    requires cs.Valid() && m.Valid(cs) && i0 <= |str| && j0 <= |wild|
    requires cs.WellFormed(str, i0) && cs.WellFormed(wild, j0)
    ensures Correct(cs, Tokens(cs, m, wild, j0), cs.Chars(str, i0), r, signedChar, after == m.many)
    decreases |wild| - j0
  {
    ghost var t0, c0 := Tokens(cs, m, wild, j0), cs.Chars(str, i0);
    ghost var yes, abort := Matches(cs, t0, c0), NoSuffix(cs, t0, c0);
    var i: nat, j: nat := i0, j0;
    var result := -1;
    while j != |wild|
      invariant j0 <= j && (result == 1 || result == -1)
      invariant At(cs, m, str, i, wild, j, yes, abort) && AlikeAt(cs, m, wild, j, false, t0)
      decreases |wild| - j
    {
      var run := LiteralRunMb(cs, str, i, wild, j, m, yes, abort, t0);
      if run.Done? {
        return run.answer;
      }
      if run.j != j {
        result := 1;
      }
      i, j := run.i, run.j;
      if wild[j] == m.one {
        var ended;
        ended, i, j := OneRunMb(cs, str, i, wild, j, m, yes, abort, t0);
        if ended {
          return result;
        }
        if j == |wild| {
          break;
        }
      }
      if wild[j] == m.many {
        r := SearchMb(cs, str, i, wild, j, m, after, signedChar);
        return;
      }
    }
    PatternEnd(cs, m, str, i, wild, yes, abort);
    AlikeEnd(cs, m, wild, false, t0);
    return if i != |str| then 1 else 0;
  }

  /** Behind a `%`: the matcher at `str[i]` and `wild[j]` still answers `found`. */
  ghost predicate Searching(cs: Charset, m: Wild, str: seq<byte>, i: nat, wild: seq<byte>, j: nat, found: bool) {
    && cs.Valid() && m.Valid(cs) && i <= |str| && j <= |wild|
    && cs.WellFormed(str, i) && cs.WellFormed(wild, j)
    && (found <==> Matches(cs, [Many] + Tokens(cs, m, wild, j), cs.Chars(str, i)))
  }

  /** One turn of the loop that skips `%` and `_` behind a `%`. */
  lemma WildTurn(cs: Charset, m: Wild, str: seq<byte>, i: nat, wild: seq<byte>, j: nat, found: bool)
    requires Searching(cs, m, str, i, wild, j, found) && j < |wild| && m.IsWild(wild[j])
    ensures wild[j] == m.many ==> Searching(cs, m, str, i, wild, j + 1, found)
    ensures wild[j] == m.one && i == |str| ==> !found
    ensures wild[j] == m.one && i < |str| ==> Searching(cs, m, str, i + cs.CharLen(str, i), wild, j + 1, found)
  {
    var t, c := Tokens(cs, m, wild, j), cs.Chars(str, i);
    AfterWild(cs, m, wild, j);
    assert t == [t[0]] + Tokens(cs, m, wild, j + 1);
    if t[0] == Many {
      ManyMany(cs, t, c);
    } else if i == |str| {
      TooShort(cs, t);
    } else {
      cs.CharLenFits(str, i);
      ManyOne(cs, t, c);
      assert c[1..] == cs.Chars(str, i + cs.CharLen(str, i));
    }
  }

  /** Skip the wildcards behind a `%`; `short` says that the string ended before them. */
  method SkipWildMb(cs: Charset, str: seq<byte>, i0: nat, wild: seq<byte>, j0: nat, m: Wild,
                    ghost found: bool, ghost t0: seq<Token>)
    returns (short: bool, i: nat, j: nat)
    requires Searching(cs, m, str, i0, wild, j0, found) && AlikeAt(cs, m, wild, j0, true, t0)
    ensures short ==> !found
    ensures !short ==> j0 <= j <= |wild| && (j == |wild| || !m.IsWild(wild[j]))
    ensures !short ==> Searching(cs, m, str, i, wild, j, found) && AlikeAt(cs, m, wild, j, true, t0)
  {
    short, i, j := false, i0, j0;
    while j != |wild| && m.IsWild(wild[j])
      invariant j0 <= j && Searching(cs, m, str, i, wild, j, found)
      invariant AlikeAt(cs, m, wild, j, true, t0)
      decreases |wild| - j
    {
      WildTurn(cs, m, str, i, wild, j, found);
      AlikeBehind(cs, m, wild, j, true, t0);
      if wild[j] == m.one {
        if i == |str| {
          return true, i, j;
        }
        i := i + cs.CharLen(str, i);
      }
      j := j + 1;
    }
  }

  /** The `%` branch of `my_wildcmp_mb`, entered with `wild[j0]` the `%`. */
  method SearchMb(cs: Charset, str: seq<byte>, i0: nat, wild: seq<byte>, j0: nat, m: Wild, after: byte,
                  signedChar: bool)
    returns (r: int)
    requires cs.Valid() && m.Valid(cs) && i0 <= |str| && j0 < |wild|
    requires cs.WellFormed(str, i0) && cs.WellFormed(wild, j0) && wild[j0] == m.many
    ensures r != 1 && Correct(cs, Tokens(cs, m, wild, j0), cs.Chars(str, i0), r, signedChar, after == m.many)
    decreases |wild| - j0, 0
  {
    ghost var t0, c0 := Tokens(cs, m, wild, j0), cs.Chars(str, i0);
    ghost var found := Matches(cs, t0, c0);
    ManyAborts(cs, t0, c0);
    AfterWild(cs, m, wild, j0);
    assert t0 == [Many] + Tokens(cs, m, wild, j0 + 1);
    AlikeBehind(cs, m, wild, j0, false, t0);
    var short, i, j := SkipWildMb(cs, str, i0, wild, j0 + 1, m, found, t0);
    if short {
      return -1;
    }
    if j == |wild| {
      ManyLast(cs, cs.Chars(str, i));
      AlikeEnd(cs, m, wild, true, t0);
      return 0;
    }
    r := FindLiteralMb(cs, str, i, wild, j, m, after, signedChar);
  }

  /** What the search for a literal, the first of the tokens `t`, may answer. */
  ghost predicate Located(cs: Charset, t: seq<Token>, c: seq<seq<byte>>, r: int, signedChar: bool, sentinel: bool) {
    && (r == 0 || r == -1)
    && (r == 0 ==> Matches(cs, [Many] + t, c) && !(signedChar && Blind(t, true)))
    && (Sure(t, true, signedChar, sentinel) ==> Matches(cs, [Many] + t, c) ==> r == 0)
  }

  /** The string has ended and the literal at `wild[j]` is still wanted. */
  lemma NothingLeft(cs: Charset, m: Wild, str: seq<byte>, wild: seq<byte>, j: nat, found: bool)
    requires Searching(cs, m, str, |str|, wild, j, found) && j < |wild| && !m.IsWild(wild[j])
    ensures !found
  {
    TooShort(cs, Tokens(cs, m, wild, j));
  }

  /** A literal of the pattern and a character of the string, and what is behind them. */
  lemma CandidateParts(cs: Charset, m: Wild, str: seq<byte>, i: nat, wild: seq<byte>, j: nat, k: nat, next: nat)
    requires cs.Valid() && m.Valid(cs) && j < |wild| && !m.IsWild(wild[j]) && i < |str|
    requires cs.WellFormed(str, i) && cs.WellFormed(wild, j)
    requires k == j + EscapeLen(m, wild, j) && k < |wild| && next == k + cs.CharLen(wild, k) <= |wild|
    ensures i + cs.CharLen(str, i) <= |str| && cs.WellFormed(str, i + cs.CharLen(str, i))
    ensures var t, c := Tokens(cs, m, wild, j), cs.Chars(str, i);
            && t != [] && t[0].Literal? && t[1..] == Tokens(cs, m, wild, next)
            && c != [] && c[1..] == cs.Chars(str, i + cs.CharLen(str, i))
            && (FoundAt(cs, str, i, wild, k) <==> cs.Same(t[0].bytes, c[0]))
  {
    LiteralToken(cs, m, wild, j, k);
    LiteralTest(cs, str, i, wild, k);
    FirstChar(cs, str, i, i + cs.CharLen(str, i));
  }

  /**
   One turn of the search for the literal at `wild[j]`, whose character is at `k`: `hit` is the test of
   the code, `tmp` the result of the recursive call behind a hit, `next` where the pattern goes on.
   */
  lemma SearchTurn(cs: Charset, m: Wild, str: seq<byte>, i: nat, wild: seq<byte>, j: nat, k: nat, next: nat,
                   hit: bool, tmp: int, found: bool)
    requires Searching(cs, m, str, i, wild, j, found) && j < |wild| && !m.IsWild(wild[j]) && i < |str|
    requires k == j + EscapeLen(m, wild, j) && k < |wild| && next == k + cs.CharLen(wild, k) <= |wild|
    requires hit <==> FoundAt(cs, str, i, wild, k)
    requires i + cs.CharLen(str, i) <= |str|
    requires hit ==> var t, c := Tokens(cs, m, wild, next), cs.Chars(str, i + cs.CharLen(str, i));
                     (tmp == 0 <==> Matches(cs, t, c)) && (tmp == -1 ==> NoSuffix(cs, t, c))
    ensures hit && tmp == 0 ==> found
    ensures hit && tmp == -1 ==> !found
    ensures hit && tmp != 0 && next < |wild| && wild[next] == m.many ==> !found
    ensures !hit || tmp != 0 ==> Searching(cs, m, str, i + cs.CharLen(str, i), wild, j, found)
  {
    var t, c := Tokens(cs, m, wild, j), cs.Chars(str, i);
    CandidateParts(cs, m, str, i, wild, j, k, next);
    assert next < |wild| && wild[next] == m.many ==> t[1..] != [] && t[1] == Many;
    if hit && tmp == 0 {
      HitCandidate(cs, t, c);
    } else {
      SkipCandidate(cs, t, c);
      if hit && next < |wild| && wild[next] == m.many {
        ManyAborts(cs, t[1..], c[1..]);
      }
      if hit && NoSuffix(cs, t[1..], c[1..]) {
        AbortCandidate(cs, t, c);
      }
    }
  }

  /**
   The loop of the search is at `str[i]`: what it finds from there on is a match, and, if nothing misleads
   it, all that was to be found is still there.
   */
  ghost predicate Trying(cs: Charset, m: Wild, str: seq<byte>, i: nat, wild: seq<byte>, j: nat, found: bool,
                         signedChar: bool, sentinel: bool)
  {
    && cs.Valid() && m.Valid(cs) && i <= |str| && j <= |wild|
    && cs.WellFormed(str, i) && cs.WellFormed(wild, j)
    && (Matches(cs, [Many] + Tokens(cs, m, wild, j), cs.Chars(str, i)) ==> found)
    && (Sure(Tokens(cs, m, wild, j), true, signedChar, sentinel) ==> Searching(cs, m, str, i, wild, j, found))
  }

  lemma NothingLeftIf(cs: Charset, m: Wild, str: seq<byte>, wild: seq<byte>, j: nat, found: bool,
                      signedChar: bool, sentinel: bool)
    requires Trying(cs, m, str, |str|, wild, j, found, signedChar, sentinel) && j < |wild| && !m.IsWild(wild[j])
    ensures Sure(Tokens(cs, m, wild, j), true, signedChar, sentinel) ==> !found
  {
    if Sure(Tokens(cs, m, wild, j), true, signedChar, sentinel) {
      NothingLeft(cs, m, str, wild, j, found);
    }
  }

  /** A match further on is a match; and so is one of the rest behind a candidate. */
  lemma CandidateSound(cs: Charset, m: Wild, str: seq<byte>, i: nat, wild: seq<byte>, j: nat, k: nat, next: nat,
                       hit: bool, tmp: int, found: bool)
    requires cs.Valid() && m.Valid(cs) && j < |wild| && !m.IsWild(wild[j]) && i < |str|
    requires cs.WellFormed(str, i) && cs.WellFormed(wild, j)
    requires Matches(cs, [Many] + Tokens(cs, m, wild, j), cs.Chars(str, i)) ==> found
    requires k == j + EscapeLen(m, wild, j) && k < |wild| && next == k + cs.CharLen(wild, k) <= |wild|
    requires (hit ==> FoundAt(cs, str, i, wild, k)) && i + cs.CharLen(str, i) <= |str|
    requires hit && tmp == 0 ==> Matches(cs, Tokens(cs, m, wild, next), cs.Chars(str, i + cs.CharLen(str, i)))
    ensures hit && tmp == 0 ==> found
    ensures cs.WellFormed(str, i + cs.CharLen(str, i))
    ensures Matches(cs, [Many] + Tokens(cs, m, wild, j), cs.Chars(str, i + cs.CharLen(str, i))) ==> found
  {
    var t, c := Tokens(cs, m, wild, j), cs.Chars(str, i);
    CandidateParts(cs, m, str, i, wild, j, k, next);
    SoundAt(cs, t, c, hit && tmp == 0, found);
  }

  lemma SoundAt(cs: Charset, t: seq<Token>, c: seq<seq<byte>>, matched: bool, found: bool)
    requires t != [] && t[0].Literal? && c != [] && (Matches(cs, [Many] + t, c) ==> found)
    requires matched ==> cs.Same(t[0].bytes, c[0]) && Matches(cs, t[1..], c[1..])
    ensures (matched ==> found) && (Matches(cs, [Many] + t, c[1..]) ==> found)
  {
    if matched {
      HitCandidate(cs, t, c);
    }
    if Matches(cs, [Many] + t, c[1..]) {
      ManyExtends(cs, [Many] + t, c, 1);
    }
  }

  /** One turn of the search, see `SearchTurn`, where something may mislead the matcher. */
  lemma TryTurn(cs: Charset, m: Wild, str: seq<byte>, i: nat, wild: seq<byte>, j: nat, k: nat, next: nat,
                hit: bool, tmp: int, found: bool, signedChar: bool, sentinel: bool)
    requires Trying(cs, m, str, i, wild, j, found, signedChar, sentinel)
    requires j < |wild| && !m.IsWild(wild[j]) && i < |str|
    requires k == j + EscapeLen(m, wild, j) && k < |wild| && next == k + cs.CharLen(wild, k) <= |wild|
    requires hit <==> SeenAt(cs, str, i, wild, k, signedChar)
    requires i + cs.CharLen(str, i) <= |str|
    requires hit ==> var t, c := Tokens(cs, m, wild, next), cs.Chars(str, i + cs.CharLen(str, i));
                     Correct(cs, t, c, tmp, signedChar, sentinel)
    ensures var sure := Sure(Tokens(cs, m, wild, j), true, signedChar, sentinel);
            && (hit && tmp == 0 ==> found && !(signedChar && Blind(Tokens(cs, m, wild, j), true)))
            && (hit && tmp == -1 && sure ==> !found)
            && (hit && tmp != 0 && next < |wild| && wild[next] == m.many && sure ==> !found)
            && (!hit || tmp != 0 ==> Trying(cs, m, str, i + cs.CharLen(str, i), wild, j, found, signedChar, sentinel))
            && (next == |wild| && sentinel ==> !sure)
  {
    SureParts(cs, m, wild, j, k, next, signedChar, sentinel);
    CandidateSound(cs, m, str, i, wild, j, k, next, hit, tmp, found);
    if Sure(Tokens(cs, m, wild, j), true, signedChar, sentinel) {
      SearchTurn(cs, m, str, i, wild, j, k, next, hit, tmp, found);
    }
  }

  /** What can mislead the matcher in the literal at `wild[j]` and in the rest. */
  lemma SureParts(cs: Charset, m: Wild, wild: seq<byte>, j: nat, k: nat, next: nat, signedChar: bool, sentinel: bool)
    requires cs.Valid() && m.Valid(cs) && j < |wild| && !m.IsWild(wild[j]) && cs.WellFormed(wild, j)
    requires k == j + EscapeLen(m, wild, j) && k < |wild| && next == k + cs.CharLen(wild, k) <= |wild|
    ensures var t, u := Tokens(cs, m, wild, j), Tokens(cs, m, wild, next);
            && (Blind(t, true) <==> (cs.mblen(wild, k) == 0 && wild[k] >= 128) || Blind(u, false))
            && (EndsBehind(t, true) <==> next == |wild| || EndsBehind(u, false))
  {
    LiteralToken(cs, m, wild, j, k);
    cs.CharLenFits(wild, k);
    var t, u := Tokens(cs, m, wild, j), Tokens(cs, m, wild, next);
    assert t[1..] == u && (u == [] <==> next == |wild|);
    assert Unseen(t[0]) <==> cs.mblen(wild, k) == 0 && wild[k] >= 128;
  }

  /** Does the literal stand at `str[i]`, and if so what does the matcher say about the rest? */
  method TryHere(cs: Charset, str: seq<byte>, i: nat, wild: seq<byte>, j0: nat, mb: nat, j: nat, m: Wild, after: byte,
                 signedChar: bool, ghost found: bool, ghost sure: bool)
    returns (hit: bool, tmp: int, next: nat)
    requires Trying(cs, m, str, i, wild, j0, found, signedChar, after == m.many)
    requires i < |str| && j0 < |wild| && !m.IsWild(wild[j0])
    requires mb == j0 + EscapeLen(m, wild, j0) && mb < |wild| && j == mb + cs.CharLen(wild, mb) <= |wild|
    requires cs.WellFormed(wild, j) && sure == Sure(Tokens(cs, m, wild, j0), true, signedChar, after == m.many)
    ensures -1 <= tmp <= 1 && (!hit ==> tmp == 1)
    ensures tmp == 0 ==> found && !(signedChar && Blind(Tokens(cs, m, wild, j0), true))
    ensures tmp == -1 && sure ==> !found
    ensures hit && tmp != 0 && (if j == |wild| then after else wild[j]) == m.many && sure ==> !found
    ensures i < next <= |str|
    ensures tmp != 0 ==> Trying(cs, m, str, next, wild, j0, found, signedChar, after == m.many)
    decreases |wild| - j0, 0
  {
    cs.CharLenFits(str, i);
    hit, tmp, next := SeenAt(cs, str, i, wild, mb, signedChar), 1, i + cs.CharLen(str, i);
    if hit {
      tmp := WildcmpMb(cs, str, next, wild, j, m, after, signedChar);
    }
    TryTurn(cs, m, str, i, wild, j0, mb, j, hit, tmp, found, signedChar, after == m.many);
  }

  /** The retry loop behind the `%`s: try every place where the literal at `wild[j0]` stands. */
  method FindLiteralMb(cs: Charset, str: seq<byte>, i0: nat, wild: seq<byte>, j0: nat, m: Wild, after: byte,
                       signedChar: bool)
    returns (r: int)
    requires cs.Valid() && m.Valid(cs) && i0 <= |str| && j0 < |wild|
    requires cs.WellFormed(str, i0) && cs.WellFormed(wild, j0) && !m.IsWild(wild[j0])
    ensures Located(cs, Tokens(cs, m, wild, j0), cs.Chars(str, i0), r, signedChar, after == m.many)
    decreases |wild| - j0, 1
  {
    ghost var t := Tokens(cs, m, wild, j0);
    ghost var found, sentinel := Matches(cs, [Many] + t, cs.Chars(str, i0)), after == m.many;
    ghost var sure := Sure(t, true, signedChar, sentinel);
    LiteralToken(cs, m, wild, j0, j0 + EscapeLen(m, wild, j0));
    var mb := if wild[j0] == m.escape && j0 + 1 != |wild| then j0 + 1 else j0;
    var j := mb + cs.CharLen(wild, mb);
    var i: nat := i0;
    while i < |str|
      invariant Trying(cs, m, str, i, wild, j0, found, signedChar, sentinel)
      decreases |str| - i
    {
      var hit, tmp;
      hit, tmp, i := TryHere(cs, str, i, wild, j0, mb, j, m, after, signedChar, found, sure);
      if tmp <= 0 {
        return tmp;
      }
      if hit && (if j == |wild| then after else wild[j]) == m.many {
        return -1;
      }
    }
    NothingLeftIf(cs, m, str, wild, j0, found, signedChar, sentinel);
    return -1;
  }

  /** In a single-byte character set every string is well formed, a character a byte. */
  lemma {:induction false} EightBitWellFormed(weight: byte -> byte, s: seq<byte>, i: nat)
    requires i <= |s|
    ensures EightBit(weight).WellFormed(s, i)
    decreases |s| - i
  {
    if i < |s| {
      EightBitWellFormed(weight, s, i + 1);
    }
  }

  /** `LiteralTurn` for single bytes. */
  lemma LiteralTurn8bit(weight: byte -> byte, m: Wild, str: seq<byte>, i: nat, wild: seq<byte>, j: nat, k: nat,
                        yes: bool, abort: bool)
    requires At(EightBit(weight), m, str, i, wild, j, yes, abort) && j < |wild| && !m.IsWild(wild[j])
    requires k == j + EscapeLen(m, wild, j)
    ensures if i < |str| && weight(wild[k]) == weight(str[i])
            then At(EightBit(weight), m, str, i + 1, wild, k + 1, yes, abort)
            else !yes
  {
    LiteralTurn(EightBit(weight), m, str, i, wild, j, k, yes, abort);
  }

  /** `TryTurn` for single bytes. */
  lemma SearchTurn8bit(weight: byte -> byte, m: Wild, str: seq<byte>, i: nat, wild: seq<byte>, j: nat, k: nat,
                       tmp: int, found: bool, sentinel: bool)
    requires Trying(EightBit(weight), m, str, i, wild, j, found, false, sentinel)
    requires j < |wild| && !m.IsWild(wild[j]) && i < |str| && k == j + EscapeLen(m, wild, j)
    requires weight(str[i]) == weight(wild[k]) ==>
               var t, c := Tokens(EightBit(weight), m, wild, k + 1), EightBit(weight).Chars(str, i + 1);
               Correct(EightBit(weight), t, c, tmp, false, sentinel)
    ensures var hit := weight(str[i]) == weight(wild[k]);
            var sure := Sure(Tokens(EightBit(weight), m, wild, j), true, false, sentinel);
            && (hit && tmp == 0 ==> found)
            && (hit && tmp == -1 && sure ==> !found)
            && (hit && tmp != 0 && k + 1 < |wild| && wild[k + 1] == m.many && sure ==> !found)
            && (!hit || tmp != 0 ==> Trying(EightBit(weight), m, str, i + 1, wild, j, found, false, sentinel))
            && (k + 1 == |wild| && sentinel ==> !sure)
  {
    var hit := weight(str[i]) == weight(wild[k]);
    TryTurn(EightBit(weight), m, str, i, wild, j, k, k + 1, hit, tmp, found, false, sentinel);
  }

  /** One turn of the literal loop of `my_wildcmp_8bit`. */
  method LiteralStep8bit(weight: byte -> byte, str: seq<byte>, i: nat, wild: seq<byte>, j: nat, m: Wild,
                         ghost yes: bool, ghost abort: bool, ghost t0: seq<Token>)
    returns (stands: bool, end: nat, next: nat)
    requires At(EightBit(weight), m, str, i, wild, j, yes, abort) && j < |wild| && !m.IsWild(wild[j])
    requires AlikeAt(EightBit(weight), m, wild, j, false, t0)
    ensures stands ==> j < next && At(EightBit(weight), m, str, end, wild, next, yes, abort)
    ensures stands ==> AlikeAt(EightBit(weight), m, wild, next, false, t0)
    ensures !stands ==> !yes
  {
    var k := if wild[j] == m.escape && j + 1 != |wild| then j + 1 else j;
    LiteralTurn8bit(weight, m, str, i, wild, j, k, yes, abort);
    stands, end, next := i < |str| && weight(wild[k]) == weight(str[i]), i + 1, k + 1;
    AlikeNext(EightBit(weight), m, wild, j, next, t0);
  }

  /** The literal loop of `my_wildcmp_8bit`. */
  method LiteralRun8bit(weight: byte -> byte, str: seq<byte>, i0: nat, wild: seq<byte>, j0: nat, m: Wild,
                        ghost yes: bool, ghost abort: bool, ghost t0: seq<Token>)
    returns (r: Run)
    requires At(EightBit(weight), m, str, i0, wild, j0, yes, abort) && j0 < |wild|
    requires AlikeAt(EightBit(weight), m, wild, j0, false, t0)
    ensures r.Done? ==> 0 <= r.answer <= 1 && (r.answer == 0 <==> yes) && (yes ==> !Blind(t0, false))
    ensures r.Wildcard? ==> AlikeAt(EightBit(weight), m, wild, r.j, false, t0)
    ensures r.Wildcard? ==> At(EightBit(weight), m, str, r.i, wild, r.j, yes, abort)
                            && j0 <= r.j < |wild| && m.IsWild(wild[r.j])
  {
    ghost var cs := EightBit(weight);
    var i: nat, j: nat := i0, j0;
    while wild[j] != m.many && wild[j] != m.one
      invariant j0 <= j < |wild|
      invariant At(cs, m, str, i, wild, j, yes, abort) && AlikeAt(cs, m, wild, j, false, t0)
      decreases |wild| - j
    {
      var stands;
      stands, i, j := LiteralStep8bit(weight, str, i, wild, j, m, yes, abort, t0);
      if !stands {
        return Done(1);
      }
      if j == |wild| {
        PatternEnd(cs, m, str, i, wild, yes, abort);
        AlikeEnd(cs, m, wild, false, t0);
        return Done(if i != |str| then 1 else 0);
      }
    }
    return Wildcard(i, j);
  }

  /** The loop over a run of `_`; `ended` says that the string ended before it. */
  method OneRun8bit(weight: byte -> byte, str: seq<byte>, i0: nat, wild: seq<byte>, j0: nat, m: Wild,
                  ghost yes: bool, ghost abort: bool, ghost t0: seq<Token>)
    returns (ended: bool, i: nat, j: nat)
    requires At(EightBit(weight), m, str, i0, wild, j0, yes, abort) && j0 < |wild| && wild[j0] == m.one
    requires AlikeAt(EightBit(weight), m, wild, j0, false, t0)
    ensures ended ==> abort && !yes
    ensures j0 <= j && (!ended ==> j0 < j && At(EightBit(weight), m, str, i, wild, j, yes, abort))
    ensures !ended ==> AlikeAt(EightBit(weight), m, wild, j, false, t0)
  {
    i, j := i0, j0;
    var more := true;
    while more
      invariant j0 <= j <= |wild| && (more || j0 < j) && (more ==> j < |wild| && wild[j] == m.one)
      invariant At(EightBit(weight), m, str, i, wild, j, yes, abort) && AlikeAt(EightBit(weight), m, wild, j, false, t0)
      decreases |wild| - j, more
    {
      OneTurn(EightBit(weight), m, str, i, wild, j, yes, abort);
      AlikeNext(EightBit(weight), m, wild, j, j + 1, t0);
      if i == |str| {
        return true, i, j;
      }
      i, j := i + 1, j + 1;
      more := j < |wild| && wild[j] == m.one;
    }
    ended := false;
  }

  /**
   `my_wildcmp_8bit` on `str[i0..]` and `wild[j0..]`; with the identity for weights it is
   `my_wildcmp_bin`. The result is read as for `WildcmpMb`.
   */
  method Wildcmp8bit(weight: byte -> byte, str: seq<byte>, i0: nat, wild: seq<byte>, j0: nat, m: Wild, after: byte)
    returns (r: int)
    requires m.Valid(EightBit(weight)) && i0 <= |str| && j0 <= |wild|
    ensures var cs := EightBit(weight);
            Correct(cs, Tokens(cs, m, wild, j0), cs.Chars(str, i0), r, false, after == m.many)
    decreases |wild| - j0
  {
    ghost var cs := EightBit(weight);
    EightBitWellFormed(weight, str, i0);
    EightBitWellFormed(weight, wild, j0);
    ghost var t0, c0 := Tokens(cs, m, wild, j0), cs.Chars(str, i0);
    ghost var yes, abort := Matches(cs, t0, c0), NoSuffix(cs, t0, c0);
    var i: nat, j: nat := i0, j0;
    var result := -1;
    while j != |wild|
      invariant j0 <= j && (result == 1 || result == -1)
      invariant At(cs, m, str, i, wild, j, yes, abort) && AlikeAt(cs, m, wild, j, false, t0)
      decreases |wild| - j
    {
      var run := LiteralRun8bit(weight, str, i, wild, j, m, yes, abort, t0);
      if run.Done? {
        return run.answer;
      }
      if run.j != j {
        result := 1;
      }
      i, j := run.i, run.j;
      if wild[j] == m.one {
        var ended;
        ended, i, j := OneRun8bit(weight, str, i, wild, j, m, yes, abort, t0);
        if ended {
          return result;
        }
        if j == |wild| {
          break;
        }
      }
      if wild[j] == m.many {
        r := Search8bit(weight, str, i, wild, j, m, after);
        return;
      }
    }
    PatternEnd(cs, m, str, i, wild, yes, abort);
    AlikeEnd(cs, m, wild, false, t0);
    return if i != |str| then 1 else 0;
  }

  /** Skip the wildcards behind a `%`; `short` says that the string ended before them. */
  method SkipWild8bit(weight: byte -> byte, str: seq<byte>, i0: nat, wild: seq<byte>, j0: nat, m: Wild,
                    ghost found: bool, ghost t0: seq<Token>)
    returns (short: bool, i: nat, j: nat)
    requires Searching(EightBit(weight), m, str, i0, wild, j0, found)
    requires AlikeAt(EightBit(weight), m, wild, j0, true, t0)
    ensures short ==> !found
    ensures !short ==> j0 <= j <= |wild| && (j == |wild| || !m.IsWild(wild[j]))
    ensures !short ==> Searching(EightBit(weight), m, str, i, wild, j, found)
    ensures !short ==> AlikeAt(EightBit(weight), m, wild, j, true, t0)
  {
    short, i, j := false, i0, j0;
    while j != |wild| && m.IsWild(wild[j])
      invariant j0 <= j && Searching(EightBit(weight), m, str, i, wild, j, found)
      invariant AlikeAt(EightBit(weight), m, wild, j, true, t0)
      decreases |wild| - j
    {
      WildTurn(EightBit(weight), m, str, i, wild, j, found);
      AlikeBehind(EightBit(weight), m, wild, j, true, t0);
      if wild[j] == m.one {
        if i == |str| {
          return true, i, j;
        }
        i := i + 1;
      }
      j := j + 1;
    }
  }

  /** The `%` branch of `my_wildcmp_8bit`, entered with `wild[j0]` the `%`. */
  method Search8bit(weight: byte -> byte, str: seq<byte>, i0: nat, wild: seq<byte>, j0: nat, m: Wild, after: byte)
    returns (r: int)
    requires m.Valid(EightBit(weight)) && i0 <= |str| && j0 < |wild|
    requires wild[j0] == m.many
    ensures var cs := EightBit(weight);
            r != 1 && Correct(cs, Tokens(cs, m, wild, j0), cs.Chars(str, i0), r, false, after == m.many)
    decreases |wild| - j0, 0
  {
    ghost var cs := EightBit(weight);
    ghost var t0, c0 := Tokens(cs, m, wild, j0), cs.Chars(str, i0);
    ghost var found := Matches(cs, t0, c0);
    ManyAborts(cs, t0, c0);
    EightBitWellFormed(weight, str, i0);
    EightBitWellFormed(weight, wild, j0 + 1);
    assert t0 == [Many] + Tokens(cs, m, wild, j0 + 1);
    AlikeBehind(cs, m, wild, j0, false, t0);
    var short, i, j := SkipWild8bit(weight, str, i0, wild, j0 + 1, m, found, t0);
    if short {
      return -1;
    }
    if j == |wild| {
      ManyLast(cs, cs.Chars(str, i));
      AlikeEnd(cs, m, wild, true, t0);
      return 0;
    }
    r := FindLiteral8bit(weight, str, i, wild, j, m, after);
  }

  /** The loop that looks for the next byte of the weight of `wild[k]`. */
  method FindByte8bit(weight: byte -> byte, str: seq<byte>, i0: nat, wild: seq<byte>, j: nat, k: nat, m: Wild,
                      ghost found: bool, ghost sentinel: bool)
    returns (i: nat)
    requires Trying(EightBit(weight), m, str, i0, wild, j, found, false, sentinel) && j < |wild| && !m.IsWild(wild[j])
    requires k == j + EscapeLen(m, wild, j)
    ensures i0 <= i <= |str| && (i < |str| ==> weight(str[i]) == weight(wild[k]))
    ensures Trying(EightBit(weight), m, str, i, wild, j, found, false, sentinel)
  {
    i := i0;
    var cmp := weight(wild[k]);
    while i != |str| && weight(str[i]) != cmp
      invariant i0 <= i <= |str| && Trying(EightBit(weight), m, str, i, wild, j, found, false, sentinel)
    {
      SearchTurn8bit(weight, m, str, i, wild, j, k, 1, found, sentinel);
      i := i + 1;
    }
  }

  /** What the matcher says about the rest where the literal stands at `str[i]`. */
  method TryHere8bit(weight: byte -> byte, str: seq<byte>, i: nat, wild: seq<byte>, j0: nat, k: nat, m: Wild,
                     after: byte, ghost found: bool, ghost sure: bool)
    returns (tmp: int, next: nat)
    requires Trying(EightBit(weight), m, str, i, wild, j0, found, false, after == m.many)
    requires i < |str| && j0 < |wild| && !m.IsWild(wild[j0]) && k == j0 + EscapeLen(m, wild, j0)
    requires weight(str[i]) == weight(wild[k])
    requires sure == Sure(Tokens(EightBit(weight), m, wild, j0), true, false, after == m.many)
    ensures -1 <= tmp <= 1 && next == i + 1 && (tmp == 0 ==> found) && (tmp == -1 && sure ==> !found)
    ensures tmp != 0 && (if k + 1 == |wild| then after else wild[k + 1]) == m.many && sure ==> !found
    ensures tmp != 0 ==> Trying(EightBit(weight), m, str, next, wild, j0, found, false, after == m.many)
    decreases |wild| - j0, 0
  {
    tmp := Wildcmp8bit(weight, str, i + 1, wild, k + 1, m, after);
    SearchTurn8bit(weight, m, str, i, wild, j0, k, tmp, found, after == m.many);
    next := i + 1;
  }

  /** The retry loop of `my_wildcmp_8bit` for the literal at `wild[j0]`. */
  method FindLiteral8bit(weight: byte -> byte, str: seq<byte>, i0: nat, wild: seq<byte>, j0: nat, m: Wild,
                         after: byte)
    returns (r: int)
    requires m.Valid(EightBit(weight)) && i0 <= |str| && j0 < |wild| && !m.IsWild(wild[j0])
    ensures var cs := EightBit(weight);
            Located(cs, Tokens(cs, m, wild, j0), cs.Chars(str, i0), r, false, after == m.many)
    decreases |wild| - j0, 1
  {
    ghost var cs := EightBit(weight);
    ghost var t := Tokens(cs, m, wild, j0);
    ghost var found, sentinel := Matches(cs, [Many] + t, cs.Chars(str, i0)), after == m.many;
    ghost var sure := Sure(t, true, false, sentinel);
    EightBitWellFormed(weight, str, i0);
    EightBitWellFormed(weight, wild, j0);
    var k := if wild[j0] == m.escape && j0 + 1 != |wild| then j0 + 1 else j0;
    var i: nat := i0;
    while true
      invariant Trying(cs, m, str, i, wild, j0, found, false, sentinel)
      decreases |str| - i
    {
      i := FindByte8bit(weight, str, i, wild, j0, k, m, found, sentinel);
      if i == |str| {
        NothingLeftIf(cs, m, str, wild, j0, found, false, sentinel);
        return -1;
      }
      var tmp;
      tmp, i := TryHere8bit(weight, str, i, wild, j0, k, m, after, found, sure);
      if tmp <= 0 {
        return tmp;
      }
      if i == |str| || (if k + 1 == |wild| then after else wild[k + 1]) == m.many {
        if i == |str| {
          NothingLeftIf(cs, m, str, wild, j0, found, false, sentinel);
        }
        return -1;
      }
    }
  }
}
