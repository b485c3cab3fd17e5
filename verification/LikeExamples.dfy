/** A match that `my_wildcmp_mb_bin` misses where `char` is signed. */
module LikeExamples {
  import opened Bytes
  import opened Charsets
  import opened LikeSpec
  import opened LikeMatch

  /** Backslash, `_` and `%`. */
  const USUAL := Wild(0x5c, 0x5f, 0x25)

  /** In sjis the pattern "%" and a half-width kana matches that kana, but the search cannot see it. */
  lemma KanaUnseen()
    ensures var cs, p, s := SjisBin(), [0x25, 0xb1], [0xb1];
            && cs.Valid() && USUAL.Valid(cs) && cs.WellFormed(p, 0) && cs.WellFormed(s, 0)
            && Matches(cs, Tokens(cs, USUAL, p, 0), cs.Chars(s, 0)) && Blind(Tokens(cs, USUAL, p, 0), false)
  {
    SjisValid();
    var cs, p, s := SjisBin(), [0x25, 0xb1], [0xb1];
    assert s[0..1] == [0xb1] && p[1..2] == [0xb1];
    assert cs.Chars(s, 1) == [] && cs.Chars(s, 0) == [s[0..1]] + cs.Chars(s, 1);
    var t := Tokens(cs, USUAL, p, 1);
    assert Tokens(cs, USUAL, p, 2) == [];
    assert t == [Literal(p[1..2])] + Tokens(cs, USUAL, p, 2);
    KanaMatches(cs, t, cs.Chars(s, 0));
    assert Tokens(cs, USUAL, p, 0) == [Many] + t;
  }

  lemma KanaMatches(cs: Charset, t: seq<Token>, c: seq<seq<byte>>)
    requires t == [Literal([0xb1])] && c == [[0xb1]]
    ensures Matches(cs, [Many] + t, c) && Blind([Many] + t, false)
  {
    assert t[1..] == [] && c[1..] == [] && Matches(cs, [], []);
    assert ([Many] + t)[1..] == t && c[0..] == c;
    assert Matches(cs, t, c[0..]);
  }

  /** So the answer of `my_wildcmp_mb_bin` is not 0. */
  method KanaMissed() returns (r: int)
    ensures r != 0
  {
    KanaUnseen();
    r := WildcmpMb(SjisBin(), [0xb1], 0, [0x25, 0xb1], 0, USUAL, 0, true);
  }
}
