/** The Czech alphabet in cp1250, and that words compare by it. */
module CzechAlphabet {
  import opened Bytes
  import opened Czech
  import opened CzechTables

  /** The place of the letter "ch". */
  const CH := 9

  /** The place of the letter "c". */
  const C := 2

  /**
   The letters of the alphabet in their order, each in its forms, capital before small and plain before accented;
   "ch", which has its place between "h" and "i", is not among these single bytes.
   */
  function Singles(i: nat): seq<byte>
    requires i < 31
  {
    match i
    case 0 => [0x41, 0x61, 0xc1, 0xe1]
    case 1 => [0x42, 0x62]
    case 2 => [0x43, 0x63]
    case 3 => [0xc8, 0xe8] // c with caron
    case 4 => [0x44, 0x64, 0xcf, 0xef]
    case 5 => [0x45, 0x65, 0xc9, 0xe9, 0xcc, 0xec]
    case 6 => [0x46, 0x66]
    case 7 => [0x47, 0x67]
    case 8 => [0x48, 0x68]
    case 9 => []
    case 10 => [0x49, 0x69, 0xcd, 0xed]
    case 11 => [0x4a, 0x6a]
    case 12 => [0x4b, 0x6b]
    case 13 => [0x4c, 0x6c]
    case 14 => [0x4d, 0x6d]
    case 15 => [0x4e, 0x6e, 0xd2, 0xf2]
    case 16 => [0x4f, 0x6f, 0xd3, 0xf3]
    case 17 => [0x50, 0x70]
    case 18 => [0x51, 0x71]
    case 19 => [0x52, 0x72]
    case 20 => [0xd8, 0xf8] // r with caron
    case 21 => [0x53, 0x73]
    case 22 => [0x8a, 0x9a] // s with caron
    case 23 => [0x54, 0x74, 0x8d, 0x9d]
    case 24 => [0x55, 0x75, 0xda, 0xfa, 0xd9, 0xf9]
    case 25 => [0x56, 0x76]
    case 26 => [0x57, 0x77]
    case 27 => [0x58, 0x78]
    case 28 => [0x59, 0x79, 0xdd, 0xfd]
    case 29 => [0x5a, 0x7a]
    case 30 => [0x8e, 0x9e] // z with caron
  }

  /** The forms of "ch": "CH", "Ch", "ch". */
  function Digraph(form: nat): (s: seq<byte>)
    requires form < 3
    ensures |s| == 2
  {
    if form == 0 then [0x43, 0x48] else if form == 1 then [0x43, 0x68] else [0x63, 0x68]
  }

  /** A letter: its place in the alphabet and its form. */
  datatype Letter = Letter(index: nat, form: nat)
  {
    predicate Valid() {
      index < 31 && form < if index == CH then 3 else |Singles(index)|
    }

    function Text(): (s: seq<byte>)
      requires Valid()
      ensures s != []
    {
      if index == CH then Digraph(form) else [Singles(index)[form]]
    }
  }

  /** The two letters would be read as the one letter "ch". */
  predicate Merge(s: seq<byte>, x: seq<byte>) {
    x != [] && ((s == [0x63] && x[0] == 0x68) || (s == [0x43] && x[0] in {0x48, 0x68}))
  }

  // ----- the weights of the letters

  /** The weight of a letter in a pass, on its own. */
  function Weight(pass: nat, l: Letter): byte
    requires l.Valid()
  {
    ElementWeight(WIN1250CH, pass, l.Text(), 0)
  }

  /** What the first pass makes of the places; the German sharp s stands in front of "t". */
  function FirstWeight(i: nat): byte
    requires i < 31
  {
    if i < 23 then 0xa4 + i else 0xa5 + i
  }

  /** What two tables make of "a" to "e": a weight for all forms, and an order of the forms. */
  ghost predicate AToE(p1: byte -> byte, p2: byte -> byte) {
    && p1(0x41) == p1(0x61) == p1(0xc1) == p1(0xe1) == 0xa4 && p2(0x41) < p2(0x61) < p2(0xc1) < p2(0xe1)
    && p1(0x42) == p1(0x62) == 0xa5 && p2(0x42) < p2(0x62)
    && p1(0xc8) == p1(0xe8) == 0xa7 && p2(0xc8) < p2(0xe8)
    && p1(0x44) == p1(0x64) == p1(0xcf) == p1(0xef) == 0xa8 && p2(0x44) < p2(0x64) < p2(0xcf) < p2(0xef)
    && p1(0x45) == p1(0x65) == p1(0xc9) == p1(0xe9) == p1(0xcc) == p1(0xec) == 0xa9
    && p2(0x45) < p2(0x65) < p2(0xc9) < p2(0xe9) < p2(0xcc) < p2(0xec)
  }

  /** What two tables make of "f" to "m": a weight for all forms, and an order of the forms. */
  ghost predicate FToM(p1: byte -> byte, p2: byte -> byte) {
    && p1(0x46) == p1(0x66) == 0xaa && p2(0x46) < p2(0x66)
    && p1(0x47) == p1(0x67) == 0xab && p2(0x47) < p2(0x67)
    && p1(0x48) == p1(0x68) == 0xac && p2(0x48) < p2(0x68)
    && p1(0x49) == p1(0x69) == p1(0xcd) == p1(0xed) == 0xae && p2(0x49) < p2(0x69) < p2(0xcd) < p2(0xed)
    && p1(0x4a) == p1(0x6a) == 0xaf && p2(0x4a) < p2(0x6a)
    && p1(0x4b) == p1(0x6b) == 0xb0 && p2(0x4b) < p2(0x6b)
    && p1(0x4c) == p1(0x6c) == 0xb1 && p2(0x4c) < p2(0x6c)
    && p1(0x4d) == p1(0x6d) == 0xb2 && p2(0x4d) < p2(0x6d)
  }

  /** What two tables make of "n" to "s": a weight for all forms, and an order of the forms. */
  ghost predicate NToS(p1: byte -> byte, p2: byte -> byte) {
    && p1(0x4e) == p1(0x6e) == p1(0xd2) == p1(0xf2) == 0xb3 && p2(0x4e) < p2(0x6e) < p2(0xd2) < p2(0xf2)
    && p1(0x4f) == p1(0x6f) == p1(0xd3) == p1(0xf3) == 0xb4 && p2(0x4f) < p2(0x6f) < p2(0xd3) < p2(0xf3)
    && p1(0x50) == p1(0x70) == 0xb5 && p2(0x50) < p2(0x70)
    && p1(0x51) == p1(0x71) == 0xb6 && p2(0x51) < p2(0x71)
    && p1(0x52) == p1(0x72) == 0xb7 && p2(0x52) < p2(0x72)
    && p1(0xd8) == p1(0xf8) == 0xb8 && p2(0xd8) < p2(0xf8)
    && p1(0x53) == p1(0x73) == 0xb9 && p2(0x53) < p2(0x73)
    && p1(0x8a) == p1(0x9a) == 0xba && p2(0x8a) < p2(0x9a)
  }

  /** What two tables make of "t" to "z": a weight for all forms, and an order of the forms. */
  ghost predicate TToZ(p1: byte -> byte, p2: byte -> byte) {
    && p1(0x54) == p1(0x74) == p1(0x8d) == p1(0x9d) == 0xbc && p2(0x54) < p2(0x74) < p2(0x8d) < p2(0x9d)
    && p1(0x55) == p1(0x75) == p1(0xda) == p1(0xfa) == p1(0xd9) == p1(0xf9) == 0xbd
    && p2(0x55) < p2(0x75) < p2(0xda) < p2(0xfa) < p2(0xd9) < p2(0xf9)
    && p1(0x56) == p1(0x76) == 0xbe && p2(0x56) < p2(0x76)
    && p1(0x57) == p1(0x77) == 0xbf && p2(0x57) < p2(0x77)
    && p1(0x58) == p1(0x78) == 0xc0 && p2(0x58) < p2(0x78)
    && p1(0x59) == p1(0x79) == p1(0xdd) == p1(0xfd) == 0xc1 && p2(0x59) < p2(0x79) < p2(0xdd) < p2(0xfd)
    && p1(0x5a) == p1(0x7a) == 0xc2 && p2(0x5a) < p2(0x7a)
    && p1(0x8e) == p1(0x9e) == 0xc3 && p2(0x8e) < p2(0x9e)
  }

  lemma TableAToE()
    ensures AToE(SortOrder1, SortOrder2)
  {
  }

  lemma TableFToM()
    ensures FToM(SortOrder1, SortOrder2)
  {
  }

  lemma TableNToS()
    ensures NToS(SortOrder1, SortOrder2)
  {
  }

  lemma TableTToZ()
    ensures TToZ(SortOrder1, SortOrder2)
  {
  }

  lemma InAToE(p1: byte -> byte, p2: byte -> byte, i: nat, v: nat, w: nat)
    requires AToE(p1, p2) && i <= 5 && i != C && v <= w < |Singles(i)|
    ensures p1(Singles(i)[v]) == p1(Singles(i)[w]) == FirstWeight(i)
    ensures v < w ==> p2(Singles(i)[v]) < p2(Singles(i)[w])
  {
  }

  lemma InFToM(p1: byte -> byte, p2: byte -> byte, i: nat, v: nat, w: nat)
    requires FToM(p1, p2) && 6 <= i <= 14 && v <= w < |Singles(i)|
    ensures p1(Singles(i)[v]) == p1(Singles(i)[w]) == FirstWeight(i)
    ensures v < w ==> p2(Singles(i)[v]) < p2(Singles(i)[w])
  {
  }

  lemma InNToS(p1: byte -> byte, p2: byte -> byte, i: nat, v: nat, w: nat)
    requires NToS(p1, p2) && 15 <= i <= 22 && v <= w < |Singles(i)|
    ensures p1(Singles(i)[v]) == p1(Singles(i)[w]) == FirstWeight(i)
    ensures v < w ==> p2(Singles(i)[v]) < p2(Singles(i)[w])
  {
  }

  lemma InTToZ(p1: byte -> byte, p2: byte -> byte, i: nat, v: nat, w: nat)
    requires TToZ(p1, p2) && 23 <= i <= 30 && v <= w < |Singles(i)|
    ensures p1(Singles(i)[v]) == p1(Singles(i)[w]) == FirstWeight(i)
    ensures v < w ==> p2(Singles(i)[v]) < p2(Singles(i)[w])
  {
  }

  /** The weights of the single bytes in both passes. */
  lemma SingleWeights(i: nat, v: nat, w: nat)
    requires i < 31 && i != C && v <= w < |Singles(i)|
    ensures SortOrder1(Singles(i)[v]) == SortOrder1(Singles(i)[w]) == FirstWeight(i)
    ensures v < w ==> SortOrder2(Singles(i)[v]) < SortOrder2(Singles(i)[w])
    ensures !IsC(Singles(i)[v]) && !IsC(Singles(i)[w])
  {
    if i <= 5 {
      TableAToE();
      InAToE(SortOrder1, SortOrder2, i, v, w);
    } else if i <= 14 {
      TableFToM();
      InFToM(SortOrder1, SortOrder2, i, v, w);
    } else if i <= 22 {
      TableNToS();
      InNToS(SortOrder1, SortOrder2, i, v, w);
    } else {
      TableTToZ();
      InTToZ(SortOrder1, SortOrder2, i, v, w);
    }
    FirstPass(Singles(i)[v]);
    FirstPass(Singles(i)[w]);
  }

  /** In the first pass only the place of a letter counts. */
  lemma FirstPassWeight(l: Letter)
    requires l.Valid()
    ensures Weight(0, l) == FirstWeight(l.index)
  {
    if l.index != CH && l.index != C {
      SingleWeights(l.index, l.form, l.form);
    }
  }

  /** In the second pass the forms of a letter come in their order. */
  lemma SecondPassOrder(l: Letter, m: Letter)
    requires l.Valid() && m.Valid() && l.index == m.index && l.form < m.form
    ensures Weight(1, l) < Weight(1, m)
  {
    if l.index != CH && l.index != C {
      SingleWeights(l.index, l.form, m.form);
    }
  }

  // ----- words

  ghost predicate Word(a: seq<Letter>) {
    && (forall k :: 0 <= k < |a| ==> a[k].Valid())
    && (forall k, n :: 0 <= k && n == k + 1 < |a| ==> !Merge(a[k].Text(), a[n].Text()))
  }

  function Text(a: seq<Letter>): seq<byte>
    requires forall k :: 0 <= k < |a| ==> a[k].Valid()
  {
    if a == [] then [] else a[0].Text() + Text(a[1..])
  }

  /** The weights of the letters. */
  function LetterWeights(pass: nat, a: seq<Letter>): seq<byte>
    requires forall k :: 0 <= k < |a| ==> a[k].Valid()
  {
    if a == [] then [] else [Weight(pass, a[0])] + LetterWeights(pass, a[1..])
  }

  /** A letter in front of what does not merge with it is read as the letter. */
  lemma LetterRead(pass: nat, l: Letter, s: seq<byte>, p: nat, rest: seq<byte>)
    requires l.Valid() && p <= |s| && s[p..] == l.Text() + rest && !Merge(l.Text(), rest)
    ensures p < |s| && ElementWeight(WIN1250CH, pass, s, p) == Weight(pass, l)
    ensures ElementLen(s, p) == |l.Text()| && p + |l.Text()| <= |s| && s[p + |l.Text()|..] == rest
  {
    var c := l.Text();
    BytesAt(s, p, c, rest);
    if l.index == CH || l.index == C {
      PairRead(c, s, p, rest);
    } else {
      SingleWeights(l.index, l.form, l.form);
    }
  }

  lemma BytesAt(s: seq<byte>, p: nat, c: seq<byte>, rest: seq<byte>)
    requires p <= |s| && s[p..] == c + rest && c != []
    ensures p + |c| <= |s| && s[p] == c[0] && s[p + |c|..] == rest
    ensures |c| == 2 ==> s[p + 1] == c[1]
    ensures |c| == 1 ==> Peek(s, p + 1) == if rest == [] then -1 else rest[0]
  {
    assert s == s[..p] + (c + rest);
  }

  /** "c" and "ch" are told apart by what follows. */
  lemma PairRead(c: seq<byte>, s: seq<byte>, p: nat, rest: seq<byte>)
    requires c in {[0x43], [0x63], [0x43, 0x48], [0x43, 0x68], [0x63, 0x68]} && !Merge(c, rest)
    requires p + |c| <= |s| && s[p] == c[0] && (|c| == 2 ==> s[p + 1] == c[1])
    requires |c| == 1 ==> Peek(s, p + 1) == if rest == [] then -1 else rest[0]
    ensures DoubleIndex(s, p) == DoubleIndex(c, 0) && ElementLen(s, p) == |c|
  {
  }

  /** The first letter of a word, and the word behind it. */
  lemma WordParts(a: seq<Letter>, l: Letter, b: seq<Letter>)
    requires Word(a) && a != [] && l == a[0] && b == a[1..]
    ensures l.Valid() && Word(b) && Text(a) == l.Text() + Text(b) && !Merge(l.Text(), Text(b))
    ensures forall pass: nat :: LetterWeights(pass, a) == [Weight(pass, l)] + LetterWeights(pass, b)
  {
    if b != [] {
      assert b[0] == a[1] && !Merge(a[0].Text(), a[1].Text());
      assert Text(b)[0] == b[0].Text()[0];
    }
  }

  /** The weight of a letter, and where the next one is. */
  lemma OneWeight(pass: nat, l: Letter, s: seq<byte>, p: nat, rest: seq<byte>) returns (next: nat)
    requires l.Valid() && p <= |s| && s[p..] == l.Text() + rest && !Merge(l.Text(), rest)
    ensures p < next <= |s| && s[next..] == rest
    ensures Weights(WIN1250CH, pass, s, p) == [Weight(pass, l)] + Weights(WIN1250CH, pass, s, next)
  {
    LetterRead(pass, l, s, p, rest);
    next := p + |l.Text()|;
  }

  /** The weights of a text are those of its letters. */
  lemma {:induction false} WordWeights(pass: nat, a: seq<Letter>, s: seq<byte>, p: nat)
    requires Word(a) && p <= |s| && s[p..] == Text(a)
    ensures Weights(WIN1250CH, pass, s, p) == LetterWeights(pass, a)
    decreases |a|
  {
    if a != [] {
      var l, b := a[0], a[1..];
      WordParts(a, l, b);
      var next := OneWeight(pass, l, s, p, Text(b));
      WordWeights(pass, b, s, next);
    }
  }

  /** The order of the alphabet: the sign of the first difference in it, a beginning of a word being smaller. */
  function InAlphabet(a: seq<Letter>, b: seq<Letter>): int {
    if a == [] then (if b == [] then 0 else -1)
    else if b == [] then 1
    else if a[0].index != b[0].index then Sign(a[0].index - b[0].index)
    else InAlphabet(a[1..], b[1..])
  }

  /** The order of two words of the same letters: the sign of the first difference in their forms. */
  function ByForm(a: seq<Letter>, b: seq<Letter>): int {
    if a == [] || b == [] then 0
    else if a[0].form != b[0].form then Sign(a[0].form - b[0].form)
    else ByForm(a[1..], b[1..])
  }

  lemma {:induction false} FirstPassLex(a: seq<Letter>, b: seq<Letter>)
    requires Word(a) && Word(b)
    ensures Lex(LetterWeights(0, a), LetterWeights(0, b)) == InAlphabet(a, b)
  {
    if a != [] && b != [] {
      FirstPassWeight(a[0]);
      FirstPassWeight(b[0]);
      FirstPassLex(a[1..], b[1..]);
    }
  }

  lemma {:induction false} SecondPassLex(a: seq<Letter>, b: seq<Letter>)
    requires Word(a) && Word(b) && InAlphabet(a, b) == 0
    ensures Lex(LetterWeights(1, a), LetterWeights(1, b)) == ByForm(a, b)
  {
    if a != [] && b != [] {
      if a[0].form < b[0].form {
        SecondPassOrder(a[0], b[0]);
      } else if b[0].form < a[0].form {
        SecondPassOrder(b[0], a[0]);
      }
      SecondPassLex(a[1..], b[1..]);
    }
  }

  /** Words compare by the alphabet; only words of the same letters compare by capitals and accents. */
  lemma WordsCompare(a: seq<Letter>, b: seq<Letter>)
    requires Word(a) && Word(b)
    ensures Lex(Stream(WIN1250CH, Text(a)), Stream(WIN1250CH, Text(b)))
            == if InAlphabet(a, b) != 0 then InAlphabet(a, b) else ByForm(a, b)
  {
    Win1250chValid();
    StreamTwoLevels(WIN1250CH, Text(a), Text(b));
    TextWeights(a);
    TextWeights(b);
    FirstPassLex(a, b);
    if InAlphabet(a, b) == 0 {
      SecondPassLex(a, b);
    }
  }

  lemma TextWeights(a: seq<Letter>)
    requires Word(a)
    ensures forall pass: nat :: Weights(WIN1250CH, pass, Text(a), 0) == LetterWeights(pass, a)
  {
    forall pass: nat ensures Weights(WIN1250CH, pass, Text(a), 0) == LetterWeights(pass, a) {
      assert Text(a)[0..] == Text(a);
      WordWeights(pass, a, Text(a), 0);
    }
  }

  /** Any two strings that start with different letters, whatever follows them, compare by these letters. */
  lemma FirstLetters(l: Letter, m: Letter, x: seq<byte>, y: seq<byte>)
    requires l.Valid() && m.Valid() && l.index < m.index && !Merge(l.Text(), x) && !Merge(m.Text(), y)
    ensures Lex(Stream(WIN1250CH, l.Text() + x), Stream(WIN1250CH, m.Text() + y)) == -1
    ensures Lex(Stream(WIN1250CH, m.Text() + y), Stream(WIN1250CH, l.Text() + x)) == 1
  {
    FirstInStream(l, x);
    FirstInStream(m, y);
  }

  lemma FirstInStream(l: Letter, x: seq<byte>)
    requires l.Valid() && !Merge(l.Text(), x)
    ensures var s := Stream(WIN1250CH, l.Text() + x);
            s != [] && s[0] == FirstWeight(l.index)
  {
    var s := l.Text() + x;
    assert s[0..] == s;
    LetterRead(0, l, s, 0, x);
    FirstPassWeight(l);
  }

  /** "ch", "Ch" and "CH", whatever follows, come after "h" and "H" and before "i" and "I". */
  lemma DigraphPlace(ch: seq<byte>, h: byte, i: byte, x: seq<byte>, y: seq<byte>, z: seq<byte>)
    requires ch in {[0x63, 0x68], [0x43, 0x68], [0x43, 0x48]} && h in {0x48, 0x68} && i in {0x49, 0x69}
    ensures Lex(Stream(WIN1250CH, ch + x), Stream(WIN1250CH, [h] + y)) == 1
    ensures Lex(Stream(WIN1250CH, ch + x), Stream(WIN1250CH, [i] + z)) == -1
  {
    var form := if ch[0] == 0x63 then 2 else if ch[1] == 0x68 then 1 else 0;
    var lh, lch, li := Letter(8, if h == 0x48 then 0 else 1), Letter(CH, form), Letter(10, if i == 0x49 then 0 else 1);
    assert lch.Text() == ch && lh.Text() == [h] && li.Text() == [i];
    FirstLetters(lh, lch, y, x);
    FirstLetters(lch, li, x, z);
  }
}
