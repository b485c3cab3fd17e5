/** The Czech collation of cp1250: two passes of weights compared as one stream. */
module Czech {
  import opened Bytes

  /** The weight tables of the two passes. */
  datatype Tables = Tables(pass1: byte -> byte, pass2: byte -> byte)
  {
    /** 0xff marks the letters that may open a digraph; other weights of the first pass exceed those of the second. */
    ghost predicate Valid() {
      forall b: byte :: Ok(b)
    }

    predicate Ok(b: byte) {
      && pass1(b) >= 0x81
      && (pass1(b) == 0xff <==> IsC(b))
      && (pass2(b) == 0xff <==> IsC(b))
      && (IsC(b) || 1 <= pass2(b) < 0x81)
    }

    function At(pass: nat, b: byte): byte {
      if pass == 0 then pass1(b) else pass2(b)
    }
  }

  predicate IsC(b: byte) { b == 0x63 || b == 0x43 }

  datatype WordValue = WordValue(word: seq<byte>, pass1: byte, pass2: byte)

  /** `doubles`: "ch", "c", "Ch", "CH", "C". */
  function Double(i: nat): WordValue
    requires i < 5
  {
    if i == 0 then WordValue([0x63, 0x68], 0xad, 0x03)
    else if i == 1 then WordValue([0x63], 0xa6, 0x02)
    else if i == 2 then WordValue([0x43, 0x68], 0xad, 0x02)
    else if i == 3 then WordValue([0x43, 0x48], 0xad, 0x01)
    else WordValue([0x43], 0xa6, 0x01)
  }

  /** `sizeof(doubles)` in bytes, which bounds the search loop. */
  const SIZEOF_DOUBLES := 40

  // ----- what the weights mean

  /** The byte at `p`, -1 at the end. */
  function Peek(s: seq<byte>, p: nat): int {
    if p < |s| then s[p] else -1
  }

  /** The entry of `doubles` for the `c` at `p`. */
  function DoubleIndex(s: seq<byte>, p: nat): (i: nat)
    requires p < |s| && IsC(s[p])
    ensures i < 5
  {
    if s[p] == 0x63 then (if Peek(s, p + 1) == 0x68 then 0 else 1)
    else if Peek(s, p + 1) == 0x68 then 2
    else if Peek(s, p + 1) == 0x48 then 3
    else 4
  }

  /** The length of the collation element at `p`. */
  function ElementLen(s: seq<byte>, p: nat): (l: nat)
    requires p < |s|
    ensures 1 <= l <= |s| - p
  {
    if IsC(s[p]) then |Double(DoubleIndex(s, p)).word| else 1
  }

  /** Its weight in a pass. */
  function ElementWeight(t: Tables, pass: nat, s: seq<byte>, p: nat): byte
    requires p < |s|
  {
    if IsC(s[p]) then
      var d := Double(DoubleIndex(s, p));
      if pass == 0 then d.pass1 else d.pass2
    else t.At(pass, s[p])
  }

  /** The weights of `s[p..]` in a pass. */
  function Weights(t: Tables, pass: nat, s: seq<byte>, p: nat): seq<byte>
    requires p <= |s|
    decreases |s| - p
  {
    if p == |s| then [] else [ElementWeight(t, pass, s, p)] + Weights(t, pass, s, p + ElementLen(s, p))
  }

  /** What is still to come for the position `p` in a pass. */
  function Rest(t: Tables, pass: nat, s: seq<byte>, p: nat): seq<byte>
    requires p <= |s|
  {
    if pass == 0 then Weights(t, 0, s, p) + Weights(t, 1, s, 0) else Weights(t, 1, s, p)
  }

  /** The whole stream: both passes, one behind the other. */
  function Stream(t: Tables, s: seq<byte>): seq<byte> {
    Rest(t, 0, s, 0)
  }

  /** The sign of the lexicographic comparison, a proper prefix being smaller; on equal lengths, `memcmp`. */
  function Lex(a: seq<byte>, b: seq<byte>): (r: int)
    ensures -1 <= r <= 1 && (r == 0 <==> a == b)
  {
    if a == [] then (if b == [] then 0 else -1)
    else if b == [] then 1
    else if a[0] != b[0] then (if a[0] < b[0] then -1 else 1)
    else
      assert a == [a[0]] + a[1..] && b == [b[0]] + b[1..];
      Lex(a[1..], b[1..])
  }

  ghost predicate AllAbove(a: seq<byte>, low: byte) {
    forall k :: 0 <= k < |a| ==> a[k] > low
  }

  ghost predicate AllBelow(a: seq<byte>, high: byte) {
    forall k :: 0 <= k < |a| ==> a[k] < high
  }

  lemma ElementWeightRange(t: Tables, s: seq<byte>, p: nat)
    requires t.Valid() && p < |s|
    ensures ElementWeight(t, 0, s, p) > 0x80 && 0 < ElementWeight(t, 1, s, p) < 0x81
  {
    assert t.Ok(s[p]);
  }

  lemma {:induction false} WeightsRange(t: Tables, s: seq<byte>, p: nat)
    requires t.Valid() && p <= |s|
    ensures AllAbove(Weights(t, 0, s, p), 0x80)
    ensures AllAbove(Weights(t, 1, s, p), 0) && AllBelow(Weights(t, 1, s, p), 0x81)
    decreases |s| - p
  {
    if p < |s| {
      ElementWeightRange(t, s, p);
      WeightsRange(t, s, p + ElementLen(s, p));
    }
  }

  lemma {:induction false} LexTwoLevels(a1: seq<byte>, a2: seq<byte>, b1: seq<byte>, b2: seq<byte>)
    requires AllAbove(a1, 0x80) && AllAbove(b1, 0x80) && AllBelow(a2, 0x81) && AllBelow(b2, 0x81)
    ensures Lex(a1 + a2, b1 + b2) == if Lex(a1, b1) != 0 then Lex(a1, b1) else Lex(a2, b2)
  {
    if a1 == [] || b1 == [] {
      assert a1 == [] ==> a1 + a2 == a2;
      assert b1 == [] ==> b1 + b2 == b2;
    } else {
      assert (a1 + a2)[1..] == a1[1..] + a2 && (b1 + b2)[1..] == b1[1..] + b2;
      LexTwoLevels(a1[1..], a2, b1[1..], b2);
    }
  }

  /** Comparing the streams is comparing the first passes and, where they tie, the second passes. */
  lemma StreamTwoLevels(t: Tables, s1: seq<byte>, s2: seq<byte>)
    requires t.Valid()
    ensures var first := Lex(Weights(t, 0, s1, 0), Weights(t, 0, s2, 0));
            Lex(Stream(t, s1), Stream(t, s2))
            == if first != 0 then first else Lex(Weights(t, 1, s1, 0), Weights(t, 1, s2, 0))
  {
    WeightsRange(t, s1, 0);
    WeightsRange(t, s2, 0);
    LexTwoLevels(Weights(t, 0, s1, 0), Weights(t, 1, s1, 0), Weights(t, 0, s2, 0), Weights(t, 1, s2, 0));
  }

  lemma {:induction false} LexAntisymmetric(a: seq<byte>, b: seq<byte>)
    ensures Lex(a, b) == -Lex(b, a)
  {
    if a != [] && b != [] {
      LexAntisymmetric(a[1..], b[1..]);
    }
  }

  lemma {:induction false} LexTransitive(a: seq<byte>, b: seq<byte>, c: seq<byte>)
    requires Lex(a, b) <= 0 && Lex(b, c) <= 0
    ensures Lex(a, c) <= 0
  {
    if a != [] && b != [] && c != [] && a[0] == b[0] == c[0] {
      LexTransitive(a[1..], b[1..], c[1..]);
    }
  }

  // ----- the code

  /** The search loop of `NEXT_CMP_VALUE`, which ends at the entry for the `c` at `p`. */
  method SearchDoubles(s: seq<byte>, p: nat) returns (i: nat, q: nat)
    requires p < |s| && IsC(s[p])
    ensures i == DoubleIndex(s, p) && q == p + |Double(i).word|
  {
    i := 0;
    while i < SIZEOF_DOUBLES
      invariant i <= DoubleIndex(s, p)
      decreases SIZEOF_DOUBLES - i
    {
      var patt := Double(i).word;
      var k := 0;
      q := p;
      while k < |patt| && q < |s| && patt[k] == s[q]
        invariant k <= |patt| && q == p + k <= |s|
        invariant forall x :: 0 <= x < k ==> patt[x] == s[p + x]
      {
        k, q := k + 1, q + 1;
      }
      if k == |patt| {
        assert patt[0] == s[p + 0] && (|patt| == 2 ==> patt[1] == s[p + 1]);
        return;
      }
      i := i + 1;
    }
  }

  /** `NEXT_CMP_VALUE`: the next weight of the stream, or 0 at its end. */
  method NextCmpValue(t: Tables, s: seq<byte>, p0: nat, pass0: nat) returns (p: nat, pass: nat, value: byte)
    requires t.Valid() && p0 <= |s| && pass0 <= 1
    ensures p <= |s| && pass <= 1
    ensures value == 0 <==> Rest(t, pass0, s, p0) == []
    ensures value > 0 ==> [value] + Rest(t, pass, s, p) == Rest(t, pass0, s, p0)
  {
    p, pass := p0, pass0;
    if p == |s| {
      if pass == 0 && |s| > 0 {
        p, pass := 0, 1;
        assert Rest(t, pass0, s, p0) == Rest(t, pass, s, p);
      } else {
        return p, pass, 0;
      }
    }
    assert t.Ok(s[p]);
    ElementWeightRange(t, s, p);
    ghost var was := Rest(t, pass, s, p);
    value := t.At(pass, s[p]);
    if value == 0xff {
      var i, q := SearchDoubles(s, p);
      value := if pass == 0 then Double(i).pass1 else Double(i).pass2;
      p := q - 1;
    }
    p := p + 1;
    assert was == [value] + Rest(t, pass, s, p);
  }

  /** `my_strnncoll_win1250ch`. */
  method Strnncoll(t: Tables, s1: seq<byte>, s2: seq<byte>, s2IsPrefix: bool) returns (diff: int)
    requires t.Valid()
    ensures var s := if s2IsPrefix && |s1| > |s2| then s1[..|s2|] else s1;
            Sign(diff) == Lex(Stream(t, s), Stream(t, s2))
  {
    var s := if s2IsPrefix && |s1| > |s2| then s1[..|s2|] else s1;
    var p1: nat, p2: nat, pass1: nat, pass2: nat := 0, 0, 0, 0;
    while true
      invariant p1 <= |s| && p2 <= |s2| && pass1 <= 1 && pass2 <= 1
      invariant Lex(Rest(t, pass1, s, p1), Rest(t, pass2, s2, p2)) == Lex(Stream(t, s), Stream(t, s2))
      decreases |Rest(t, pass1, s, p1)|
    {
      ghost var a, b := Rest(t, pass1, s, p1), Rest(t, pass2, s2, p2);
      var v1, v2;
      p1, pass1, v1 := NextCmpValue(t, s, p1, pass1);
      p2, pass2, v2 := NextCmpValue(t, s2, p2, pass2);
      if v1 != v2 {
        return (v1 as int) - v2;
      }
      if v1 == 0 {
        return 0;
      }
      assert a[1..] == Rest(t, pass1, s, p1) && b[1..] == Rest(t, pass2, s2, p2);
    }
  }

  /** The sort key of `s` in `n` bytes: the stream, a terminator and spaces. */
  function Key(t: Tables, s: seq<byte>, n: nat): seq<byte> {
    var k := Stream(t, s) + [0];
    seq(n, i requires 0 <= i < n => if i < |k| then k[i] else SPACE)
  }

  /** What is at `dest[len]` after the call: a byte of the stream or its terminator, unless there is room for both. */
  function BehindKey(t: Tables, s: seq<byte>, len: nat, before: byte): byte {
    if |Stream(t, s)| < len then before else (Stream(t, s) + [0])[len]
  }

  /** "Not more than `len` bytes are written" holds for all contents exactly if the stream is shorter than the key. */
  lemma NothingBehindKeyIff(t: Tables, s: seq<byte>, len: nat)
    ensures (forall before: byte :: BehindKey(t, s, len, before) == before) <==> |Stream(t, s)| < len
  {
    if |Stream(t, s)| >= len {
      var other: byte := if (Stream(t, s) + [0])[len] == 0 then 1 else 0;
      assert BehindKey(t, s, len, other) != other;
    }
  }

  /** `my_strnxfrm_win1250ch`. */
  method Strnxfrm(t: Tables, dest: array<byte>, len: nat, src: seq<byte>) returns (r: nat)
    requires t.Valid() && (len < dest.Length || (len == dest.Length && |Stream(t, src)| < len))
    modifies dest
    ensures r == len && dest[..len] == Key(t, src, len)
    ensures len < dest.Length ==> dest[len] == BehindKey(t, src, len, old(dest[len]))
    ensures forall i :: len < i < dest.Length ==> dest[i] == old(dest[i])
  {
    ghost var k := Stream(t, src) + [0];
    var p: nat, pass: nat, totlen := 0, 0, 0;
    var value: byte := 1;
    while value != 0
      invariant p <= |src| && pass <= 1 && 0 <= totlen <= |k|
      invariant value != 0 ==> k[totlen..] == Rest(t, pass, src, p) + [0]
      invariant value == 0 ==> totlen == |k|
      invariant forall i :: 0 <= i < Min(totlen, len) ==> dest[i] == k[i]
      invariant len < dest.Length ==> dest[len] == if totlen <= len then old(dest[len]) else k[len]
      invariant forall i :: len < i < dest.Length ==> dest[i] == old(dest[i])
      decreases value != 0, |Rest(t, pass, src, p)|
    {
      ghost var was := Rest(t, pass, src, p);
      p, pass, value := NextCmpValue(t, src, p, pass);
      NextOfStream(k, totlen, was, value, Rest(t, pass, src, p));
      if totlen <= len {
        dest[totlen] := value;
      }
      totlen := totlen + 1;
    }
    if len > totlen {
      Bfill(dest, totlen, len);
    }
    return len;
  }

  /** The next byte of a terminated stream, and what is behind it. */
  lemma NextOfStream(k: seq<byte>, at: nat, was: seq<byte>, value: byte, rest: seq<byte>)
    requires at <= |k| && k[at..] == was + [0] && (value == 0 <==> was == []) && (value > 0 ==> [value] + rest == was)
    ensures at < |k| && k[at] == value && (value == 0 ==> at + 1 == |k|) && (value > 0 ==> k[at + 1..] == rest + [0])
  {
    assert k[at] == k[at..][0];
    if value > 0 {
      assert k[at + 1..] == k[at..][1..] == was[1..] + [0];
      assert was[1..] == rest;
    }
  }

  /** `bfill` with spaces. */
  method Bfill(dest: array<byte>, from: nat, to: nat)
    requires from <= to <= dest.Length
    modifies dest
    ensures forall i :: from <= i < to ==> dest[i] == SPACE
    ensures forall i :: 0 <= i < dest.Length && !(from <= i < to) ==> dest[i] == old(dest[i])
  {
    for i := from to to
      invariant forall x :: from <= x < i ==> dest[x] == SPACE
      invariant forall x :: 0 <= x < dest.Length && !(from <= x < i) ==> dest[x] == old(dest[x])
    {
      dest[i] := SPACE;
    }
  }

  // ----- keys against comparison

  /** What follows two different runs up to the same length, if it starts with a terminator, keeps their order. */
  lemma {:induction false} LexTerminated(a: seq<byte>, b: seq<byte>, x: seq<byte>, y: seq<byte>)
    requires AllAbove(a, 0) && AllAbove(b, 0) && a != b && |a| + |x| == |b| + |y|
    requires (x != [] ==> x[0] == 0) && (y != [] ==> y[0] == 0)
    ensures Lex(a + x, b + y) == Lex(a, b)
  {
    if a != [] && b != [] && a[0] == b[0] {
      assert (a + x)[1..] == a[1..] + x && (b + y)[1..] == b[1..] + y;
      assert a == [a[0]] + a[1..] && b == [b[0]] + b[1..];
      LexTerminated(a[1..], b[1..], x, y);
    }
  }

  /** Given enough room, comparing keys byte by byte is comparing the strings. */
  lemma KeysCompare(t: Tables, s1: seq<byte>, s2: seq<byte>, n: nat)
    requires t.Valid() && |Stream(t, s1)| <= n && |Stream(t, s2)| <= n
    ensures Lex(Key(t, s1, n), Key(t, s2, n)) == Lex(Stream(t, s1), Stream(t, s2))
  {
    var a, b := Stream(t, s1), Stream(t, s2);
    WeightsRange(t, s1, 0);
    WeightsRange(t, s2, 0);
    if a != b {
      var x, y := KeyTail(a, n), KeyTail(b, n);
      assert Key(t, s1, n) == a + x && Key(t, s2, n) == b + y;
      LexTerminated(a, b, x, y);
    }
  }

  /** What follows a stream in a key of `n` bytes: nothing, or the terminator and spaces. */
  function KeyTail(stream: seq<byte>, n: nat): seq<byte>
    requires |stream| <= n
  {
    seq(n - |stream|, i => if i == 0 then 0 else SPACE)
  }

  lemma {:induction false} WeightsLength(t: Tables, pass: nat, s: seq<byte>, p: nat)
    requires p <= |s|
    ensures |Weights(t, pass, s, p)| <= |s| - p
    decreases |s| - p
  {
    if p < |s| {
      WeightsLength(t, pass, s, p + ElementLen(s, p));
    }
  }

  /** Two bytes of key for a byte of string are enough. */
  lemma WideKeysCompare(t: Tables, s1: seq<byte>, s2: seq<byte>, n: nat)
    requires t.Valid() && 2 * |s1| <= n && 2 * |s2| <= n
    ensures Lex(Key(t, s1, n), Key(t, s2, n)) == Lex(Stream(t, s1), Stream(t, s2))
  {
    forall s | s == s1 || s == s2 ensures |Stream(t, s)| <= n {
      WeightsLength(t, 0, s, 0);
      WeightsLength(t, 1, s, 0);
    }
    KeysCompare(t, s1, s2, n);
  }
}
