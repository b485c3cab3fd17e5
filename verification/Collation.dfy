/**
 The collations with one weight per byte: comparison with space padding, sort keys and hashing.
 With the identity for weights these are also the `_bin` collations.
 */
module Collation {
  import opened Bytes

  /** The weight at position `k` of `s` when `s` goes on with spaces for ever. */
  function WeightAt(w: byte -> byte, s: seq<byte>, k: nat): byte {
    if k < |s| then w(s[k]) else w(SPACE)
  }

  /** `a` and `b`, both followed by spaces, agree below position `n`. */
  ghost predicate SameBelow(w: byte -> byte, a: seq<byte>, b: seq<byte>, n: nat) {
    forall k: nat :: k < n ==> WeightAt(w, a, k) == WeightAt(w, b, k)
  }

  /** `a` comes before `b` at position `n`. */
  ghost predicate LessAt(w: byte -> byte, a: seq<byte>, b: seq<byte>, n: nat) {
    SameBelow(w, a, b, n) && WeightAt(w, a, n) < WeightAt(w, b, n)
  }

  /** `a` comes before `b` in the order of the padded weights. */
  ghost predicate Less(w: byte -> byte, a: seq<byte>, b: seq<byte>) {
    exists n: nat :: LessAt(w, a, b, n)
  }

  /** `a` and `b` have the same weights once padded. */
  ghost predicate Equal(w: byte -> byte, a: seq<byte>, b: seq<byte>) {
    forall k: nat :: WeightAt(w, a, k) == WeightAt(w, b, k)
  }

  /** Beyond both strings there is nothing to compare. */
  lemma EqualWithin(w: byte -> byte, a: seq<byte>, b: seq<byte>, n: nat)
    requires SameBelow(w, a, b, n) && |a| <= n && |b| <= n
    ensures Equal(w, a, b)
  {
    forall k: nat ensures WeightAt(w, a, k) == WeightAt(w, b, k) {
      assert k < n || k >= n;
    }
  }

  /** A space at the end makes no difference. */
  lemma TrailingSpace(w: byte -> byte, s: seq<byte>)
    ensures Equal(w, s, s + [0x20])
  {
    EqualWithin(w, s, s + [0x20], |s| + 1);
  }

  /** A comparison decided at one position is decided. */
  lemma LessExcludes(w: byte -> byte, a: seq<byte>, b: seq<byte>)
    ensures Less(w, a, b) ==> !Less(w, b, a) && !Equal(w, a, b)
  {
    if Less(w, a, b) {
      var n: nat :| LessAt(w, a, b, n);
      forall i: nat ensures !LessAt(w, b, a, i) {
      }
    }
  }

  /** The order is total and its ties are the strings of equal weights. */
  lemma {:induction false} Trichotomy(w: byte -> byte, a: seq<byte>, b: seq<byte>, n: nat)
    requires SameBelow(w, a, b, n)
    ensures Less(w, a, b) || Less(w, b, a) || Equal(w, a, b)
    decreases |a| + |b| - n
  {
    if |a| <= n && |b| <= n {
      EqualWithin(w, a, b, n);
    } else if WeightAt(w, a, n) == WeightAt(w, b, n) {
      Trichotomy(w, a, b, n + 1);
    } else {
      assert LessAt(w, a, b, n) || LessAt(w, b, a, n);
    }
  }

  lemma LessTransitive(w: byte -> byte, a: seq<byte>, b: seq<byte>, c: seq<byte>)
    requires Less(w, a, b) && Less(w, b, c)
    ensures Less(w, a, c)
  {
    var m: nat :| LessAt(w, a, b, m);
    var n: nat :| LessAt(w, b, c, n);
    assert LessAt(w, a, c, Min(m, n));
  }

  /** "Not after" is transitive; with `Trichotomy` the comparison is a total preorder. */
  lemma NotAfterTransitive(w: byte -> byte, a: seq<byte>, b: seq<byte>, c: seq<byte>)
    requires !Less(w, b, a) && !Less(w, c, b)
    ensures !Less(w, c, a)
  {
    if Less(w, c, a) {
      Trichotomy(w, a, b, 0);
      if Less(w, a, b) {
        LessTransitive(w, c, a, b);
      } else {
        var n: nat :| LessAt(w, c, a, n);
        assert LessAt(w, c, b, n);
      }
      assert false;
    }
  }

  /**
   `my_strnncollsp_simple` and, with the identity for weights, `my_strnncollsp_mb_bin` and
   `my_strnncollsp_8bit_bin`; `VARCHAR_WITH_DIFF_ENDSPACE_ARE_DIFFERENT_FOR_UNIQUE` is not defined.
   */
  method StrnncollspSimple(w: byte -> byte, a: seq<byte>, b: seq<byte>) returns (r: int)
    ensures r < 0 <==> Less(w, a, b)
    ensures r > 0 <==> Less(w, b, a)
    ensures r == 0 <==> Equal(w, a, b)
  {
    LessExcludes(w, a, b);
    LessExcludes(w, b, a);
    var length := Min(|a|, |b|);
    var k := 0;
    while k < length
      invariant 0 <= k <= length && SameBelow(w, a, b, k)
    {
      if w(a[k]) != w(b[k]) {
        assert LessAt(w, a, b, k) || LessAt(w, b, a, k);
        return w(a[k]) - w(b[k]);
      }
      k := k + 1;
    }
    if |a| != |b| {
      var swap, s := 1, a;
      if |a| < |b| {
        s, swap := b, -1;
      }
      while k < |s|
        invariant length <= k <= |s| && SameBelow(w, a, b, k)
      {
        if w(s[k]) != w(SPACE) {
          assert LessAt(w, a, b, k) || LessAt(w, b, a, k);
          return if w(s[k]) < w(SPACE) then -swap else swap;
        }
        k := k + 1;
      }
    }
    EqualWithin(w, a, b, k);
    return 0;
  }

  // ----- sort keys

  /** The sort key of `s` in `n` bytes: its weights, cut or padded with the byte ' '. */
  function Key(w: byte -> byte, s: seq<byte>, n: nat): seq<byte> {
    seq(n, k requires 0 <= k < n => if k < |s| then w(s[k]) else SPACE)
  }

  /** `memcmp` finds `x` smaller than the equally long `y`. */
  ghost predicate MemLess(x: seq<byte>, y: seq<byte>)
    requires |x| == |y|
  {
    exists n :: 0 <= n < |x| && x[n] < y[n] && x[..n] == y[..n]
  }

  /** Byte order of sort keys is the order of the strings. */
  lemma KeyRefinesComparison(w: byte -> byte, a: seq<byte>, b: seq<byte>, n: nat)
    requires w(SPACE) == SPACE && |a| <= n && |b| <= n
    ensures MemLess(Key(w, a, n), Key(w, b, n)) <==> Less(w, a, b)
    ensures Key(w, a, n) == Key(w, b, n) <==> Equal(w, a, b)
  {
    var x, y := Key(w, a, n), Key(w, b, n);
    assert forall k :: 0 <= k < n ==> x[k] == WeightAt(w, a, k) && y[k] == WeightAt(w, b, k);
    if MemLess(x, y) {
      var k :| 0 <= k < |x| && x[k] < y[k] && x[..k] == y[..k];
      assert forall i :: 0 <= i < k ==> x[i] == x[..k][i] == y[..k][i] == y[i];
      assert LessAt(w, a, b, k);
    }
    if Less(w, a, b) {
      var k: nat :| LessAt(w, a, b, k);
      assert k < n;
      assert x[..k] == y[..k];
    }
    if x == y {
      assert SameBelow(w, a, b, n);
      EqualWithin(w, a, b, n);
    }
  }

  /** The promise "memcmp() of keys is strnncollsp()" for all strings that fit a key of `n` bytes. */
  ghost predicate KeysAgree(w: byte -> byte, n: nat) {
    forall a: seq<byte>, b: seq<byte> :: |a| <= n && |b| <= n ==>
      (MemLess(Key(w, a, n), Key(w, b, n)) <==> Less(w, a, b))
  }

  /** It holds exactly when the fill byte of the key is the weight of a space. */
  lemma KeysAgreeIff(w: byte -> byte, n: nat)
    requires n > 0
    ensures KeysAgree(w, n) <==> w(SPACE) == SPACE
  {
    if w(SPACE) == SPACE {
      forall a: seq<byte>, b: seq<byte> | |a| <= n && |b| <= n
        ensures MemLess(Key(w, a, n), Key(w, b, n)) <==> Less(w, a, b)
      {
        KeyRefinesComparison(w, a, b, n);
      }
    } else {
      var a, b := [], [SPACE];
      var x, y := Key(w, a, n), Key(w, b, n);
      assert Equal(w, a, b);
      LessExcludes(w, a, b);
      LessExcludes(w, b, a);
      assert x[..0] == y[..0] && (x[0] < y[0] || y[0] < x[0]);
      assert MemLess(x, y) || MemLess(y, x);
      assert !KeysAgree(w, n);
    }
  }

  /** `my_strnxfrm_simple`, into another buffer or in place. */
  method StrnxfrmSimple(w: byte -> byte, dest: array<byte>, dstlen: nat, src: array<byte>, srclen: nat)
    returns (r: nat)
    requires dstlen <= dest.Length && srclen <= src.Length
    modifies dest
    ensures r == dstlen
    ensures dest[..dstlen] == Key(w, old(src[..srclen]), dstlen)
    ensures dest[dstlen..] == old(dest[dstlen..])
  {
    var len := Min(dstlen, srclen);
    var i := 0;
    if dest != src {
      while i < len
        invariant 0 <= i <= len
        invariant forall k :: 0 <= k < i ==> dest[k] == w(src[k])
        invariant forall k :: i <= k < dest.Length ==> dest[k] == old(dest[k])
      {
        dest[i] := w(src[i]);
        i := i + 1;
      }
    } else {
      while i < len
        invariant 0 <= i <= len
        invariant forall k :: 0 <= k < i ==> dest[k] == w(old(dest[k]))
        invariant forall k :: i <= k < dest.Length ==> dest[k] == old(dest[k])
      {
        dest[i] := w(dest[i]);
        i := i + 1;
      }
    }
    while i < dstlen
      invariant len <= i <= dstlen
      invariant forall k :: 0 <= k < len ==> dest[k] == w(old(src[k]))
      invariant forall k :: len <= k < i ==> dest[k] == SPACE
      invariant forall k :: i <= k < dest.Length ==> dest[k] == old(dest[k])
    {
      dest[i] := SPACE;
      i := i + 1;
    }
    return dstlen;
  }

  // ----- hashing

  /** One turn of the hash loop on the pair `nr1`, `nr2`; `ulong` has 32 bits (MySQL/my_config.h). */
  function HashStep(nr: (bv32, bv32), weight: byte): (bv32, bv32) {
    (nr.0 ^ ((((nr.0 & 63) + nr.1) * (weight as bv32)) + (nr.0 << 8)), nr.1 + 3)
  }

  /** The hash loop over a run of weights. */
  function HashWeights(ws: seq<byte>, nr: (bv32, bv32)): (bv32, bv32) {
    if ws == [] then nr else HashStep(HashWeights(ws[..|ws| - 1], nr), ws[|ws| - 1])
  }

  function Weights(w: byte -> byte, s: seq<byte>): seq<byte> {
    seq(|s|, k requires 0 <= k < |s| => w(s[k]))
  }

  /** The length of `s` without its trailing ' ' bytes. */
  function TrimmedLength(s: seq<byte>): (n: nat)
    ensures n <= |s| && (n > 0 ==> s[n - 1] != SPACE) && forall k :: n <= k < |s| ==> s[k] == SPACE
  {
    if s != [] && s[|s| - 1] == SPACE then TrimmedLength(s[..|s| - 1]) else |s|
  }

  /** The hash of `s`, continuing `nr`: its weights without trailing ' ' bytes. */
  function Hash(w: byte -> byte, s: seq<byte>, nr: (bv32, bv32)): (bv32, bv32) {
    HashWeights(Weights(w, s[..TrimmedLength(s)]), nr)
  }

  /** Remove end space. */
  method TrimSpaces(key: seq<byte>) returns (end: nat)
    ensures end == TrimmedLength(key)
  {
    end := |key|;
    while end > 0 && key[end - 1] == SPACE
      invariant end <= |key| && TrimmedLength(key[..end]) == TrimmedLength(key)
    {
      assert key[..end][..end - 1] == key[..end - 1];
      end := end - 1;
    }
  }

  lemma HashSnoc(w: byte -> byte, s: seq<byte>, k: nat, nr: (bv32, bv32))
    requires k < |s|
    ensures HashWeights(Weights(w, s[..k + 1]), nr) == HashStep(HashWeights(Weights(w, s[..k]), nr), w(s[k]))
  {
    var ws := Weights(w, s[..k + 1]);
    assert ws[..k] == Weights(w, s[..k]) && ws[k] == w(s[k]);
  }

  /** `my_hash_sort_simple`. */
  method HashSortSimple(w: byte -> byte, key: seq<byte>, nr: (bv32, bv32)) returns (r: (bv32, bv32))
    ensures r == Hash(w, key, nr)
  {
    var end := TrimSpaces(key);
    r := nr;
    for k := 0 to end
      invariant r == HashWeights(Weights(w, key[..k]), nr)
    {
      HashSnoc(w, key, k, nr);
      r := HashStep(r, w(key[k]));
    }
  }

  /** No byte but ' ' weighs as much as ' '. */
  ghost predicate OnlySpaceWeighsSpace(w: byte -> byte) {
    forall b: byte :: w(b) == w(SPACE) ==> b == SPACE
  }

  lemma TrimmedNotLonger(w: byte -> byte, a: seq<byte>, b: seq<byte>)
    requires OnlySpaceWeighsSpace(w) && Equal(w, a, b)
    ensures TrimmedLength(a) <= TrimmedLength(b)
  {
    if TrimmedLength(a) > 0 {
      assert WeightAt(w, a, TrimmedLength(a) - 1) == WeightAt(w, b, TrimmedLength(a) - 1);
    }
  }

  /** Strings that compare equal have the same hash. */
  lemma HashRespectsEquality(w: byte -> byte, a: seq<byte>, b: seq<byte>, nr: (bv32, bv32))
    requires OnlySpaceWeighsSpace(w) && Equal(w, a, b)
    ensures Hash(w, a, nr) == Hash(w, b, nr)
  {
    TrimmedNotLonger(w, a, b);
    TrimmedNotLonger(w, b, a);
    var n := TrimmedLength(a);
    forall k | 0 <= k < n ensures w(a[k]) == w(b[k]) {
      assert WeightAt(w, a, k) == WeightAt(w, b, k);
    }
    assert Weights(w, a[..n]) == Weights(w, b[..n]);
  }

  lemma HashOfByte(w: byte -> byte, c: byte, nr: (bv32, bv32))
    requires c != SPACE
    ensures Hash(w, [], nr) == nr && Hash(w, [c], nr) == HashStep(nr, w(c))
  {
    var ws := Weights(w, [c]);
    assert TrimmedLength([c]) == 1 && [c][..1] == [c];
    assert ws == [w(c)] && ws[..0] == [];
    assert Hash(w, [c], nr) == HashStep(HashWeights(ws[..0], nr), ws[0]);
    assert Weights(w, [][..0]) == [];
  }

  /** From 1 and 4, the values that the callers start with, "A" hashes to 580 and 7. */
  lemma HashExample(w: byte -> byte)
    requires w(0x41) == 0x41
    ensures Hash(w, [0x41], (1, 4)) == (580, 7)
  {
    HashOfByte(w, 0x41, (1, 4));
  }

  /** From there single bytes of different weights hash differently. */
  lemma HashesDiffer(w: byte -> byte, c: byte, d: byte)
    requires c != SPACE && d != SPACE && w(c) != w(d)
    ensures Hash(w, [c], (1, 4)).0 != Hash(w, [d], (1, 4)).0
  {
    HashOfByte(w, c, (1, 4));
    HashOfByte(w, d, (1, 4));
    StepsDiffer(w(c), w(d));
  }

  lemma StepsDiffer(x: byte, y: byte)
    requires x != y
    ensures HashStep((1, 4), x).0 != HashStep((1, 4), y).0
  {
    ByteBits(x);
    ByteBits(y);
    BitsDiffer(x as bv8, y as bv8);
    FirstStep(x);
    FirstStep(y);
  }

  lemma FirstStep(x: byte)
    ensures HashStep((1, 4), x).0 == 1 ^ (5 * (x as bv32) + 256)
  {
  }

  lemma ByteBits(x: byte)
    ensures (x as bv8) as int == x && (x as bv32) == ((x as bv8) as bv32)
  {
  }

  lemma BitsDiffer(x: bv8, y: bv8)
    requires x != y
    ensures 1 ^ (5 * (x as bv32) + 256) != 1 ^ (5 * (y as bv32) + 256)
  {
  }

  /** Hashes respect equality, whatever hash they continue. */
  ghost predicate HashesAgree(w: byte -> byte) {
    forall a: seq<byte>, b: seq<byte>, nr: (bv32, bv32) :: Equal(w, a, b) ==>
      Hash(w, a, nr) == Hash(w, b, nr)
  }

  /** They do exactly when only ' ' has the weight of ' '. */
  lemma HashesAgreeIff(w: byte -> byte)
    ensures HashesAgree(w) <==> OnlySpaceWeighsSpace(w)
  {
    if OnlySpaceWeighsSpace(w) {
      forall a: seq<byte>, b: seq<byte>, nr: (bv32, bv32) | Equal(w, a, b)
        ensures Hash(w, a, nr) == Hash(w, b, nr)
      {
        HashRespectsEquality(w, a, b, nr);
      }
    } else {
      var c: byte :| w(c) == w(SPACE) && c != SPACE;
      var a: seq<byte>, b: seq<byte>, nr: (bv32, bv32) := [], [c], (0, 0);
      assert Equal(w, a, b);
      HashOfByte(w, c, nr);
      assert Hash(w, a, nr) != Hash(w, b, nr);
    }
  }
}
