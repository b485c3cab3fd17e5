/** `create_fromuni`, `my_wc_mb_8bit` and `my_mb_wc_8bit`: the reverse of an 8-bit character set's Unicode table. */
module UnicodeIndex {
  import opened Bytes
  import opened Wrappers

  /** A plane under construction, `uni_idx`; `tab` is the content of the table behind the pointer. */
  datatype UniIdx = UniIdx(nchars: nat, from: nat, to: nat, tab: seq<byte>)

  const PLANE_SIZE := 0x100
  const PLANE_NUM := 0x100

  /** `tab_to_uni`: 256 code points of 16 bits, byte 0 standing for code point 0. */
  ghost predicate IsTable(tab: seq<nat>) {
    |tab| == 256 && tab[0] == 0 && forall i :: 0 <= i < 256 ==> tab[i] < 0x1_0000
  }

  /** Byte `i` has a code point: 0 means "none" except for byte 0. */
  predicate Mapped(tab: seq<nat>, i: nat)
    requires i < |tab|
  {
    tab[i] != 0 || i == 0
  }

  /** The largest byte below `n` that maps to `wc`, by linear scan; 0 if there is none. */
  function LinearScan(tab: seq<nat>, wc: nat, n: nat): (b: nat)
    requires n <= |tab|
    ensures b == 0 || (b < n && tab[b] == wc)
    ensures forall k :: b < k < n ==> tab[k] != wc
  {
    if n == 0 then 0 else if tab[n - 1] == wc then n - 1 else LinearScan(tab, wc, n - 1)
  }

  /** What a lookup of `wc` should give: byte 0 for code point 0, else the largest byte that maps to it. */
  function Reverse(tab: seq<nat>, wc: nat): Option<byte>
    requires |tab| == 256
  {
    if wc == 0 then Some(0)
    else if LinearScan(tab, wc, 256) == 0 then None
    else Some(LinearScan(tab, wc, 256))
  }

  // ----- counting

  /** The plane `p`, number `pl`, after the first `n` bytes. */
  ghost predicate Counted(tab: seq<nat>, n: nat, pl: nat, p: UniIdx)
    requires n <= |tab|
  {
    && (forall i :: 0 <= i < n && Mapped(tab, i) && tab[i] / 0x100 == pl ==> p.nchars > 0 && p.from <= tab[i] <= p.to)
    && (p.nchars > 0 ==> pl * 0x100 <= p.from <= p.to < pl * 0x100 + 0x100)
  }

  /** Count the characters of each plane and its first and last code point. */
  method CountPlanes(tab: seq<nat>, idx: array<UniIdx>)
    requires IsTable(tab) && idx.Length == PLANE_NUM
    modifies idx
    ensures forall pl :: 0 <= pl < PLANE_NUM ==> Counted(tab, 256, pl, idx[pl])
  {
    for k := 0 to PLANE_NUM
      invariant forall pl :: 0 <= pl < k ==> idx[pl].nchars == 0
    {
      idx[k] := UniIdx(0, 0, 0, []);
    }
    for i := 0 to 0x100
      invariant forall pl :: 0 <= pl < PLANE_NUM ==> Counted(tab, i, pl, idx[pl])
    {
      var wc := tab[i];
      var pl := wc / 0x100 % PLANE_NUM;
      if wc != 0 || i == 0 {
        var p := idx[pl];
        if p.nchars == 0 {
          p := p.(from := wc, to := wc);
        } else {
          p := p.(from := Min(wc, p.from), to := if wc > p.to then wc else p.to);
        }
        idx[pl] := p.(nchars := p.nchars + 1);
      }
    }
  }

  // ----- sorting

  ghost predicate Descending(s: seq<UniIdx>) {
    forall i, j :: 0 <= i < j < |s| ==> s[i].nchars >= s[j].nchars
  }

  lemma ConsDescending(h: UniIdx, r: seq<UniIdx>, x: UniIdx, s: seq<UniIdx>)
    requires Descending(r) && multiset(r) == multiset{x} + multiset(s)
    requires h.nchars >= x.nchars && forall k :: 0 <= k < |s| ==> h.nchars >= s[k].nchars
    ensures Descending([h] + r)
  {
    forall k | 0 <= k < |r| ensures h.nchars >= r[k].nchars {
      assert r[k] in multiset(r);
      assert r[k] == x || r[k] in multiset(s);
    }
  }

  function Inserted(x: UniIdx, s: seq<UniIdx>): (r: seq<UniIdx>)
    requires Descending(s)
    ensures Descending(r) && multiset(r) == multiset{x} + multiset(s)
  {
    if s == [] || x.nchars >= s[0].nchars then [x] + s
    else
      assert s == [s[0]] + s[1..];
      ConsDescending(s[0], Inserted(x, s[1..]), x, s[1..]);
      [s[0]] + Inserted(x, s[1..])
  }

  function Sorted(s: seq<UniIdx>): (r: seq<UniIdx>)
    ensures Descending(r) && multiset(r) == multiset(s)
  {
    if s == [] then []
    else
      assert s == [s[0]] + s[1..];
      Inserted(s[0], Sorted(s[1..]))
  }

  lemma SameLength(a: seq<UniIdx>, b: seq<UniIdx>)
    requires multiset(a) == multiset(b)
    ensures |a| == |b|
  {
    assert |multiset(a)| == |a| && |multiset(b)| == |b|;
  }

  /** `qsort` by descending count; `pcmp` breaks ties inconsistently, so nothing else is promised. */
  method Qsort(idx: array<UniIdx>)
    modifies idx
    ensures Descending(idx[..]) && multiset(idx[..]) == multiset(old(idx[..]))
  {
    var s := Sorted(idx[..]);
    SameLength(s, idx[..]);
    for k := 0 to idx.Length
      invariant forall x :: 0 <= x < k ==> idx[x] == s[x]
    {
      idx[k] := s[k];
    }
    assert idx[..] == s;
  }

  // ----- tables

  /** Entry `ofs` of a plane's table once the bytes below `n` are in. */
  function Entry(tab: seq<nat>, from: nat, ofs: nat, n: nat): (b: nat)
    requires n <= |tab|
    ensures b == 0 || b < n
  {
    if from + ofs == 0 then 0 else LinearScan(tab, from + ofs, n)
  }

  lemma EntryNext(tab: seq<nat>, from: nat, ofs: nat, n: nat)
    requires n < |tab|
    ensures Entry(tab, from, ofs, n + 1)
            == if from + ofs != 0 && tab[n] == from + ofs then n else Entry(tab, from, ofs, n)
  {
  }

  /** The entry answers lookups in its range as the linear scan does. */
  ghost predicate Filled(tab: seq<nat>, p: UniIdx)
    requires |tab| == 256
  {
    && p.from <= p.to && |p.tab| == p.to - p.from + 1
    && forall ofs :: 0 <= ofs < |p.tab| ==> p.tab[ofs] == Entry(tab, p.from, ofs, 256)
  }

  /** Allocate and fill the table of a plane. */
  method FillPlane(tab: seq<nat>, p: UniIdx) returns (q: UniIdx)
    requires |tab| == 256 && p.from <= p.to
    ensures Filled(tab, q) && q.from == p.from && q.to == p.to
  {
    var numchars := p.to - p.from + 1;
    var t := new byte[numchars];
    for k := 0 to numchars
      invariant forall x :: 0 <= x < k ==> t[x] == 0
    {
      t[k] := 0;
    }
    for ch := 1 to PLANE_SIZE
      invariant forall x :: 0 <= x < numchars ==> t[x] == Entry(tab, p.from, x, ch)
    {
      var wc := tab[ch];
      forall x | 0 <= x < numchars
        ensures Entry(tab, p.from, x, ch + 1) == if wc != 0 && p.from + x == wc then ch else Entry(tab, p.from, x, ch)
      {
        EntryNext(tab, p.from, x, ch);
      }
      if wc >= p.from && wc <= p.to && wc != 0 {
        var ofs := wc - p.from;
        t[ofs] := ch;
      }
    }
    q := p.(tab := t[..]);
  }

  /** The list covers every mapped code point, and every entry is right about its range. */
  ghost predicate Covers(tab: seq<nat>, list: seq<UniIdx>)
    requires |tab| == 256
  {
    && (forall k :: 0 <= k < |list| ==> Filled(tab, list[k]))
    && (forall i :: 0 <= i < 256 && Mapped(tab, i) ==>
          exists k :: 0 <= k < |list| && list[k].from <= tab[i] <= list[k].to)
  }

  /** `create_fromuni`; `alloc(k)` says whether allocation number `k` succeeds. `None` is the error return. */
  method CreateFromUni(loaded: Option<seq<nat>>, alloc: nat -> bool) returns (list: Option<seq<UniIdx>>)
    requires loaded.Some? ==> IsTable(loaded.value)
    ensures list.Some? ==> loaded.Some? && Covers(loaded.value, list.value)
    ensures list.None? ==> loaded.None? || exists k: nat :: !alloc(k)
  {
    if loaded.None? {
      return None;
    }
    var tab := loaded.value;
    var idx := new UniIdx[PLANE_NUM];
    CountPlanes(tab, idx);
    ghost var planes := idx[..];
    Qsort(idx);
    ghost var sorted := idx[..];
    var n, result := 0, [];
    while n < PLANE_NUM && idx[n].nchars != 0
      invariant 0 <= n <= PLANE_NUM && |result| == n && idx[..] == sorted
      invariant forall k :: 0 <= k < n ==> Filled(tab, result[k])
      invariant forall k :: 0 <= k < n ==> result[k].from == sorted[k].from && result[k].to == sorted[k].to
    {
      SortedPlane(tab, planes, sorted, n);
      if !alloc(n) {
        return None;
      }
      var q := FillPlane(tab, idx[n]);
      result := result + [q];
      n := n + 1;
    }
    if !alloc(n) {
      return None;
    }
    AllCovered(tab, planes, sorted, n, result);
    return Some(result);
  }

  /** A sorted entry with characters is a plane with characters. */
  lemma SortedPlane(tab: seq<nat>, planes: seq<UniIdx>, sorted: seq<UniIdx>, n: nat)
    requires |tab| == 256 && |planes| == PLANE_NUM && multiset(sorted) == multiset(planes)
    requires forall pl :: 0 <= pl < PLANE_NUM ==> Counted(tab, 256, pl, planes[pl])
    requires n < |sorted| && sorted[n].nchars > 0
    ensures sorted[n].from <= sorted[n].to
  {
    assert sorted[n] in multiset(planes);
    var pl :| 0 <= pl < PLANE_NUM && planes[pl] == sorted[n];
    assert Counted(tab, 256, pl, planes[pl]);
  }

  /** Stopping at the first empty plane leaves no character out. */
  lemma AllCovered(tab: seq<nat>, planes: seq<UniIdx>, sorted: seq<UniIdx>, n: nat, list: seq<UniIdx>)
    requires IsTable(tab) && |planes| == |sorted| == PLANE_NUM && multiset(sorted) == multiset(planes)
    requires forall pl :: 0 <= pl < PLANE_NUM ==> Counted(tab, 256, pl, planes[pl])
    requires Descending(sorted) && n <= PLANE_NUM && (n < PLANE_NUM ==> sorted[n].nchars == 0)
    requires |list| == n && forall k :: 0 <= k < n ==> Filled(tab, list[k])
    requires forall k :: 0 <= k < n ==> list[k].from == sorted[k].from && list[k].to == sorted[k].to
    ensures Covers(tab, list)
  {
    forall i | 0 <= i < 256 && Mapped(tab, i)
      ensures exists k :: 0 <= k < |list| && list[k].from <= tab[i] <= list[k].to
    {
      var pl := tab[i] / 0x100;
      assert Counted(tab, 256, pl, planes[pl]);
      assert planes[pl] in multiset(sorted);
      var k :| 0 <= k < |sorted| && sorted[k] == planes[pl];
      assert k < n;
      assert list[k].from <= tab[i] <= list[k].to;
    }
  }

  // ----- lookups

  /** `MY_CS_TOOSMALL`, `MY_CS_ILUNI` or a byte. */
  datatype Conversion = TooSmall | IllegalUni | Converted(b: byte)

  /** `my_wc_mb_8bit`: the byte for `wc`, in an output buffer with `room` bytes left. */
  method WcMb(tab: seq<nat>, list: seq<UniIdx>, wc: nat, room: nat) returns (r: Conversion)
    requires IsTable(tab) && Covers(tab, list)
    ensures r.TooSmall? <==> room == 0
    ensures room > 0 ==> r == if Reverse(tab, wc).None? then IllegalUni else Converted(Reverse(tab, wc).value)
  {
    if room == 0 {
      return TooSmall;
    }
    var k := 0;
    while k < |list|
      invariant 0 <= k <= |list|
      invariant forall x :: 0 <= x < k ==> !(list[x].from <= wc <= list[x].to)
    {
      var p := list[k];
      if p.from <= wc && p.to >= wc {
        assert Filled(tab, p);
        var b := p.tab[wc - p.from];
        return if b == 0 && wc != 0 then IllegalUni else Converted(b);
      }
      k := k + 1;
    }
    NotListed(tab, list, wc);
    return IllegalUni;
  }

  /** A code point in no range has no byte. */
  lemma NotListed(tab: seq<nat>, list: seq<UniIdx>, wc: nat)
    requires IsTable(tab) && Covers(tab, list)
    requires forall k :: 0 <= k < |list| ==> !(list[k].from <= wc <= list[k].to)
    ensures Reverse(tab, wc) == None
  {
    assert Mapped(tab, 0);
    forall i | 0 <= i < 256 && Mapped(tab, i) ensures tab[i] != wc {
    }
  }

  /** `my_mb_wc_8bit`: the code point of a byte. */
  function MbWc(tab: seq<nat>, b: byte): Option<nat>
    requires |tab| == 256
  {
    if tab[b] == 0 && b != 0 then None else Some(tab[b])
  }

  /** A byte with a code point comes back as the largest byte with that code point. */
  lemma RoundTrip(tab: seq<nat>, b: byte)
    requires IsTable(tab) && MbWc(tab, b).Some?
    ensures var r := Reverse(tab, MbWc(tab, b).value);
            r.Some? && r.value >= b && MbWc(tab, r.value) == MbWc(tab, b)
  {
  }

  /** And a code point that is found is the one of the byte. */
  lemma ReverseSound(tab: seq<nat>, wc: nat)
    requires IsTable(tab)
    ensures Reverse(tab, wc).Some? <==> exists b: byte :: MbWc(tab, b) == Some(wc)
    ensures Reverse(tab, wc).Some? ==> MbWc(tab, Reverse(tab, wc).value) == Some(wc)
  {
    if Reverse(tab, wc).Some? {
      assert MbWc(tab, Reverse(tab, wc).value) == Some(wc);
    }
  }
}
