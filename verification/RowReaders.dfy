/**
 The two row readers of the client: `read_one_row`, which leaves the fields in the packet buffer, and
 the copying loop of `cli_read_rows` with `cli_fetch_lengths`. Pointers are positions, -1 is NULL.
 */
module RowReaders {
  import opened Bytes
  import opened Rows

  /** The length that the API reports for a field. */
  function FieldSize(v: Field): nat {
    if v.Null? then 0 else |v.bytes|
  }

  /** The field `v` stands in `m` at `at`; its final NUL may still be missing at `pos`. */
  ghost predicate Placed(m: seq<byte>, at: int, len: int, v: Field, pos: nat) {
    len == FieldSize(v) &&
    if v.Null? then at == -1
    else
      0 <= at && at + len <= pos <= |m| && (forall k :: at <= k < at + len ==> m[k] == v.bytes[k - at]) &&
      (at + len < pos ==> m[at + len] == 0)
  }

  /** The caller sees `v` at `at`: NULL, or its bytes followed by a NUL byte. */
  ghost predicate Shown(m: seq<byte>, at: int, v: Field) {
    if v.Null? then at == -1
    else 0 <= at && at + |v.bytes| < |m| && m[at..at + |v.bytes|] == v.bytes && m[at + |v.bytes|] == 0
  }

  /** `Placed` for field `f` of a row under construction. */
  ghost predicate PlacedAt(m: seq<byte>, row: seq<int>, lengths: seq<int>, vals: seq<Field>, pos: nat, f: nat)
    requires f < |vals| <= |row| && |vals| <= |lengths|
  {
    Placed(m, row[f], lengths[f], vals[f], pos)
  }

  ghost predicate AllPlaced(m: seq<byte>, row: seq<int>, lengths: seq<int>, vals: seq<Field>, pos: nat) {
    |vals| <= |row| && |vals| <= |lengths| && forall f :: 0 <= f < |vals| ==> PlacedAt(m, row, lengths, vals, pos, f)
  }

  /**
   Storing the next field and the NUL byte of the one before, which goes over the first byte of the
   next field's header and hits no field.
   */
  lemma StoreKeeps(m: seq<byte>, m': seq<byte>, row: seq<int>, lengths: seq<int>, vals: seq<Field>,
                                      pos: nat, at: int, len: int, v: Field, next: nat)
    requires AllPlaced(m, row, lengths, vals, pos) && |vals| < |row| && |vals| < |lengths|
    requires pos < next <= |m| && Placed(m, at, len, v, next) && (v.Text? ==> pos < at && at + len == next)
    requires m' == if vals == [] then m else m[pos := 0]
    ensures AllPlaced(m', row[|vals| := at], lengths[|vals| := len], vals + [v], next)
  {
    var r, l, vs := row[|vals| := at], lengths[|vals| := len], vals + [v];
    forall f | 0 <= f <= |vals| ensures PlacedAt(m', r, l, vs, next, f) {
      if f < |vals| {
        assert PlacedAt(m, row, lengths, vals, pos, f);
      }
    }
  }

  /** The NUL byte of the last field. */
  lemma PlacedShown(m: seq<byte>, row: seq<int>, lengths: seq<int>, vals: seq<Field>, pos: nat, f: nat)
    requires AllPlaced(m, row, lengths, vals, pos) && pos < |m| && f < |vals|
    ensures Shown(m[pos := 0], row[f], vals[f]) && lengths[f] == FieldSize(vals[f])
  {
    assert PlacedAt(m, row, lengths, vals, pos, f);
  }

  function Joined(done: seq<Field>, rest: Decoded): Decoded {
    if rest.Malformed? then Malformed else Row(done + rest.fields)
  }

  /** What the reader has still to do from `pos` on completes the row. */
  ghost predicate Continues(s: seq<byte>, fields: nat, done: seq<Field>, pos: nat) {
    && |done| <= fields && pos <= |s| && HeadersInside(s, 0, fields) && HeadersInside(s, pos, fields - |done|)
    && Decode(s, 0, fields) == Joined(done, Decode(s, pos, fields - |done|))
  }

  lemma ContinueStart(s: seq<byte>, fields: nat)
    requires HeadersInside(s, 0, fields)
    ensures Continues(s, fields, [], 0)
  {
    var rest := Decode(s, 0, fields);
    if rest.Row? {
      assert [] + rest.fields == rest.fields;
    }
  }

  lemma ContinueNull(s: seq<byte>, fields: nat, done: seq<Field>, pos: nat)
    requires Continues(s, fields, done, pos) && |done| < fields && FieldLength(s, pos) == NullLength
    ensures Continues(s, fields, done + [Null], pos + HeaderLen(s[pos]))
  {
    var rest := Decode(s, pos + HeaderLen(s[pos]), fields - |done| - 1);
    if rest.Row? {
      assert done + ([Null] + rest.fields) == done + [Null] + rest.fields;
    }
  }

  lemma ContinueString(s: seq<byte>, fields: nat, done: seq<Field>, pos: nat, len: nat)
    requires Continues(s, fields, done, pos) && |done| < fields && FieldLength(s, pos) == Len(len)
    requires len <= |s| - (pos + HeaderLen(s[pos]))
    ensures var q := pos + HeaderLen(s[pos]);
            Continues(s, fields, done + [Text(s[q..q + len])], q + len)
  {
    var q := pos + HeaderLen(s[pos]);
    var rest := Decode(s, q + len, fields - |done| - 1);
    if rest.Row? {
      assert done + ([Text(s[q..q + len])] + rest.fields) == done + [Text(s[q..q + len])] + rest.fields;
    }
  }

  /** A field that overruns the packet makes the whole row undecodable. */
  lemma Overrun(s: seq<byte>, fields: nat, done: seq<Field>, pos: nat, len: nat)
    requires Continues(s, fields, done, pos) && |done| < fields && FieldLength(s, pos) == Len(len)
    requires len > |s| - (pos + HeaderLen(s[pos]))
    ensures Decode(s, 0, fields) == Malformed
  {
  }

  /**
   `read_one_row` on a packet of `pktLen` bytes that is no end marker, in a buffer with one more byte.
   The status is -1 for a field that overruns the packet and else 0.
   */
  method ReadOneRow(packet: array<byte>, pktLen: nat, fields: nat, row: array<int>, lengths: array<int>)
    returns (status: int)
    requires 0 < fields && pktLen < packet.Length && row.Length == fields + 1 && lengths.Length == fields
    requires row != lengths && HeadersInside(packet[..pktLen], 0, fields)
    modifies packet, row, lengths
    ensures status == (if Decode(old(packet[..pktLen]), 0, fields).Malformed? then -1 else 0)
    ensures status == 0 ==>
              var vals := Decode(old(packet[..pktLen]), 0, fields).fields;
              && (forall f :: 0 <= f < fields ==>
                    Shown(packet[..], row[f], vals[f]) && lengths[f] == FieldSize(vals[f]))
              && 0 < row[fields] <= pktLen + 1
  {
    ghost var s := packet[..pktLen];
    ghost var vals: seq<Field> := [];
    var pos: nat, prevPos: int, field: nat := 0, -1, 0;
    ContinueStart(s, fields);
    while field < fields
      invariant field <= fields && |vals| == field && pos <= pktLen && (prevPos == if field == 0 then -1 else pos)
      invariant Continues(s, fields, vals, pos)
      invariant forall k :: pos <= k < pktLen ==> packet[k] == s[k]
      invariant AllPlaced(packet[..], row[..], lengths[..], vals, pos)
    {
      var at, len, next, ok;
      ghost var v;
      at, len, next, ok, v := NextField(packet, pktLen, pos, s, fields, vals);
      if !ok {
        return -1;
      }
      StoreField(packet, prevPos, field, row, lengths, at, len, pos, next, vals, v);
      pos, vals := next, vals + [v];
      prevPos := pos;
      field := field + 1;
    }
    ghost var m, r, l := packet[..], row[..], lengths[..];
    row[field] := prevPos + 1;
    packet[prevPos] := 0;
    assert packet[..] == m[pos := 0] && vals + [] == vals;
    forall f | 0 <= f < fields ensures Shown(packet[..], row[f], vals[f]) && lengths[f] == FieldSize(vals[f]) {
      PlacedShown(m, r, l, vals, pos, f);
      assert row[f] == r[f] && lengths[f] == l[f];
    }
    return 0;
  }

  /** Note where the field stands, and put a NUL byte behind the field in front of it. */
  method StoreField(packet: array<byte>, prevPos: int, field: nat, row: array<int>, lengths: array<int>,
                    at: int, len: nat, ghost pos: nat, ghost next: nat, ghost vals: seq<Field>, ghost v: Field)
    requires row != lengths && |vals| == field && field < row.Length && field < lengths.Length
    requires AllPlaced(packet[..], row[..], lengths[..], vals, pos)
    requires pos < next <= packet.Length && Placed(packet[..], at, len, v, next)
    requires v.Text? ==> pos < at && at + len == next
    requires prevPos == if field == 0 then -1 else pos
    modifies packet, row, lengths
    ensures AllPlaced(packet[..], row[..], lengths[..], vals + [v], next)
    ensures forall k :: next <= k < packet.Length ==> packet[k] == old(packet[k])
  {
    StoreKeeps(packet[..], if field == 0 then packet[..] else packet[..][pos := 0], row[..], lengths[..], vals,
               pos, at, len, v, next);
    row[field], lengths[field] := at, len;
    if prevPos != -1 {
      packet[prevPos] := 0;
    }
  }

  /** Read the header at `pos`: where the field stands, its length and where the next header is. */
  method NextField(packet: array<byte>, pktLen: nat, pos: nat, ghost s: seq<byte>, ghost fields: nat,
                   ghost done: seq<Field>)
    returns (at: int, len: nat, next: nat, ok: bool, ghost v: Field)
    requires pktLen < packet.Length && |s| == pktLen && pos <= pktLen && |done| < fields
    requires Continues(s, fields, done, pos)
    requires forall k :: pos <= k < pktLen ==> packet[k] == s[k]
    ensures !ok ==> Decode(s, 0, fields) == Malformed
    ensures ok ==> pos < next <= pktLen && Continues(s, fields, done + [v], next) && len == FieldSize(v)
    ensures ok ==> if v.Null? then at == -1 else pos < at && at + len == next && s[at..next] == v.bytes
    ensures ok ==> Placed(packet[..], at, len, v, next)
  {
    var header := ReadHeader(packet, pktLen, pos, s);
    next := pos + HeaderLen(packet[pos]);
    if header.NullLength? {
      ContinueNull(s, fields, done, pos);
      return -1, 0, next, true, Null;
    }
    at, len := next, header.len;
    if len > pktLen - next {
      Overrun(s, fields, done, pos, len);
      return at, len, next, false, Null;
    }
    ContinueString(s, fields, done, pos, len);
    next := next + len;
    v := Text(s[at..next]);
    ok := true;
  }

  /** `net_field_length` on the packet buffer, which still is `s` from `pos` on. */
  method ReadHeader(packet: array<byte>, pktLen: nat, pos: nat, ghost s: seq<byte>) returns (header: Length)
    requires pktLen < packet.Length && |s| == pktLen && pos < pktLen && pos + HeaderLen(s[pos]) <= pktLen
    requires forall k :: pos <= k < pktLen ==> packet[k] == s[k]
    ensures header == FieldLength(s, pos)
  {
    SameNumber(s, packet[..pktLen], pos);
    header := FieldLength(packet[..pktLen], pos);
  }

  lemma SameNumber(s: seq<byte>, t: seq<byte>, pos: nat)
    requires |s| == |t| && pos < |s| && pos + HeaderLen(s[pos]) <= |s| && s[pos..] == t[pos..]
    ensures t[pos] == s[pos] && FieldLength(s, pos) == FieldLength(t, pos)
  {
    assert s[pos] == s[pos..][0] == t[pos];
    if s[pos] > NULL_HEADER {
      SameNumberAt(s, t, pos, pos + 1, NumberLen(s[pos]));
    }
  }

  lemma {:induction false} SameNumberAt(s: seq<byte>, t: seq<byte>, pos: nat, p: nat, k: nat)
    requires |s| == |t| && pos <= p && p + k <= |s| && s[pos..] == t[pos..]
    ensures Number(s, p, k) == Number(t, p, k)
    decreases k
  {
    if k > 0 {
      assert s[p] == s[pos..][p - pos] == t[p];
      SameNumberAt(s, t, pos, p + 1, k - 1);
    }
  }

  // ----- the buffered reader

  /** Where the copy of field `f` goes: behind the strings in front of it and their NUL bytes. */
  function Offset(vals: seq<Field>, f: nat): nat
    requires f <= |vals|
  {
    if f == 0 then 0 else Offset(vals, f - 1) + (if vals[f - 1].Null? then 0 else |vals[f - 1].bytes| + 1)
  }

  /** The pointer of field `f`. */
  ghost predicate LaidAt(column: seq<int>, vals: seq<Field>, f: nat)
    requires f < |vals| && f < |column|
  {
    column[f] == if vals[f].Null? then -1 else Offset(vals, f)
  }

  /** The pointers of a copied row. */
  ghost predicate Laid(column: seq<int>, vals: seq<Field>) {
    && |column| == |vals| + 1 && column[|vals|] == Offset(vals, |vals|)
    && forall f :: 0 <= f < |vals| ==> LaidAt(column, vals, f)
  }

  /** `memcpy` of a field and its final NUL. */
  method CopyField(to: array<byte>, at: nat, src: seq<byte>)
    requires at + |src| < to.Length
    modifies to
    ensures to[..at] == old(to[..at])
    ensures to[at..at + |src|] == src && to[at + |src|] == 0
  {
    for k := 0 to |src|
      invariant forall x :: 0 <= x < at ==> to[x] == old(to[x])
      invariant to[at..at + k] == src[..k]
    {
      to[at + k] := src[k];
    }
    to[at + |src|] := 0;
  }

  lemma {:induction false} OffsetSnoc(vals: seq<Field>, v: Field, f: nat)
    requires f <= |vals|
    ensures Offset(vals + [v], f) == Offset(vals, f)
  {
    if f > 0 {
      OffsetSnoc(vals, v, f - 1);
    }
  }

  /** Field `f` is copied to a place in front of `at`. */
  ghost predicate CopiedAt(m: seq<byte>, column: seq<int>, done: seq<Field>, at: nat, f: nat)
    requires f < |done| && f < |column| && at <= |m|
  {
    LaidAt(column, done, f) && Shown(m[..at], column[f], done[f])
  }

  /** The fields `done` are copied, up to the position `at`. */
  ghost predicate Copied(m: seq<byte>, column: seq<int>, done: seq<Field>, at: nat) {
    && |done| < |column| && at == Offset(done, |done|) <= |m|
    && forall f :: 0 <= f < |done| ==> CopiedAt(m, column, done, at, f)
  }

  lemma CopiedKept(m: seq<byte>, column: seq<int>, done: seq<Field>, at: nat, f: nat,
                   m': seq<byte>, column': seq<int>, v: Field, at': nat)
    requires f < |done| < |column| == |column'| && at <= at' <= |m'| && at <= |m| && CopiedAt(m, column, done, at, f)
    requires m[..at] <= m'[..at'] && column'[f] == column[f]
    ensures CopiedAt(m', column', done + [v], at', f)
  {
    OffsetSnoc(done, v, f);
    ShownLonger(m[..at], m'[..at'], column[f], done[f]);
  }

  lemma CopiedNull(m: seq<byte>, column: seq<int>, done: seq<Field>, at: nat)
    requires Copied(m, column, done, at) && |done| + 1 < |column|
    ensures Copied(m, column[|done| := -1], done + [Null], at)
  {
    var c := column[|done| := -1];
    forall f | 0 <= f <= |done| ensures CopiedAt(m, c, done + [Null], at, f) {
      if f < |done| {
        CopiedKept(m, column, done, at, f, m, c, Null, at);
      }
    }
    OffsetSnoc(done, Null, |done|);
  }

  lemma CopiedString(m: seq<byte>, column: seq<int>, done: seq<Field>, at: nat, d: seq<byte>, m': seq<byte>)
    requires Copied(m, column, done, at) && |done| + 1 < |column| && |m'| == |m| && at + |d| < |m|
    requires m'[..at] == m[..at] && m'[at..at + |d|] == d && m'[at + |d|] == 0
    ensures Copied(m', column[|done| := at], done + [Text(d)], at + |d| + 1)
  {
    var v, end, c := Text(d), at + |d| + 1, column[|done| := at];
    OffsetSnoc(done, v, |done|);
    assert m'[..end][..at] == m'[..at] && m'[..end][at..at + |d|] == d;
    forall f | 0 <= f <= |done| ensures CopiedAt(m', c, done + [v], end, f) {
      if f < |done| {
        CopiedKept(m, column, done, at, f, m', c, v, end);
      }
    }
  }

  /**
   From the header at `cp` on, with `at` bytes of the copy filled, the reader stays inside the packet:
   a field that is longer than what is left of the copy ends the loop, and no other overruns the packet.
   */
  predicate CopyInside(s: seq<byte>, cp: nat, at: nat, fields: nat)
    decreases fields
  {
    fields == 0 ||
    (cp < |s| && cp + HeaderLen(s[cp]) <= |s| &&
     var q, header := cp + HeaderLen(s[cp]), FieldLength(s, cp);
     if header.NullLength? then CopyInside(s, q, at, fields - 1)
     else
       || header.len > |s| - 1 - at
       || (header.len <= |s| - q && CopyInside(s, q + header.len, at + header.len + 1, fields - 1)))
  }

  lemma {:induction false} CopyInsideHeaders(s: seq<byte>, cp: nat, at: nat, fields: nat)
    requires at <= cp <= |s| && CopyInside(s, cp, at, fields)
    ensures HeadersInside(s, cp, fields)
    decreases fields
  {
    if fields > 0 {
      var q, header := cp + HeaderLen(s[cp]), FieldLength(s, cp);
      if header.NullLength? {
        CopyInsideHeaders(s, q, at, fields - 1);
      } else if header.len <= |s| - 1 - at {
        CopyInsideHeaders(s, q + header.len, at + header.len + 1, fields - 1);
      }
    }
  }

  /** A decodable row leaves room for its copy. */
  lemma {:induction false} RowCopyInside(s: seq<byte>, cp: nat, at: nat, fields: nat)
    requires at <= cp <= |s| && HeadersInside(s, cp, fields) && Decode(s, cp, fields).Row?
    ensures CopyInside(s, cp, at, fields)
    decreases fields
  {
    if fields > 0 {
      var q, header := cp + HeaderLen(s[cp]), FieldLength(s, cp);
      if header.NullLength? {
        RowCopyInside(s, q, at, fields - 1);
      } else {
        RowCopyInside(s, q + header.len, at + header.len + 1, fields - 1);
      }
    }
  }

  /**
   The first field that is longer than what is left of the packet: by how many bytes, and how much further
   the packet has been read than the copy, with its final NUL bytes, was written.
   */
  datatype Excess = NoOverrun | Over(excess: nat, ahead: nat)

  function FirstOverrun(s: seq<byte>, cp: nat, at: nat, fields: nat): Excess
    requires at <= cp <= |s| && HeadersInside(s, cp, fields)
    decreases fields
  {
    if fields == 0 then NoOverrun
    else
      var q, header := cp + HeaderLen(s[cp]), FieldLength(s, cp);
      if header.NullLength? then FirstOverrun(s, q, at, fields - 1)
      else if header.len > |s| - q then Over(header.len - (|s| - q), q - 1 - at)
      else FirstOverrun(s, q + header.len, at + header.len + 1, fields - 1)
  }

  /** The length test notices an overrun exactly if it is greater than the packet is ahead of the copy. */
  lemma {:induction false} CopyInsideIff(s: seq<byte>, cp: nat, at: nat, fields: nat)
    requires at <= cp <= |s| && HeadersInside(s, cp, fields)
    ensures var o := FirstOverrun(s, cp, at, fields);
            && (o.NoOverrun? <==> Decode(s, cp, fields).Row?)
            && (CopyInside(s, cp, at, fields) <==> o.NoOverrun? || o.excess > o.ahead)
    decreases fields
  {
    if fields > 0 {
      var q, header := cp + HeaderLen(s[cp]), FieldLength(s, cp);
      if header.NullLength? {
        CopyInsideIff(s, q, at, fields - 1);
      } else if header.len <= |s| - q {
        CopyInsideIff(s, q + header.len, at + header.len + 1, fields - 1);
      }
    }
  }

  /** A NULL and a field of one byte that is not there: the test does not notice. */
  lemma OverrunExample(s: seq<byte>)
    requires s == [NULL_HEADER, 1]
    ensures HeadersInside(s, 0, 2) && FirstOverrun(s, 0, 0, 2) == Over(1, 1) && !CopyInside(s, 0, 0, 2)
  {
    assert FieldLength(s, 0) == NullLength && FieldLength(s, 1) == Len(1);
    assert HeadersInside(s, 1, 1) && FirstOverrun(s, 1, 0, 1) == Over(1, 1) && !CopyInside(s, 1, 0, 1);
  }

  /** The row loop of `cli_read_rows`: `to` is the space allocated behind the pointers; not `ok` is the error exit. */
  method CopyRow(packet: seq<byte>, fields: nat, to: array<byte>, column: array<int>) returns (ok: bool)
    requires 0 < fields && CopyInside(packet, 0, 0, fields)
    requires to.Length == |packet| && column.Length == fields + 1
    modifies to, column
    ensures HeadersInside(packet, 0, fields) && (ok <==> Decode(packet, 0, fields).Row?)
    ensures ok ==>
              var vals := Decode(packet, 0, fields).fields;
              Laid(column[..], vals) && forall f :: 0 <= f < fields ==> Shown(to[..], column[f], vals[f])
  {
    ghost var done: seq<Field> := [];
    CopyInsideHeaders(packet, 0, 0, fields);
    ContinueStart(packet, fields);
    var cp: nat, at: nat, field: nat := 0, 0, 0;
    while field < fields
      invariant field <= fields && |done| == field && Continues(packet, fields, done, cp) && at <= cp
      invariant CopyInside(packet, cp, at, fields - field)
      invariant Copied(to[..], column[..], done, at)
    {
      ghost var v;
      ok, cp, at, v := CopyNext(packet, fields, cp, at, field, to, column, done);
      if !ok {
        return;
      }
      done := done + [v];
      field := field + 1;
    }
    assert done + [] == done;
    CopiedLaid(to[..], column[..], done, at);
    column[field] := at;
    ok := true;
  }

  /** With the end pointer behind them, the pointers are those of the whole row. */
  lemma CopiedLaid(m: seq<byte>, column: seq<int>, done: seq<Field>, at: nat)
    requires Copied(m, column, done, at) && |column| == |done| + 1
    ensures var c := column[|done| := at];
            Laid(c, done) && forall f :: 0 <= f < |done| ==> Shown(m, c[f], done[f])
  {
    var c := column[|done| := at];
    forall f | 0 <= f < |done| ensures LaidAt(c, done, f) && Shown(m, c[f], done[f]) {
      assert CopiedAt(m, column, done, at, f);
      ShownLonger(m[..at], m, c[f], done[f]);
    }
  }

  /** One turn of the row loop. */
  method CopyNext(packet: seq<byte>, fields: nat, cp0: nat, at0: nat, field: nat, to: array<byte>, column: array<int>,
                  ghost done: seq<Field>)
    returns (ok: bool, cp: nat, at: nat, ghost v: Field)
    requires |done| == field < fields && Continues(packet, fields, done, cp0) && at0 <= cp0
    requires CopyInside(packet, cp0, at0, fields - field) && to.Length == |packet| && column.Length == fields + 1
    requires Copied(to[..], column[..], done, at0)
    modifies to, column
    ensures !ok ==> Decode(packet, 0, fields) == Malformed
    ensures ok ==> Continues(packet, fields, done + [v], cp) && at <= cp
    ensures ok ==> CopyInside(packet, cp, at, fields - field - 1)
    ensures ok ==> Copied(to[..], column[..], done + [v], at)
  {
    ghost var m, c := to[..], column[..];
    var endTo := |packet| - 1;
    var header := FieldLength(packet, cp0);
    cp, at := cp0 + HeaderLen(packet[cp0]), at0;
    if header.NullLength? {
      column[field] := -1;
      ContinueNull(packet, fields, done, cp0);
      CopiedNull(m, c, done, at);
      v := Null;
    } else {
      var len := header.len;
      if len > endTo - at {
        Overrun(packet, fields, done, cp0, len);
        return false, cp, at, Null;
      }
      ContinueString(packet, fields, done, cp0, len);
      at, v := CopyText(packet[cp..cp + len], at0, field, to, column, done);
      cp := cp + len;
    }
    ok := true;
  }

  /** Copy the bytes of a string behind the fields that are copied. */
  method CopyText(d: seq<byte>, at0: nat, field: nat, to: array<byte>, column: array<int>, ghost done: seq<Field>)
    returns (at: nat, ghost v: Field)
    requires |done| == field && field + 1 < column.Length && at0 + |d| < to.Length
    requires Copied(to[..], column[..], done, at0)
    modifies to, column
    ensures at == at0 + |d| + 1 && v == Text(d) && Copied(to[..], column[..], done + [v], at)
  {
    ghost var m, c := to[..], column[..];
    column[field] := at0;
    CopyField(to, at0, d);
    CopiedString(m, c, done, at0, d, to[..]);
    at, v := at0 + |d| + 1, Text(d);
  }

  lemma ShownLonger(m: seq<byte>, m': seq<byte>, at: int, v: Field)
    requires Shown(m, at, v) && m <= m'
    ensures Shown(m', at, v)
  {
    if v.Text? {
      assert m'[at..at + |v.bytes|] == m[at..at + |v.bytes|];
    }
  }

  /** `cli_fetch_lengths`: the lengths of a copied row from the distances between its pointers. */
  method FetchLengths(to: array<int>, column: array<int>, fieldCount: nat, ghost vals: seq<Field>)
    requires to != column && to.Length == fieldCount == |vals| && Laid(column[..], vals)
    modifies to
    ensures forall f :: 0 <= f < fieldCount ==> to[f] == FieldSize(vals[f])
  {
    var start, prevLength, k: nat := -1, 0, 0;
    while k != fieldCount + 1
      invariant k <= fieldCount + 1
      invariant start == -1 ==> forall f :: 0 <= f < k && f < fieldCount ==> vals[f].Null?
      invariant start != -1 ==> 0 <= prevLength < k && start == column[prevLength]
      invariant start != -1 && k <= fieldCount ==>
                  vals[prevLength].Text? && Offset(vals, k) == start + |vals[prevLength].bytes| + 1
      invariant forall f :: 0 <= f < k && f < fieldCount && (start == -1 || f != prevLength) ==>
                  to[f] == FieldSize(vals[f])
      invariant k == fieldCount + 1 ==> start != -1 && prevLength == fieldCount
    {
      assert k < fieldCount ==> LaidAt(column[..], vals, k);
      if k < fieldCount && column[k] == -1 {
        to[k] := 0;
      } else {
        if start != -1 {
          to[prevLength] := column[k] - start - 1;
        }
        start, prevLength := column[k], k;
      }
      k := k + 1;
    }
  }

  method FromSeq(s: seq<byte>, room: nat) returns (a: array<byte>)
    ensures fresh(a) && a.Length == |s| + room && a[..|s|] == s
  {
    a := new byte[|s| + room];
    for k := 0 to |s|
      invariant a[..k] == s[..k]
    {
      a[k] := s[k];
    }
  }

  /** What either reader hands to the caller for the row `sent`. */
  ghost predicate Delivered(m: seq<byte>, row: seq<int>, lengths: seq<int>, sent: seq<Field>) {
    && |row| == |sent| + 1 && |lengths| == |sent|
    && forall f :: 0 <= f < |sent| ==> Shown(m, row[f], sent[f]) && lengths[f] == FieldSize(sent[f])
  }

  lemma SentDecodes(sent: seq<Field>, s: seq<byte>, n: nat)
    requires Sendable(sent) && s == EncodeRow(sent) && n == |sent|
    ensures HeadersInside(s, 0, n) && Decode(s, 0, n) == Row(sent)
  {
    assert s[0..] == s;
    DecodeEncode(sent, s, 0);
  }

  /** A row that was sent, read with `read_one_row`. */
  method ReadUnbuffered(sent: seq<Field>) returns (packet: array<byte>, row: array<int>, lengths: array<int>)
    requires sent != [] && Sendable(sent)
    ensures Delivered(packet[..], row[..], lengths[..], sent)
  {
    var s, n := EncodeRow(sent), |sent|;
    SentDecodes(sent, s, n);
    packet := FromSeq(s, 1);
    row, lengths := new int[n + 1], new int[n];
    assert packet[..|s|] == s;
    var status := ReadOneRow(packet, |s|, n, row, lengths);
  }

  /** The same row, read with `cli_read_rows` and `cli_fetch_lengths`. */
  method ReadBuffered(sent: seq<Field>) returns (to: array<byte>, column: array<int>, lengths: array<int>)
    requires sent != [] && Sendable(sent)
    ensures Delivered(to[..], column[..], lengths[..], sent)
  {
    var s, n := EncodeRow(sent), |sent|;
    SentDecodes(sent, s, n);
    to := new byte[|s|];
    column, lengths := new int[n + 1], new int[n];
    RowCopyInside(s, 0, 0, n);
    var ok := CopyRow(s, n, to, column);
    FetchLengths(lengths, column, n, sent);
  }
}
