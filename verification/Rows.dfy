/** Rows of the text protocol: length-encoded fields, as sent and as read back. */
module Rows {
  import opened Bytes
  import opened Numbers

  /** A column value. */
  datatype Field = Null | Text(bytes: seq<byte>)

  /** What `net_field_length` returns, `NULL_LENGTH` or a length. */
  datatype Length = NullLength | Len(len: nat)

  /** A row, or the finding that a field overruns the packet. */
  datatype Decoded = Malformed | Row(fields: seq<Field>)

  const NULL_HEADER: byte := 251

  /** `NULL_LENGTH`, all bits of an `ulong`; lengths are below it. */
  const MAX_LENGTH := 0xffff_ffff

  // ----- the encoding

  /** `n` in `k` bytes, the lowest first. */
  function LittleEndian(n: nat, k: nat): (r: seq<byte>)
    ensures |r| == k
  {
    if k == 0 then [] else [n % 256] + LittleEndian(n / 256, k - 1)
  }

  /** The number of bytes behind the first one. */
  function Width(n: nat): nat {
    if n < 251 then 0 else if n < 0x1_0000 then 2 else if n < 0x100_0000 then 3 else 8
  }

  function FirstByte(n: nat): byte {
    if n < 251 then n else if n < 0x1_0000 then 252 else if n < 0x100_0000 then 253 else 254
  }

  /** The length-encoded integer of `net_store_length`. */
  function LengthCode(n: nat): (r: seq<byte>)
    ensures |r| == 1 + Width(n) && r[0] == FirstByte(n)
  {
    [FirstByte(n)] + LittleEndian(n, Width(n))
  }

  function EncodeField(f: Field): (r: seq<byte>)
    ensures r != []
  {
    match f
    case Null => [NULL_HEADER]
    case Text(d) => LengthCode(|d|) + d
  }

  function EncodeRow(row: seq<Field>): seq<byte> {
    if row == [] then [] else EncodeField(row[0]) + EncodeRow(row[1..])
  }

  /** Every field has a length that `net_field_length` can tell, and tell from NULL. */
  ghost predicate Sendable(row: seq<Field>) {
    forall k :: 0 <= k < |row| && row[k].Text? ==> |row[k].bytes| < MAX_LENGTH
  }

  // ----- reading

  /** The number of bytes that `net_field_length` takes for a header that starts with `b`. */
  function HeaderLen(b: byte): nat {
    if b <= 251 then 1 else if b == 252 then 3 else if b == 253 then 4 else 9
  }

  function Number(s: seq<byte>, p: nat, k: nat): nat
    requires p + k <= |s|
    decreases k
  {
    if k == 0 then 0 else s[p] + 256 * Number(s, p + 1, k - 1)
  }

  /** How many bytes of the number behind `b` are read. */
  function NumberLen(b: byte): nat {
    if b == 252 then 2 else if b == 253 then 3 else 4
  }

  /** `net_field_length`; of an eight-byte length only four bytes count. */
  function FieldLength(s: seq<byte>, p: nat): Length
    requires p < |s| && p + HeaderLen(s[p]) <= |s|
  {
    if s[p] < 251 then Len(s[p])
    else if s[p] == NULL_HEADER || Number(s, p + 1, NumberLen(s[p])) == MAX_LENGTH then NullLength
    else Len(Number(s, p + 1, NumberLen(s[p])))
  }

  /** The header at `p` lies inside the packet, and so does every later one that a reader gets to. */
  predicate HeadersInside(s: seq<byte>, p: nat, fields: nat)
    requires p <= |s|
    decreases fields
  {
    fields == 0 ||
    (p < |s| && p + HeaderLen(s[p]) <= |s| &&
     var q, header := p + HeaderLen(s[p]), FieldLength(s, p);
     if header.NullLength? then HeadersInside(s, q, fields - 1)
     else header.len > |s| - q || HeadersInside(s, q + header.len, fields - 1))
  }

  /** The fields from `p` on. */
  function Decode(s: seq<byte>, p: nat, fields: nat): (r: Decoded)
    requires p <= |s| && HeadersInside(s, p, fields)
    ensures r.Row? ==> |r.fields| == fields
    decreases fields
  {
    if fields == 0 then Row([])
    else
      var q, header := p + HeaderLen(s[p]), FieldLength(s, p);
      if header.NullLength? then Behind(Null, Decode(s, q, fields - 1))
      else if header.len > |s| - q then Malformed
      else Behind(Text(s[q..q + header.len]), Decode(s, q + header.len, fields - 1))
  }

  /** A field in front of what else was decoded. */
  function Behind(f: Field, rest: Decoded): Decoded {
    if rest.Malformed? then Malformed else Row([f] + rest.fields)
  }

  // ----- reading gives back what was sent

  /** The first bytes of a number are what is left of it by their power. */
  lemma {:induction false} NumberBytes(s: seq<byte>, p: nat, n: nat, k: nat, j: nat)
    requires j <= k && p + k <= |s| && s[p..p + k] == LittleEndian(n, k)
    ensures Number(s, p, j) == n % Power256(j)
    decreases j
  {
    if j > 0 {
      var b := LittleEndian(n, k);
      assert s[p] == s[p..p + k][0] == n % 256;
      assert s[p + 1..p + k] == s[p..p + k][1..] == LittleEndian(n / 256, k - 1);
      NumberBytes(s, p + 1, n / 256, k - 1, j - 1);
      Remainder(n, Power256(j - 1));
    }
  }

  lemma Remainder(n: nat, m: nat)
    requires m > 0
    ensures n % (256 * m) == n % 256 + 256 * (n / 256 % m)
  {
    var q, r := n / 256 / m, n / 256 % m;
    assert n / 256 == q * m + r && r <= m - 1;
    assert 256 * (q * m) == q * (256 * m);
    RemainderIs(n, 256 * m, q, n % 256 + 256 * r);
  }

  lemma RemainderIs(n: nat, d: nat, q: nat, r: nat)
    requires 0 <= r < d && n == q * d + r
    ensures n % d == r
  {
    var q1, r1 := n / d, n % d;
    assert n == q1 * d + r1;
    if q < q1 {
      MulMonotone(q + 1, q1, d);
    } else if q1 < q {
      MulMonotone(q1 + 1, q, d);
    }
  }

  function Power256(k: nat): (r: nat)
    ensures r > 0
  {
    if k == 0 then 1 else 256 * Power256(k - 1)
  }

  /** The header of `n` is read as that length exactly if `n` is below `NULL_LENGTH`. */
  lemma HeaderRead(s: seq<byte>, p: nat, n: nat)
    requires p + |LengthCode(n)| <= |s| && s[p..p + |LengthCode(n)|] == LengthCode(n)
    ensures s[p] != NULL_HEADER && HeaderLen(s[p]) == |LengthCode(n)|
    ensures FieldLength(s, p) == Len(n) <==> n < MAX_LENGTH
  {
    var c := LengthCode(n);
    assert s[p] == s[p..p + |c|][0] == FirstByte(n);
    assert s[p + 1..p + |c|] == s[p..p + |c|][1..] == LittleEndian(n, Width(n));
    if n >= 251 {
      NumberBytes(s, p + 1, n, Width(n), NumberLen(s[p]));
      WidthFits(n, n % Power256(NumberLen(FirstByte(n))));
    }
  }

  /** What is read of the bytes of `n`. */
  lemma WidthFits(n: nat, read: nat)
    requires n >= 251 && read == n % Power256(NumberLen(FirstByte(n)))
    ensures read <= MAX_LENGTH && (read < MAX_LENGTH && read == n <==> n < MAX_LENGTH)
  {
    assert Power256(2) == 0x1_0000 && Power256(3) == 0x100_0000 && Power256(4) == MAX_LENGTH + 1;
  }

  lemma Split(s: seq<byte>, p: nat, c: seq<byte>, d: seq<byte>, rest: seq<byte>)
    requires p <= |s| && s[p..] == (c + d) + rest
    ensures p + |c| + |d| <= |s| && s[p..p + |c|] == c && s[p + |c|..p + |c| + |d|] == d && s[p + |c| + |d|..] == rest
    ensures c != [] ==> s[p] == c[0]
  {
    assert s == s[..p] + ((c + d) + rest);
  }

  /** The first field of a row, a string, is read as it was written; its bytes stand at `q`. */
  lemma StringRead(f: Field, rest: seq<byte>, s: seq<byte>, p: nat, next: nat) returns (q: nat)
    requires f.Text? && |f.bytes| < MAX_LENGTH && p <= |s| && s[p..] == EncodeField(f) + rest
    requires next == p + |EncodeField(f)|
    ensures p < |s| && q == p + HeaderLen(s[p]) && next == q + |f.bytes| <= |s|
    ensures FieldLength(s, p) == Len(|f.bytes|) && s[q..next] == f.bytes
  {
    var c := LengthCode(|f.bytes|);
    Split(s, p, c, f.bytes, rest);
    HeaderRead(s, p, |f.bytes|);
    q := p + |c|;
  }

  lemma NullRead(rest: seq<byte>, s: seq<byte>, p: nat)
    requires p <= |s| && s[p..] == EncodeField(Null) + rest
    ensures p < |s| && s[p] == NULL_HEADER
  {
    Split(s, p, [NULL_HEADER], [], rest);
  }

  lemma DecodeNull(s: seq<byte>, p: nat, n: nat, tail: seq<Field>)
    requires n == |tail| + 1 && p < |s| && s[p] == NULL_HEADER
    requires HeadersInside(s, p + 1, |tail|) && Decode(s, p + 1, |tail|) == Row(tail)
    ensures HeadersInside(s, p, n) && Decode(s, p, n) == Row([Null] + tail)
  {
  }

  lemma DecodeString(s: seq<byte>, p: nat, q: nat, n: nat, f: Field, next: nat, tail: seq<Field>)
    requires n == |tail| + 1 && f.Text?
    requires p < |s| && q == p + HeaderLen(s[p]) && next == q + |f.bytes| <= |s| && FieldLength(s, p) == Len(|f.bytes|)
    requires s[q..next] == f.bytes && HeadersInside(s, next, |tail|) && Decode(s, next, |tail|) == Row(tail)
    ensures HeadersInside(s, p, n) && Decode(s, p, n) == Row([f] + tail)
  {
  }

  /** Reading a field and then the rest. */
  lemma DecodeField(f: Field, rest: seq<byte>, s: seq<byte>, p: nat, next: nat, n: nat, tail: seq<Field>)
    requires n == |tail| + 1 && (f.Text? ==> |f.bytes| < MAX_LENGTH)
    requires p <= |s| && s[p..] == EncodeField(f) + rest && next == p + |EncodeField(f)| <= |s|
    requires HeadersInside(s, next, |tail|) && Decode(s, next, |tail|) == Row(tail)
    ensures HeadersInside(s, p, n) && Decode(s, p, n) == Row([f] + tail)
  {
    if f.Null? {
      NullRead(rest, s, p);
      DecodeNull(s, p, n, tail);
    } else {
      var q := StringRead(f, rest, s, p, next);
      DecodeString(s, p, q, n, f, next, tail);
    }
  }

  lemma Tail(s: seq<byte>, p: nat, e: seq<byte>, rest: seq<byte>)
    requires p <= |s| && s[p..] == e + rest
    ensures p + |e| <= |s| && s[p + |e|..] == rest
  {
    assert s == s[..p] + (e + rest);
  }

  lemma RowParts(row: seq<Field>)
    requires row != []
    ensures EncodeRow(row) == EncodeField(row[0]) + EncodeRow(row[1..])
  {
  }

  /** Every row comes back as it was sent. */
  lemma {:induction false} DecodeEncode(row: seq<Field>, s: seq<byte>, p: nat)
    requires Sendable(row) && p <= |s| && s[p..] == EncodeRow(row)
    ensures HeadersInside(s, p, |row|) && Decode(s, p, |row|) == Row(row)
    decreases |row|
  {
    if row != [] {
      var f, tail := row[0], row[1..];
      assert row == [f] + tail;
      RowParts(row);
      Tail(s, p, EncodeField(f), EncodeRow(tail));
      var next := p + |EncodeField(f)|;
      DecodeEncode(tail, s, next);
      DecodeField(f, EncodeRow(tail), s, p, next, |row|, tail);
    }
  }

  // ----- the two tests for the end of the rows

  /** The test in `cli_read_rows`. */
  predicate EndOfRowsBuffered(packet: seq<byte>)
    requires packet != []
  {
    packet[0] == 254 && |packet| < 8
  }

  /** The test in `read_one_row` and `cli_flush_use_result`. */
  predicate EndOfRowsUnbuffered(packet: seq<byte>)
    requires packet != []
  {
    |packet| <= 8 && packet[0] == 254
  }

  /** A row is never taken for the end of the rows, nor for an error packet. */
  lemma RowIsNoMarker(row: seq<Field>)
    requires row != [] && Sendable(row)
    ensures var s := EncodeRow(row);
            s != [] && s[0] != 255 && !EndOfRowsBuffered(s) && !EndOfRowsUnbuffered(s)
  {
    var e := EncodeField(row[0]);
    assert EncodeRow(row)[0] == e[0];
    if row[0].Text? {
      assert e[0] == LengthCode(|row[0].bytes|)[0];
    }
  }

  // ----- in bytes

  /** Lengths on both sides of the limits of a header, as they are sent. */
  lemma LengthBytes()
    ensures LengthCode(0) == [0] && LengthCode(250) == [250] && LengthCode(251) == [252, 0xfb, 0x00]
    ensures LengthCode(300) == [252, 0x2c, 0x01] && LengthCode(0xffff) == [252, 0xff, 0xff]
  {
  }

  lemma ThreeByteLengths()
    ensures LengthCode(0x1_0000) == [253, 0x00, 0x00, 0x01] && LengthCode(70_000) == [253, 0x70, 0x11, 0x01]
    ensures LengthCode(0xff_ffff) == [253, 0xff, 0xff, 0xff]
  {
  }

  lemma EightByteLength()
    ensures LengthCode(0x100_0000) == [254, 0x00, 0x00, 0x00, 0x01, 0x00, 0x00, 0x00, 0x00]
  {
  }

  /** And as they are read. */
  lemma HeaderBytes(s: seq<byte>)
    ensures s == [250] ==> HeaderLen(s[0]) == 1 && FieldLength(s, 0) == Len(250)
    ensures s == [251] ==> HeaderLen(s[0]) == 1 && FieldLength(s, 0) == NullLength
    ensures s == [252, 0x2c, 0x01] ==> HeaderLen(s[0]) == 3 && FieldLength(s, 0) == Len(300)
    ensures s == [253, 0x70, 0x11, 0x01] ==> HeaderLen(s[0]) == 4 && FieldLength(s, 0) == Len(70_000)
    ensures s == [254, 0x00, 0x00, 0x00, 0x01, 0x00, 0x00, 0x00, 0x00] ==>
              HeaderLen(s[0]) == 9 && FieldLength(s, 0) == Len(0x100_0000)
  {
    if s == [252, 0x2c, 0x01] {
      assert Number(s, 2, 1) == 1;
    } else if s == [253, 0x70, 0x11, 0x01] {
      assert Number(s, 2, 2) == 0x11 + 256 * 1;
    } else if s == [254, 0x00, 0x00, 0x00, 0x01, 0x00, 0x00, 0x00, 0x00] {
      assert Number(s, 4, 1) == 1;
      assert Number(s, 2, 3) == 256 * Number(s, 3, 2);
      assert Number(s, 2, 3) == 0x1_0000;
    }
  }

  /** An eight-byte length of four bytes 0xff reads as NULL. */
  lemma WideNullBytes(s: seq<byte>)
    requires s == [254, 0xff, 0xff, 0xff, 0xff, 0x00, 0x00, 0x00, 0x00]
    ensures FieldLength(s, 0) == NullLength
  {
    assert Number(s, 4, 1) == 0xff;
    assert Number(s, 3, 2) == 0xffff;
    assert Number(s, 2, 3) == 0xff_ffff;
  }

  /** NULL, "a" and the empty string. */
  lemma RowBytes(row: seq<Field>, s: seq<byte>)
    requires row == [Null, Text([0x61]), Text([])] && s == [251, 1, 0x61, 0]
    ensures EncodeRow(row) == s && HeadersInside(s, 0, 3) && Decode(s, 0, 3) == Row(row)
  {
    RowTail([Text([0x61]), Text([])]);
    assert row[1..] == [Text([0x61]), Text([])];
    assert s[0..] == s;
    DecodeEncode(row, s, 0);
  }

  lemma RowTail(row: seq<Field>)
    requires row == [Text([0x61]), Text([])]
    ensures EncodeRow(row) == [1, 0x61, 0]
  {
    assert row[1..] == [Text([])] && row[1..][1..] == [];
    assert EncodeField(row[0]) == [1, 0x61] && EncodeField(row[1]) == [0];
    assert EncodeRow(row[1..]) == [0];
  }
}
