/**
 The client's status machine: `mysql_real_query`, `mysql_store_result`, `mysql_use_result`,
 `mysql_fetch_row` and `mysql_free_result` against a server that sends one reply to a query.
 Allocations and the transport do not fail, and no reply announces a further result set.
 */
module Client {
  import opened Bytes
  import opened Wrappers
  import opened Rows

  type Packet = seq<byte>

  type Row = seq<Field>

  // ----- what the server sends

  ghost predicate IsEof(p: Packet) { p != [] && p[0] == 254 && |p| < 8 }

  ghost predicate IsError(p: Packet) { p != [] && p[0] == 255 }

  ghost predicate RowsOk(rows: seq<Row>, fields: nat) {
    fields > 0 && forall k :: 0 <= k < |rows| ==> |rows[k]| == fields && Sendable(rows[k])
  }

  function RowPackets(rows: seq<Row>): seq<Packet> {
    seq(|rows|, k requires 0 <= k < |rows| => EncodeRow(rows[k]))
  }

  /**
   A reply: an OK packet, an error, an error behind some field definitions, or a result set whose rows
   end with an EOF or an error packet. `defs` are the definitions, rows of seven fields.
   */
  datatype Reply =
    | Ok(first: Packet)
    | Failed(error: Packet)
    | DefsFailed(count: nat, defs: seq<Row>, error: Packet)
    | Result(count: nat, defs: seq<Row>, eof: Packet, rows: seq<Row>, last: Packet)

  const DEFINITION_FIELDS := 7

  ghost predicate WellFormed(r: Reply) {
    match r
    case Ok(first) => first != [] && first[0] == 0
    case Failed(error) => IsError(error)
    case DefsFailed(count, defs, error) => 0 < count < MAX_LENGTH && RowsOk(defs, DEFINITION_FIELDS) && IsError(error)
    case Result(count, defs, eof, rows, last) =>
      && 0 < count < MAX_LENGTH && RowsOk(defs, DEFINITION_FIELDS) && IsEof(eof)
      && RowsOk(rows, count) && (IsEof(last) || IsError(last))
  }

  /** The packet that ends the definitions. */
  function DefinitionsEnd(r: Reply): Packet {
    match r
    case DefsFailed(_, _, error) => error
    case Result(_, _, eof, _, _) => eof
    case _ => []
  }

  function BehindDefinitions(r: Reply): seq<Packet> {
    if r.Result? then RowPackets(r.rows) + [r.last] else []
  }

  function Packets(r: Reply): seq<Packet> {
    match r
    case Ok(first) => [first]
    case Failed(error) => [error]
    case _ => [LengthCode(r.count)] + (RowPackets(r.defs) + [DefinitionsEnd(r)] + BehindDefinitions(r))
  }

  // ----- the client

  datatype Status = Ready | GetResult | UseResult

  datatype Error = NoError | OutOfSync | FetchCanceled | ServerError

  /**
   A MYSQL_RES. `live` says that its handle is not NULL, `buffered` that it has data; `data` are the
   rows from the data cursor on, and `count` is its field count.
   */
  datatype Res = Res(live: bool, eof: bool, buffered: bool, data: seq<Row>, count: nat, cancelled: bool)

  type ResId = nat

  /** The packet in front is a row, which is no marker, or what ends the rows. */
  lemma NextPacket(sent: seq<Row>, k: nat, end: Packet, rest: seq<Packet>)
    requires k <= |sent| && forall i :: 0 <= i < |sent| ==> sent[i] != [] && Sendable(sent[i])
    ensures var inbox := RowPackets(sent)[k..] + [end] + rest;
            if k == |sent| then inbox == [end] + rest && inbox[0] == end && inbox[1..] == rest
            else && inbox[0] == EncodeRow(sent[k]) && inbox[1..] == RowPackets(sent)[k + 1..] + [end] + rest
                 && inbox[0] != [] && inbox[0][0] != 255
                 && !EndOfRowsBuffered(inbox[0]) && !EndOfRowsUnbuffered(inbox[0])
  {
    if k < |sent| {
      RowIsNoMarker(sent[k]);
    }
  }

  /** The same for all that is left of a result set. */
  lemma FirstPacket(rows: seq<Row>, count: nat, last: Packet)
    requires RowsOk(rows, count) && (IsEof(last) || IsError(last))
    ensures var inbox := RowPackets(rows) + [last];
            && inbox[0] != []
            && (rows == [] ==> inbox == [last] && (inbox[0][0] != 255 ==> EndOfRowsUnbuffered(last)))
            && (rows != [] ==>
                  && inbox[0] == EncodeRow(rows[0]) && inbox[1..] == RowPackets(rows[1..]) + [last]
                  && inbox[0][0] != 255 && !EndOfRowsUnbuffered(inbox[0])
                  && |rows[0]| == count && Sendable(rows[0]) && RowsOk(rows[1..], count))
  {
    if rows == [] {
      assert RowPackets(rows) + [last] == [last];
    } else {
      RowIsNoMarker(rows[0]);
      var front, rest := [EncodeRow(rows[0])], RowPackets(rows[1..]);
      assert RowPackets(rows) == front + rest;
      assert RowPackets(rows) + [last] == front + (rest + [last]);
    }
  }

  /** `*unbuffered_fetch_owner = TRUE`, where there is an owner. */
  function Cancelled(results: map<ResId, Res>, owner: Option<ResId>): map<ResId, Res> {
    if owner.Some? && owner.value in results then results[owner.value := results[owner.value].(cancelled := true)]
    else results
  }

  class Mysql {
    var status: Status
    var fields: Option<nat>          // mysql->fields: the field count of a result not yet fetched
    var owner: Option<ResId>         // unbuffered_fetch_owner
    var results: map<ResId, Res>     // the results handed out and not yet freed
    var nextId: ResId
    var inbox: seq<Packet>           // what the server has sent and the client has not read
    var error: Error

    ghost var rows: seq<Row>         // the rows of the current result set that are still in the inbox
    ghost var last: Packet           // the packet behind them

    /** Client and server agree about what is still to be read. */
    ghost predicate Aligned()
      reads this
    {
      match status
      case Ready => inbox == []
      case GetResult => fields.Some? && Pending(fields.value)
      case UseResult =>
        owner.Some? && owner.value in results && results[owner.value].live && Pending(results[owner.value].count)
    }

    ghost predicate Pending(count: nat)
      reads this
    {
      RowsOk(rows, count) && (IsEof(last) || IsError(last)) && inbox == RowPackets(rows) + [last]
    }

    /** Only the result being read has a handle, and only while the status says so. */
    ghost predicate ResultsOk()
      reads this
    {
      && (forall id :: id in results ==> id < nextId)
      && (forall id :: id in results && results[id].live ==> status == Status.UseResult && owner == Some(id))
      && (forall id :: id in results ==> results[id].live == (!results[id].buffered && !results[id].eof))
      && (owner.Some? ==> status == Status.UseResult)
    }

    ghost predicate Valid()
      reads this
    {
      Aligned() && ResultsOk()
    }

    constructor ()
      ensures Valid() && status == Ready && results == map[] && fields == None && nextId == 0
    {
      status, fields, owner, results, nextId, inbox, error := Ready, None, None, map[], 0, [], NoError;
      rows, last := [], [];
    }

    /** `cli_safe_read`: the next packet, `None` for an error packet. */
    method SafeRead() returns (p: Option<Packet>)
      requires inbox != [] && inbox[0] != []
      modifies `inbox, `error
      ensures inbox == old(inbox)[1..]
      ensures p == if old(inbox)[0][0] == 255 then None else Some(old(inbox)[0])
      ensures error == if p.None? then ServerError else old(error)
    {
      var packet := inbox[0];
      inbox := inbox[1..];
      if packet[0] == 255 {
        error := ServerError;
        return None;
      }
      return Some(packet);
    }

    /** `cli_read_rows`: all rows up to the end marker, `None` after an error packet. */
    method ReadRows(count: nat, ghost sent: seq<Row>, ghost end: Packet, ghost rest: seq<Packet>)
      returns (data: Option<seq<Row>>)
      requires RowsOk(sent, count) && (IsEof(end) || IsError(end))
      requires inbox == RowPackets(sent) + [end] + rest
      modifies `inbox, `error
      ensures inbox == rest
      ensures data == if IsError(end) then None else Some(sent)
      ensures error == if IsError(end) then ServerError else old(error)
    {
      var all: seq<Row> := [];
      while true
        invariant |all| <= |sent| && all == sent[..|all|]
        invariant inbox == RowPackets(sent)[|all|..] + [end] + rest && error == old(error)
        decreases |sent| - |all|
      {
        ghost var k := |all|;
        NextPacket(sent, k, end, rest);
        assert inbox == (RowPackets(sent)[k..] + [end] + rest);
        var p := SafeRead();
        if p.None? {
          return None;
        }
        if EndOfRowsBuffered(p.value) {
          assert all == sent;
          return Some(all);
        }
        var row := ParseRow(p.value, count, sent[k]);
        all := all + [row];
      }
    }

    /** One row out of its packet. */
    method ParseRow(p: Packet, count: nat, ghost sent: Row) returns (row: Row)
      requires |sent| == count && Sendable(sent) && p == EncodeRow(sent)
      ensures row == sent
    {
      assert p[0..] == p;
      DecodeEncode(sent, p, 0);
      row := Decode(p, 0, count).fields;
    }

    /** `cli_flush_use_result`: read on to the end marker or an error packet. */
    method Flush(count: nat)
      requires Pending(count)
      modifies `inbox, `error, `rows
      ensures inbox == [] && error == if IsError(last) then ServerError else old(error)
    {
      while true
        invariant Pending(count) && error == old(error)
        decreases |rows|
      {
        FirstPacket(rows, count, last);
        var p := SafeRead();
        if p.None? {
          break;
        }
        if EndOfRowsUnbuffered(p.value) {
          break;
        }
        rows := rows[1..];
      }
    }

    /**
     `mysql_real_query` (with `cli_advanced_command`). A command that is accepted finds nothing unread of
     earlier replies; one that is not changes nothing.
     */
    method RealQuery(reply: Reply) returns (failed: bool)
      requires Valid() && WellFormed(reply)
      modifies `status, `fields, `inbox, `error, `rows, `last
      ensures Valid() && results == old(results) && owner == old(owner) && nextId == old(nextId)
      ensures old(status) == Ready ==> old(inbox) == []
      ensures old(status) != Ready ==>
                failed && error == OutOfSync && status == old(status) && fields == old(fields) && inbox == old(inbox)
                && rows == old(rows) && last == old(last)
      ensures old(status) == Ready ==>
                && (failed <==> reply.Failed? || reply.DefsFailed?)
                && error == (if failed then ServerError else NoError)
                && (reply.Result? ==>
                      && status == GetResult && fields == Some(reply.count)
                      && rows == reply.rows && last == reply.last)
                && (!reply.Result? ==> status == Ready)
                && (reply.Ok? || reply.DefsFailed? ==> fields == None)
    {
      if status != Ready {
        error := OutOfSync;
        return true;
      }
      error := NoError;
      inbox := inbox + Packets(reply);
      assert inbox == Packets(reply);
      failed := ReadQueryResult(reply);
    }

    /** `cli_read_query_result`: read a reply up to the rows of a result set. */
    method ReadQueryResult(reply: Reply) returns (failed: bool)
      requires status == Ready && inbox == Packets(reply) && WellFormed(reply)
      modifies `status, `fields, `inbox, `error, `rows, `last
      ensures failed <==> reply.Failed? || reply.DefsFailed?
      ensures error == if failed then ServerError else old(error)
      ensures reply.Result? ==>
                status == GetResult && fields == Some(reply.count) && rows == reply.rows && last == reply.last
                && Pending(reply.count)
      ensures !reply.Result? ==> status == Ready && inbox == []
      ensures reply.Ok? || reply.DefsFailed? ==> fields == None
    {
      ReplyStart(reply);
      var p := SafeRead();
      if p.None? {
        return true;
      }
      fields := None;
      var header := FieldLength(p.value, 0);
      if header == Len(0) {
        return false;
      }
      var defs := ReadRows(DEFINITION_FIELDS, reply.defs, DefinitionsEnd(reply), BehindDefinitions(reply));
      if defs.None? {
        return true;
      }
      fields, status := Some(header.len), GetResult;
      rows, last := reply.rows, reply.last;
      return false;
    }

    /** A result gets an id that was not used before. */
    method NewResult(r: Res) returns (id: ResId)
      requires forall i :: i in results ==> i < nextId
      modifies `results, `nextId
      ensures id == old(nextId) && nextId == id + 1 && results == old(results)[id := r] && id !in old(results)
    {
      id := nextId;
      results, nextId := results[id := r], id + 1;
    }

    /**
     `mysql_store_result`: all rows at once. Where an error packet ends the rows the result is lost,
     but the connection is in step again.
     */
    method StoreResult() returns (res: Option<ResId>)
      requires Valid()
      modifies this
      ensures Valid() && last == old(last) && nextId == if res.Some? then res.value + 1 else old(nextId)
      ensures error == if old(status) == GetResult then (if res.None? then ServerError else old(error))
                       else if old(fields).Some? then OutOfSync else old(error)
      ensures old(status) != GetResult ==>
                && res == None && status == old(status) && fields == old(fields) && rows == old(rows)
                && inbox == old(inbox) && results == old(results) && owner == old(owner)
      ensures old(status) == GetResult ==>
                && status == Ready && inbox == []
                && (res.None? <==> IsError(old(last)))
                && (res.None? ==> results == old(results))
                && (res.Some? ==>
                      && res.value == old(nextId) && fields == None
                      && results == old(results)[res.value :=
                                                   Res(false, true, true, old(rows), old(fields).value, false)])
    {
      if fields.None? {
        return None;
      }
      if status != GetResult {
        error := OutOfSync;
        return None;
      }
      status := Ready;
      assert inbox == RowPackets(rows) + [last] + [];
      var data := ReadRows(fields.value, rows, last, []);
      if data.None? {
        return None;
      }
      var id := NewResult(Res(false, true, true, data.value, fields.value, false));
      fields, owner := None, None;
      return Some(id);
    }

    /** `mysql_use_result`: a result with a handle, and nothing read yet. */
    method UseResult() returns (res: Option<ResId>)
      requires Valid()
      modifies this
      ensures Valid() && inbox == old(inbox) && rows == old(rows) && last == old(last)
      ensures nextId == if res.Some? then res.value + 1 else old(nextId)
      ensures res.Some? <==> old(status) == GetResult
      ensures error == if old(status) != GetResult && old(fields).Some? then OutOfSync else old(error)
      ensures res.None? ==> status == old(status) && fields == old(fields)
      ensures res.None? ==> results == old(results) && owner == old(owner)
      ensures res.Some? ==>
                && status == Status.UseResult && owner == res && fields == None && res.value == old(nextId)
                && results == old(results)[res.value := Res(true, false, false, [], old(fields).value, false)]
    {
      if fields.None? {
        return None;
      }
      if status != GetResult {
        error := OutOfSync;
        return None;
      }
      var id := NewResult(Res(true, false, false, [], fields.value, false));
      fields, status, owner := None, Status.UseResult, Some(id);
      return Some(id);
    }

    /**
     `mysql_fetch_row`: the next row in the order sent, from memory or from the connection. The end of
     an unbuffered result, or an error packet, gives the connection free.
     */
    method FetchRow(id: ResId) returns (row: Option<Row>)
      requires Valid() && id in results
      modifies this
      ensures Valid() && fields == old(fields) && last == old(last) && nextId == old(nextId)
      ensures id in results && results == old(results)[id := results[id]]
      ensures error == if old(results)[id].live && row.None? && IsError(last) then ServerError else old(error)
      ensures old(results)[id].buffered ==>
                var r := old(results)[id];
                && row == (if r.data == [] then None else Some(r.data[0]))
                && results[id] == r.(data := if r.data == [] then [] else r.data[1..])
                && status == old(status) && inbox == old(inbox) && rows == old(rows)
      ensures !old(results)[id].live && !old(results)[id].buffered ==>
                && row == None && status == old(status)
                && inbox == old(inbox) && results == old(results) && rows == old(rows)
      ensures old(results)[id].live ==>
                && row == (if old(rows) == [] then None else Some(old(rows)[0]))
                && (row.Some? ==> status == Status.UseResult && rows == old(rows)[1..] && results == old(results))
                && (row.None? ==>
                      && status == Ready && inbox == []
                      && results[id] == old(results)[id].(eof := true, live := false))
    {
      var res := results[id];
      if res.buffered {
        if res.data == [] {
          return None;
        }
        results := results[id := res.(data := res.data[1..])];
        return Some(res.data[0]);
      }
      if res.eof {
        return None;
      }
      var outOfStep := status != Status.UseResult;
      if !outOfStep {
        row := ReadOneRow(res.count);
        if row.Some? {
          return;
        }
      }
      error := if !outOfStep then error else if res.cancelled then FetchCanceled else OutOfSync;
      results := results[id := res.(eof := true, live := false)];
      status := Ready;
      if owner == Some(id) {
        owner := None;
      }
      return None;
    }

    /** `read_one_row` on the next packet; `None` for the end of the rows or an error. */
    method ReadOneRow(count: nat) returns (row: Option<Row>)
      requires Pending(count)
      modifies `inbox, `error, `rows
      ensures row == if old(rows) == [] then None else Some(old(rows)[0])
      ensures row.Some? ==> rows == old(rows)[1..] && Pending(count)
      ensures row.None? ==> inbox == []
      ensures error == if row.None? && IsError(last) then ServerError else old(error)
    {
      FirstPacket(rows, count, last);
      var p := SafeRead();
      if p.None? || EndOfRowsUnbuffered(p.value) {
        return None;
      }
      var r := ParseRow(p.value, count, rows[0]);
      rows := rows[1..];
      return Some(r);
    }

    /** `mysql_free_result`: freeing the result being read first reads all that is left of it. */
    method FreeResult(id: ResId)
      requires Valid() && id in results
      modifies this
      ensures Valid() && fields == old(fields) && last == old(last) && nextId == old(nextId)
      ensures results == map i | i in old(results) && i != id :: old(results)[i]
      ensures old(results)[id].live ==> status == Ready && inbox == []
      ensures !old(results)[id].live ==> status == old(status) && inbox == old(inbox)
      ensures !old(results)[id].live ==> rows == old(rows) && owner == old(owner)
      ensures error == if old(results)[id].live && IsError(last) then ServerError else old(error)
    {
      if results[id].live {
        if owner == Some(id) {
          owner := None;
        }
        if status == Status.UseResult {
          Flush(results[id].count);
          status := Ready;
          results := Cancelled(results, owner);
        }
      }
      results := map i | i in results && i != id :: results[i];
    }
  }

  /** The first packet of a reply and what is behind it. */
  lemma ReplyStart(r: Reply)
    requires WellFormed(r)
    ensures Packets(r) != [] && Packets(r)[0] != []
    ensures var p := Packets(r)[0];
            && (p[0] == 255 <==> r.Failed?)
            && (r.Ok? ==> p[0] == 0 && Packets(r)[1..] == [])
            && (r.Failed? ==> Packets(r)[1..] == [])
            && (r.DefsFailed? || r.Result? ==>
                  && Packets(r)[1..] == RowPackets(r.defs) + [DefinitionsEnd(r)] + BehindDefinitions(r)
                  && RowsOk(r.defs, DEFINITION_FIELDS) && (IsEof(DefinitionsEnd(r)) || IsError(DefinitionsEnd(r)))
                  && (IsError(DefinitionsEnd(r)) <==> r.DefsFailed?))
            && (!r.Failed? ==> HeaderLen(p[0]) <= |p|)
            && (r.Ok? ==> FieldLength(p, 0) == Len(0))
            && (r.DefsFailed? || r.Result? ==> FieldLength(p, 0) == Len(r.count) && r.count > 0)
  {
    if r.DefsFailed? || r.Result? {
      var p := LengthCode(r.count);
      assert p[0..0 + |p|] == p;
      HeaderRead(p, 0, r.count);
    }
  }

  /** A result set of one column with the rows "a" and NULL, packet by packet. */
  lemma ReplyBytes(r: Reply, def: Row, eof: Packet)
    requires |def| == 7 && Sendable(def) && eof == [0xfe, 0x00, 0x00, 0x02, 0x00]
    requires r == Result(1, [def], eof, [[Text([0x61])], [Null]], eof)
    ensures WellFormed(r) && Packets(r) == [[1], EncodeRow(def), eof, [1, 0x61], [251], eof]
  {
    TwoRows(r.rows);
    assert LengthCode(1) == [1] && RowPackets(r.defs) == [EncodeRow(def)];
    assert BehindDefinitions(r) == [[1, 0x61], [251]] + [eof];
  }

  lemma TwoRows(rows: seq<Row>)
    requires rows == [[Text([0x61])], [Null]]
    ensures RowPackets(rows) == [[1, 0x61], [251]]
  {
    OneField(Text([0x61]));
    OneField(Null);
    assert LengthCode(1) + [0x61] == [1, 0x61];
  }

  lemma OneField(f: Field)
    ensures EncodeRow([f]) == EncodeField(f)
  {
    assert [f][1..] == [];
  }
}
