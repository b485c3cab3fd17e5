/**
 Whole runs on one connection. The reference is a client without packets, which holds the rows of every
 result; the client of the module `Client` gives the same answers to any sequence of calls.
 */
module ClientRuns {
  import opened Bytes
  import opened Wrappers
  import opened Rows
  import opened Client

  datatype Call = Query(reply: Reply) | Store | Use | Fetch(id: ResId) | Free(id: ResId)

  /**
   What a program sees of a call. `Accepted` also tells what was unread of earlier replies when the
   command was sent; `Unknown` is for a handle that was freed or never given out, and nothing is done.
   */
  datatype Answer =
    | Refused
    | Accepted(unread: seq<Packet>, failed: bool)
    | NoResult
    | Given(id: ResId)
    | Got(row: Row)
    | NoRow
    | Freed
    | Unknown

  // ----- the reference

  /**
   The result set that was announced and not yet taken, the result that is being read, the rows that
   each result can still give, and the next id.
   */
  datatype View = View(pending: Option<Reply>, live: Option<ResId>, left: map<ResId, seq<Row>>, nextId: ResId)

  const NEW_VIEW := View(None, None, map[], 0)

  ghost predicate ViewOk(v: View) {
    && (v.pending.Some? ==> v.pending.value.Result? && v.live.None?)
    && (v.live.Some? ==> v.live.value in v.left)
    && (forall id :: id in v.left ==> id < v.nextId)
  }

  ghost predicate Idle(v: View) { v.pending.None? && v.live.None? }

  /** The pending result set becomes a result. */
  ghost function Taken(v: View, live: bool): View
    requires ViewOk(v) && v.pending.Some?
  {
    View(None, if live then Some(v.nextId) else None, v.left[v.nextId := v.pending.value.rows], v.nextId + 1)
  }

  ghost function NotLive(v: View, id: ResId): View {
    v.(live := if v.live == Some(id) then None else v.live)
  }

  ghost function Next(v: View, call: Call): View
    requires ViewOk(v)
  {
    match call
    case Query(reply) => if Idle(v) && reply.Result? then v.(pending := Some(reply)) else v
    case Store =>
      if v.pending.None? then v
      else if IsError(v.pending.value.last) then v.(pending := None)
      else Taken(v, false)
    case Use => if v.pending.None? then v else Taken(v, true)
    case Fetch(id) =>
      if id !in v.left then v
      else if v.left[id] == [] then NotLive(v, id)
      else v.(left := v.left[id := v.left[id][1..]])
    case Free(id) =>
      if id !in v.left then v else NotLive(v, id).(left := map i | i in v.left && i != id :: v.left[i])
  }

  ghost function AnswerTo(v: View, call: Call): Answer
    requires ViewOk(v)
  {
    match call
    case Query(reply) => if Idle(v) then Accepted([], reply.Failed? || reply.DefsFailed?) else Refused
    case Store => if v.pending.None? || IsError(v.pending.value.last) then NoResult else Given(v.nextId)
    case Use => if v.pending.None? then NoResult else Given(v.nextId)
    case Fetch(id) => if id !in v.left then Unknown else if v.left[id] == [] then NoRow else Got(v.left[id][0])
    case Free(id) => if id !in v.left then Unknown else Freed
  }

  lemma NextOk(v: View, call: Call)
    requires ViewOk(v)
    ensures ViewOk(Next(v, call)) && Next(v, call).nextId >= v.nextId
  {
  }

  /** The view after a sequence of calls. */
  ghost function After(v: View, calls: seq<Call>): (r: View)
    requires ViewOk(v)
    ensures ViewOk(r) && r.nextId >= v.nextId
  {
    if calls == [] then v
    else
      var u := After(v, calls[..|calls| - 1]);
      NextOk(u, calls[|calls| - 1]);
      Next(u, calls[|calls| - 1])
  }

  // ----- what holds of the reference

  /** The rows that the calls fetch from a result, in order. */
  ghost function Fetched(v: View, calls: seq<Call>, id: ResId): seq<Row>
    requires ViewOk(v)
  {
    if calls == [] then []
    else
      var front, call := calls[..|calls| - 1], calls[|calls| - 1];
      var answer := AnswerTo(After(v, front), call);
      Fetched(v, front, id) + (if call == Fetch(id) && answer.Got? then [answer.row] else [])
  }

  lemma OneCall(v: View, call: Call, id: ResId)
    requires ViewOk(v) && id < v.nextId
    ensures var u := Next(v, call);
            && (id in u.left ==> id in v.left)
            && (id in u.left && call != Fetch(id) ==> u.left[id] == v.left[id])
            && (id in v.left && call == Fetch(id) ==>
                  && id in u.left
                  && v.left[id] == (if AnswerTo(v, call).Got? then [AnswerTo(v, call).row] else []) + u.left[id])
            && (id !in v.left && call == Fetch(id) ==> AnswerTo(v, call) == Unknown)
  {
  }

  lemma MoveOne(front: seq<Row>, got: seq<Row>, rest: seq<Row>, all: seq<Row>)
    requires all == front + (got + rest)
    ensures all == (front + got) + rest && front + got <= all
  {
  }

  /**
   The rows fetched from a result, followed by those that it can still give, are the rows that it had;
   of a freed result a beginning was fetched.
   */
  lemma {:induction false} FetchedInOrder(v: View, calls: seq<Call>, id: ResId)
    requires ViewOk(v) && id in v.left
    ensures Fetched(v, calls, id) <= v.left[id]
    ensures id in After(v, calls).left ==> v.left[id] == Fetched(v, calls, id) + After(v, calls).left[id]
    decreases |calls|
  {
    if calls != [] {
      var front, call := calls[..|calls| - 1], calls[|calls| - 1];
      var u := After(v, front);
      FetchedInOrder(v, front, id);
      OneCall(u, call, id);
      if call == Fetch(id) && id in u.left {
        var got := if AnswerTo(u, call).Got? then [AnswerTo(u, call).row] else [];
        MoveOne(Fetched(v, front, id), got, Next(u, call).left[id], v.left[id]);
      } else {
        assert Fetched(v, calls, id) == Fetched(v, front, id) + [];
      }
    }
  }

  /** When a fetch reports the end, all rows of the reply were fetched, each once and in the order sent. */
  lemma EndMeansAll(v: View, take: Call, calls: seq<Call>, id: ResId)
    requires ViewOk(v) && (take == Store || take == Use) && AnswerTo(v, take) == Given(id)
    requires AnswerTo(After(Next(v, take), calls), Fetch(id)) == NoRow
    ensures v.pending.Some? && Fetched(Next(v, take), calls, id) == v.pending.value.rows
  {
    FetchedInOrder(Next(v, take), calls, id);
  }

  // ----- the client gives the same answers

  /** What a result can still give. */
  ghost function Left(res: Res, rows: seq<Row>): seq<Row> {
    if res.buffered then res.data else if res.live then rows else []
  }

  ghost predicate ShowsResult(results: map<ResId, Res>, rows: seq<Row>, v: View, id: ResId) {
    id in results && id in v.left && v.left[id] == Left(results[id], rows) && (results[id].live <==> v.live == Some(id))
  }

  /** The state of a client looks like the view. */
  ghost predicate Shows(status: Status, results: map<ResId, Res>, rows: seq<Row>, last: Packet, nextId: ResId,
                        v: View)
  {
    && ViewOk(v) && nextId == v.nextId && v.left.Keys == results.Keys
    && (forall id :: id in results ==> ShowsResult(results, rows, v, id))
    && (status == GetResult <==> v.pending.Some?)
    && (status == Status.UseResult <==> v.live.Some?)
    && (v.pending.Some? ==> rows == v.pending.value.rows && last == v.pending.value.last)
  }

  ghost predicate Looks(c: Mysql, v: View)
    reads c
  {
    c.Valid() && Shows(c.status, c.results, c.rows, c.last, c.nextId, v)
  }

  lemma ResultKept(results: map<ResId, Res>, rows: seq<Row>, v: View,
                                      results': map<ResId, Res>, rows': seq<Row>, v': View, id: ResId)
    requires ShowsResult(results, rows, v, id) && id in results' && results'[id] == results[id]
    requires id in v'.left && v'.left[id] == v.left[id] && (v'.live == Some(id) <==> v.live == Some(id))
    requires results[id].live && !results[id].buffered ==> rows' == rows
    ensures ShowsResult(results', rows', v', id)
  {
  }

  lemma QueryShows(results: map<ResId, Res>, rows: seq<Row>, last: Packet, nextId: ResId, v: View,
                                      reply: Reply, rows': seq<Row>, last': Packet)
    requires Shows(Ready, results, rows, last, nextId, v)
    requires reply.Result? ==> rows' == reply.rows && last' == reply.last
    ensures Shows(if reply.Result? then GetResult else Ready, results, rows', last', nextId, Next(v, Query(reply)))
  {
    forall id | id in results ensures ShowsResult(results, rows', Next(v, Query(reply)), id) {
      ResultKept(results, rows, v, results, rows', Next(v, Query(reply)), id);
    }
  }

  lemma TakenShows(results: map<ResId, Res>, rows: seq<Row>, last: Packet, nextId: ResId, v: View, res: Res,
                                      live: bool, rows': seq<Row>, last': Packet)
    requires Shows(GetResult, results, rows, last, nextId, v) && Left(res, rows') == rows && res.live == live
    ensures var id := nextId;
            Shows(if live then Status.UseResult else Ready, results[id := res], rows', last', id + 1, Taken(v, live))
  {
    var results', v' := results[nextId := res], Taken(v, live);
    forall i | i in results' ensures ShowsResult(results', rows', v', i) {
      if i != nextId {
        assert ShowsResult(results, rows, v, i);
        ResultKept(results, rows, v, results', rows', v', i);
      }
    }
  }

  /** An error packet behind the rows of a result set that was to be stored. */
  lemma LostShows(results: map<ResId, Res>, rows: seq<Row>, last: Packet, nextId: ResId, v: View,
                                     rows': seq<Row>, last': Packet)
    requires Shows(GetResult, results, rows, last, nextId, v)
    ensures Shows(Ready, results, rows', last', nextId, v.(pending := None))
  {
    forall i | i in results ensures ShowsResult(results, rows', v.(pending := None), i) {
      ResultKept(results, rows, v, results, rows', v.(pending := None), i);
    }
  }

  ghost predicate OthersKept(results: map<ResId, Res>, rows: seq<Row>, id: ResId,
                             results': map<ResId, Res>, rows': seq<Row>)
  {
    && (forall i :: i in results && i != id ==> i in results' && results'[i] == results[i])
    && (rows' == rows || forall i :: i in results && i != id ==> !results[i].live)
  }

  /** After a fetch the result has one row less left, or had none. */
  lemma FetchShows(status: Status, results: map<ResId, Res>, rows: seq<Row>, last: Packet, nextId: ResId,
                   v: View, id: ResId, status': Status, results': map<ResId, Res>, rows': seq<Row>,
                   last': Packet)
    requires Shows(status, results, rows, last, nextId, v) && id in results && results'.Keys == results.Keys
    requires OthersKept(results, rows, id, results', rows')
    requires var left, left' := Left(results[id], rows), Left(results'[id], rows');
             left' == if left == [] then [] else left[1..]
    requires var ends := results[id].live && Left(results[id], rows) == [];
             && status' == (if ends then Ready else status)
             && results'[id].live == (results[id].live && !ends)
    requires status == GetResult ==> rows' == rows && last' == last
    ensures Shows(status', results', rows', last', nextId, Next(v, Fetch(id)))
  {
    assert ShowsResult(results, rows, v, id);
    var v' := Next(v, Fetch(id));
    forall i | i in results' ensures ShowsResult(results', rows', v', i) {
      if i != id {
        ResultKept(results, rows, v, results', rows', v', i);
      }
    }
  }

  lemma FreeShows(status: Status, results: map<ResId, Res>, rows: seq<Row>, last: Packet, nextId: ResId, v: View,
                  id: ResId, status': Status, results': map<ResId, Res>, rows': seq<Row>, last': Packet)
    requires Shows(status, results, rows, last, nextId, v) && id in results && results'.Keys == results.Keys - {id}
    requires OthersKept(results, rows, id, results', rows')
    requires status' == if results[id].live then Ready else status
    requires status == GetResult ==> rows' == rows && last' == last
    ensures Shows(status', results', rows', last', nextId, Next(v, Free(id)))
  {
    assert ShowsResult(results, rows, v, id);
    var v' := Next(v, Free(id));
    forall i | i in results' ensures ShowsResult(results', rows', v', i) {
      ResultKept(results, rows, v, results', rows', v', i);
    }
  }

  method DoQuery(c: Mysql, reply: Reply, ghost v: View) returns (answer: Answer)
    requires Looks(c, v) && WellFormed(reply)
    modifies c
    ensures Looks(c, Next(v, Query(reply))) && answer == AnswerTo(v, Query(reply))
  {
    ghost var rows, last := c.rows, c.last;
    var ready, unread := c.status == Ready, c.inbox;
    var failed := c.RealQuery(reply);
    if !ready {
      return Refused;
    }
    QueryShows(c.results, rows, last, c.nextId, v, reply, c.rows, c.last);
    return Accepted(unread, failed);
  }

  method DoStore(c: Mysql, ghost v: View) returns (answer: Answer)
    requires Looks(c, v)
    modifies c
    ensures Looks(c, Next(v, Store)) && answer == AnswerTo(v, Store)
  {
    ghost var results, rows, last, id := c.results, c.rows, c.last, c.nextId;
    var res := c.StoreResult();
    if res.Some? {
      TakenShows(results, rows, last, id, v, c.results[id], false, c.rows, c.last);
      return Given(res.value);
    }
    if v.pending.Some? {
      LostShows(results, rows, last, id, v, c.rows, c.last);
    }
    return NoResult;
  }

  method DoUse(c: Mysql, ghost v: View) returns (answer: Answer)
    requires Looks(c, v)
    modifies c
    ensures Looks(c, Next(v, Use)) && answer == AnswerTo(v, Use)
  {
    ghost var results, rows, last, id := c.results, c.rows, c.last, c.nextId;
    var res := c.UseResult();
    if res.Some? {
      TakenShows(results, rows, last, id, v, c.results[id], true, c.rows, c.last);
      return Given(res.value);
    }
    return NoResult;
  }

  /** `FetchRow`, in terms of what is left of the result. */
  method FetchOne(c: Mysql, id: ResId) returns (row: Option<Row>)
    requires c.Valid() && id in c.results
    modifies c
    ensures c.Valid() && c.nextId == old(c.nextId) && id in c.results && c.results.Keys == old(c.results.Keys)
    ensures OthersKept(old(c.results), old(c.rows), id, c.results, c.rows)
    ensures var left, left' := Left(old(c.results)[id], old(c.rows)), Left(c.results[id], c.rows);
            if row.Some? then left == [row.value] + left' else left == [] && left' == []
    ensures c.results[id].buffered == old(c.results)[id].buffered
    ensures c.results[id].buffered ==> c.status == old(c.status) && c.inbox == old(c.inbox) && c.rows == old(c.rows)
    ensures c.results[id].live == (old(c.results)[id].live && row.Some?)
    ensures c.status == if old(c.results)[id].live && row.None? then Ready else old(c.status)
    ensures old(c.results)[id].live && row.None? ==> c.inbox == []
    ensures old(c.status) == GetResult ==> c.rows == old(c.rows) && c.last == old(c.last)
  {
    row := c.FetchRow(id);
  }

  method DoFetch(c: Mysql, id: ResId, ghost v: View) returns (answer: Answer)
    requires Looks(c, v) && id in c.results
    modifies c
    ensures Looks(c, Next(v, Fetch(id))) && answer == AnswerTo(v, Fetch(id))
  {
    ghost var status, results, rows, last := c.status, c.results, c.rows, c.last;
    assert ShowsResult(results, rows, v, id);
    var row := FetchOne(c, id);
    FetchShows(status, results, rows, last, c.nextId, v, id, c.status, c.results, c.rows, c.last);
    return if row.Some? then Got(row.value) else NoRow;
  }

  method DoFree(c: Mysql, id: ResId, ghost v: View) returns (answer: Answer)
    requires Looks(c, v) && id in c.results
    modifies c
    ensures Looks(c, Next(v, Free(id))) && answer == AnswerTo(v, Free(id))
  {
    ghost var status, results, rows, last := c.status, c.results, c.rows, c.last;
    assert ShowsResult(results, rows, v, id);
    c.FreeResult(id);
    FreeShows(status, results, rows, last, c.nextId, v, id, c.status, c.results, c.rows, c.last);
    return Freed;
  }

  method Do(c: Mysql, call: Call, ghost v: View) returns (answer: Answer)
    requires Looks(c, v) && (call.Query? ==> WellFormed(call.reply))
    modifies c
    ensures Looks(c, Next(v, call)) && answer == AnswerTo(v, call)
  {
    match call {
      case Query(reply) => answer := DoQuery(c, reply, v);
      case Store => answer := DoStore(c, v);
      case Use => answer := DoUse(c, v);
      case Fetch(id) => if id in c.results { answer := DoFetch(c, id, v); } else { answer := Unknown; }
      case Free(id) => if id in c.results { answer := DoFree(c, id, v); } else { answer := Unknown; }
    }
  }

  /** The answers of the reference to a sequence of calls on a new connection. */
  ghost function Answers(calls: seq<Call>): (r: seq<Answer>)
    ensures |r| == |calls|
  {
    if calls == [] then []
    else
      var front := calls[..|calls| - 1];
      Answers(front) + [AnswerTo(After(NEW_VIEW, front), calls[|calls| - 1])]
  }

  lemma OneMore(calls: seq<Call>, k: nat)
    requires k < |calls|
    ensures Answers(calls[..k + 1]) == Answers(calls[..k]) + [AnswerTo(After(NEW_VIEW, calls[..k]), calls[k])]
    ensures After(NEW_VIEW, calls[..k + 1]) == Next(After(NEW_VIEW, calls[..k]), calls[k])
  {
    assert calls[..k + 1][..k] == calls[..k];
  }

  method Start() returns (c: Mysql)
    ensures fresh(c) && Looks(c, NEW_VIEW)
  {
    c := new Mysql();
  }

  /**
   Any sequence of calls on a new connection. At its end, and so after every call, the connection is in
   step, and all answers are those of the reference: in particular an accepted command found nothing unread.
   */
  method Run(calls: seq<Call>) returns (c: Mysql, answers: seq<Answer>)
    requires forall k :: 0 <= k < |calls| && calls[k].Query? ==> WellFormed(calls[k].reply)
    ensures answers == Answers(calls) && Looks(c, After(NEW_VIEW, calls)) && InStep(c)
  {
    c := Start();
    answers := [];
    for k := 0 to |calls|
      invariant fresh(c) && answers == Answers(calls[..k]) && Looks(c, After(NEW_VIEW, calls[..k]))
    {
      OneMore(calls, k);
      var answer := Do(c, calls[k], After(NEW_VIEW, calls[..k]));
      answers := answers + [answer];
    }
    assert calls[..|calls|] == calls;
    ValidInStep(c);
  }

  /** Nothing is unread while the status is READY; a result is live exactly while it is USE_RESULT, and only one is. */
  ghost predicate InStep(c: Mysql)
    reads c
  {
    && (c.status == Ready ==> c.inbox == [])
    && (c.status == Status.UseResult <==> exists id :: id in c.results && c.results[id].live)
    && (forall i, j :: i in c.results && j in c.results && c.results[i].live && c.results[j].live ==> i == j)
  }

  lemma ValidInStep(c: Mysql)
    requires c.Valid()
    ensures InStep(c)
  {
  }

  // ----- storing against using

  method Open(c: Mysql, buffered: bool) returns (res: Option<ResId>)
    requires c.Valid() && c.status == GetResult
    modifies c
    ensures c.Valid()
    ensures res.None? <==> buffered && IsError(old(c.last))
    ensures res.None? ==> c.status == Ready && c.inbox == []
    ensures res.Some? ==>
              && res.value in c.results && c.results[res.value].buffered == buffered
              && Left(c.results[res.value], c.rows) == old(c.rows)
              && (if buffered then c.status == Ready && c.inbox == [] else c.results[res.value].live)
  {
    if buffered {
      res := c.StoreResult();
    } else {
      res := c.UseResult();
    }
  }

  /** A result of either kind, fetched to its end, gives the rows of the reply and frees the connection. */
  method FetchAll(c: Mysql, buffered: bool) returns (got: seq<Row>, res: Option<ResId>)
    requires c.Valid() && c.status == GetResult
    modifies c
    ensures c.Valid() && c.status == Ready && c.inbox == []
    ensures res.None? <==> buffered && IsError(old(c.last))
    ensures res.Some? ==> got == old(c.rows)
  {
    got := [];
    res := Open(c, buffered);
    if res.None? {
      return;
    }
    ghost var sent := old(c.rows);
    while true
      invariant c.Valid() && res.value in c.results && sent == got + Left(c.results[res.value], c.rows)
      invariant c.results[res.value].buffered == buffered
      invariant if buffered then c.status == Ready && c.inbox == [] else c.results[res.value].live
      decreases |Left(c.results[res.value], c.rows)|
    {
      var row := FetchOne(c, res.value);
      if row.None? {
        return;
      }
      got := got + [row.value];
    }
  }
}
