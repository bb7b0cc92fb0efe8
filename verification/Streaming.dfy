/** Streaming: the rows of a result reach the client once, in order, in batches. */
module Streaming {
  import opened Wrappers
  import opened Postgres
  import opened Backend
  import opened CursorRegistry
  import opened SessionLoop
  import opened SavepointAccounting

  // ---- One cursor among other requests ---------------------------------------

  // How many rows of cursor `id` a request asks for.
  function AskedOf(mode: Mode, v: SessionView, request: Request, id: nat): nat {
    if request.Fetch? && FetchId(v, request.named) == id then FetchRows(mode, request.named) else 0
  }

  ghost function AskedInAll(mode: Mode, v: SessionView, requests: seq<Request>, id: nat): nat
    decreases |requests|
  {
    if requests == [] then 0
    else AskedOf(mode, v, requests[0], id) + AskedInAll(mode, Served(mode, v, requests[0]).0, requests[1..], id)
  }

  // The rows handed out for cursor `id` by the replies to a run of requests.
  ghost function Handed(mode: Mode, v: SessionView, requests: seq<Request>, id: nat): seq<Row>
    decreases |requests|
  {
    if requests == [] then []
    else
      var (w, reply) := Served(mode, v, requests[0]);
      (if AskedOf(mode, v, requests[0], id) > 0 && reply.Delivery? then reply.rows else [])
      + Handed(mode, w, requests[1..], id)
  }

  // A request that neither takes over the id nor closes every cursor.
  predicate LeavesAlone(mode: Mode, v: SessionView, request: Request, id: nat) {
    match request
    case Execution(frame, _, plan) =>
      (match Resolve(mode, v.registry, frame)
       case None => true
       case Some(p) => plan(p.sql).Query? ==> Noted(mode, v, frame).registry.cursorId != id)
    case Fetch(_) => true
    case EndTransaction(_) => false
    case Logoff => false
  }

  ghost predicate AllLeaveAlone(mode: Mode, v: SessionView, requests: seq<Request>, id: nat)
    decreases |requests|
  {
    requests == []
    || (LeavesAlone(mode, v, requests[0], id) && AllLeaveAlone(mode, Served(mode, v, requests[0]).0, requests[1..], id))
  }

  predicate SameCursor(v: SessionView, w: SessionView, id: nat) {
    (id in v.cursors <==> id in w.cursors) && (id in v.cursors ==> v.cursors[id] == w.cursors[id])
  }

  lemma OthersLeaveCursor(mode: Mode, v: SessionView, request: Request, id: nat)
    requires LeavesAlone(mode, v, request, id) && AskedOf(mode, v, request, id) == 0
    ensures SameCursor(v, Served(mode, v, request).0, id)
  {
  }

  lemma {:induction false} ClosedStaysClosed(mode: Mode, v: SessionView, requests: seq<Request>, id: nat)
    requires id !in v.cursors && AllLeaveAlone(mode, v, requests, id)
    ensures Handed(mode, v, requests, id) == [] && id !in After(mode, v, requests).cursors
    decreases |requests|
  {
    if requests != [] {
      if AskedOf(mode, v, requests[0], id) == 0 {
        OthersLeaveCursor(mode, v, requests[0], id);
      }
      ClosedStaysClosed(mode, Served(mode, v, requests[0]).0, requests[1..], id);
    }
  }

  lemma RowsHaveSlices(stream: seq<Item>, total: nat)
    requires total <= |stream|
    ensures Rows(stream[..total]) == Rows(stream)[..total]
    ensures Rows(stream[total..]) == Rows(stream)[total..]
  {
  }

  // Where a cursor that held `stream` stands once `total` rows have been asked
  // of it and `handed` came out: as long as no more has been asked for than
  // arrives intact, exactly that much has been handed out and the cursor stands
  // after it; once more is asked for the cursor is closed, and if the stream
  // never broke every row has been handed out, once, in order.
  ghost predicate OnTrack(stream: seq<Item>, total: nat, handed: seq<Row>, cursors: map<nat, seq<Item>>, id: nat) {
    && (id in cursors <==> total <= Lead(stream))
    && (total <= Lead(stream) ==> cursors[id] == stream[total..] && handed == Rows(stream)[..total])
    && (total > Lead(stream) == |stream| ==> handed == Rows(stream))
  }

  lemma BatchThenRest(stream: seq<Item>, n: nat, more: nat, handed: seq<Row>, cursors: map<nat, seq<Item>>, id: nat)
    requires n <= Lead(stream) && OnTrack(stream[n..], more, handed, cursors, id)
    ensures OnTrack(stream, n + more, Rows(stream[..n]) + handed, cursors, id)
  {
    LeadFrom(stream, n);
    RowsHaveSlices(stream, n);
    assert Rows(stream)[..n] + Rows(stream)[n..] == Rows(stream);
    if more <= Lead(stream[n..]) {
      assert stream[n..][more..] == stream[n + more..];
      assert Rows(stream)[..n] + Rows(stream)[n..][..more] == Rows(stream)[..n + more];
    }
  }

  // A fetch that the stream can fill.
  lemma FullBatch(mode: Mode, v: SessionView, request: Request, id: nat, n: nat)
    requires id in v.cursors && 0 < n == AskedOf(mode, v, request, id) <= Lead(v.cursors[id])
    ensures var (w, reply) := Served(mode, v, request);
      && id in w.cursors && w.cursors[id] == v.cursors[id][n..]
      && reply == Delivery(id, Rows(v.cursors[id][..n]), true)
  {
  }

  // One that it cannot.
  lemma LastBatch(mode: Mode, v: SessionView, request: Request, id: nat)
    requires id in v.cursors && AskedOf(mode, v, request, id) > Lead(v.cursors[id])
    ensures var (w, reply) := Served(mode, v, request);
      && id !in w.cursors
      && (Lead(v.cursors[id]) == |v.cursors[id]| ==> reply == Delivery(id, Rows(v.cursors[id]), false))
  {
  }

  lemma HandedFullBatch(mode: Mode, v: SessionView, requests: seq<Request>, id: nat, n: nat)
    requires requests != [] && id in v.cursors && 0 < n == AskedOf(mode, v, requests[0], id) <= Lead(v.cursors[id])
    ensures var w, rest := Served(mode, v, requests[0]).0, requests[1..];
      && AskedInAll(mode, v, requests, id) == n + AskedInAll(mode, w, rest, id)
      && Handed(mode, v, requests, id) == Rows(v.cursors[id][..n]) + Handed(mode, w, rest, id)
      && After(mode, v, requests) == After(mode, w, rest)
  {
    FullBatch(mode, v, requests[0], id, n);
  }

  lemma RestIsOnTrack(mode: Mode, v: SessionView, requests: seq<Request>, id: nat, n: nat)
    requires requests != [] && id in v.cursors && 0 < n == AskedOf(mode, v, requests[0], id) <= Lead(v.cursors[id])
    requires var w, rest := Served(mode, v, requests[0]).0, requests[1..];
      OnTrack(v.cursors[id][n..], AskedInAll(mode, w, rest, id), Handed(mode, w, rest, id), After(mode, w, rest).cursors, id)
    ensures OnTrack(v.cursors[id], AskedInAll(mode, v, requests, id), Handed(mode, v, requests, id),
                    After(mode, v, requests).cursors, id)
  {
    var w, rest := Served(mode, v, requests[0]).0, requests[1..];
    HandedFullBatch(mode, v, requests, id, n);
    BatchThenRest(v.cursors[id], n, AskedInAll(mode, w, rest, id), Handed(mode, w, rest, id), After(mode, w, rest).cursors, id);
  }

  lemma ClosingIsOnTrack(mode: Mode, v: SessionView, requests: seq<Request>, id: nat)
    requires requests != [] && id in v.cursors && AllLeaveAlone(mode, v, requests, id)
    requires AskedOf(mode, v, requests[0], id) > Lead(v.cursors[id])
    ensures OnTrack(v.cursors[id], AskedInAll(mode, v, requests, id), Handed(mode, v, requests, id),
                    After(mode, v, requests).cursors, id)
  {
    LastBatch(mode, v, requests[0], id);
    ClosedStaysClosed(mode, Served(mode, v, requests[0]).0, requests[1..], id);
  }

  // Whatever else the session does meanwhile.
  lemma {:induction false} RowsArriveOnce(mode: Mode, v: SessionView, requests: seq<Request>, id: nat)
    requires id in v.cursors && AllLeaveAlone(mode, v, requests, id)
    ensures OnTrack(v.cursors[id], AskedInAll(mode, v, requests, id), Handed(mode, v, requests, id),
                    After(mode, v, requests).cursors, id)
    decreases |requests|
  {
    if requests == [] {
      assert v.cursors[id][0..] == v.cursors[id];
    } else {
      var w, n := Served(mode, v, requests[0]).0, AskedOf(mode, v, requests[0], id);
      if n == 0 {
        OthersLeaveCursor(mode, v, requests[0], id);
        RowsArriveOnce(mode, w, requests[1..], id);
        assert Handed(mode, v, requests, id) == [] + Handed(mode, w, requests[1..], id);
      } else if n <= Lead(v.cursors[id]) {
        FullBatch(mode, v, requests[0], id, n);
        RowsArriveOnce(mode, w, requests[1..], id);
        RestIsOnTrack(mode, v, requests, id, n);
      } else {
        ClosingIsOnTrack(mode, v, requests, id);
      }
    }
  }

  lemma QueryDelivers(v: SessionView, query: Database -> QueryOutcome, n: nat, w: SessionView, outcome: QueryOutcome)
    requires v.server.status.Active? && Accounted(v) && w == Replaced(v)
    requires outcome == query(v.server.working) && outcome.Opened?
    ensures Queried(v, query, true, n) ==
      Delivered(w.(server := Pushed(w.server, WRAPPER).(working := outcome.db)), v.registry.cursorId, outcome.stream, n)
  {
    ReplacementBalances(v);
  }

  lemma FirstBatchArrives(v: SessionView, query: Database -> QueryOutcome, n: nat, stream: seq<Item>)
    requires v.server.status.Active? && Accounted(v) && query(v.server.working).Opened?
    requires stream == query(v.server.working).stream
    ensures var (w, reply) := Queried(v, query, true, n);
      var id := v.registry.cursorId;
      && (n <= Lead(stream) ==>
            id in w.cursors && w.cursors[id] == stream[n..] && reply == Delivery(id, Rows(stream[..n]), true))
      && (n > Lead(stream) ==> id !in w.cursors)
      && (n > Lead(stream) == |stream| ==> reply == Delivery(id, Rows(stream), false))
  {
    QueryDelivers(v, query, n, Replaced(v), query(v.server.working));
  }

  // The same counted from the query on: its first batch and every fetch since
  // make up the result, in order, and the cursor is open while no more has been
  // asked for than arrives.
  lemma ResultArrivesOnce(mode: Mode, v: SessionView, query: Database -> QueryOutcome, n: nat, requests: seq<Request>)
    requires v.server.status.Active? && Accounted(v) && query(v.server.working).Opened?
    requires AllLeaveAlone(mode, Queried(v, query, true, n).0, requests, v.registry.cursorId)
    ensures var (w, reply) := Queried(v, query, true, n);
      var id, stream := v.registry.cursorId, query(v.server.working).stream;
      OnTrack(stream, n + AskedInAll(mode, w, requests, id),
              (if reply.Delivery? then reply.rows else []) + Handed(mode, w, requests, id),
              After(mode, w, requests).cursors, id)
  {
    var (w, reply) := Queried(v, query, true, n);
    var id, stream := v.registry.cursorId, query(v.server.working).stream;
    FirstBatchArrives(v, query, n, stream);
    if n <= Lead(stream) {
      RowsArriveOnce(mode, w, requests, id);
      BatchThenRest(stream, n, AskedInAll(mode, w, requests, id), Handed(mode, w, requests, id),
        After(mode, w, requests).cursors, id);
    } else {
      ClosedStaysClosed(mode, w, requests, id);
    }
  }

  // ---- How many rows a reply holds ------------------------------------------------

  // `n` rows and more to come, or what is left; a stream that breaks off before
  // fails. The cursor stands after what was delivered, or is gone.
  ghost predicate Delivers(n: nat, stream: seq<Item>, id: nat, cursors: map<nat, seq<Item>>, reply: Reply) {
    if n <= Lead(stream) then
      reply == Delivery(id, Rows(stream[..n]), true) && id in cursors && cursors[id] == stream[n..]
    else if Lead(stream) == |stream| then
      reply == Delivery(id, Rows(stream), false) && id !in cursors
    else
      reply == Failed && id !in cursors
  }

  // The first batch of a query: two rows for OCI, otherwise as many as the
  // client asked to prefetch, 100 if it did not say, and 50000 at most.
  lemma FirstBatchSize(mode: Mode, v: SessionView, frame: Frame, prefetch: nat, plan: string -> Plan,
    query: Database -> QueryOutcome, p: Prepared)
    requires v.server.status.Active? && Accounted(v) && Resolve(mode, v.registry, frame) == Some(p)
    requires plan(p.sql) == Query(query, true) && query(v.server.working).Opened?
    ensures var (w, reply) := Served(mode, v, Execution(frame, prefetch, plan));
      var stream, id := query(v.server.working).stream, w.registry.cursorId;
      && (mode.Oci? ==> Delivers(2, stream, id, w.cursors, reply))
      && (!mode.Oci? && prefetch == 0 ==> Delivers(100, stream, id, w.cursors, reply))
      && (!mode.Oci? && 1 <= prefetch <= 50000 ==> Delivers(prefetch, stream, id, w.cursors, reply))
      && (!mode.Oci? && prefetch > 50000 ==> Delivers(50000, stream, id, w.cursors, reply))
  {
    var noted := Noted(mode, v, frame);
    FirstBatchDelivers(noted, query, FirstBatch(mode, prefetch), query(v.server.working).stream);
  }

  lemma FirstBatchDelivers(v: SessionView, query: Database -> QueryOutcome, n: nat, stream: seq<Item>)
    requires v.server.status.Active? && Accounted(v) && query(v.server.working).Opened?
    requires stream == query(v.server.working).stream
    ensures var (w, reply) := Queried(v, query, true, n);
      w.registry == v.registry && Delivers(n, stream, v.registry.cursorId, w.cursors, reply)
  {
    QueryDelivers(v, query, n, Replaced(v), query(v.server.working));
  }

  // A fetch of a cursor by its id, or of the current one by id 0 or a request
  // that cannot be read: the rows asked for, at least one, at most 500 for OCI
  // and 50000 otherwise, and 100 if they cannot be read.
  lemma FetchSize(mode: Mode, v: SessionView, id: nat, rows: nat, named: nat)
    requires id == (if named == 0 then v.registry.cursorId else named) && id in v.cursors
    ensures var (w, reply) := Served(mode, v, Fetch(Some((named, rows))));
      var stream, most := v.cursors[id], if mode.Oci? then 500 else 50000;
      && (rows == 0 ==> Delivers(1, stream, id, w.cursors, reply))
      && (1 <= rows <= most ==> Delivers(rows, stream, id, w.cursors, reply))
      && (rows > most ==> Delivers(most, stream, id, w.cursors, reply))
    ensures var (w, reply) := Served(mode, v, Fetch(None));
      named == 0 ==> Delivers(100, v.cursors[id], id, w.cursors, reply)
  {
  }

  // A fetch of a cursor that is not open finds no rows and changes nothing.
  lemma ClosedFetch(mode: Mode, v: SessionView, named: Option<(nat, nat)>)
    requires (if named.Some? && named.value.0 != 0 then named.value.0 else v.registry.cursorId) !in v.cursors
    ensures Served(mode, v, Fetch(named)) == (v, Delivery(if mode.Oci? then v.registry.cursorId else 0, [], false))
  {
  }

  // ---- The MariaDB cursor --------------------------------------------------------

  // A buffered result, handed out from `offset` on.
  class MariaDbCursor {
    const rows: seq<Row>
    var offset: nat

    ghost predicate Valid()
      reads this
    {
      offset <= |rows|
    }

    ghost function Left(): seq<Row>
      requires Valid()
      reads this
    {
      rows[offset..]
    }

    constructor (rows: seq<Row>)
      ensures Valid() && Left() == rows
    {
      this.rows, offset := rows, 0;
    }

    predicate IsExhausted()
      requires Valid()
      reads this
      ensures IsExhausted() <==> Left() == []
    {
      offset >= |rows|
    }

    method NextBatch(n: nat) returns (batch: seq<Row>)
      requires Valid()
      modifies this
      ensures Valid() && (batch, Left()) == TakeRows(old(Left()), n)
    {
      var end := Min(offset + n, |rows|);
      batch := rows[offset..end];
      assert rows[offset..][..end - offset] == batch && rows[offset..][end - offset..] == rows[end..];
      offset := end;
    }

    method Finish()
      requires Valid()
      modifies this
      ensures Valid() && IsExhausted()
    {
      offset := |rows|;
    }
  }

  function TakeRows(left: seq<Row>, n: nat): (seq<Row>, seq<Row>) {
    (left[..Min(n, |left|)], left[Min(n, |left|)..])
  }

  // ---- The two cursors side by side ------------------------------------------------

  // The batches either cursor yields for batch sizes `sizes`, up to the one that
  // says there is no more.
  ghost function PostgresBatches(stream: seq<Item>, s: Server, sizes: seq<nat>): seq<Option<seq<Row>>>
    decreases |sizes|
  {
    if sizes == [] then []
    else
      var p := Pulled(CursorView(stream, false, true), s, sizes[0]);
      [p.rows] + if p.cursor.exhausted then [] else PostgresBatches(p.cursor.stream, p.server, sizes[1..])
  }

  function MariaDbBatches(left: seq<Row>, sizes: seq<nat>): seq<Option<seq<Row>>>
    decreases |sizes|
  {
    if sizes == [] then []
    else
      var (batch, rest) := TakeRows(left, sizes[0]);
      [Some(batch)] + if rest == [] then [] else MariaDbBatches(rest, sizes[1..])
  }

  function Sum(sizes: seq<nat>): nat {
    if sizes == [] then 0 else sizes[0] + Sum(sizes[1..])
  }

  function Joined(batches: seq<Option<seq<Row>>>): seq<Row> {
    if batches == [] then []
    else (if batches[0].Some? then batches[0].value else []) + Joined(batches[1..])
  }

  // The sizes add up to `n` exactly, and one more batch is asked for after that.
  predicate StopsShort(sizes: seq<nat>, n: nat) {
    |sizes| >= 2 && (sizes[0] == n || (sizes[0] < n && StopsShort(sizes[1..], n - sizes[0])))
  }

  // MariaDB's batches join up to as many rows as were asked for.
  lemma {:induction false} MariaDbBatchesJoin(left: seq<Row>, sizes: seq<nat>)
    ensures Joined(MariaDbBatches(left, sizes)) == left[..Min(Sum(sizes), |left|)]
    decreases |sizes|
  {
    if sizes != [] {
      var n := Min(sizes[0], |left|);
      var batches := MariaDbBatches(left, sizes);
      if left[n..] == [] {
        assert batches[1..] == [];
      } else {
        assert batches[1..] == MariaDbBatches(left[n..], sizes[1..]);
        MariaDbBatchesJoin(left[n..], sizes[1..]);
        assert left[..n] + left[n..][..Min(Sum(sizes[1..]), |left| - n)] == left[..Min(Sum(sizes), |left|)];
      }
    }
  }

  // On a stream that does not break, PostgreSQL yields the same batches as
  // MariaDB, and one empty batch more exactly if the sizes first add up to all
  // of the rows.
  lemma {:induction false} CursorsAgree(stream: seq<Item>, s: Server, sizes: seq<nat>)
    requires Lead(stream) == |stream| && forall i | 0 <= i < |sizes| :: sizes[i] > 0
    ensures PostgresBatches(stream, s, sizes) ==
      MariaDbBatches(Rows(stream), sizes) + if StopsShort(sizes, |stream|) then [Some([])] else []
    decreases |sizes|
  {
    if sizes != [] {
      var n, rest := sizes[0], sizes[1..];
      if n < |stream| {
        LeadFrom(stream, n);
        RowsHaveSlices(stream, n);
        CursorsAgree(stream[n..], s, rest);
        var first := [Some(Rows(stream[..n]))];
        var extra := if StopsShort(rest, |stream| - n) then [Some([])] else [];
        assert PostgresBatches(stream, s, sizes) == first + PostgresBatches(stream[n..], s, rest);
        assert MariaDbBatches(Rows(stream), sizes) == first + MariaDbBatches(Rows(stream[n..]), rest);
        assert first + (MariaDbBatches(Rows(stream[n..]), rest) + extra) == first + MariaDbBatches(Rows(stream[n..]), rest) + extra;
      } else {
        assert Rows(stream)[..|stream|] == Rows(stream) && Rows(stream)[|stream|..] == [];
        if n == |stream| {
          assert stream[n..] == [] && stream[..n] == stream;
          EmptyBatch(s, rest);
        }
      }
    }
  }

  // The one fetch after the last row finds nothing.
  lemma EmptyBatch(s: Server, sizes: seq<nat>)
    requires forall i | 0 <= i < |sizes| :: sizes[i] > 0
    ensures PostgresBatches([], s, sizes) == if sizes == [] then [] else [Some([])]
  {
    if sizes != [] {
      assert Lead([]) == 0;
      assert Rows([]) == [];
    }
  }
}
