/** The session loop: requests against one registry, one backend and the open cursors. */
module SessionLoop {
  import opened Wrappers
  import opened Postgres
  import opened Backend
  import opened CursorRegistry

  // What the session makes of a statement's text and bind values. `converts`
  // says whether every bind value has a PostgreSQL form.
  datatype Plan =
    | Rejected
    | Query(query: Database -> QueryOutcome, converts: bool)
    | Ddl(effect: Database -> Outcome, bindFree: bool, converts: bool)
    | Simple(statement: Statement)

  // `named` is what the frame of a fetch names, if it can be read: a cursor id
  // (0 for the current one) and a row count.
  datatype Request =
    | Execution(frame: Frame, prefetch: nat, plan: string -> Plan)
    | Fetch(named: Option<(nat, nat)>)
    | EndTransaction(commit: bool)
    | Logoff

  datatype Reply =
    | Delivery(id: nat, rows: seq<Row>, more: bool)
    | Completed(count: nat)
    | Failed

  // An open cursor is what is left of its stream.
  datatype SessionView = SessionView(registry: Registry, server: Server, cursors: map<nat, seq<Item>>)

  function Min(a: nat, b: nat): nat {
    if a <= b then a else b
  }

  function FirstBatch(mode: Mode, prefetch: nat): nat {
    if mode.Oci? then 2 else if prefetch == 0 then 100 else Min(prefetch, 50000)
  }

  function FetchBatch(mode: Mode, rows: nat): (n: nat)
    ensures n >= 1
  {
    if rows < 1 then 1 else Min(rows, if mode.Oci? then 500 else 50000)
  }

  function Answer(r: Option<nat>): Reply {
    if r.Some? then Completed(r.value) else Failed
  }

  // The next batch of a cursor, which stays open only while more may come.
  ghost function Delivered(v: SessionView, id: nat, stream: seq<Item>, n: nat): (SessionView, Reply) {
    var p := Pulled(CursorView(stream, false, true), v.server, n);
    (v.(server := p.server,
        cursors := if p.cursor.exhausted then v.cursors - {id} else v.cursors[id := p.cursor.stream]),
     if p.rows.Some? then Delivery(id, p.rows.value, !p.cursor.exhausted) else Failed)
  }

  // A cursor in use may be taken out of the map meanwhile.
  lemma Reinserts(v: SessionView, id: nat, stream: seq<Item>, n: nat)
    ensures Delivered(v.(cursors := v.cursors - {id}), id, stream, n) == Delivered(v, id, stream, n)
  {
    var p := Pulled(CursorView(stream, false, true), v.server, n);
    assert v.cursors - {id} - {id} == v.cursors - {id};
    assert (v.cursors - {id})[id := p.cursor.stream] == v.cursors[id := p.cursor.stream];
  }

  // A query takes the place of the cursor that had its id.
  function Replaced(v: SessionView): SessionView {
    var id := v.registry.cursorId;
    if id in v.cursors then v.(server := Finished(v.server), cursors := v.cursors - {id}) else v
  }

  ghost function Queried(v: SessionView, query: Database -> QueryOutcome, converts: bool, n: nat): (SessionView, Reply) {
    var (s, stream) := OpenNet(Replaced(v).server, query, converts);
    var w := Replaced(v).(server := s);
    if stream.Some? then Delivered(w, v.registry.cursorId, stream.value, n) else (w, Failed)
  }

  ghost function Performed(v: SessionView, plan: Plan, n: nat): (SessionView, Reply) {
    match plan
    case Rejected => (v, Failed)
    case Query(query, converts) => Queried(v, query, converts, n)
    case Ddl(effect, bindFree, converts) =>
      var (s, r) := DdlNet(v.server, effect, bindFree, converts);
      (v.(server := s), Answer(r))
    case Simple(statement) =>
      var (s, r) := SimpleNet(v.server, statement);
      (v.(server := s), Answer(r))
  }

  function FetchId(v: SessionView, named: Option<(nat, nat)>): nat {
    if named.Some? && named.value.0 != 0 then named.value.0 else v.registry.cursorId
  }

  function FetchRows(mode: Mode, named: Option<(nat, nat)>): nat {
    FetchBatch(mode, if named.Some? then named.value.1 else 100)
  }

  ghost function FetchedFrom(mode: Mode, v: SessionView, named: Option<(nat, nat)>): (SessionView, Reply) {
    var id := FetchId(v, named);
    if id in v.cursors then Delivered(v, id, v.cursors[id], FetchRows(mode, named))
    else (v, Delivery(if mode.Oci? then v.registry.cursorId else 0, [], false))
  }

  lemma OneMore<K, V>(m: map<K, V>, id: K, x: V)
    ensures |m[id := x]| == |m - {id}| + 1
    ensures id in m ==> |m - {id}| == |m| - 1
    ensures id !in m ==> m - {id} == m
  {
    OneMoreKey(m, m - {id}, id);
    OneMoreKey(m[id := x], m - {id}, id);
  }

  lemma OneMoreKey<K, V>(m: map<K, V>, less: map<K, V>, id: K)
    requires less.Keys == m.Keys - {id}
    ensures id in m ==> |less| == |m| - 1
  {
    assert |m| == |m.Keys| && |less| == |less.Keys|;
    if id in m {
      assert m.Keys == less.Keys + {id};
    }
  }

  // One release for every cursor still open.
  function FinishedTimes(s: Server, n: nat): Server
    decreases n
  {
    if n == 0 then s else FinishedTimes(Finished(s), n - 1)
  }

  lemma OneFewer(s: Server, n: nat)
    requires n > 0
    ensures FinishedTimes(s, n) == FinishedTimes(Finished(s), n - 1)
  {
  }

  function Drained(v: SessionView): SessionView {
    v.(server := FinishedTimes(v.server, |v.cursors|), cursors := map[])
  }

  function Ended(v: SessionView, commit: bool): (SessionView, Reply) {
    var (s, r) := SimpleNet(Drained(v).server, if commit then CommitText else RollbackText);
    (Drained(v).(server := s), Answer(r))
  }

  function Noted(mode: Mode, v: SessionView, frame: Frame): SessionView {
    v.(registry := CursorRegistry.Step(mode, v.registry, frame))
  }

  // The whole session, one request on.
  ghost function Served(mode: Mode, v: SessionView, request: Request): (SessionView, Reply) {
    match request
    case Execution(frame, prefetch, plan) =>
      (match Resolve(mode, v.registry, frame)
       case None => (v, Failed)
       case Some(p) => Performed(Noted(mode, v, frame), plan(p.sql), FirstBatch(mode, prefetch)))
    case Fetch(named) => FetchedFrom(mode, v, named)
    case EndTransaction(commit) => Ended(v, commit)
    case Logoff => (Drained(v), Completed(0))
  }

  class Session {
    const registry: SessionRegistry
    const backend: PostgresBackend
    var cursors: map<nat, RowCursor>

    constructor (mode: Mode, backend: PostgresBackend)
      ensures Valid() && this.backend == backend && fresh(registry) && registry.mode == mode
      ensures View() == SessionView(Initial(mode), backend.client.server, map[])
    {
      registry := new SessionRegistry(mode);
      this.backend, cursors := backend, map[];
      new;
      assert View().cursors == map[];
    }

    // Every cursor in the map is live, and no two ids share one.
    ghost predicate Valid()
      reads this, cursors.Values
    {
      && (forall id <- cursors :: !cursors[id].exhausted && cursors[id].savepointHeld)
      && (forall i, j | i in cursors && j in cursors && i != j :: cursors[i] != cursors[j])
    }

    ghost function View(): SessionView
      reads this, registry, backend.client, cursors.Values
    {
      SessionView(registry.View(), backend.client.server, map id | id in cursors :: cursors[id].stream)
    }

    // Pulls a batch and keeps the cursor only while it may have more.
    method Deliver(id: nat, cursor: RowCursor, n: nat) returns (reply: Reply)
      requires Valid() && !cursor.exhausted && cursor.savepointHeld
      requires id !in cursors && cursor !in cursors.Values
      modifies this`cursors, cursor, backend.client
      ensures Valid() && cursors.Values <= old(cursors.Values) + {cursor}
      ensures (View(), reply) == Delivered(old(View()), id, old(cursor.stream), n)
    {
      ghost var before := View().cursors;
      var batch := cursor.NextBatch(backend, n);
      assert View().cursors == before == before - {id};
      if batch.None? {
        cursor.Finish(backend);
        assert View().cursors == before;
        reply := Failed;
      } else if cursor.exhausted {
        cursor.Finish(backend);
        assert View().cursors == before;
        reply := Delivery(id, batch.value, false);
      } else {
        Keep(id, cursor);
        reply := Delivery(id, batch.value, true);
      }
    }

    method Keep(id: nat, cursor: RowCursor)
      requires Valid() && !cursor.exhausted && cursor.savepointHeld
      requires id !in cursors && cursor !in cursors.Values
      modifies this`cursors
      ensures Valid() && cursors == old(cursors)[id := cursor]
      ensures View() == old(View()).(cursors := old(View()).cursors[id := cursor.stream])
    {
      ghost var before := View().cursors;
      cursors := cursors[id := cursor];
      assert View().cursors == before[id := cursor.stream];
    }

    method Replace()
      requires Valid()
      modifies this`cursors, cursors.Values, backend.client
      ensures Valid() && cursors.Values <= old(cursors.Values) && registry.cursorId !in cursors
      ensures View() == Replaced(old(View()))
    {
      ghost var v := View();
      var id := registry.cursorId;
      if id in cursors {
        var cursor := cursors[id];
        cursors := cursors - {id};
        cursor.Finish(backend);
        assert View().cursors == v.cursors - {id};
      }
    }

    method Ask(query: Database -> QueryOutcome, converts: bool, n: nat) returns (reply: Reply)
      requires Valid()
      modifies this`cursors, cursors.Values, backend.client
      ensures Valid() && fresh(cursors.Values - old(cursors.Values))
      ensures (View(), reply) == Queried(old(View()), query, converts, n)
    {
      Replace();
      ghost var v := View();
      var cursor := backend.OpenCursor(query, converts);
      assert View() == v.(server := OpenNet(v.server, query, converts).0);
      if cursor.None? {
        return Failed;
      }
      reply := Deliver(registry.cursorId, cursor.value, n);
    }

    method Perform(plan: Plan, n: nat) returns (reply: Reply)
      requires Valid()
      modifies this`cursors, cursors.Values, backend.client
      ensures Valid() && fresh(cursors.Values - old(cursors.Values))
      ensures (View(), reply) == Performed(old(View()), plan, n)
    {
      ghost var v := View();
      match plan
      case Rejected =>
        reply := Failed;
      case Query(query, converts) =>
        reply := Ask(query, converts, n);
      case Ddl(effect, bindFree, converts) =>
        var r := backend.ExecuteDdl(effect, bindFree, converts);
        assert View() == v.(server := DdlNet(v.server, effect, bindFree, converts).0);
        reply := Answer(r);
      case Simple(statement) =>
        var r := backend.ExecuteSimple(statement);
        assert View() == v.(server := SimpleNet(v.server, statement).0);
        reply := Answer(r);
    }

    method FetchNext(named: Option<(nat, nat)>) returns (reply: Reply)
      requires Valid()
      modifies this`cursors, cursors.Values, backend.client
      ensures Valid() && fresh(cursors.Values - old(cursors.Values))
      ensures (View(), reply) == FetchedFrom(registry.mode, old(View()), named)
    {
      var id, rows := registry.cursorId, 100;
      if named.Some? {
        rows := named.value.1;
        if named.value.0 != 0 {
          id := named.value.0;
        }
      }
      if id in cursors {
        ghost var v := View();
        var cursor := cursors[id];
        cursors := cursors - {id};
        assert View() == v.(cursors := v.cursors - {id});
        Reinserts(v, id, cursor.stream, FetchBatch(registry.mode, rows));
        reply := Deliver(id, cursor, FetchBatch(registry.mode, rows));
      } else {
        reply := Delivery(if registry.mode.Oci? then registry.cursorId else 0, [], false);
      }
    }

    method CloseOne()
      requires Valid() && cursors != map[]
      modifies this`cursors, cursors.Values, backend.client
      ensures Valid() && registry.View() == old(registry.View())
      ensures |cursors| == old(|cursors|) - 1 && cursors.Values <= old(cursors.Values)
      ensures FinishedTimes(backend.client.server, |cursors|) == old(FinishedTimes(backend.client.server, |cursors|))
    {
      OneFewer(backend.client.server, |cursors|);
      var id :| id in cursors;
      var cursor := cursors[id];
      ghost var all := cursors;
      cursors := cursors - {id};
      assert cursors.Keys == all.Keys - {id} && |cursors| == |cursors.Keys| && |all| == |all.Keys|;
      cursor.Finish(backend);
    }

    // Releases every cursor, in whatever order the map yields them.
    method Drain()
      requires Valid()
      modifies this`cursors, cursors.Values, backend.client
      ensures Valid() && View() == Drained(old(View())) && cursors == map[]
    {
      ghost var v := View();
      ghost var goal := FinishedTimes(v.server, |v.cursors|);
      assert v.cursors.Keys == cursors.Keys && |v.cursors| == |v.cursors.Keys| && |cursors| == |cursors.Keys|;
      while |cursors| > 0
        invariant Valid() && registry.View() == v.registry && cursors.Values <= old(cursors.Values)
        invariant FinishedTimes(backend.client.server, |cursors|) == goal
        decreases |cursors|
      {
        CloseOne();
      }
      assert View().cursors == map[];
    }

    method End(commit: bool) returns (reply: Reply)
      requires Valid()
      modifies this`cursors, cursors.Values, backend.client
      ensures Valid() && cursors == map[]
      ensures (View(), reply) == Ended(old(View()), commit)
    {
      Drain();
      var r := backend.ExecuteSimple(if commit then CommitText else RollbackText);
      reply := Answer(r);
    }

    method Handle(request: Request) returns (reply: Reply)
      requires Valid()
      modifies this`cursors, cursors.Values, registry, backend.client
      ensures Valid() && fresh(cursors.Values - old(cursors.Values))
      ensures (View(), reply) == Served(registry.mode, old(View()), request)
    {
      ghost var v := View();
      match request
      case Execution(frame, prefetch, plan) =>
        var p := registry.Prepare(frame);
        assert View() == Noted(registry.mode, v, frame);
        if p.None? {
          return Failed;
        }
        reply := Perform(plan(p.value.sql), FirstBatch(registry.mode, prefetch));
      case Fetch(named) =>
        reply := FetchNext(named);
      case EndTransaction(commit) =>
        reply := End(commit);
      case Logoff =>
        Drain();
        reply := Completed(0);
    }
  }
}
