/** What a client savepoint outlasts on the server. */
module SavepointSurvival {
  import opened Wrappers
  import opened Postgres
  import opened Backend
  import opened CursorRegistry
  import opened SessionLoop
  import opened SavepointAccounting

  // ---- The savepoint on the stack ---------------------------------------------------

  // There is a wrapper above `base` for each of `n` cursors. Without one the
  // release of a cursor would look for a wrapper within `base`.
  predicate Guarded(base: seq<Savepoint>, stack: seq<Savepoint>, n: nat) {
    Wrapping(base) == 0 || Wrapping(stack) >= Wrapping(base) + n
  }

  // The stack still starts with `base`, whose last savepoint has not been set
  // again since. The transaction is open, if maybe aborted.
  predicate HeldBy(s: Server, base: seq<Savepoint>, n: nat) {
    && !s.status.Idle? && base != [] && base <= s.stack
    && Innermost(s.stack, base[|base| - 1].name) == |base| - 1
    && Guarded(base, s.stack, n)
  }

  predicate Held(v: SessionView, base: seq<Savepoint>) {
    HeldBy(v.server, base, |v.cursors|)
  }

  // A cut that leaves the savepoint, and the wrappers it needs above it.
  predicate CutsAbove(v: SessionView, base: seq<Savepoint>, m: nat)
    requires m <= |v.server.stack|
  {
    m >= |base| && Guarded(base, v.server.stack[..m], |v.cursors|)
  }

  // Neither ends the transaction, nor sets the savepoint again, nor cuts at or
  // beneath it; whatever fails has no effect.
  predicate Spares(v: SessionView, base: seq<Savepoint>, plan: Plan)
    requires base != []
  {
    match plan
    case Rejected => true
    case Query(_, _) => true
    case Ddl(_, _, _) => false
    case Simple(statement) =>
      match statement
      case CommitText => false
      case RollbackText => false
      case BeginText => true
      case SavepointText(name) => v.server.status.Active? ==> name != base[|base| - 1].name
      case ReleaseText(name) =>
        var k := Innermost(v.server.stack, name);
        v.server.status.Active? && k >= 0 ==> CutsAbove(v, base, k)
      case RollbackToText(name) =>
        var k := Innermost(v.server.stack, name);
        k >= 0 ==> CutsAbove(v, base, k + 1)
      case Dml(_, _) => true
  }

  predicate SparesRequest(mode: Mode, v: SessionView, base: seq<Savepoint>, request: Request)
    requires base != []
  {
    match request
    case Execution(frame, _, plan) =>
      (match Resolve(mode, v.registry, frame)
       case None => true
       case Some(p) => Spares(Noted(mode, v, frame), base, plan(p.sql)))
    case Fetch(_) => true
    case EndTransaction(_) => false
    case Logoff => true
  }

  ghost predicate SparesRun(mode: Mode, v: SessionView, base: seq<Savepoint>, requests: seq<Request>)
    requires base != []
    decreases |requests|
  {
    requests == []
    || (SparesRequest(mode, v, base, requests[0]) && SparesRun(mode, Served(mode, v, requests[0]).0, base, requests[1..]))
  }

  ghost predicate HeldThroughout(mode: Mode, v: SessionView, base: seq<Savepoint>, requests: seq<Request>)
    decreases |requests|
  {
    Held(v, base) && (requests == [] || HeldThroughout(mode, Served(mode, v, requests[0]).0, base, requests[1..]))
  }

  // ---- Cuts and pushes ----------------------------------------------------------------

  lemma CutHolds(stack: seq<Savepoint>, base: seq<Savepoint>, m: nat)
    requires base != [] && base <= stack && m <= |stack|
    requires Innermost(stack, base[|base| - 1].name) == |base| - 1
    ensures base <= stack[..m] && Innermost(stack[..m], base[|base| - 1].name) == |base| - 1 <==> m >= |base|
  {
    if m >= |base| {
      InnermostBelow(stack, base[|base| - 1].name, m);
      assert stack[..m][..|base|] == stack[..|base|];
    }
  }

  // The wrapper that a cursor's end looks for is above the savepoint.
  lemma WrapperIsAbove(stack: seq<Savepoint>, base: seq<Savepoint>, n: nat)
    requires base <= stack && Guarded(base, stack, n) && n > 0
    ensures var k := Innermost(stack, WRAPPER); k < 0 || k >= |base|
  {
    var k := Innermost(stack, WRAPPER);
    assert stack[..|base|] == base;
    CutLosesWrappers(stack, |base|);
    CutAtInnermost(stack);
  }

  lemma OneLessGuarded(stack: seq<Savepoint>, base: seq<Savepoint>, n: nat)
    requires base <= stack && Guarded(base, stack, n) && n > 0 && Innermost(stack, WRAPPER) >= 0
    ensures Guarded(base, stack[..Innermost(stack, WRAPPER)], n - 1)
  {
    CutAtInnermost(stack);
  }

  lemma ReleaseHolds(s: Server, base: seq<Savepoint>, n: nat)
    requires HeldBy(s, base, n) && n > 0
    ensures HeldBy(Finished(s), base, n - 1) && Finished(s).committed == s.committed
  {
    var k := Innermost(s.stack, WRAPPER);
    if s.status.Active? && k >= 0 {
      WrapperIsAbove(s.stack, base, n);
      OneLessGuarded(s.stack, base, n);
      CutHolds(s.stack, base, k);
    }
  }

  lemma RecoveryHolds(s: Server, left: Database, base: seq<Savepoint>, n: nat)
    requires HeldBy(s, base, n) && n > 0
    ensures HeldBy(Recovered(Broke(s, left)), base, n - 1) && Recovered(Broke(s, left)).committed == s.committed
  {
    var k := Innermost(s.stack, WRAPPER);
    RecoveredIs(Broke(s, left));
    if k >= 0 {
      WrapperIsAbove(s.stack, base, n);
      OneLessGuarded(s.stack, base, n);
      CutHolds(s.stack, base, k);
    }
  }

  lemma {:induction false} DrainHolds(s: Server, base: seq<Savepoint>, n: nat)
    requires HeldBy(s, base, n)
    ensures HeldBy(FinishedTimes(s, n), base, 0) && FinishedTimes(s, n).committed == s.committed
    decreases n
  {
    if n > 0 {
      ReleaseHolds(s, base, n);
      DrainHolds(Finished(s), base, n - 1);
    }
  }

  lemma PushHolds(s: Server, base: seq<Savepoint>, n: nat, name: string, working: Database)
    requires HeldBy(s, base, n)
    ensures name != base[|base| - 1].name <==>
      HeldBy(Pushed(s, name).(working := working), base, if name == WRAPPER then n + 1 else n)
  {
    var p := Savepoint(name, s.working);
    PushCounts(s.stack, p);
    if name != base[|base| - 1].name {
      PushKeepsInnermost(s.stack, p, base[|base| - 1].name);
    } else {
      InnermostIsLast(s.stack, p);
    }
  }

  // ---- One request ----------------------------------------------------------------------

  lemma DeliveryHolds(v: SessionView, base: seq<Savepoint>, id: nat, stream: seq<Item>, n: nat)
    requires HeldBy(v.server, base, |v.cursors - {id}| + 1)
    ensures var w := Delivered(v, id, stream, n).0; Held(w, base) && w.server.committed == v.server.committed
  {
    var k := Lead(stream);
    if k >= n {
      OneMore(v.cursors, id, stream[n..]);
    } else if k == |stream| {
      ReleaseHolds(v.server, base, |v.cursors - {id}| + 1);
    } else {
      RecoveryHolds(v.server, stream[k].left, base, |v.cursors - {id}| + 1);
    }
  }

  lemma ReplacementHolds(v: SessionView, base: seq<Savepoint>)
    requires Held(v, base)
    ensures Held(Replaced(v), base) && Replaced(v).server.committed == v.server.committed
    ensures v.registry.cursorId !in Replaced(v).cursors
  {
    var id := v.registry.cursorId;
    if id in v.cursors {
      OneMore(v.cursors, id, v.cursors[id]);
      ReleaseHolds(v.server, base, |v.cursors|);
    }
  }

  lemma OpenedHolds(w: SessionView, base: seq<Savepoint>, id: nat, db: Database, stream: seq<Item>, n: nat)
    requires Held(w, base) && base[|base| - 1].name != WRAPPER && id !in w.cursors
    ensures var x := Delivered(w.(server := Pushed(w.server, WRAPPER).(working := db)), id, stream, n).0;
      Held(x, base) && x.server.committed == w.server.committed
  {
    PushHolds(w.server, base, |w.cursors|, WRAPPER, db);
    OneMore(w.cursors, id, stream);
    DeliveryHolds(w.(server := Pushed(w.server, WRAPPER).(working := db)), base, id, stream, n);
  }

  lemma LeftBehindHolds(s: Server, base: seq<Savepoint>, n: nat)
    requires HeldBy(s, base, n) && base[|base| - 1].name != WRAPPER
    ensures HeldBy(Pushed(s, WRAPPER), base, n)
  {
    PushHolds(s, base, n, WRAPPER, s.working);
  }

  lemma QueryHolds(v: SessionView, base: seq<Savepoint>, query: Database -> QueryOutcome, converts: bool, n: nat)
    requires Held(v, base) && base[|base| - 1].name != WRAPPER
    ensures var w := Queried(v, query, converts, n).0; Held(w, base) && w.server.committed == v.server.committed
  {
    ReplacementHolds(v, base);
    var w := Replaced(v);
    var outcome := query(w.server.working);
    if w.server.status.Active? {
      if !converts {
        LeftBehindHolds(w.server, base, |w.cursors|);
      } else if outcome.Opened? {
        OpenedHolds(w, base, v.registry.cursorId, outcome.db, outcome.stream, n);
      }
    }
  }

  lemma DmlHolds(v: SessionView, base: seq<Savepoint>, effect: Database -> Outcome, converts: bool, n: nat)
    requires Held(v, base) && base[|base| - 1].name != WRAPPER
    ensures var w := Performed(v, Simple(Dml(effect, converts)), n).0;
      Held(w, base) && w.server.committed == v.server.committed
  {
    LeftBehindHolds(v.server, base, |v.cursors|);
  }

  lemma SetHolds(v: SessionView, base: seq<Savepoint>, name: string, n: nat)
    requires Held(v, base)
    ensures var w := Performed(v, Simple(SavepointText(name)), n).0;
      && (Held(w, base) <==> Spares(v, base, Simple(SavepointText(name))))
      && w.server.committed == v.server.committed
  {
    PushHolds(v.server, base, |v.cursors|, name, v.server.working);
  }

  lemma CutsHold(v: SessionView, base: seq<Savepoint>, m: nat, s: Server)
    requires Held(v, base) && m <= |v.server.stack| && s.stack == v.server.stack[..m] && !s.status.Idle?
    ensures HeldBy(s, base, |v.cursors|) <==> CutsAbove(v, base, m)
  {
    CutHolds(v.server.stack, base, m);
  }

  lemma ReleaseTextHolds(v: SessionView, base: seq<Savepoint>, name: string)
    requires Held(v, base)
    ensures var s := Apply(v.server, Release(name)).0;
      && (HeldBy(s, base, |v.cursors|) <==> Spares(v, base, Simple(ReleaseText(name))))
      && s.committed == v.server.committed
  {
    var k := Innermost(v.server.stack, name);
    if v.server.status.Active? && k >= 0 {
      CutsHold(v, base, k, Apply(v.server, Release(name)).0);
    }
  }

  lemma RollbackTextHolds(v: SessionView, base: seq<Savepoint>, name: string)
    requires Held(v, base)
    ensures var s := Apply(v.server, RollbackTo(name)).0;
      && (HeldBy(s, base, |v.cursors|) <==> Spares(v, base, Simple(RollbackToText(name))))
      && s.committed == v.server.committed
  {
    var k := Innermost(v.server.stack, name);
    if k >= 0 {
      CutsHold(v, base, k + 1, Apply(v.server, RollbackTo(name)).0);
    }
  }

  lemma SimpleHolds(v: SessionView, base: seq<Savepoint>, statement: Statement, n: nat)
    requires Held(v, base) && base[|base| - 1].name != WRAPPER
    ensures var w := Performed(v, Simple(statement), n).0;
      && (Held(w, base) <==> Spares(v, base, Simple(statement)))
      && (Held(w, base) ==> w.server.committed == v.server.committed)
  {
    match statement
    case CommitText =>
    case RollbackText =>
    case BeginText =>
    case SavepointText(name) => SetHolds(v, base, name, n);
    case ReleaseText(name) => ReleaseTextHolds(v, base, name);
    case RollbackToText(name) => RollbackTextHolds(v, base, name);
    case Dml(effect, converts) => DmlHolds(v, base, effect, converts, n);
  }

  lemma PlanHolds(v: SessionView, base: seq<Savepoint>, plan: Plan, n: nat)
    requires Held(v, base) && base[|base| - 1].name != WRAPPER
    ensures var w := Performed(v, plan, n).0;
      && (Held(w, base) <==> Spares(v, base, plan))
      && (Held(w, base) ==> w.server.committed == v.server.committed)
  {
    match plan
    case Rejected =>
    case Query(query, converts) => QueryHolds(v, base, query, converts, n);
    case Ddl(_, _, _) =>
    case Simple(statement) => SimpleHolds(v, base, statement, n);
  }

  // A request keeps the savepoint, exactly if it spares it.
  lemma RequestHolds(mode: Mode, v: SessionView, base: seq<Savepoint>, request: Request)
    requires Held(v, base) && base[|base| - 1].name != WRAPPER
    ensures var w := Served(mode, v, request).0;
      && (Held(w, base) <==> SparesRequest(mode, v, base, request))
      && (Held(w, base) ==> w.server.committed == v.server.committed)
  {
    match request
    case Execution(frame, prefetch, plan) =>
      var p := Resolve(mode, v.registry, frame);
      if p.Some? {
        PlanHolds(Noted(mode, v, frame), base, plan(p.value.sql), FirstBatch(mode, prefetch));
      }
    case Fetch(named) =>
      var id := FetchId(v, named);
      if id in v.cursors {
        OneMore(v.cursors, id, v.cursors[id]);
        DeliveryHolds(v, base, id, v.cursors[id], FetchRows(mode, named));
      }
    case EndTransaction(commit) =>
    case Logoff => DrainHolds(v.server, base, |v.cursors|);
  }

  // ---- Whole runs ---------------------------------------------------------------------------

  lemma {:induction false} RunHolds(mode: Mode, v: SessionView, base: seq<Savepoint>, requests: seq<Request>)
    requires Held(v, base) && base[|base| - 1].name != WRAPPER
    ensures HeldThroughout(mode, v, base, requests) <==> SparesRun(mode, v, base, requests)
    ensures SparesRun(mode, v, base, requests) ==>
      var w := After(mode, v, requests); Held(w, base) && w.server.committed == v.server.committed
    decreases |requests|
  {
    if requests != [] {
      RequestHolds(mode, v, base, requests[0]);
      if SparesRequest(mode, v, base, requests[0]) {
        RunHolds(mode, Served(mode, v, requests[0]).0, base, requests[1..]);
      }
    }
  }

  lemma RollbackRestores(w: SessionView, base: seq<Savepoint>, n: nat)
    requires Held(w, base)
    ensures var p := base[|base| - 1];
      var back := Performed(w, Simple(RollbackToText(p.name)), n);
      back.1 == Completed(0) && back.0.server == Server(w.server.committed, p.snapshot, base, Active)
  {
  }

  lemma SavepointIsHeld(v: SessionView, p: Savepoint)
    requires v.server.status.Active? && v.cursors == map[] && p == Savepoint(p.name, v.server.working)
    ensures Held(v.(server := Pushed(v.server, p.name)), v.server.stack + [p])
  {
    InnermostIsLast(v.server.stack, p);
  }

  // Rolling back to a savepoint set while no cursor was open takes the server
  // back to exactly where it was then, after any run that spares it: failures,
  // aborted transactions, binds that do not convert, streams that break off and
  // take work with them, cursors finished or still open.
  lemma SavepointSurvives(mode: Mode, v: SessionView, name: string, requests: seq<Request>, n: nat)
    requires v.server.status.Active? && v.cursors == map[] && name != WRAPPER
    requires SparesRun(mode, Performed(v, Simple(SavepointText(name)), n).0,
      v.server.stack + [Savepoint(name, v.server.working)], requests)
    ensures var v1 := Performed(v, Simple(SavepointText(name)), n).0;
      var back := Performed(After(mode, v1, requests), Simple(RollbackToText(name)), n);
      back.1 == Completed(0) && back.0.server == v1.server
  {
    var p := Savepoint(name, v.server.working);
    var base := v.server.stack + [p];
    var v1 := Performed(v, Simple(SavepointText(name)), n).0;
    SavepointIsHeld(v, p);
    RunHolds(mode, v1, base, requests);
    RollbackRestores(After(mode, v1, requests), base, n);
  }
}
