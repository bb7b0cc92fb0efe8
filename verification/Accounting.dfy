/** Savepoint accounting: one wrapper savepoint on the server for every open cursor. */
module SavepointAccounting {
  import opened Postgres
  import opened Backend
  import opened CursorRegistry
  import opened SessionLoop

  function Wrapping(stack: seq<Savepoint>): nat {
    if stack == [] then 0
    else Wrapping(stack[..|stack| - 1]) + if stack[|stack| - 1].name == WRAPPER then 1 else 0
  }

  // Between requests the transaction is usable and the books balance.
  predicate Accounted(v: SessionView) {
    v.server.status.Active? && Wrapping(v.server.stack) == |v.cursors|
  }

  // ---- Counting -----------------------------------------------------------------

  // Cutting the stack loses a wrapper exactly if the innermost one goes.
  lemma {:induction false} CutLosesWrappers(stack: seq<Savepoint>, m: nat)
    requires m <= |stack|
    ensures Wrapping(stack[..m]) <= Wrapping(stack)
    ensures Wrapping(stack[..m]) == Wrapping(stack) <==> Innermost(stack, WRAPPER) < m
  {
    if m == |stack| {
      assert stack[..m] == stack;
    } else {
      var rest := stack[..|stack| - 1];
      assert rest[..m] == stack[..m];
      CutLosesWrappers(rest, m);
    }
  }

  lemma CutAtInnermost(stack: seq<Savepoint>)
    ensures Wrapping(stack) > 0 <==> Innermost(stack, WRAPPER) >= 0
    ensures var k := Innermost(stack, WRAPPER); k >= 0 ==> Wrapping(stack[..k]) == Wrapping(stack) - 1
  {
    CutLosesWrappers(stack, 0);
    var k := Innermost(stack, WRAPPER);
    if k >= 0 {
      CutLosesWrappers(stack, k + 1);
      assert stack[..k + 1][..k] == stack[..k];
    }
  }

  lemma PushCounts(stack: seq<Savepoint>, p: Savepoint)
    ensures Wrapping(stack + [p]) == Wrapping(stack) + if p.name == WRAPPER then 1 else 0
  {
    assert (stack + [p])[..|stack|] == stack;
  }

  // Rolling back to the innermost wrapper, which may be all that an aborted
  // transaction can do.
  lemma RecoveredIs(s: Server)
    requires !s.status.Idle?
    ensures var k, t := Innermost(s.stack, WRAPPER), Recovered(s);
      && !t.status.Idle? && t.committed == s.committed
      && t.stack == (if k >= 0 then s.stack[..k] else s.stack)
      && (if k >= 0 then t.status.Active? && t.working == s.stack[k].snapshot else t.status.Aborted?)
  {
    var k := Innermost(s.stack, WRAPPER);
    TwoCommands(s, RollbackTo(WRAPPER), Release(WRAPPER));
    if k >= 0 {
      InnermostBelow(s.stack, WRAPPER, k + 1);
      assert s.stack[..k + 1][..k] == s.stack[..k];
    }
  }

  lemma RecoveryReleasesOne(s: Server)
    requires !s.status.Idle? && Wrapping(s.stack) > 0
    ensures var t := Recovered(s);
      && t.status.Active? && Wrapping(t.stack) == Wrapping(s.stack) - 1 && t.committed == s.committed
      && t.working == s.stack[Innermost(s.stack, WRAPPER)].snapshot
      && t.stack == s.stack[..Innermost(s.stack, WRAPPER)]
  {
    CutAtInnermost(s.stack);
    RecoveredIs(s);
  }

  // Releasing as many wrappers as there are cursors keeps the work; releasing
  // more than there are aborts the transaction.
  lemma {:induction false} ReleasesCount(s: Server, n: nat)
    requires s.status.Active?
    ensures FinishedTimes(s, n).committed == s.committed
    ensures n <= Wrapping(s.stack) ==>
      var t := FinishedTimes(s, n);
      t.status.Active? && t.working == s.working && Wrapping(t.stack) == Wrapping(s.stack) - n
    ensures n > Wrapping(s.stack) ==> FinishedTimes(s, n).status.Aborted?
    decreases n
  {
    if n > 0 {
      CutAtInnermost(s.stack);
      if Innermost(s.stack, WRAPPER) >= 0 {
        ReleasesCount(Finished(s), n - 1);
      } else {
        AbortedStays(Finished(s), n - 1);
      }
    }
  }

  lemma {:induction false} AbortedStays(s: Server, n: nat)
    requires s.status.Aborted?
    ensures FinishedTimes(s, n) == s
    decreases n
  {
    if n > 0 {
      AbortedStays(s, n - 1);
    }
  }

  // ---- One request ------------------------------------------------------------------

  // However a batch ends, the cursor's own wrapper is the only one to go.
  lemma DeliveryBalances(v: SessionView, id: nat, stream: seq<Item>, n: nat)
    requires v.server.status.Active? && Wrapping(v.server.stack) == |v.cursors - {id}| + 1
    ensures Accounted(Delivered(v, id, stream, n).0)
  {
    var k := Lead(stream);
    CutAtInnermost(v.server.stack);
    if k >= n {
      OneMore(v.cursors, id, stream[n..]);
    } else if k < |stream| {
      RecoveryReleasesOne(Broke(v.server, stream[k].left));
    }
  }

  lemma ReplacementBalances(v: SessionView)
    requires Accounted(v)
    ensures Accounted(Replaced(v)) && v.registry.cursorId !in Replaced(v).cursors
    ensures Replaced(v).server.working == v.server.working && Replaced(v).server.committed == v.server.committed
  {
    var id := v.registry.cursorId;
    if id in v.cursors {
      OneMore(v.cursors, id, v.cursors[id]);
      CutAtInnermost(v.server.stack);
    }
  }

  lemma OpenedBalances(w: SessionView, id: nat, db: Database, stream: seq<Item>, n: nat)
    requires Accounted(w) && id !in w.cursors
    ensures Accounted(Delivered(w.(server := Pushed(w.server, WRAPPER).(working := db)), id, stream, n).0)
  {
    PushCounts(w.server.stack, Savepoint(WRAPPER, w.server.working));
    OneMore(w.cursors, id, stream);
    DeliveryBalances(w.(server := Pushed(w.server, WRAPPER).(working := db)), id, stream, n);
  }

  lemma QueryBalances(v: SessionView, query: Database -> QueryOutcome, converts: bool, n: nat)
    requires Accounted(v)
    ensures Accounted(Queried(v, query, converts, n).0) <==> converts
  {
    ReplacementBalances(v);
    var w := Replaced(v);
    var outcome := query(w.server.working);
    if !converts {
      PushCounts(w.server.stack, Savepoint(WRAPPER, w.server.working));
    } else if outcome.Opened? {
      OpenedBalances(w, v.registry.cursorId, outcome.db, outcome.stream, n);
    }
  }

  // What keeps the books balanced, as a caller could check it: binds convert;
  // whatever empties the savepoint stack comes only while no cursor is open;
  // and savepoint commands stay above the wrappers and off their name.
  predicate Harmless(v: SessionView, plan: Plan) {
    match plan
    case Rejected => true
    case Query(_, converts) => converts
    case Ddl(_, _, _) => v.cursors == map[]
    case Simple(statement) =>
      var stack := v.server.stack;
      match statement
      case CommitText => v.cursors == map[]
      case RollbackText => v.cursors == map[]
      case BeginText => true
      case SavepointText(name) => name != WRAPPER
      case ReleaseText(name) => Innermost(stack, WRAPPER) < Innermost(stack, name)
      case RollbackToText(name) => Innermost(stack, name) >= 0 && Innermost(stack, WRAPPER) <= Innermost(stack, name)
      case Dml(_, converts) => converts
  }

  lemma CutBalances(v: SessionView, name: string)
    requires Accounted(v)
    ensures var w := v.(server := Apply(v.server, Release(name)).0);
      Accounted(w) <==> Innermost(v.server.stack, WRAPPER) < Innermost(v.server.stack, name)
    ensures var w := v.(server := Apply(v.server, RollbackTo(name)).0);
      Accounted(w) <==>
        Innermost(v.server.stack, name) >= 0 && Innermost(v.server.stack, WRAPPER) <= Innermost(v.server.stack, name)
  {
    var k := Innermost(v.server.stack, name);
    if k >= 0 {
      CutLosesWrappers(v.server.stack, k);
      CutLosesWrappers(v.server.stack, k + 1);
    }
  }

  lemma SetBalances(v: SessionView, name: string)
    requires Accounted(v)
    ensures Accounted(v.(server := Pushed(v.server, name))) <==> name != WRAPPER
  {
    PushCounts(v.server.stack, Savepoint(name, v.server.working));
  }

  lemma DmlBalances(v: SessionView, effect: Database -> Outcome, converts: bool, n: nat)
    requires Accounted(v)
    ensures Accounted(Performed(v, Simple(Dml(effect, converts)), n).0) <==> converts
  {
    SetBalances(v, WRAPPER);
  }

  lemma SimpleBalances(v: SessionView, statement: Statement, n: nat)
    requires Accounted(v)
    ensures Accounted(Performed(v, Simple(statement), n).0) <==> Harmless(v, Simple(statement))
  {
    match statement
    case CommitText =>
    case RollbackText =>
    case BeginText =>
    case SavepointText(name) => SetBalances(v, name);
    case ReleaseText(name) => CutBalances(v, name);
    case RollbackToText(name) => CutBalances(v, name);
    case Dml(effect, converts) => DmlBalances(v, effect, converts, n);
  }

  lemma PlanBalances(v: SessionView, plan: Plan, n: nat)
    requires Accounted(v)
    ensures Accounted(Performed(v, plan, n).0) <==> Harmless(v, plan)
  {
    match plan
    case Rejected =>
    case Query(query, converts) => QueryBalances(v, query, converts, n);
    case Ddl(_, _, _) =>
    case Simple(statement) => SimpleBalances(v, statement, n);
  }

  predicate HarmlessRequest(mode: Mode, v: SessionView, request: Request) {
    request.Execution? ==>
      match Resolve(mode, v.registry, request.frame)
      case None => true
      case Some(p) => Harmless(Noted(mode, v, request.frame), request.plan(p.sql))
  }

  // A request keeps the balance if and only if it is harmless.
  lemma RequestBalances(mode: Mode, v: SessionView, request: Request)
    requires Accounted(v)
    ensures Accounted(Served(mode, v, request).0) <==> HarmlessRequest(mode, v, request)
  {
    match request
    case Execution(frame, prefetch, plan) =>
      var p := Resolve(mode, v.registry, frame);
      if p.Some? {
        PlanBalances(Noted(mode, v, frame), plan(p.value.sql), FirstBatch(mode, prefetch));
      }
    case Fetch(named) =>
      var id := FetchId(v, named);
      if id in v.cursors {
        OneMore(v.cursors, id, v.cursors[id]);
        DeliveryBalances(v, id, v.cursors[id], FetchRows(mode, named));
      }
    case EndTransaction(commit) =>
    case Logoff =>
      ReleasesCount(v.server, |v.cursors|);
  }

  // ---- Whole runs ---------------------------------------------------------------------

  ghost function After(mode: Mode, v: SessionView, requests: seq<Request>): SessionView
    decreases |requests|
  {
    if requests == [] then v else After(mode, Served(mode, v, requests[0]).0, requests[1..])
  }

  ghost predicate HarmlessRun(mode: Mode, v: SessionView, requests: seq<Request>)
    decreases |requests|
  {
    requests == []
    || (HarmlessRequest(mode, v, requests[0]) && HarmlessRun(mode, Served(mode, v, requests[0]).0, requests[1..]))
  }

  ghost predicate AccountedThroughout(mode: Mode, v: SessionView, requests: seq<Request>)
    decreases |requests|
  {
    Accounted(v) && (requests == [] || AccountedThroughout(mode, Served(mode, v, requests[0]).0, requests[1..]))
  }

  lemma {:induction false} RunBalances(mode: Mode, v: SessionView, requests: seq<Request>)
    requires Accounted(v)
    ensures AccountedThroughout(mode, v, requests) <==> HarmlessRun(mode, v, requests)
    ensures HarmlessRun(mode, v, requests) ==> Accounted(After(mode, v, requests))
    decreases |requests|
  {
    if requests != [] {
      RequestBalances(mode, v, requests[0]);
      if HarmlessRequest(mode, v, requests[0]) {
        RunBalances(mode, Served(mode, v, requests[0]).0, requests[1..]);
      }
    }
  }

  // From login on: every session of harmless requests balances between all of
  // them, and the first harmful one is where the balance is lost.
  lemma SessionBalances(mode: Mode, committed: Database, requests: seq<Request>)
    ensures var v := SessionView(Initial(mode), Began(committed), map[]);
      AccountedThroughout(mode, v, requests) <==> HarmlessRun(mode, v, requests)
  {
    RunBalances(mode, SessionView(Initial(mode), Began(committed), map[]), requests);
  }

  // ---- Why it matters -----------------------------------------------------------------

  // A commit saves the work exactly if there is a wrapper for every cursor drained.
  lemma CommitSavesTheWork(v: SessionView)
    requires v.server.status.Active?
    ensures Ended(v, true).0.server ==
      Began(if |v.cursors| <= Wrapping(v.server.stack) then v.server.working else v.server.committed)
    ensures Ended(v, false).0.server == Began(v.server.committed)
  {
    ReleasesCount(v.server, |v.cursors|);
  }

  // A rollback to a savepoint beneath an open cursor's wrapper takes the
  // wrapper along; ending the cursor then aborts the transaction.
  lemma RollbackBeneathCursorsAborts(v: SessionView, name: string)
    requires Accounted(v) && v.cursors != map[]
    requires 0 <= Innermost(v.server.stack, name)
    requires forall k | 0 <= k <= Innermost(v.server.stack, name) :: v.server.stack[k].name != WRAPPER
    ensures var s := SimpleNet(v.server, RollbackToText(name)).0; s.status.Active? && Finished(s).status.Aborted?
  {
  }

  // A client savepoint set while a cursor is open goes when the cursor does.
  lemma OpenCursorSwallowsSavepoint(v: SessionView, name: string)
    requires Accounted(v) && v.cursors != map[] && name != WRAPPER
    ensures var s := SimpleNet(v.server, SavepointText(name)).0;
      && Innermost(s.stack, name) == |v.server.stack|
      && Finished(s).status.Active? && |Finished(s).stack| < |v.server.stack|
  {
    CutAtInnermost(v.server.stack);
    var s := SimpleNet(v.server, SavepointText(name)).0;
    assert s.stack[..|v.server.stack|] == v.server.stack;
  }
}
