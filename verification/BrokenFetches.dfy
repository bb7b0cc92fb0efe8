/** What a fetch that breaks off takes with it, told from the history of the session. */
module BrokenFetches {
  import opened Wrappers
  import opened Postgres
  import opened Backend
  import opened CursorRegistry
  import opened SessionLoop
  import opened SavepointAccounting
  import opened OracleTransactions

  // ---- The wrappers on the stack, and when they were set ------------------------

  function WrappersIn(stack: seq<Savepoint>): (wrappers: seq<Savepoint>)
    ensures |wrappers| == Wrapping(stack)
  {
    if stack == [] then []
    else
      var last := stack[|stack| - 1];
      WrappersIn(stack[..|stack| - 1]) + if last.name == WRAPPER then [last] else []
  }

  // A request that leaves a new wrapper on the stack: that of a cursor that
  // stays open, one left behind by binds that do not convert, or one of the
  // client's own making.
  ghost predicate Leaves(v: SessionView, plan: Plan, n: nat) {
    match plan
    case Rejected => false
    case Query(query, converts) =>
      && Replaced(v).server.status.Active?
      && (!converts || v.registry.cursorId in Queried(v, query, converts, n).0.cursors)
    case Ddl(_, _, _) => false
    case Simple(statement) =>
      && v.server.status.Active?
      && (statement == SavepointText(WRAPPER) || (statement.Dml? && !statement.converts))
  }

  ghost predicate LeavesWrapper(mode: Mode, v: SessionView, request: Request) {
    && request.Execution? && Resolve(mode, v.registry, request.frame).Some?
    && Leaves(Noted(mode, v, request.frame), request.plan(Resolve(mode, v.registry, request.frame).value.sql),
         FirstBatch(mode, request.prefetch))
  }

  // How many of `n` wrappers outlast a request that ends with `after` of them.
  function Outlasting(leaves: bool, n: nat, after: nat): (kept: nat)
    ensures kept <= n
  {
    if leaves && after > 0 then Min(n, after - 1) else Min(n, after)
  }

  // The requests that set the wrappers still on the stack, oldest first.
  ghost function SetAt(mode: Mode, v: SessionView, requests: seq<Request>): seq<nat>
    decreases |requests|
  {
    if requests == [] then []
    else
      var init, last := requests[..|requests| - 1], requests[|requests| - 1];
      var before, at := After(mode, v, init), SetAt(mode, v, init);
      var leaves := LeavesWrapper(mode, before, last);
      var after := Wrapping(Served(mode, before, last).0.server.stack);
      at[..Outlasting(leaves, |at|, after)] + if leaves then [|init|] else []
  }

  // ---- One request ------------------------------------------------------------------

  // What becomes of the wrappers: the innermost ones go, and a new one holds
  // the working database it was set on.
  ghost predicate WrappersStep(before: seq<Savepoint>, after: seq<Savepoint>, working: Database, leaves: bool) {
    var kept := Outlasting(leaves, Wrapping(before), Wrapping(after));
    WrappersIn(after) == WrappersIn(before)[..kept] + if leaves then [Savepoint(WRAPPER, working)] else []
  }

  lemma {:induction false} CutWrappers(stack: seq<Savepoint>, cut: seq<Savepoint>)
    requires cut <= stack
    ensures WrappersIn(cut) <= WrappersIn(stack)
  {
    if cut != stack {
      var init := stack[..|stack| - 1];
      assert cut == init[..|cut|];
      CutWrappers(init, cut);
    }
  }

  lemma CutSteps(before: seq<Savepoint>, after: seq<Savepoint>, working: Database)
    requires after <= before
    ensures WrappersStep(before, after, working, false)
  {
    CutWrappers(before, after);
  }

  lemma PushedWrappers(stack: seq<Savepoint>, p: Savepoint)
    ensures WrappersIn(stack + [p]) == WrappersIn(stack) + if p.name == WRAPPER then [p] else []
  {
    assert (stack + [p])[..|stack|] == stack;
  }

  lemma PushSteps(before: seq<Savepoint>, cut: seq<Savepoint>, after: seq<Savepoint>, p: Savepoint)
    requires cut <= before && after == cut + [p]
    ensures WrappersStep(before, after, p.snapshot, p.name == WRAPPER)
  {
    CutWrappers(before, cut);
    PushedWrappers(cut, p);
  }

  lemma ReleaseCuts(s: Server)
    ensures Finished(s).stack <= s.stack && (s.status.Idle? <==> Finished(s).status.Idle?)
    ensures Finished(s).working == s.working
  {
  }

  lemma {:induction false} DrainCuts(s: Server, n: nat)
    ensures FinishedTimes(s, n).stack <= s.stack && (s.status.Idle? <==> FinishedTimes(s, n).status.Idle?)
    decreases n
  {
    if n > 0 {
      ReleaseCuts(s);
      DrainCuts(Finished(s), n - 1);
    }
  }

  lemma DeliveryCuts(v: SessionView, id: nat, stream: seq<Item>, n: nat)
    requires !v.server.status.Idle?
    ensures var w := Delivered(v, id, stream, n).0; w.server.stack <= v.server.stack && !w.server.status.Idle?
  {
    if Lead(stream) < n {
      if Lead(stream) == |stream| {
        ReleaseCuts(v.server);
      } else {
        RecoveredIs(Broke(v.server, stream[Lead(stream)].left));
      }
    }
  }

  lemma ReplacementCuts(v: SessionView)
    requires !v.server.status.Idle?
    ensures var w := Replaced(v);
      && w.server.stack <= v.server.stack && !w.server.status.Idle?
      && w.server.working == v.server.working && v.registry.cursorId !in w.cursors
  {
    ReleaseCuts(v.server);
  }

  // A query on a session without a cursor of its id: the wrapper stays exactly
  // if the cursor does.
  lemma OpenedSteps(w: SessionView, id: nat, db: Database, stream: seq<Item>, n: nat)
    requires w.server.status.Active? && id !in w.cursors
    ensures var x := Delivered(w.(server := Pushed(w.server, WRAPPER).(working := db)), id, stream, n).0;
      && !x.server.status.Idle?
      && x.server.stack == if id in x.cursors then Pushed(w.server, WRAPPER).stack else w.server.stack
  {
    if Lead(stream) < n {
      if Lead(stream) == |stream| {
        WrapperComesOff(w.server, db, Active);
      } else {
        BrokenWrapper(w.server, db, stream[Lead(stream)].left);
      }
    }
  }

  lemma QuerySteps(v: SessionView, query: Database -> QueryOutcome, converts: bool, n: nat)
    requires !v.server.status.Idle?
    ensures var x := Queried(v, query, converts, n).0;
      && !x.server.status.Idle?
      && WrappersStep(v.server.stack, x.server.stack, v.server.working, Leaves(v, Query(query, converts), n))
  {
    ReplacementCuts(v);
    var w, x := Replaced(v), Queried(v, query, converts, n).0;
    var outcome := query(w.server.working);
    if w.server.status.Active? && converts && outcome.Opened? {
      OpenedSteps(w, v.registry.cursorId, outcome.db, outcome.stream, n);
    }
    if Leaves(v, Query(query, converts), n) {
      PushSteps(v.server.stack, w.server.stack, x.server.stack, Savepoint(WRAPPER, v.server.working));
    } else {
      CutSteps(v.server.stack, x.server.stack, v.server.working);
    }
  }

  lemma SimpleSteps(v: SessionView, statement: Statement, n: nat)
    requires !v.server.status.Idle?
    ensures var w := Performed(v, Simple(statement), n).0;
      && !w.server.status.Idle?
      && WrappersStep(v.server.stack, w.server.stack, v.server.working, Leaves(v, Simple(statement), n))
  {
    var w := Performed(v, Simple(statement), n).0;
    if v.server.status.Active? && statement.SavepointText? {
      PushSteps(v.server.stack, v.server.stack, w.server.stack, Savepoint(statement.name, v.server.working));
    } else if Leaves(v, Simple(statement), n) {
      PushSteps(v.server.stack, v.server.stack, w.server.stack, Savepoint(WRAPPER, v.server.working));
    } else {
      CutSteps(v.server.stack, w.server.stack, v.server.working);
    }
  }

  lemma PlanSteps(v: SessionView, plan: Plan, n: nat)
    requires !v.server.status.Idle?
    ensures var w := Performed(v, plan, n).0;
      && !w.server.status.Idle?
      && WrappersStep(v.server.stack, w.server.stack, v.server.working, Leaves(v, plan, n))
  {
    match plan
    case Rejected => CutSteps(v.server.stack, v.server.stack, v.server.working);
    case Query(query, converts) => QuerySteps(v, query, converts, n);
    case Ddl(_, _, _) => CutSteps(v.server.stack, [], v.server.working);
    case Simple(statement) => SimpleSteps(v, statement, n);
  }

  lemma RequestSteps(mode: Mode, v: SessionView, request: Request)
    requires !v.server.status.Idle?
    ensures var w := Served(mode, v, request).0;
      && !w.server.status.Idle?
      && WrappersStep(v.server.stack, w.server.stack, v.server.working, LeavesWrapper(mode, v, request))
  {
    var w := Served(mode, v, request).0;
    match request
    case Execution(frame, prefetch, plan) =>
      var p := Resolve(mode, v.registry, frame);
      if p.Some? {
        PlanSteps(Noted(mode, v, frame), plan(p.value.sql), FirstBatch(mode, prefetch));
      } else {
        CutSteps(v.server.stack, v.server.stack, v.server.working);
      }
    case Fetch(named) =>
      var id := FetchId(v, named);
      if id in v.cursors {
        DeliveryCuts(v, id, v.cursors[id], FetchRows(mode, named));
      }
      CutSteps(v.server.stack, w.server.stack, v.server.working);
    case EndTransaction(commit) => CutSteps(v.server.stack, [], v.server.working);
    case Logoff =>
      DrainCuts(v.server, |v.cursors|);
      CutSteps(v.server.stack, w.server.stack, v.server.working);
  }

  // ---- Whole runs ---------------------------------------------------------------------

  lemma {:induction false} AfterOneMore(mode: Mode, v: SessionView, requests: seq<Request>, last: Request)
    ensures After(mode, v, requests + [last]) == Served(mode, After(mode, v, requests), last).0
    decreases |requests|
  {
    if requests == [] {
      assert [] + [last] == [last] && [last][1..] == [];
    } else {
      assert (requests + [last])[1..] == requests[1..] + [last];
      AfterOneMore(mode, Served(mode, v, requests[0]).0, requests[1..], last);
    }
  }

  // A wrapper holds the working database its request was served on.
  ghost predicate HeldSince(mode: Mode, v: SessionView, requests: seq<Request>, p: Savepoint, at: nat) {
    at < |requests| && p.snapshot == After(mode, v, requests[..at]).server.working
  }

  ghost predicate AllHeldSince(mode: Mode, v: SessionView, requests: seq<Request>, wrappers: seq<Savepoint>, at: seq<nat>) {
    |wrappers| == |at| && forall j | 0 <= j < |at| :: HeldSince(mode, v, requests, wrappers[j], at[j])
  }

  ghost predicate HoldsHistory(mode: Mode, v: SessionView, requests: seq<Request>) {
    var w := After(mode, v, requests);
    !w.server.status.Idle? && AllHeldSince(mode, v, requests, WrappersIn(w.server.stack), SetAt(mode, v, requests))
  }

  // In every session, whatever the requests.
  lemma {:induction false} WrappersHoldHistory(mode: Mode, v: SessionView, requests: seq<Request>)
    requires !v.server.status.Idle? && Wrapping(v.server.stack) == 0
    ensures HoldsHistory(mode, v, requests)
    decreases |requests|
  {
    if requests != [] {
      var init, last := requests[..|requests| - 1], requests[|requests| - 1];
      assert requests == init + [last];
      WrappersHoldHistory(mode, v, init);
      AfterOneMore(mode, v, init, last);
      RequestSteps(mode, After(mode, v, init), last);
      HistoryStep(mode, v, requests, init, last);
    }
  }

  lemma HeldStill(mode: Mode, v: SessionView, requests: seq<Request>, init: seq<Request>, p: Savepoint, at: nat)
    requires init <= requests && HeldSince(mode, v, init, p, at)
    ensures HeldSince(mode, v, requests, p, at)
  {
    assert requests[..at] == init[..at];
  }

  lemma KeptAreHeld(mode: Mode, v: SessionView, requests: seq<Request>, init: seq<Request>,
    wrappers: seq<Savepoint>, at: seq<nat>, kept: nat)
    requires init <= requests && AllHeldSince(mode, v, init, wrappers, at) && kept <= |at|
    ensures AllHeldSince(mode, v, requests, wrappers[..kept], at[..kept])
  {
    forall j | 0 <= j < kept ensures HeldSince(mode, v, requests, wrappers[j], at[j]) {
      HeldStill(mode, v, requests, init, wrappers[j], at[j]);
    }
  }

  lemma NewIsHeld(mode: Mode, v: SessionView, requests: seq<Request>, wrappers: seq<Savepoint>, at: seq<nat>, n: nat)
    requires AllHeldSince(mode, v, requests, wrappers, at) && n < |requests|
    ensures AllHeldSince(mode, v, requests,
      wrappers + [Savepoint(WRAPPER, After(mode, v, requests[..n]).server.working)], at + [n])
  {
  }

  lemma HistoryStep(mode: Mode, v: SessionView, requests: seq<Request>, init: seq<Request>, last: Request)
    requires requests == init + [last] && HoldsHistory(mode, v, init)
    requires After(mode, v, requests) == Served(mode, After(mode, v, init), last).0
    requires var before, after := After(mode, v, init), After(mode, v, requests);
      && !after.server.status.Idle?
      && WrappersStep(before.server.stack, after.server.stack, before.server.working, LeavesWrapper(mode, before, last))
    ensures HoldsHistory(mode, v, requests)
  {
    var before, after := After(mode, v, init), After(mode, v, requests);
    var wrappers, at := WrappersIn(before.server.stack), SetAt(mode, v, init);
    SetAtGrows(mode, v, requests, init, last);
    var leaves := LeavesWrapper(mode, before, last);
    var kept := Outlasting(leaves, |at|, Wrapping(after.server.stack));
    assert requests[..|init|] == init;
    KeptAreHeld(mode, v, requests, init, wrappers, at, kept);
    if leaves {
      NewIsHeld(mode, v, requests, wrappers[..kept], at[..kept], |init|);
    }
  }

  lemma SetAtGrows(mode: Mode, v: SessionView, requests: seq<Request>, init: seq<Request>, last: Request)
    requires requests == init + [last]
    ensures var before, at := After(mode, v, init), SetAt(mode, v, init);
      var leaves, after := LeavesWrapper(mode, before, last), Wrapping(Served(mode, before, last).0.server.stack);
      SetAt(mode, v, requests) == at[..Outlasting(leaves, |at|, after)] + if leaves then [|init|] else []
  {
    assert requests[..|requests| - 1] == init && requests[|requests| - 1] == last;
  }

  lemma {:induction false} LastWrapper(stack: seq<Savepoint>)
    ensures var k, wrappers := Innermost(stack, WRAPPER), WrappersIn(stack);
      (k < 0 <==> wrappers == []) && (k >= 0 ==> wrappers[|wrappers| - 1] == stack[k])
  {
    if stack != [] && stack[|stack| - 1].name != WRAPPER {
      LastWrapper(stack[..|stack| - 1]);
    }
  }

  // The end of a broken fetch on the server alone.
  lemma BreakIs(v: SessionView, id: nat, n: nat)
    requires !v.server.status.Idle? && id in v.cursors && Breaks(v.cursors[id], n)
    ensures var k, s := Innermost(v.server.stack, WRAPPER), Delivered(v, id, v.cursors[id], n).0.server;
      if k >= 0 then s.status.Active? && s.working == v.server.stack[k].snapshot else s.status.Aborted?
  {
    RecoveredIs(Broke(v.server, v.cursors[id][Lead(v.cursors[id])].left));
  }

  lemma LastIsHeldSince(mode: Mode, v: SessionView, requests: seq<Request>)
    requires HoldsHistory(mode, v, requests)
    ensures var s, at := After(mode, v, requests).server, SetAt(mode, v, requests);
      var k := Innermost(s.stack, WRAPPER);
      && (k < 0 <==> at == [])
      && (k >= 0 ==> HeldSince(mode, v, requests, s.stack[k], at[|at| - 1]))
  {
    LastWrapper(After(mode, v, requests).server.stack);
  }

  // A broken fetch takes the session back to before the request that set the
  // innermost wrapper left, whoever that was set for; it loses everything
  // written since. With no wrapper left the transaction is aborted.
  lemma BreakUndoesSince(mode: Mode, v: SessionView, requests: seq<Request>, named: Option<(nat, nat)>)
    requires !v.server.status.Idle? && Wrapping(v.server.stack) == 0
    requires var w := After(mode, v, requests);
      FetchId(w, named) in w.cursors && Breaks(w.cursors[FetchId(w, named)], FetchRows(mode, named))
    ensures var at, s := SetAt(mode, v, requests), FetchedFrom(mode, After(mode, v, requests), named).0.server;
      if at == [] then s.status.Aborted?
      else
        && at[|at| - 1] < |requests| && s.status.Active?
        && s.working == After(mode, v, requests[..at[|at| - 1]]).server.working
  {
    WrappersHoldHistory(mode, v, requests);
    LastIsHeldSince(mode, v, requests);
    var w := After(mode, v, requests);
    BreakIs(w, FetchId(w, named), FetchRows(mode, named));
  }

  // In a run that follows Oracle so far the fetch does so too exactly if
  // nothing has been written since that request.
  lemma BreakFollows(mode: Mode, v: SessionView, o: Oracle, requests: seq<Request>, named: Option<(nat, nat)>)
    requires Refines(v, o) && Wrapping(v.server.stack) == 0 && AssumedRun(mode, v, o, requests)
    requires var w := After(mode, v, requests);
      FetchId(w, named) in w.cursors && Breaks(w.cursors[FetchId(w, named)], FetchRows(mode, named))
    ensures var w, u, at := After(mode, v, requests), OracleReplies(mode, o, requests).0, SetAt(mode, v, requests);
      && at != [] && at[|at| - 1] < |requests|
      && (Follows(FetchedFrom(mode, w, named), Answered(mode, u, Fetch(named))) <==>
            w.server.working == After(mode, v, requests[..at[|at| - 1]]).server.working)
  {
    WrappersHoldHistory(mode, v, requests);
    RunIsAfter(mode, v, requests);
    RunRefines(mode, v, o, requests);
    LastIsHeldSince(mode, v, requests);
    var w, u := After(mode, v, requests), OracleReplies(mode, o, requests).0;
    BrokenFetchRefines(w, u, FetchId(w, named), FetchRows(mode, named));
    FetchRefines(mode, w, u, named);
  }

  lemma {:induction false} RunIsAfter(mode: Mode, v: SessionView, requests: seq<Request>)
    ensures Replies(mode, v, requests).0 == After(mode, v, requests)
    decreases |requests|
  {
    if requests != [] {
      RunIsAfter(mode, Served(mode, v, requests[0]).0, requests[1..]);
    }
  }

  // ---- Such a run -----------------------------------------------------------------------

  function Statement(text: string, plan: Plan): Request {
    Execution(Frame(Function.Execute, Some(text), None, None, 0), 0, _ => plan)
  }

  // A query of OCI whose first two rows arrive keeps its cursor open.
  lemma AskSteps(v: SessionView, text: string, query: Database -> QueryOutcome, stream: seq<Item>)
    requires v.server.status.Active? && text != "" && text !in v.registry.ids && v.registry.nextId !in v.cursors
    requires query(v.server.working).Opened? && query(v.server.working).db == v.server.working
    requires query(v.server.working).stream == stream && Lead(stream) >= 2
    ensures var w := Served(Oci, v, Statement(text, Query(query, true))).0;
      && w.server == Pushed(v.server, WRAPPER)
      && w.cursors == v.cursors[v.registry.nextId := stream[2..]]
      && w.registry.ids == v.registry.ids[text := v.registry.nextId]
      && w.registry.nextId == NextId(v.registry.nextId)
  {
  }

  lemma WriteSteps(v: SessionView, text: string, effect: Database -> Outcome, db: Database)
    requires v.server.status.Active? && text != "" && text !in v.registry.ids
    requires effect(v.server.working).Done? && effect(v.server.working).db == db
    ensures var w := Served(Oci, v, Statement(text, Simple(Dml(effect, true)))).0;
      && w.server == v.server.(working := db) && w.cursors == v.cursors
      && w.registry.ids == v.registry.ids[text := v.registry.nextId]
      && w.registry.nextId == NextId(v.registry.nextId)
  {
  }

  // The last fetch of a cursor pops the innermost wrapper, its own or not.
  lemma EndSteps(v: SessionView, id: nat, below: Server)
    requires id > 0 && id in v.cursors && v.cursors[id] == [] && below.status.Active?
    requires v.server == Pushed(below, WRAPPER).(working := v.server.working)
    ensures var w := Served(Oci, v, Fetch(Some((id, 1)))).0;
      w.server == below.(working := v.server.working) && w.cursors == v.cursors - {id} && w.registry == v.registry
  {
    assert IsLead([], 0);
    LeadIsUnique([], 0, Lead([]));
    WrapperComesOff(below, v.server.working, Active);
  }

  lemma BreakSteps(v: SessionView, id: nat, left: Database, below: Server)
    requires id > 0 && id in v.cursors && v.cursors[id] == [Broken(left)] && below.status.Active?
    requires v.server == Pushed(below, WRAPPER).(working := v.server.working)
    ensures Served(Oci, v, Fetch(Some((id, 1)))).0.server == below
  {
    LeadIsUnique([Broken(left)], 0, Lead([Broken(left)]));
    WrapperComesOff(below, left, Aborted);
  }

  function Reads(stream: seq<Item>): Database -> QueryOutcome {
    db => Opened(db, 0, stream)
  }

  function Writes(db: Database): Database -> Outcome {
    _ => Done(db, 1)
  }

  lemma TwoRowsLead(rest: seq<Item>)
    ensures Lead([Fetched([]), Fetched([])] + rest) >= 2
  {
    var s := [Fetched([]), Fetched([])] + rest;
    assert s[0].Fetched? && s[1].Fetched?;
  }

  // A query of two rows and more, and a write.
  function AskAndWrite(text: string, more: string, rest: seq<Item>, db: Database): seq<Request> {
    [Statement(text, Query(Reads([Fetched([]), Fetched([])] + rest), true)),
     Statement(more, Simple(Dml(Writes(db), true)))]
  }

  lemma TwoRequests(mode: Mode, v: SessionView, a: Request, b: Request)
    ensures After(mode, v, [a, b]) == Served(mode, Served(mode, v, a).0, b).0
  {
    var w := Served(mode, v, a).0;
    assert [a, b][1..] == [b] && [b][1..] == [];
    assert After(mode, w, [b]) == After(mode, Served(mode, w, b).0, []);
  }

  lemma {:induction false} AfterInTwo(mode: Mode, v: SessionView, a: seq<Request>, b: seq<Request>)
    ensures After(mode, v, a + b) == After(mode, After(mode, v, a), b)
    decreases |a|
  {
    if a == [] {
      assert a + b == b;
    } else {
      assert (a + b)[1..] == a[1..] + b;
      AfterInTwo(mode, Served(mode, v, a[0]).0, a[1..], b);
    }
  }

  lemma AskAndWriteSteps(v: SessionView, text: string, more: string, rest: seq<Item>, db: Database)
    requires v.server.status.Active? && text != "" && more != "" && text != more
    requires text !in v.registry.ids && more !in v.registry.ids && v.registry.nextId !in v.cursors
    ensures var w := After(Oci, v, AskAndWrite(text, more, rest, db));
      && w.server == Pushed(v.server, WRAPPER).(working := db)
      && w.cursors == v.cursors[v.registry.nextId := rest]
      && w.registry.ids == v.registry.ids[text := v.registry.nextId][more := NextId(v.registry.nextId)]
      && w.registry.nextId == NextId(NextId(v.registry.nextId))
  {
    var stream := [Fetched([]), Fetched([])] + rest;
    TwoRowsLead(rest);
    assert stream[2..] == rest;
    var run := AskAndWrite(text, more, rest, db);
    TwoRequests(Oci, v, run[0], run[1]);
    AskSteps(v, text, Reads(stream), stream);
    WriteSteps(Served(Oci, v, run[0]).0, more, Writes(db), db);
  }

  // Query, write, query, write; the first query is read to its end, and then
  // the second breaks off.
  function LossyRun(d1: Database, d2: Database): seq<Request> {
    AskAndWrite("a", "u", [], d1) + (AskAndWrite("b", "w", [Broken(d2)], d2) + [Fetch(Some((3, 1))), Fetch(Some((5, 1)))])
  }

  // From login on: both writes are lost, the one before the broken query
  // included, and Oracle keeps both.
  lemma BrokenFetchLosesWork(d0: Database, d1: Database, d2: Database)
    ensures var v, o := SessionView(Initial(Oci), Began(d0), map[]), OracleTransactions.Oracle(Initial(Oci), d0, d0, [], map[]);
      && After(Oci, v, LossyRun(d1, d2)).server.working == d0
      && OracleReplies(Oci, o, LossyRun(d1, d2)).0.working == d2
  {
    SessionEnds(SessionView(Initial(Oci), Began(d0), map[]), d0, d1, d2);
    OracleEnds(OracleTransactions.Oracle(Initial(Oci), d0, d0, [], map[]), d1, d2);
  }

  lemma LossyStart(v: SessionView, d0: Database, d1: Database)
    requires v == SessionView(Initial(Oci), Began(d0), map[])
    ensures var w := After(Oci, v, AskAndWrite("a", "u", [], d1));
      && w.server == Pushed(v.server, WRAPPER).(working := d1) && w.cursors == map[3 := []]
      && w.registry.nextId == 5 && "b" !in w.registry.ids && "w" !in w.registry.ids
  {
    AskAndWriteSteps(v, "a", "u", [], d1);
  }

  lemma LossyMiddle(v: SessionView, d2: Database)
    requires v.server.status.Active? && v.cursors == map[3 := []]
    requires v.registry.nextId == 5 && "b" !in v.registry.ids && "w" !in v.registry.ids
    ensures var w := After(Oci, v, AskAndWrite("b", "w", [Broken(d2)], d2));
      && w.server == Pushed(v.server, WRAPPER).(working := d2)
      && w.cursors == map[3 := [], 5 := [Broken(d2)]]
  {
    AskAndWriteSteps(v, "b", "w", [Broken(d2)], d2);
  }

  lemma SessionEnds(v: SessionView, d0: Database, d1: Database, d2: Database)
    requires v == SessionView(Initial(Oci), Began(d0), map[])
    ensures After(Oci, v, LossyRun(d1, d2)).server.working == d0
  {
    var first, second := AskAndWrite("a", "u", [], d1), AskAndWrite("b", "w", [Broken(d2)], d2);
    var fetches := [Fetch(Some((3, 1))), Fetch(Some((5, 1)))];
    AfterInTwo(Oci, v, first, second + fetches);
    LossyStart(v, d0, d1);
    var v2 := After(Oci, v, first);
    AfterInTwo(Oci, v2, second, fetches);
    LossyMiddle(v2, d2);
    var v4 := After(Oci, v2, second);
    TwoRequests(Oci, v4, fetches[0], fetches[1]);
    CursorsEnd(v, v2, v4, d2);
  }

  lemma CursorsEnd(v: SessionView, v2: SessionView, v4: SessionView, d2: Database)
    requires v.server.status.Active? && v2.server == Pushed(v.server, WRAPPER).(working := v2.server.working)
    requires v4.server == Pushed(v2.server, WRAPPER).(working := v4.server.working)
    requires v4.cursors == map[3 := [], 5 := [Broken(d2)]]
    ensures var v5 := Served(Oci, v4, Fetch(Some((3, 1)))).0;
      Served(Oci, v5, Fetch(Some((5, 1)))).0.server == v.server
  {
    EndSteps(v4, 3, v2.server);
    BreakSteps(Served(Oci, v4, Fetch(Some((3, 1)))).0, 5, d2, v.server);
  }

  lemma {:induction false} OracleOneMore(mode: Mode, o: Oracle, requests: seq<Request>, last: Request)
    ensures OracleReplies(mode, o, requests + [last]).0 == Answered(mode, OracleReplies(mode, o, requests).0, last).0
    decreases |requests|
  {
    if requests == [] {
      assert [] + [last] == [last] && [last][1..] == [];
    } else {
      assert (requests + [last])[1..] == requests[1..] + [last];
      OracleOneMore(mode, Answered(mode, o, requests[0]).0, requests[1..], last);
    }
  }

  lemma WritesSetWorking(o: Oracle, text: string, db: Database)
    ensures Answered(Oci, o, Statement(text, Simple(Dml(Writes(db), true)))).0.working == db
  {
  }

  lemma FetchesKeepWorking(o: Oracle, named: Option<(nat, nat)>)
    ensures Answered(Oci, o, Fetch(named)).0.working == o.working
  {
  }

  // Only the last write matters to Oracle.
  lemma OracleEnds(o: Oracle, d1: Database, d2: Database)
    ensures OracleReplies(Oci, o, LossyRun(d1, d2)).0.working == d2
  {
    var r := LossyRun(d1, d2);
    assert r == r[..5] + [r[5]] && r[..5] == r[..4] + [r[4]] && r[..4] == r[..3] + [r[3]];
    OracleOneMore(Oci, o, r[..5], r[5]);
    OracleOneMore(Oci, o, r[..4], r[4]);
    OracleOneMore(Oci, o, r[..3], r[3]);
    WritesSetWorking(OracleReplies(Oci, o, r[..3]).0, "w", d2);
    FetchesKeepWorking(OracleReplies(Oci, o, r[..4]).0, Some((3, 1)));
    FetchesKeepWorking(OracleReplies(Oci, o, r[..5]).0, Some((5, 1)));
  }
}
