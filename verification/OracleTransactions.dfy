/** An Oracle session without wrapper savepoints, and what refines it. */
module OracleTransactions {
  import opened Wrappers
  import opened Postgres
  import opened Backend
  import opened CursorRegistry
  import opened SessionLoop

  // A transaction is always open. Savepoint names are distinct, oldest first.
  datatype Oracle = Oracle(
    registry: Registry,
    committed: Database,
    working: Database,
    points: seq<Savepoint>,
    cursors: map<nat, seq<Item>>)

  // ---- Oracle's own transitions --------------------------------------------------

  function Without(points: seq<Savepoint>, name: string): seq<Savepoint> {
    if points == [] then []
    else
      var older, p := points[..|points| - 1], points[|points| - 1];
      if p.name == name then Without(older, name) else Without(older, name) + [p]
  }

  function Simply(o: Oracle, statement: Statement): (Oracle, Reply) {
    match statement
    case CommitText => (o.(committed := o.working, points := []), Completed(0))
    case RollbackText => (o.(working := o.committed, points := []), Completed(0))
    case BeginText => (o, Completed(0))
    case SavepointText(name) =>
      // setting a savepoint again moves it
      (o.(points := Without(o.points, name) + [Savepoint(name, o.working)]), Completed(0))
    case ReleaseText(_) => (o, Failed)
    case RollbackToText(name) =>
      var j := Innermost(o.points, name);
      if j < 0 then (o, Failed)
      else (o.(working := o.points[j].snapshot, points := o.points[..j + 1]), Completed(0))
    case Dml(effect, converts) =>
      if !converts then (o, Failed)
      else match effect(o.working)
        case Done(db, rows) => (o.(working := db), Completed(rows))
        case Raised(_) => (o, Failed)
  }

  // DDL commits what came before it, and then itself if it succeeds.
  function Defined(o: Oracle, effect: Database -> Outcome, bindFree: bool, converts: bool): (Oracle, Reply) {
    var before := o.(committed := o.working, points := []);
    if !bindFree && !converts then (before, Failed)
    else match effect(o.working)
      case Done(db, rows) => (before.(committed := db, working := db), Completed(if bindFree then 0 else rows))
      case Raised(_) => (before, Failed)
  }

  ghost predicate Breaks(stream: seq<Item>, n: nat) {
    Lead(stream) < n && Lead(stream) < |stream|
  }

  // A batch changes nothing but the cursor.
  ghost function Batch(o: Oracle, id: nat, stream: seq<Item>, n: nat): (Oracle, Reply) {
    var k := Lead(stream);
    if k >= n then (o.(cursors := o.cursors[id := stream[n..]]), Delivery(id, Rows(stream[..n]), true))
    else if k == |stream| then (o.(cursors := o.cursors - {id}), Delivery(id, Rows(stream), false))
    else (o.(cursors := o.cursors - {id}), Failed)
  }

  // A query that breaks in its first batch leaves nothing behind.
  ghost function Asked(o: Oracle, query: Database -> QueryOutcome, converts: bool, n: nat): (Oracle, Reply) {
    var id := o.registry.cursorId;
    var closed := o.(cursors := o.cursors - {id});
    if !converts then (closed, Failed)
    else match query(o.working)
      case OpenRaised(_) => (closed, Failed)
      case Opened(db, _, stream) =>
        if Breaks(stream, n) then (closed, Failed) else Batch(closed.(working := db), id, stream, n)
  }

  ghost function Did(o: Oracle, plan: Plan, n: nat): (Oracle, Reply) {
    match plan
    case Rejected => (o, Failed)
    case Query(query, converts) => Asked(o, query, converts, n)
    case Ddl(effect, bindFree, converts) => Defined(o, effect, bindFree, converts)
    case Simple(statement) => Simply(o, statement)
  }

  ghost function Answered(mode: Mode, o: Oracle, request: Request): (Oracle, Reply) {
    match request
    case Execution(frame, prefetch, plan) =>
      (match Resolve(mode, o.registry, frame)
       case None => (o, Failed)
       case Some(p) =>
         Did(o.(registry := CursorRegistry.Step(mode, o.registry, frame)), plan(p.sql), FirstBatch(mode, prefetch)))
    case Fetch(named) =>
      var id := if named.Some? && named.value.0 != 0 then named.value.0 else o.registry.cursorId;
      if id in o.cursors then Batch(o, id, o.cursors[id], FetchRows(mode, named))
      else (o, Delivery(if mode.Oci? then o.registry.cursorId else 0, [], false))
    case EndTransaction(commit) => Simply(o.(cursors := map[]), if commit then CommitText else RollbackText)
    case Logoff => (o.(cursors := map[]), Completed(0))
  }

  // ---- The refinement relation -----------------------------------------------------

  predicate Below(points: seq<Savepoint>, client: seq<Savepoint>, k: int) {
    points == [] || Innermost(client, points[|points| - 1].name) < k
  }

  // Oracle's savepoints are the innermost of their names on the server, in the
  // same order; the server may hold older ones as well.
  predicate Matches(points: seq<Savepoint>, client: seq<Savepoint>)
    decreases |points|
  {
    points == []
    || (var older, p := points[..|points| - 1], points[|points| - 1];
        var k := Innermost(client, p.name);
        k >= 0 && client[k] == p && Below(older, client, k) && Matches(older, client))
  }

  // The innermost `n` savepoints are wrappers; others may lie beneath them.
  predicate Layered(stack: seq<Savepoint>, n: nat) {
    n <= |stack| && forall i | |stack| - n <= i < |stack| :: stack[i].name == WRAPPER
  }

  // What lies beneath: the client's savepoints, and wrappers left behind.
  function Client(stack: seq<Savepoint>, n: nat): seq<Savepoint> {
    if n <= |stack| then stack[..|stack| - n] else []
  }

  ghost predicate Refines(v: SessionView, o: Oracle) {
    && v.server.status.Active?
    && v.registry == o.registry && v.cursors == o.cursors
    && v.server.committed == o.committed && v.server.working == o.working
    && Layered(v.server.stack, |v.cursors|)
    && Matches(o.points, Client(v.server.stack, |v.cursors|))
    && Innermost(o.points, WRAPPER) < 0
  }

  // The same state afterwards, and the same reply.
  ghost predicate Follows(w: (SessionView, Reply), u: (Oracle, Reply)) {
    Refines(w.0, u.0) && w.1 == u.1
  }

  // What the client keeps to: savepoint commands, DDL and transaction-control
  // text come only while no cursor is open; savepoint names are live and never
  // the wrapper's.
  predicate Keeps(o: Oracle, plan: Plan) {
    match plan
    case Rejected => true
    case Query(_, _) => true
    case Ddl(_, _, _) => o.cursors == map[]
    case Simple(statement) =>
      match statement
      case CommitText => o.cursors == map[]
      case RollbackText => o.cursors == map[]
      case BeginText => true
      case SavepointText(name) => o.cursors == map[] && name != WRAPPER
      case ReleaseText(_) => false
      case RollbackToText(name) => o.cursors == map[] && Innermost(o.points, name) >= 0
      case Dml(_, _) => true
  }

  // A broken fetch rolls back to the innermost wrapper, so nothing may have
  // been written since.
  ghost predicate NothingToLose(mode: Mode, v: SessionView, named: Option<(nat, nat)>) {
    var id, k := FetchId(v, named), Innermost(v.server.stack, WRAPPER);
    id in v.cursors && Breaks(v.cursors[id], FetchRows(mode, named)) ==>
      k >= 0 && v.server.stack[k].snapshot == v.server.working
  }

  ghost predicate Assumed(mode: Mode, v: SessionView, o: Oracle, request: Request) {
    match request
    case Execution(frame, _, plan) =>
      (match Resolve(mode, o.registry, frame)
       case None => true
       case Some(p) => Keeps(o, plan(p.sql)))
    case Fetch(named) => NothingToLose(mode, v, named)
    case EndTransaction(_) => true
    case Logoff => true
  }

  // ---- Stacks ------------------------------------------------------------------------

  lemma PopWrapper(s: Server, n: nat)
    requires Layered(s.stack, n) && n > 0
    ensures Innermost(s.stack, WRAPPER) == |s.stack| - 1
    ensures var rest := s.stack[..|s.stack| - 1];
      && Layered(rest, n - 1) && Client(rest, n - 1) == Client(s.stack, n)
      && (s.status.Active? ==> Finished(s) == s.(stack := rest))
      && (!s.status.Idle? ==>
            Recovered(s) == Server(s.committed, s.stack[|s.stack| - 1].snapshot, rest, Active))
  {
    var top := |s.stack| - 1;
    InnermostIn(s.stack, WRAPPER, top);
    if !s.status.Idle? {
      assert s.stack[..top + 1] == s.stack;
      TwoCommands(s, RollbackTo(WRAPPER), Release(WRAPPER));
    }
  }

  lemma PushWrapper(s: Server, n: nat)
    requires Layered(s.stack, n)
    ensures var more := Pushed(s, WRAPPER).stack;
      Layered(more, n + 1) && Client(more, n + 1) == Client(s.stack, n)
  {
  }

  // A wrapper left behind moves the ones of the cursors up by one.
  lemma LeftBehind(s: Server, n: nat)
    requires Layered(s.stack, n)
    ensures var more := Pushed(s, WRAPPER).stack;
      && Layered(more, n) && more[|s.stack| - n].name == WRAPPER
      && Client(more, n) == Client(s.stack, n) + [more[|s.stack| - n]]
  {
  }

  lemma ClientOnTop(s: Server, name: string, n: nat)
    requires name != WRAPPER && n > 0
    ensures !Layered(Pushed(s, name).stack, n)
  {
    assert Pushed(s, name).stack[|s.stack|].name == name;
  }

  lemma CutBreaksLayers(stack: seq<Savepoint>, k: nat, n: nat)
    requires k < |stack| && stack[k].name != WRAPPER && n > 0
    ensures !Layered(stack[..k + 1], n)
  {
    assert stack[..k + 1][k] == stack[k];
  }

  lemma {:induction false} PopAll(s: Server, n: nat)
    requires s.status.Active? && Layered(s.stack, n)
    ensures FinishedTimes(s, n) == s.(stack := Client(s.stack, n))
    decreases n
  {
    if n == 0 {
      assert s.stack[..|s.stack|] == s.stack;
    } else {
      PopWrapper(s, n);
      PopAll(Finished(s), n - 1);
    }
  }

  // ---- Savepoints ----------------------------------------------------------------------

  // Setting a savepoint hides the ones of its name and no others.
  lemma {:induction false} MatchesBeneath(points: seq<Savepoint>, client: seq<Savepoint>, p: Savepoint, k: int)
    requires Matches(points, client) && Below(points, client, k)
    ensures Matches(Without(points, p.name), client + [p]) && Below(Without(points, p.name), client + [p], k)
    decreases |points|
  {
    if points != [] {
      var older, last := points[..|points| - 1], points[|points| - 1];
      MatchesBeneath(older, client, p, Innermost(client, last.name));
      if last.name != p.name {
        PushKeepsInnermost(client, p, last.name);
        var rest := Without(older, p.name);
        assert (rest + [last])[..|rest|] == rest;
      }
    }
  }

  lemma MatchesExtends(points: seq<Savepoint>, client: seq<Savepoint>, p: Savepoint)
    requires Matches(points, client)
    ensures Matches(Without(points, p.name) + [p], client + [p])
  {
    var rest := Without(points, p.name);
    InnermostIsLast(client, p);
    MatchesBeneath(points, client, p, |client|);
    assert (rest + [p])[..|rest|] == rest;
  }

  lemma {:induction false} MatchesPrefix(points: seq<Savepoint>, client: seq<Savepoint>, j: nat)
    requires Matches(points, client) && j <= |points|
    ensures Matches(points[..j], client)
    decreases |points|
  {
    if j == |points| {
      assert points[..j] == points;
    } else {
      assert points[..|points| - 1][..j] == points[..j];
      MatchesPrefix(points[..|points| - 1], client, j);
    }
  }

  lemma {:induction false} MatchesCut(points: seq<Savepoint>, client: seq<Savepoint>, m: nat)
    requires Matches(points, client) && Below(points, client, m) && m <= |client|
    ensures Matches(points, client[..m])
    decreases |points|
  {
    if points != [] {
      var older, p := points[..|points| - 1], points[|points| - 1];
      InnermostBelow(client, p.name, m);
      MatchesCut(older, client, m);
      if older != [] {
        InnermostBelow(client, older[|older| - 1].name, m);
      }
    }
  }

  // A savepoint that only the server has, of a name Oracle does not know.
  lemma {:induction false} MatchesUnderStranger(points: seq<Savepoint>, client: seq<Savepoint>, p: Savepoint, k: int)
    requires Matches(points, client) && Below(points, client, k) && Innermost(points, p.name) < 0
    ensures Matches(points, client + [p]) && Below(points, client + [p], k)
    decreases |points|
  {
    if points != [] {
      var older, last := points[..|points| - 1], points[|points| - 1];
      MatchesUnderStranger(older, client, p, Innermost(client, last.name));
      PushKeepsInnermost(client, p, last.name);
    }
  }

  lemma LeftBehindMatches(points: seq<Savepoint>, s: Server, n: nat)
    requires Layered(s.stack, n) && Matches(points, Client(s.stack, n)) && Innermost(points, WRAPPER) < 0
    ensures var more := Pushed(s, WRAPPER).stack; Layered(more, n) && Matches(points, Client(more, n))
  {
    LeftBehind(s, n);
    MatchesUnderStranger(points, Client(s.stack, n), Pushed(s, WRAPPER).stack[|s.stack| - n], |s.stack|);
  }

  lemma {:induction false} WithoutKeepsUnknown(points: seq<Savepoint>, name: string, other: string)
    requires Innermost(points, other) < 0
    ensures Innermost(Without(points, name), other) < 0
    decreases |points|
  {
    if points != [] {
      var older, p := points[..|points| - 1], points[|points| - 1];
      WithoutKeepsUnknown(older, name, other);
      if p.name != name {
        PushKeepsInnermost(Without(older, name), p, other);
      }
    }
  }

  // ---- One request -------------------------------------------------------------------------

  // What a savepoint command does to the stack while no cursor is open.
  lemma SetMatches(points: seq<Savepoint>, stack: seq<Savepoint>, p: Savepoint, n: nat)
    requires n == 0 && Layered(stack, n) && Matches(points, Client(stack, n)) && p.name != WRAPPER
    ensures Layered(stack + [p], n) && Matches(Without(points, p.name) + [p], Client(stack + [p], n))
  {
    assert Client(stack, 0) == stack && Client(stack + [p], 0) == stack + [p];
    MatchesExtends(points, stack, p);
  }

  lemma SetStaysOffWrapper(points: seq<Savepoint>, p: Savepoint)
    requires Innermost(points, WRAPPER) < 0
    ensures Innermost(Without(points, p.name) + [p], WRAPPER) < 0 <==> p.name != WRAPPER
  {
    WithoutKeepsUnknown(points, p.name, WRAPPER);
    if p.name != WRAPPER {
      PushKeepsInnermost(Without(points, p.name), p, WRAPPER);
    } else {
      InnermostIsLast(Without(points, p.name), p);
    }
  }

  lemma {:induction false} BothCut(points: seq<Savepoint>, client: seq<Savepoint>, j: nat, k: int)
    requires Matches(points, client) && j < |points| && k == Innermost(client, points[j].name)
    ensures k >= 0 && client[k] == points[j] && Matches(points[..j + 1], client[..k + 1])
  {
    MatchesPrefix(points, client, j + 1);
    assert points[..j + 1][j] == points[j];
    MatchesCut(points[..j + 1], client, k + 1);
  }

  lemma {:induction false} CutMatches(points: seq<Savepoint>, stack: seq<Savepoint>, j: nat, n: nat, k: int)
    requires n == 0 && Layered(stack, n) && Matches(points, Client(stack, n))
    requires j < |points| && k == Innermost(stack, points[j].name)
    ensures k >= 0 && stack[k] == points[j]
    ensures Layered(stack[..k + 1], n) && Matches(points[..j + 1], Client(stack[..k + 1], n))
  {
    assert Client(stack, 0) == stack;
    BothCut(points, stack, j, k);
    assert Client(stack[..k + 1], 0) == stack[..k + 1];
  }

  lemma SetIsRefined(v: SessionView, o: Oracle, p: Savepoint)
    requires Refines(v, o) && o.cursors == map[] && p == Savepoint(p.name, v.server.working) && p.name != WRAPPER
    ensures Refines(v.(server := Pushed(v.server, p.name)), o.(points := Without(o.points, p.name) + [p]))
  {
    SetStaysOffWrapper(o.points, p);
    SetMatches(o.points, v.server.stack, p, |v.cursors|);
  }

  lemma SetDiffers(v: SessionView, o: Oracle, p: Savepoint)
    requires Refines(v, o) && p == Savepoint(p.name, v.server.working) && (o.cursors != map[] || p.name == WRAPPER)
    ensures !Refines(v.(server := Pushed(v.server, p.name)), o.(points := Without(o.points, p.name) + [p]))
  {
    if p.name == WRAPPER {
      SetStaysOffWrapper(o.points, p);
    } else {
      ClientOnTop(v.server, p.name, |v.cursors|);
    }
  }

  lemma SavepointRefines(v: SessionView, o: Oracle, name: string, n: nat)
    requires Refines(v, o)
    ensures Follows(Performed(v, Simple(SavepointText(name)), n), Simply(o, SavepointText(name))) <==>
      o.cursors == map[] && name != WRAPPER
  {
    var p := Savepoint(name, v.server.working);
    if o.cursors == map[] && name != WRAPPER {
      SetIsRefined(v, o, p);
    } else {
      SetDiffers(v, o, p);
    }
  }

  lemma PrefixStaysUnknown(points: seq<Savepoint>, name: string, m: nat)
    requires Innermost(points, name) < 0 && m <= |points|
    ensures Innermost(points[..m], name) < 0
  {
    InnermostBelow(points, name, m);
  }

  lemma {:induction false} CutIsRefined(v: SessionView, o: Oracle, j: nat, k: nat)
    requires Refines(v, o) && o.cursors == map[] && j < |o.points| && k == Innermost(v.server.stack, o.points[j].name)
    ensures k < |v.server.stack| && v.server.stack[k] == o.points[j]
    ensures Refines(v.(server := Server(v.server.committed, v.server.stack[k].snapshot, v.server.stack[..k + 1], Active)),
                    o.(working := o.points[j].snapshot, points := o.points[..j + 1]))
  {
    PrefixStaysUnknown(o.points, WRAPPER, j + 1);
    CutMatches(o.points, v.server.stack, j, |v.cursors|, k);
  }

  lemma ServerCuts(v: SessionView, name: string, n: nat, k: nat)
    requires v.server.status.Active? && k == Innermost(v.server.stack, name)
    ensures Performed(v, Simple(RollbackToText(name)), n) ==
      (v.(server := Server(v.server.committed, v.server.stack[k].snapshot, v.server.stack[..k + 1], Active)), Completed(0))
  {
  }

  lemma RollbackToIs(v: SessionView, o: Oracle, name: string, n: nat, j: nat, k: nat)
    requires v.server.status.Active? && k == Innermost(v.server.stack, name) && j == Innermost(o.points, name)
    ensures Performed(v, Simple(RollbackToText(name)), n) ==
      (v.(server := Server(v.server.committed, v.server.stack[k].snapshot, v.server.stack[..k + 1], Active)), Completed(0))
    ensures Simply(o, RollbackToText(name)) ==
      (o.(working := o.points[j].snapshot, points := o.points[..j + 1]), Completed(0))
  {
    ServerCuts(v, name, n, k);
  }

  lemma LiveOnTheServer(v: SessionView, o: Oracle, j: nat)
    requires Refines(v, o) && o.cursors == map[] && j < |o.points|
    ensures Innermost(v.server.stack, o.points[j].name) >= 0
  {
    CutMatches(o.points, v.server.stack, j, |v.cursors|, Innermost(v.server.stack, o.points[j].name));
  }

  lemma LiveRollbackRefines(v: SessionView, o: Oracle, name: string, n: nat)
    requires Refines(v, o) && o.cursors == map[] && Innermost(o.points, name) >= 0
    ensures Follows(Performed(v, Simple(RollbackToText(name)), n), Simply(o, RollbackToText(name)))
  {
    var j := Innermost(o.points, name);
    LiveOnTheServer(v, o, j);
    var k := Innermost(v.server.stack, name);
    CutIsRefined(v, o, j, k);
    RollbackToIs(v, o, name, n, j, k);
  }

  // A name that is not live is an error to Oracle; the server either takes it
  // or aborts.
  lemma DeadRollbackDiffers(v: SessionView, o: Oracle, name: string, n: nat)
    requires v.server.status.Active? && Innermost(o.points, name) < 0
    ensures !Follows(Performed(v, Simple(RollbackToText(name)), n), Simply(o, RollbackToText(name)))
  {
  }

  // One that the server has is rolled back to at the cost of the wrappers above.
  lemma CutDiffers(v: SessionView, name: string, n: nat, k: nat, u: (Oracle, Reply))
    requires v.server.status.Active? && |v.cursors| > 0 && name != WRAPPER && k == Innermost(v.server.stack, name)
    ensures !Follows(Performed(v, Simple(RollbackToText(name)), n), u)
  {
    ServerCuts(v, name, n, k);
    CutBreaksLayers(v.server.stack, k, |v.cursors|);
  }

  lemma AbortDiffers(v: SessionView, name: string, n: nat, u: (Oracle, Reply))
    requires v.server.status.Active? && Innermost(v.server.stack, name) < 0
    ensures !Follows(Performed(v, Simple(RollbackToText(name)), n), u)
  {
  }

  lemma RollbackBeneathDiffers(v: SessionView, o: Oracle, name: string, n: nat)
    requires Refines(v, o) && |v.cursors| > 0
    ensures !Follows(Performed(v, Simple(RollbackToText(name)), n), Simply(o, RollbackToText(name)))
  {
    var k := Innermost(v.server.stack, name);
    if k < 0 {
      AbortDiffers(v, name, n, Simply(o, RollbackToText(name)));
    } else if name != WRAPPER {
      CutDiffers(v, name, n, k, Simply(o, RollbackToText(name)));
    } else {
      DeadRollbackDiffers(v, o, name, n);
    }
  }

  // Rolling back to a savepoint is Oracle's exactly if no cursor is open and
  // the name is live.
  lemma RollbackToRefines(v: SessionView, o: Oracle, name: string, n: nat)
    requires Refines(v, o)
    ensures Follows(Performed(v, Simple(RollbackToText(name)), n), Simply(o, RollbackToText(name))) <==>
      o.cursors == map[] && Innermost(o.points, name) >= 0
  {
    if o.cursors != map[] {
      RollbackBeneathDiffers(v, o, name, n);
    } else if Innermost(o.points, name) >= 0 {
      LiveRollbackRefines(v, o, name, n);
    } else {
      DeadRollbackDiffers(v, o, name, n);
    }
  }

  // Whatever empties the stack leaves open cursors without wrappers.
  lemma EmptiedStackRefines(v: SessionView, o: Oracle, committed: Database)
    requires Refines(v, o)
    ensures Refines(v.(server := Began(committed)), o.(committed := committed, working := committed, points := [])) <==>
      o.cursors == map[]
  {
  }

  lemma LeftBehindRefines(v: SessionView, o: Oracle)
    requires Refines(v, o)
    ensures Refines(v.(server := Pushed(v.server, WRAPPER)), o)
  {
    LeftBehindMatches(o.points, v.server, |v.cursors|);
  }

  lemma DmlRefines(v: SessionView, o: Oracle, effect: Database -> Outcome, converts: bool, n: nat)
    requires Refines(v, o)
    ensures Follows(Performed(v, Simple(Dml(effect, converts)), n), Simply(o, Dml(effect, converts)))
  {
    LeftBehindRefines(v, o);
  }

  lemma SimpleRefines(v: SessionView, o: Oracle, statement: Statement, n: nat)
    requires Refines(v, o)
    ensures Follows(Performed(v, Simple(statement), n), Simply(o, statement)) <==> Keeps(o, Simple(statement))
  {
    match statement
    case CommitText => EmptiedStackRefines(v, o, o.working);
    case RollbackText => EmptiedStackRefines(v, o, o.committed);
    case BeginText =>
    case SavepointText(name) => SavepointRefines(v, o, name, n);
    case ReleaseText(_) =>
    case RollbackToText(name) => RollbackToRefines(v, o, name, n);
    case Dml(effect, converts) => DmlRefines(v, o, effect, converts, n);
  }

  // A cursor taken from the map, with its wrapper on the stack.
  ghost predicate InHand(v: SessionView, o: Oracle, id: nat) {
    var m := |v.cursors - {id}| + 1;
    && v.server.status.Active? && v.registry == o.registry && v.cursors == o.cursors
    && v.server.committed == o.committed && v.server.working == o.working
    && Layered(v.server.stack, m) && Matches(o.points, Client(v.server.stack, m))
    && Innermost(o.points, WRAPPER) < 0
  }

  lemma PutBackRefines(v: SessionView, o: Oracle, id: nat, stream: seq<Item>)
    requires InHand(v, o, id)
    ensures Refines(v.(cursors := v.cursors[id := stream]), o.(cursors := o.cursors[id := stream]))
  {
    OneMore(v.cursors, id, stream);
  }

  lemma ReleaseRefines(v: SessionView, o: Oracle, id: nat)
    requires InHand(v, o, id)
    ensures Refines(v.(server := Finished(v.server), cursors := v.cursors - {id}), o.(cursors := o.cursors - {id}))
  {
    PopWrapper(v.server, |v.cursors - {id}| + 1);
  }

  // A batch that does not break.
  lemma BatchRefines(v: SessionView, o: Oracle, id: nat, stream: seq<Item>, n: nat)
    requires InHand(v, o, id) && !Breaks(stream, n)
    ensures Follows(Delivered(v, id, stream, n), Batch(o, id, stream, n))
  {
    if Lead(stream) >= n {
      PutBackRefines(v, o, id, stream[n..]);
    } else {
      ReleaseRefines(v, o, id);
    }
  }

  // One that does rolls back to the innermost wrapper.
  lemma BreakRollsBack(v: SessionView, id: nat, stream: seq<Item>, n: nat)
    requires v.server.status.Active? && Layered(v.server.stack, |v.cursors - {id}| + 1)
    requires Breaks(stream, n)
    ensures var s := v.server;
      var w := Delivered(v, id, stream, n);
      && w.1 == Failed && w.0.cursors == v.cursors - {id} && w.0.registry == v.registry
      && w.0.server == Server(s.committed, s.stack[|s.stack| - 1].snapshot, s.stack[..|s.stack| - 1], Active)
  {
    PopWrapper(Broke(v.server, stream[Lead(stream)].left), |v.cursors - {id}| + 1);
  }

  lemma MappedIsInHand(v: SessionView, o: Oracle, id: nat)
    requires Refines(v, o) && id in v.cursors
    ensures InHand(v, o, id)
  {
    OneMore(v.cursors, id, v.cursors[id]);
  }

  lemma ReplacedRefines(v: SessionView, o: Oracle)
    requires Refines(v, o)
    ensures Refines(Replaced(v), o.(cursors := o.cursors - {o.registry.cursorId}))
    ensures Replaced(v).cursors == v.cursors - {v.registry.cursorId} && Replaced(v).registry == v.registry
  {
    var id := v.registry.cursorId;
    if id in v.cursors {
      MappedIsInHand(v, o, id);
      ReleaseRefines(v, o, id);
    } else {
      assert v.cursors - {id} == v.cursors;
    }
  }

  lemma OpenedIsInHand(w: SessionView, o: Oracle, id: nat, db: Database)
    requires Refines(w, o) && id !in w.cursors
    ensures InHand(w.(server := Pushed(w.server, WRAPPER).(working := db)), o.(working := db), id)
  {
    assert w.cursors - {id} == w.cursors;
    PushWrapper(w.server, |w.cursors|);
  }

  lemma QueryBreakRefines(w: SessionView, o: Oracle, id: nat, db: Database, stream: seq<Item>, n: nat)
    requires Refines(w, o) && id !in w.cursors && Breaks(stream, n)
    ensures Delivered(w.(server := Pushed(w.server, WRAPPER).(working := db)), id, stream, n) == (w, Failed)
  {
    OpenedIsInHand(w, o, id, db);
    BreakRollsBack(w.(server := Pushed(w.server, WRAPPER).(working := db)), id, stream, n);
    assert w.cursors - {id} == w.cursors;
    assert (w.server.stack + [Savepoint(WRAPPER, w.server.working)])[..|w.server.stack|] == w.server.stack;
  }

  // A query opened on a session without a cursor of its id.
  lemma OpenedRefines(w: SessionView, closed: Oracle, id: nat, db: Database, stream: seq<Item>, n: nat)
    requires Refines(w, closed) && id !in w.cursors
    ensures var u := if Breaks(stream, n) then (closed, Failed) else Batch(closed.(working := db), id, stream, n);
      Follows(Delivered(w.(server := Pushed(w.server, WRAPPER).(working := db)), id, stream, n), u)
  {
    if Breaks(stream, n) {
      QueryBreakRefines(w, closed, id, db, stream, n);
    } else {
      OpenedIsInHand(w, closed, id, db);
      BatchRefines(w.(server := Pushed(w.server, WRAPPER).(working := db)), closed.(working := db), id, stream, n);
    }
  }

  // Binds that do not convert leave a wrapper, which Oracle's side does not see.
  lemma UnconvertedRefines(v: SessionView, o: Oracle, query: Database -> QueryOutcome, n: nat)
    requires Refines(v, o)
    ensures Follows(Queried(v, query, false, n), Asked(o, query, false, n))
  {
    ReplacedRefines(v, o);
    LeftBehindRefines(Replaced(v), o.(cursors := o.cursors - {o.registry.cursorId}));
  }

  lemma ConvertedRefines(v: SessionView, o: Oracle, query: Database -> QueryOutcome, n: nat)
    requires Refines(v, o)
    ensures Follows(Queried(v, query, true, n), Asked(o, query, true, n))
  {
    ReplacedRefines(v, o);
    var id, w := v.registry.cursorId, Replaced(v);
    var outcome := query(o.working);
    if outcome.Opened? {
      OpenedRefines(w, o.(cursors := o.cursors - {id}), id, outcome.db, outcome.stream, n);
    }
  }

  lemma QueryRefines(v: SessionView, o: Oracle, query: Database -> QueryOutcome, converts: bool, n: nat)
    requires Refines(v, o)
    ensures Follows(Queried(v, query, converts, n), Asked(o, query, converts, n))
  {
    if converts {
      ConvertedRefines(v, o, query, n);
    } else {
      UnconvertedRefines(v, o, query, n);
    }
  }

  lemma WorkingDecides(v: SessionView, o: Oracle, db: Database)
    requires Refines(v, o)
    ensures Refines(v.(server := v.server.(working := db)), o) <==> db == v.server.working
  {
  }

  lemma BrokenFetchRefines(v: SessionView, o: Oracle, id: nat, n: nat)
    requires Refines(v, o) && id in v.cursors && Breaks(v.cursors[id], n)
    ensures var k := Innermost(v.server.stack, WRAPPER);
      && k >= 0
      && (Refines(Delivered(v, id, v.cursors[id], n).0, Batch(o, id, v.cursors[id], n).0) <==>
            v.server.stack[k].snapshot == v.server.working)
  {
    MappedIsInHand(v, o, id);
    BreakRollsBack(v, id, v.cursors[id], n);
    PopWrapper(v.server, |v.cursors|);
    ReleaseRefines(v, o, id);
    var released := v.(server := Finished(v.server), cursors := v.cursors - {id});
    WorkingDecides(released, o.(cursors := o.cursors - {id}), v.server.stack[|v.server.stack| - 1].snapshot);
  }

  // A fetch always replies as Oracle; it is Oracle's exactly if breaking it
  // loses no work.
  lemma FetchRefines(mode: Mode, v: SessionView, o: Oracle, named: Option<(nat, nat)>)
    requires Refines(v, o)
    ensures FetchedFrom(mode, v, named).1 == Answered(mode, o, Fetch(named)).1
    ensures Follows(FetchedFrom(mode, v, named), Answered(mode, o, Fetch(named))) <==> NothingToLose(mode, v, named)
  {
    var id, n := FetchId(v, named), FetchRows(mode, named);
    if id in v.cursors {
      if Breaks(v.cursors[id], n) {
        BrokenFetchRefines(v, o, id, n);
      } else {
        MappedIsInHand(v, o, id);
        BatchRefines(v, o, id, v.cursors[id], n);
      }
    }
  }

  lemma DrainedRefines(v: SessionView, o: Oracle)
    requires Refines(v, o)
    ensures Refines(Drained(v), o.(cursors := map[]))
  {
    PopAll(v.server, |v.cursors|);
    var stack := Drained(v).server.stack;
    assert Client(stack, 0) == stack;
  }

  lemma EndRefines(v: SessionView, o: Oracle, commit: bool)
    requires Refines(v, o)
    ensures Follows(Ended(v, commit), Simply(o.(cursors := map[]), if commit then CommitText else RollbackText))
  {
    DrainedRefines(v, o);
    EmptiedStackRefines(Drained(v), o.(cursors := map[]), if commit then o.working else o.committed);
  }

  lemma DdlRefines(v: SessionView, o: Oracle, effect: Database -> Outcome, bindFree: bool, converts: bool, n: nat)
    requires Refines(v, o)
    ensures Follows(Performed(v, Ddl(effect, bindFree, converts), n), Defined(o, effect, bindFree, converts)) <==>
      o.cursors == map[]
  {
    EmptiedStackRefines(v, o, o.working);
    var outcome := effect(o.working);
    if outcome.Done? {
      EmptiedStackRefines(v, o, outcome.db);
    }
  }

  lemma PlanRefines(v: SessionView, o: Oracle, plan: Plan, n: nat)
    requires Refines(v, o)
    ensures Follows(Performed(v, plan, n), Did(o, plan, n)) <==> Keeps(o, plan)
  {
    match plan
    case Rejected =>
    case Query(query, converts) => QueryRefines(v, o, query, converts, n);
    case Ddl(effect, bindFree, converts) => DdlRefines(v, o, effect, bindFree, converts, n);
    case Simple(statement) => SimpleRefines(v, o, statement, n);
  }

  lemma NotedRefines(mode: Mode, v: SessionView, o: Oracle, frame: Frame)
    requires Refines(v, o)
    ensures Refines(Noted(mode, v, frame), o.(registry := CursorRegistry.Step(mode, o.registry, frame)))
  {
  }

  lemma ExecutionRefines(mode: Mode, v: SessionView, o: Oracle, frame: Frame, prefetch: nat, plan: string -> Plan)
    requires Refines(v, o)
    ensures var request := Execution(frame, prefetch, plan);
      Follows(Served(mode, v, request), Answered(mode, o, request)) <==> Assumed(mode, v, o, request)
  {
    var p := Resolve(mode, v.registry, frame);
    if p.Some? {
      var u := o.(registry := CursorRegistry.Step(mode, o.registry, frame));
      NotedRefines(mode, v, o, frame);
      PlanRefines(Noted(mode, v, frame), u, plan(p.value.sql), FirstBatch(mode, prefetch));
    }
  }

  // Same state and same reply, exactly if the request is an assumed one.
  lemma RequestRefines(mode: Mode, v: SessionView, o: Oracle, request: Request)
    requires Refines(v, o)
    ensures Follows(Served(mode, v, request), Answered(mode, o, request)) <==> Assumed(mode, v, o, request)
  {
    match request
    case Execution(frame, prefetch, plan) => ExecutionRefines(mode, v, o, frame, prefetch, plan);
    case Fetch(named) => FetchRefines(mode, v, o, named);
    case EndTransaction(commit) => EndRefines(v, o, commit);
    case Logoff => DrainedRefines(v, o);
  }

  // ---- Whole runs ------------------------------------------------------------------------------

  ghost function Replies(mode: Mode, v: SessionView, requests: seq<Request>): (SessionView, seq<Reply>)
    decreases |requests|
  {
    if requests == [] then (v, [])
    else
      var (w, reply) := Served(mode, v, requests[0]);
      var (last, replies) := Replies(mode, w, requests[1..]);
      (last, [reply] + replies)
  }

  ghost function OracleReplies(mode: Mode, o: Oracle, requests: seq<Request>): (Oracle, seq<Reply>)
    decreases |requests|
  {
    if requests == [] then (o, [])
    else
      var (w, reply) := Answered(mode, o, requests[0]);
      var (last, replies) := OracleReplies(mode, w, requests[1..]);
      (last, [reply] + replies)
  }

  ghost predicate AssumedRun(mode: Mode, v: SessionView, o: Oracle, requests: seq<Request>)
    decreases |requests|
  {
    requests == []
    || (Assumed(mode, v, o, requests[0])
        && AssumedRun(mode, Served(mode, v, requests[0]).0, Answered(mode, o, requests[0]).0, requests[1..]))
  }

  // After every request the state is Oracle's and so was the reply.
  ghost predicate FollowsThroughout(mode: Mode, v: SessionView, o: Oracle, requests: seq<Request>)
    decreases |requests|
  {
    requests == []
    || (var (w, u) := (Served(mode, v, requests[0]), Answered(mode, o, requests[0]));
        Follows(w, u) && FollowsThroughout(mode, w.0, u.0, requests[1..]))
  }

  // A run is Oracle's throughout exactly if every request of it is an assumed
  // one when it comes.
  lemma {:induction false} RunFollows(mode: Mode, v: SessionView, o: Oracle, requests: seq<Request>)
    requires Refines(v, o)
    ensures FollowsThroughout(mode, v, o, requests) <==> AssumedRun(mode, v, o, requests)
    decreases |requests|
  {
    if requests != [] {
      RequestRefines(mode, v, o, requests[0]);
      var w, u := Served(mode, v, requests[0]), Answered(mode, o, requests[0]);
      if Follows(w, u) {
        RunFollows(mode, w.0, u.0, requests[1..]);
      }
    }
  }

  // So over every run that keeps to the assumptions the client cannot tell the
  // session from Oracle, and the transaction is open and usable at the end.
  lemma {:induction false} RunRefines(mode: Mode, v: SessionView, o: Oracle, requests: seq<Request>)
    requires Refines(v, o) && AssumedRun(mode, v, o, requests)
    ensures Refines(Replies(mode, v, requests).0, OracleReplies(mode, o, requests).0)
    ensures Replies(mode, v, requests).1 == OracleReplies(mode, o, requests).1
    decreases |requests|
  {
    if requests != [] {
      RequestRefines(mode, v, o, requests[0]);
      RunRefines(mode, Served(mode, v, requests[0]).0, Answered(mode, o, requests[0]).0, requests[1..]);
    }
  }

  lemma SessionsStartRefined(mode: Mode, committed: Database)
    ensures Refines(SessionView(Initial(mode), Began(committed), map[]),
                    Oracle(Initial(mode), committed, committed, [], map[]))
  {
  }

  // ---- Why the assumptions are needed ---------------------------------------------------------

  // Why names must be live: setting a savepoint again only hides the older one
  // on the server, and rolling back beneath the newer brings it to light.
  lemma HiddenSavepointComesBack(s: Server, o: Oracle, a: string, b: string)
    requires s.status.Active? && a != b
    ensures
      var t := SimpleNet(SimpleNet(SimpleNet(s, SavepointText(a)).0, SavepointText(b)).0, SavepointText(a)).0;
      var u := Simply(Simply(Simply(o, SavepointText(a)).0, SavepointText(b)).0, SavepointText(a)).0;
      && SimpleNet(SimpleNet(t, RollbackToText(b)).0, RollbackToText(a)).1 == Some(0)
      && Simply(Simply(u, RollbackToText(b)).0, RollbackToText(a)).1 == Failed
  {
    HiddenOnTheServer(s, a, b);
    GoneFromOracle(o, a, b);
  }

  // Why the wrapper's name is reserved: a wrapper left behind hides a savepoint
  // that bears it, and rolling back to that one then keeps the work.
  lemma ReservedNameIsHidden(s: Server, o: Oracle, effect: Database -> Outcome, db: Database)
    requires s.status.Active? && s.working == o.working && effect(s.working).Done? && effect(s.working).db == db
    ensures
      var put, write, bad := SavepointText(WRAPPER), Dml(effect, true), Dml(effect, false);
      var t := SimpleNet(SimpleNet(SimpleNet(s, put).0, write).0, bad).0;
      var u := Simply(Simply(Simply(o, put).0, write).0, bad).0;
      && SimpleNet(t, RollbackToText(WRAPPER)).0.working == db
      && Simply(u, RollbackToText(WRAPPER)).0.working == o.working
  {
    var t := Pushed(s, WRAPPER).(working := db);
    InnermostIsLast(t.stack, Savepoint(WRAPPER, db));
    InnermostIsLast(Without(o.points, WRAPPER), Savepoint(WRAPPER, o.working));
  }

  lemma HiddenOnTheServer(s: Server, a: string, b: string)
    requires s.status.Active? && a != b
    ensures var t := Pushed(Pushed(Pushed(s, a), b), a);
      var r := SimpleNet(t, RollbackToText(b));
      r.1 == Some(0) && r.0.status.Active? && Innermost(r.0.stack, a) == |s.stack|
  {
    var t := Pushed(Pushed(Pushed(s, a), b), a);
    InnermostIn(t.stack, b, |s.stack| + 1);
    InnermostIn(t.stack[..|s.stack| + 2], a, |s.stack|);
  }

  lemma {:induction false} NoneOfThatName(points: seq<Savepoint>, name: string)
    ensures Innermost(Without(points, name), name) == -1
    decreases |points|
  {
    if points != [] {
      var older, p := points[..|points| - 1], points[|points| - 1];
      NoneOfThatName(older, name);
      if p.name != name {
        PushKeepsInnermost(Without(older, name), p, name);
      }
    }
  }

  lemma GoneFromOracle(o: Oracle, a: string, b: string)
    requires a != b
    ensures var u := Simply(Simply(Simply(o, SavepointText(a)).0, SavepointText(b)).0, SavepointText(a)).0;
      Innermost(Simply(u, RollbackToText(b)).0.points, a) == -1
  {
    var p, q := Savepoint(a, o.working), Savepoint(b, o.working);
    var both := Without(Without(o.points, a) + [p], b) + [q];
    assert both[|both| - 1] == q && both[..|both| - 1] + [q] == both;
    var rest := Without(both, a);
    assert rest == Without(both[..|both| - 1], a) + [q];
    NoneOfThatName(both, a);
    InnermostIsLast(Without(both[..|both| - 1], a), q);
    PushKeepsInnermost(rest, p, b);
    assert (rest + [p])[..|rest|] == rest;
  }
}
