/** The PostgreSQL backend: every Oracle statement inside its own savepoint. */
module Backend {
  import opened Wrappers
  import opened Machine
  import opened Postgres

  const WRAPPER := "dbsaci_statement"

  // A statement as the backend tells statements apart. `converts` says whether
  // every bind value has a PostgreSQL form.
  datatype Statement =
    | CommitText
    | RollbackText
    | BeginText
    | SavepointText(name: string)
    | ReleaseText(name: string)
    | RollbackToText(name: string)
    | Dml(effect: Database -> Outcome, converts: bool)

  // ---- Net effects: what is left once the wrapper savepoints are gone ----------

  function Began(committed: Database): Server {
    Server(committed, committed, [], Active)
  }

  function CommittedBy(s: Server): Database {
    if s.status.Active? then s.working else s.committed
  }

  function Pushed(s: Server, name: string): Server {
    s.(stack := s.stack + [Savepoint(name, s.working)])
  }

  function SimpleNet(s: Server, st: Statement): (Server, Option<nat>) {
    match st
    case CommitText => (Began(CommittedBy(s)), Some(0))
    case RollbackText => (Began(s.committed), Some(0))
    case BeginText => (s, Some(0))
    case SavepointText(name) => if s.status.Active? then (Pushed(s, name), Some(0)) else (s, None)
    case ReleaseText(name) => Report(Apply(s, Release(name)))
    case RollbackToText(name) => Report(Apply(s, RollbackTo(name)))
    case Dml(effect, converts) =>
      if !s.status.Active? then (s, None)
      else if !converts then (Pushed(s, WRAPPER), None)  // the wrapper stays behind
      else match effect(s.working)
        case Done(db, rows) => (s.(working := db), Some(rows))
        case Raised(_) => (s, None)
  }

  function Report(r: (Server, bool)): (Server, Option<nat>) {
    (r.0, if r.1 then Some(0) else None)
  }

  // The transaction before DDL is committed whatever becomes of the DDL.
  function DdlNet(s: Server, effect: Database -> Outcome, bindFree: bool, converts: bool): (Server, Option<nat>) {
    var before := CommittedBy(s);
    if !bindFree && !converts then (Began(before), None)
    else match effect(before)
      case Done(db, rows) => (Began(db), Some(if bindFree then 0 else rows))
      case Raised(_) => (Began(before), None)
  }

  // A query keeps its wrapper savepoint for as long as rows are in flight.
  function OpenNet(s: Server, query: Database -> QueryOutcome, converts: bool): (Server, Option<seq<Item>>) {
    if !s.status.Active? then (s, None)
    else if !converts then (Pushed(s, WRAPPER), None)
    else match query(s.working)
      case Opened(db, _, stream) => (Pushed(s, WRAPPER).(working := db), Some(stream))
      case OpenRaised(_) => (s, None)
  }

  // In an aborted transaction nothing is done and everything refused, but for
  // the commands that end it or roll back to a savepoint that is there.
  lemma {:induction false} AbortedRefuses(s: Server, st: Statement, query: Database -> QueryOutcome, converts: bool)
    requires s.status.Aborted?
    ensures st.SavepointText? || st.ReleaseText? || st.Dml? ==> SimpleNet(s, st) == (s, None)
    ensures st.CommitText? || st.RollbackText? ==> SimpleNet(s, st) == (Server(s.committed, s.committed, [], Active), Some(0))
    ensures st.RollbackToText? ==>
      (forall p <- s.stack :: p.name != st.name) ==> SimpleNet(s, st) == (s, None)
    ensures forall k | st.RollbackToText? && 0 <= k < |s.stack| && s.stack[k].name == st.name &&
        forall j | k < j < |s.stack| :: s.stack[j].name != st.name ::
      SimpleNet(s, st) == (Server(s.committed, s.stack[k].snapshot, s.stack[..k + 1], Active), Some(0))
    ensures OpenNet(s, query, converts) == (s, None)
  {
    if st.RollbackToText? {
      var i := Innermost(s.stack, st.name);
      assert i >= 0 ==> s.stack[i] in s.stack;
    }
  }

  function Finished(s: Server): Server {
    Apply(s, Release(WRAPPER)).0
  }

  function Recovered(s: Server): Server {
    ApplyAll(s, [RollbackTo(WRAPPER), Release(WRAPPER)]).0
  }

  lemma InnermostIsLast(stack: seq<Savepoint>, p: Savepoint)
    ensures Innermost(stack + [p], p.name) == |stack|
  {
  }

  lemma {:induction false} InnermostIn(stack: seq<Savepoint>, name: string, k: nat)
    requires k < |stack| && stack[k].name == name && forall j | k < j < |stack| :: stack[j].name != name
    ensures Innermost(stack, name) == k
  {
  }

  lemma InnermostBelow(stack: seq<Savepoint>, name: string, m: nat)
    requires Innermost(stack, name) < m <= |stack|
    ensures Innermost(stack[..m], name) == Innermost(stack, name)
  {
    var k := Innermost(stack, name);
    if k >= 0 {
      InnermostIn(stack[..m], name, k);
    }
  }

  lemma PushKeepsInnermost(client: seq<Savepoint>, p: Savepoint, name: string)
    requires name != p.name
    ensures Innermost(client + [p], name) == Innermost(client, name)
  {
    assert (client + [p])[..|client|] == client;
  }

  // Releasing or rolling back the wrapper just set.
  lemma WrapperComesOff(s: Server, working: Database, status: Status)
    requires s.status.Active?
    ensures var t := Pushed(s, WRAPPER).(working := working);
      && Finished(t) == s.(working := working)
      && Apply(t, Release(WRAPPER)).1
      && (status != Idle ==> Recovered(t.(status := status)) == s)
  {
    var p := Savepoint(WRAPPER, s.working);
    var t := Pushed(s, WRAPPER).(working := working);
    InnermostIsLast(s.stack, p);
    assert (s.stack + [p])[..|s.stack|] == s.stack;
    if status != Idle {
      var u := t.(status := status);
      assert (s.stack + [p])[..|s.stack| + 1] == s.stack + [p];
      var v := Server(s.committed, s.working, s.stack + [p], Active);
      assert Apply(u, RollbackTo(WRAPPER)) == (v, true);
      TwoCommands(u, RollbackTo(WRAPPER), Release(WRAPPER));
    }
  }

  lemma TwoCommands(s: Server, a: Command, b: Command)
    ensures ApplyAll(s, [a, b]) == if Apply(s, a).1 then Apply(Apply(s, a).0, b) else Apply(s, a)
  {
    var (t, ok) := Apply(s, a);
    assert [a, b][1..] == [b] && [b][1..] == [];
    assert ApplyAll(t, [b]) == Apply(t, b);
  }

  // ---- Cursors ------------------------------------------------------------------

  datatype CursorView = CursorView(stream: seq<Item>, exhausted: bool, held: bool)

  ghost predicate IsLead(stream: seq<Item>, n: nat) {
    && n <= |stream|
    && (forall i | 0 <= i < n :: stream[i].Fetched?)
    && (n < |stream| ==> stream[n].Broken?)
  }

  lemma {:induction false} LeadExists(stream: seq<Item>)
    ensures exists n: nat :: IsLead(stream, n)
  {
    if stream == [] || stream[0].Broken? {
      assert IsLead(stream, 0);
    } else {
      LeadExists(stream[1..]);
      var n: nat :| IsLead(stream[1..], n);
      assert IsLead(stream, n + 1);
    }
  }

  lemma LeadIsUnique(stream: seq<Item>, a: nat, b: nat)
    requires IsLead(stream, a) && IsLead(stream, b)
    ensures a == b
  {
  }

  // How many rows come before the stream ends or breaks.
  ghost function Lead(stream: seq<Item>): (n: nat)
    ensures IsLead(stream, n)
  {
    LeadExists(stream);
    var n: nat :| IsLead(stream, n);
    n
  }

  // The rows of a stretch without breaks.
  function Rows(stream: seq<Item>): (rows: seq<Row>)
    ensures |rows| == |stream|
  {
    seq(|stream|, i requires 0 <= i < |stream| => if stream[i].Fetched? then stream[i].row else [])
  }

  datatype Pull = Pull(cursor: CursorView, server: Server, rows: Option<seq<Row>>)

  // One batch: full, or the last and short one, or a broken one.
  ghost function Pulled(c: CursorView, s: Server, n: nat): Pull {
    var k := Lead(c.stream);
    if k >= n then Pull(c.(stream := c.stream[n..]), s, Some(Rows(c.stream[..n])))
    else if k == |c.stream| then
      Pull(CursorView([], true, false), if c.held then Finished(s) else s, Some(Rows(c.stream)))
    else
      Pull(CursorView(c.stream[k + 1..], true, false), Recovered(Broke(s, c.stream[k].left)), None)
  }

  class RowCursor {
    var stream: seq<Item>
    var exhausted: bool
    var savepointHeld: bool

    constructor (stream: seq<Item>)
      ensures View() == CursorView(stream, false, true)
    {
      this.stream, exhausted, savepointHeld := stream, false, true;
    }

    ghost function View(): CursorView
      reads this
    {
      CursorView(stream, exhausted, savepointHeld)
    }

    method NextBatch(backend: PostgresBackend, n: nat) returns (r: Option<seq<Row>>)
      modifies this, backend.client
      ensures var pull := Pulled(old(View()), old(backend.client.server), n);
        View() == pull.cursor && backend.client.server == pull.server && r == pull.rows
    {
      ghost var s, view := backend.client.server, View();
      var out := [];
      ghost var before := stream;
      while |out| < n
        invariant |out| <= n && |out| <= Lead(before) && stream == before[|out|..]
        invariant out == Rows(before[..|out|])
        invariant exhausted == old(exhausted) && savepointHeld == old(savepointHeld)
        invariant backend.client.server == s
      {
        if stream == [] {
          assert before[..|out|] == before;
          Finish(backend);
          return Some(out);
        }
        var item := stream[0];
        assert item == before[|out|] && stream[1..] == before[|out| + 1..];
        stream := stream[1..];
        match item
        case Broken(left) =>
          BreakOff(backend, left);
          return None;
        case Fetched(row) =>
          out := out + [row];
      }
      r := Some(out);
    }

    method BreakOff(backend: PostgresBackend, left: Database)
      modifies this, backend.client
      ensures View() == CursorView(old(stream), true, false)
      ensures backend.client.server == Recovered(Broke(old(backend.client.server), left))
    {
      exhausted := true;
      backend.client.Break(left);
      backend.RecoverStatementError();
      savepointHeld := false;
    }

    // Releases the wrapper savepoint, once.
    method Finish(backend: PostgresBackend)
      modifies this, backend.client
      ensures View() == CursorView(old(stream), true, false)
      ensures backend.client.server == if old(savepointHeld) then Finished(old(backend.client.server)) else old(backend.client.server)
    {
      exhausted := true;
      if savepointHeld {
        var _ := backend.FinishStatement();
        savepointHeld := false;
      }
    }
  }

  // ---- RETURNING ------------------------------------------------------------------

  predicate WellTyped(outcome: QueryOutcome) {
    outcome.Opened? ==>
      forall i | 0 <= i < |outcome.stream| && outcome.stream[i].Fetched? :: |outcome.stream[i].row| == outcome.columns
  }

  predicate Rectangular(rows: seq<Row>, columns: nat) {
    forall i | 0 <= i < |rows| :: |rows[i]| == columns
  }

  function Transposed(rows: seq<Row>, columns: nat): (perCol: seq<seq<Option<seq<byte>>>>)
    requires Rectangular(rows, columns)
    ensures |perCol| == columns
  {
    seq(columns, c requires 0 <= c < columns => seq(|rows|, i requires 0 <= i < |rows| => rows[i][c]))
  }

  type Cells = seq<seq<Option<seq<byte>>>>

  // Pushes one row's values onto their columns.
  method PushRow(perCol: Cells, row: Row) returns (r: Cells)
    requires |row| == |perCol|
    ensures |r| == |perCol| && forall c | 0 <= c < |r| :: r[c] == perCol[c] + [row[c]]
  {
    r := perCol;
    var c := 0;
    while c < |row|
      invariant 0 <= c <= |row| && |r| == |perCol|
      invariant forall j | 0 <= j < c :: r[j] == perCol[j] + [row[j]]
      invariant forall j | c <= j < |r| :: r[j] == perCol[j]
    {
      r := r[c := r[c] + [row[c]]];
      c := c + 1;
    }
  }

  lemma TransposeOneMore(rows: seq<Row>, row: Row, columns: nat)
    requires Rectangular(rows, columns) && |row| == columns
    ensures Rectangular(rows + [row], columns)
    ensures forall c | 0 <= c < columns :: Transposed(rows + [row], columns)[c] == Transposed(rows, columns)[c] + [row[c]]
  {
  }

  method PushRows(perCol: Cells, batch: seq<Row>, ghost before: seq<Row>, columns: nat) returns (r: Cells)
    requires Rectangular(before, columns) && Rectangular(batch, columns) && perCol == Transposed(before, columns)
    ensures Rectangular(before + batch, columns) && r == Transposed(before + batch, columns)
  {
    r := perCol;
    var i := 0;
    assert before + batch[..0] == before;
    while i < |batch|
      invariant 0 <= i <= |batch|
      invariant Rectangular(before + batch[..i], columns) && r == Transposed(before + batch[..i], columns)
    {
      TransposeOneMore(before + batch[..i], batch[i], columns);
      r := PushRow(r, batch[i]);
      assert before + batch[..i + 1] == before + batch[..i] + [batch[i]];
      i := i + 1;
    }
    assert batch[..i] == batch;
  }

  lemma LeadFrom(stream: seq<Item>, m: nat)
    requires m <= Lead(stream)
    ensures Lead(stream[m..]) == Lead(stream) - m
  {
    LeadIsUnique(stream[m..], Lead(stream) - m, Lead(stream[m..]));
  }

  // A batch pulled after `m` rows, in terms of the whole stream.
  lemma PulledFrom(whole: seq<Item>, m: nat, s: Server, n: nat)
    requires m <= Lead(whole)
    ensures var p, left := Pulled(CursorView(whole[m..], false, true), s, n), Lead(whole) - m;
      && (left >= n ==>
            && p.cursor == CursorView(whole[m + n..], false, true) && p.server == s
            && p.rows.Some? && p.rows.value == Rows(whole[m..m + n]))
      && (left < n && Lead(whole) == |whole| ==>
            && p.cursor == CursorView([], true, false) && p.server == Finished(s)
            && p.rows.Some? && p.rows.value == Rows(whole[m..]))
      && (left < n && Lead(whole) < |whole| ==>
            && !p.cursor.held && p.server == Recovered(Broke(s, whole[Lead(whole)].left))
            && p.rows == None)
  {
    LeadFrom(whole, m);
    var rest := whole[m..];
    if Lead(whole) - m >= n {
      assert rest[n..] == whole[m + n..] && rest[..n] == whole[m..m + n];
    }
  }

  // What RETURNING answers: the exact row count and the exact transpose, and
  // nothing done to the database or the savepoints unless every row arrives.
  ghost function ReturningNet(s: Server, query: Database -> QueryOutcome, converts: bool): (Server, Option<(nat, Cells)>)
    requires forall db :: WellTyped(query(db))
  {
    if !s.status.Active? then (s, None)
    else if !converts then (Pushed(s, WRAPPER), None)
    else match query(s.working)
      case OpenRaised(_) => (s, None)
      case Opened(db, columns, stream) =>
        if Lead(stream) < |stream| then (s, None)
        else
          assert WellTyped(query(s.working));
          (s.(working := db), Some((|stream|, Transposed(Rows(stream), columns))))
  }

  // On success each column holds, in order, the values the rows have there.
  lemma {:induction false} ReturningHoldsValues(s: Server, query: Database -> QueryOutcome)
    requires forall db :: WellTyped(query(db))
    requires s.status.Active? && query(s.working).Opened?
    ensures var stream, columns := query(s.working).stream, query(s.working).columns;
      var r := ReturningNet(s, query, true).1;
      && (r.Some? <==> forall i | 0 <= i < |stream| :: stream[i].Fetched?)
      && (r.Some? ==>
        && r.value.0 == |stream| && |r.value.1| == columns
        && forall c | 0 <= c < columns :: |r.value.1[c]| == |stream| &&
             forall i | 0 <= i < |stream| :: |stream[i].row| == columns && r.value.1[c][i] == stream[i].row[c])
  {
    var outcome := query(s.working);
    var stream := outcome.stream;
    assert WellTyped(outcome);
    if Lead(stream) == |stream| {
      var rows := Rows(stream);
      assert forall i | 0 <= i < |stream| :: rows[i] == stream[i].row;
    }
  }

  // The DML a RETURNING statement amounts to: it fails unless every row arrives.
  ghost function AsDml(query: Database -> QueryOutcome): Database -> Outcome {
    db => match query(db)
      case OpenRaised(left) => Raised(left)
      case Opened(after, _, stream) => if Lead(stream) < |stream| then Raised(after) else Done(after, |stream|)
  }

  // So whatever holds of sessions with DML holds with RETURNING in its place.
  lemma ReturningIsDml(s: Server, query: Database -> QueryOutcome, converts: bool)
    requires forall db :: WellTyped(query(db))
    ensures var r, d := ReturningNet(s, query, converts), SimpleNet(s, Dml(AsDml(query), converts));
      r.0 == d.0 && (r.1.Some? <==> d.1.Some?) && (r.1.Some? ==> r.1.value.0 == d.1.value)
  {
  }

  class PostgresBackend {
    const client: Client

    constructor (client: Client)
      ensures this.client == client
    {
      this.client := client;
    }

    method BeginStatement() returns (ok: bool)
      modifies client
      ensures (client.server, ok) == Apply(old(client.server), SetSavepoint(WRAPPER))
    {
      ok := client.BatchExecute([SetSavepoint(WRAPPER)]);
      OneCommand(old(client.server), SetSavepoint(WRAPPER));
    }

    method FinishStatement() returns (ok: bool)
      modifies client
      ensures (client.server, ok) == Apply(old(client.server), Release(WRAPPER))
    {
      ok := client.BatchExecute([Release(WRAPPER)]);
      OneCommand(old(client.server), Release(WRAPPER));
    }

    method RecoverStatementError()
      modifies client
      ensures client.server == Recovered(old(client.server))
    {
      var _ := client.BatchExecute([RollbackTo(WRAPPER), Release(WRAPPER)]);
    }

    // A failed statement leaves the server exactly as it was, savepoints and
    // all; a successful one changes only the data.
    method ExecuteSimple(st: Statement) returns (r: Option<nat>)
      modifies client
      ensures (client.server, r) == SimpleNet(old(client.server), st)
    {
      ghost var s := client.server;
      match st
      case CommitText =>
        TwoCommands(s, Commit, Begin);
        var ok := client.BatchExecute([Commit, Begin]);
        return if ok then Some(0) else None;
      case RollbackText =>
        TwoCommands(s, Rollback, Begin);
        var ok := client.BatchExecute([Rollback, Begin]);
        return if ok then Some(0) else None;
      case BeginText =>
        return Some(0);
      case SavepointText(name) =>
        OneCommand(s, SetSavepoint(name));
        var ok := client.BatchExecute([SetSavepoint(name)]);
        return if ok then Some(0) else None;
      case ReleaseText(name) =>
        OneCommand(s, Release(name));
        var ok := client.BatchExecute([Release(name)]);
        return if ok then Some(0) else None;
      case RollbackToText(name) =>
        OneCommand(s, RollbackTo(name));
        var ok := client.BatchExecute([RollbackTo(name)]);
        return if ok then Some(0) else None;
      case Dml(effect, converts) =>
        r := ExecuteWrapped(effect, converts);
    }

    method ExecuteWrapped(effect: Database -> Outcome, converts: bool) returns (r: Option<nat>)
      modifies client
      ensures (client.server, r) == SimpleNet(old(client.server), Dml(effect, converts))
    {
      ghost var s := client.server;
      var began := BeginStatement();
      if !began {
        return None;
      }
      if !converts {
        return None;
      }
      r := client.Execute(effect);
      if r.Some? {
        WrapperComesOff(s, client.server.working, Active);
        var finished := FinishStatement();
        if !finished {
          r := None;
        }
      } else {
        WrapperComesOff(s, client.server.working, Aborted);
        RecoverStatementError();
      }
    }

    // Earlier work is committed first and stays committed.
    method ExecuteDdl(effect: Database -> Outcome, bindFree: bool, converts: bool) returns (r: Option<nat>)
      modifies client
      ensures (client.server, r) == DdlNet(old(client.server), effect, bindFree, converts)
    {
      TwoCommands(client.server, Commit, Begin);
      var ok := client.BatchExecute([Commit, Begin]);
      if !ok {
        return None;
      }
      if !bindFree && !converts {
        return None;
      }
      r := client.Execute(effect);
      if r.Some? {
        TwoCommands(client.server, Commit, Begin);
        ok := client.BatchExecute([Commit, Begin]);
        if !ok {
          return None;
        }
        if bindFree {
          r := Some(0);
        }
      } else {
        TwoCommands(client.server, Rollback, Begin);
        var _ := client.BatchExecute([Rollback, Begin]);
      }
    }

    method OpenCursor(query: Database -> QueryOutcome, converts: bool) returns (r: Option<RowCursor>)
      modifies client
      ensures client.server == OpenNet(old(client.server), query, converts).0
      ensures match OpenNet(old(client.server), query, converts).1
        case None => r == None
        case Some(stream) => r.Some? && fresh(r.value) && r.value.View() == CursorView(stream, false, true)
    {
      ghost var s := client.server;
      var began := BeginStatement();
      if !began {
        return None;
      }
      if !converts {
        return None;
      }
      var stream := client.QueryRaw(query);
      if stream.None? {
        WrapperComesOff(s, client.server.working, Aborted);
        RecoverStatementError();
        return None;
      }
      var cursor := new RowCursor(stream.value);
      r := Some(cursor);
    }

    method ExecuteReturning(query: Database -> QueryOutcome, columns: nat, converts: bool) returns (r: Option<(nat, Cells)>)
      requires forall db :: WellTyped(query(db))
      requires forall db :: query(db).Opened? ==> query(db).columns == columns
      modifies client
      ensures (client.server, r) == ReturningNet(old(client.server), query, converts)
    {
      ghost var s := client.server;
      var cursorOpened := OpenCursor(query, converts);
      if cursorOpened.None? {
        return None;
      }
      var cursor := cursorOpened.value;
      r := Drain(cursor, columns, s, query(s.working).db);
    }

    // One turn of the RETURNING loop: how many rows it added, unless it broke.
    method DrainBatch(cursor: RowCursor, columns: nat, before: Cells, ghost whole: seq<Item>, ghost m: nat)
      returns (added: Option<nat>, perCol: Cells)
      requires m <= Lead(whole) && cursor.View() == CursorView(whole[m..], false, true)
      requires forall i | 0 <= i < Lead(whole) :: |whole[i].row| == columns
      requires Rectangular(Rows(whole[..m]), columns) && before == Transposed(Rows(whole[..m]), columns)
      modifies client, cursor
      ensures added == None ==> (Lead(whole) < |whole| &&
        client.server == Recovered(Broke(old(client.server), whole[Lead(whole)].left)))
      ensures added.Some? ==> (added.value <= 4096 && m + added.value <= Lead(whole) &&
        Rectangular(Rows(whole[..m + added.value]), columns) &&
        perCol == Transposed(Rows(whole[..m + added.value]), columns))
      ensures added == Some(4096) ==>
        cursor.View() == CursorView(whole[m + 4096..], false, true) && client.server == old(client.server)
      ensures added.Some? && added != Some(4096) ==>
        m + added.value == |whole| && !cursor.savepointHeld && client.server == Finished(old(client.server))
    {
      PulledFrom(whole, m, client.server, 4096);
      var batch := cursor.NextBatch(this, 4096);
      if batch.None? {
        return None, before;
      }
      BatchIs(whole, m, m + |batch.value|);
      perCol := PushRows(before, batch.value, Rows(whole[..m]), columns);
      added := Some(|batch.value|);
    }

    // The batch loop of RETURNING on a cursor just opened from state `s`.
    method Drain(cursor: RowCursor, columns: nat, ghost s: Server, ghost db: Database) returns (r: Option<(nat, Cells)>)
      requires s.status.Active? && client.server == Pushed(s, WRAPPER).(working := db)
      requires !cursor.exhausted && cursor.savepointHeld
      requires forall i | 0 <= i < |cursor.stream| && cursor.stream[i].Fetched? :: |cursor.stream[i].row| == columns
      modifies client, cursor
      ensures var stream := old(cursor.stream);
        if Lead(stream) < |stream| then r == None && client.server == s
        else
          client.server == s.(working := db)
          && Rectangular(Rows(stream), columns) && r == Some((|stream|, Transposed(Rows(stream), columns)))
    {
      ghost var whole, t := cursor.stream, client.server;
      ghost var m := 0;
      var perCol: Cells := seq(columns, _ => []);
      var rows := 0;
      BrokenWrappers(s, db, whole);
      while true
        invariant m <= Lead(whole) && cursor.View() == CursorView(whole[m..], false, true)
        invariant client.server == t && rows == m
        invariant Rectangular(Rows(whole[..m]), columns) && perCol == Transposed(Rows(whole[..m]), columns)
        decreases |whole| - m
      {
        var added;
        added, perCol := DrainBatch(cursor, columns, perCol, whole, m);
        if added.None? {
          return None;
        }
        rows, m := rows + added.value, m + added.value;
        if added.value < 4096 || cursor.exhausted {
          break;
        }
      }
      assert whole[..m] == whole;
      cursor.Finish(this);
      r := Some((rows, perCol));
    }
  }

  // A batch appended to what came before it.
  lemma BatchIs(whole: seq<Item>, m: nat, end: nat)
    requires m <= end <= |whole|
    ensures Rows(whole[..end]) == Rows(whole[..m]) + Rows(whole[m..end])
    ensures whole[m..|whole|] == whole[m..]
  {
    assert whole[..end] == whole[..m] + whole[m..end];
  }

  // However the stream ends, the wrapper of a cursor just opened comes off.
  lemma BrokenWrappers(s: Server, db: Database, whole: seq<Item>)
    requires s.status.Active?
    ensures var t := Pushed(s, WRAPPER).(working := db);
      && Finished(t) == s.(working := db)
      && (Lead(whole) < |whole| ==> Recovered(Broke(t, whole[Lead(whole)].left)) == s)
  {
    WrapperComesOff(s, db, Active);
    if Lead(whole) < |whole| {
      BrokenWrapper(s, db, whole[Lead(whole)].left);
    }
  }

  lemma BrokenWrapper(s: Server, db: Database, left: Database)
    requires s.status.Active?
    ensures Recovered(Broke(Pushed(s, WRAPPER).(working := db), left)) == s
  {
    WrapperComesOff(s, left, Aborted);
  }

  lemma OneCommand(s: Server, c: Command)
    ensures ApplyAll(s, [c]) == Apply(s, c)
  {
    assert [c][1..] == [];
  }
}
