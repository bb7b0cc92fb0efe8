/** PostgreSQL's transactions and savepoints, as a client's commands drive them. */
module Postgres {
  import opened Wrappers
  import opened Machine

  type Row = seq<Option<seq<byte>>>

  type Database = map<string, seq<Row>>

  datatype Savepoint = Savepoint(name: string, snapshot: Database)

  datatype Status = Idle | Active | Aborted

  // The database as committed, as the open transaction sees it, and the
  // savepoints of that transaction, the innermost last; names may repeat.
  datatype Server = Server(committed: Database, working: Database, stack: seq<Savepoint>, status: Status)

  // What a statement does to the database it runs on. A statement that raises
  // may leave anything behind: its transaction is unusable until rolled back.
  datatype Outcome = Done(db: Database, rows: nat) | Raised(left: Database)

  // What a query does: its result streams in row by row, and may break off.
  datatype Item = Fetched(row: Row) | Broken(left: Database)

  datatype QueryOutcome = Opened(db: Database, columns: nat, stream: seq<Item>) | OpenRaised(left: Database)

  datatype Command =
    | Begin
    | Commit
    | Rollback
    | SetSavepoint(name: string)
    | Release(name: string)
    | RollbackTo(name: string)
    | Run(effect: Database -> Outcome)

  // The innermost savepoint of that name, or -1.
  function Innermost(stack: seq<Savepoint>, name: string): (k: int)
    ensures -1 <= k < |stack|
    ensures k >= 0 ==> stack[k].name == name
    ensures forall j | k < j < |stack| :: stack[j].name != name
  {
    if stack == [] then -1
    else if stack[|stack| - 1].name == name then |stack| - 1
    else Innermost(stack[..|stack| - 1], name)
  }

  function Fail(s: Server): (Server, bool) {
    (if s.status.Active? then s.(status := Aborted) else s, false)
  }

  // One command, and whether it succeeded.
  function Apply(s: Server, c: Command): (Server, bool) {
    match c
    case Begin =>
      if s.status.Idle? then (Server(s.committed, s.committed, [], Active), true)
      else (s, s.status.Active?)
    case Commit =>
      (Server(if s.status.Active? then s.working else s.committed,
              if s.status.Active? then s.working else s.committed, [], Idle), true)
    case Rollback => (Server(s.committed, s.committed, [], Idle), true)
    case SetSavepoint(name) =>
      if s.status.Active? then (s.(stack := s.stack + [Savepoint(name, s.working)]), true) else (s, false)
    case Release(name) =>
      var k := Innermost(s.stack, name);
      if !s.status.Active? || k < 0 then Fail(s) else (s.(stack := s.stack[..k]), true)
    case RollbackTo(name) =>
      var k := Innermost(s.stack, name);
      if s.status.Idle? || k < 0 then Fail(s)
      else (Server(s.committed, s.stack[k].snapshot, s.stack[..k + 1], Active), true)
    case Run(effect) =>
      match s.status
      case Aborted => (s, false)
      case Active =>
        (match effect(s.working)
         case Done(db, _) => (s.(working := db), true)
         case Raised(left) => (s.(working := left, status := Aborted), false))
      case Idle =>
        (match effect(s.committed)
         case Done(db, _) => (Server(db, db, [], Idle), true)
         case Raised(_) => (s, false))
  }

  // The effect of a query on the database alone.
  function EffectOf(query: Database -> QueryOutcome): Database -> Outcome {
    db => match query(db)
      case Opened(after, _, _) => Done(after, 0)
      case OpenRaised(left) => Raised(left)
  }

  // A stream that breaks off takes its transaction with it.
  function Broke(s: Server, left: Database): Server {
    if s.status.Active? then s.(working := left, status := Aborted) else s
  }

  // A query string of several commands stops at the first that fails.
  function ApplyAll(s: Server, commands: seq<Command>): (Server, bool)
    decreases |commands|
  {
    if commands == [] then (s, true)
    else
      var (t, ok) := Apply(s, commands[0]);
      if ok then ApplyAll(t, commands[1..]) else (t, false)
  }

  // A client's connection to the server.
  class Client {
    var server: Server

    constructor (committed: Database)
      ensures server == Server(committed, committed, [], Idle)
    {
      server := Server(committed, committed, [], Idle);
    }

    method BatchExecute(commands: seq<Command>) returns (ok: bool)
      modifies this
      ensures (server, ok) == ApplyAll(old(server), commands)
    {
      ok := true;
      var i := 0;
      while i < |commands| && ok
        invariant 0 <= i <= |commands|
        invariant ApplyAll(old(server), commands) == if ok then ApplyAll(server, commands[i..]) else (server, false)
      {
        var (next, done) := Apply(server, commands[i]);
        assert commands[i..][1..] == commands[i + 1..];
        server, ok, i := next, done, i + 1;
      }
    }

    // A single prepared statement, run outside any batch.
    method Execute(effect: Database -> Outcome) returns (r: Option<nat>)
      modifies this
      ensures (server, r.Some?) == Apply(old(server), Run(effect))
      ensures old(server).status.Active? ==> match effect(old(server.working))
        case Done(_, rows) => r == Some(rows)
        case Raised(_) => r == None
    {
      var db := if server.status.Idle? then server.committed else server.working;
      var outcome := effect(db);
      var (next, done) := Apply(server, Run(effect));
      server := next;
      r := if done then Some(outcome.rows) else None;
    }

    // Starts a query; its rows stay in flight.
    method QueryRaw(query: Database -> QueryOutcome) returns (r: Option<seq<Item>>)
      modifies this
      ensures (server, r.Some?) == Apply(old(server), Run(EffectOf(query)))
      ensures r.Some? && old(server).status.Active? ==>
        query(old(server.working)).Opened? && r.value == query(old(server.working)).stream
    {
      var db := if server.status.Idle? then server.committed else server.working;
      var outcome := query(db);
      var (next, done) := Apply(server, Run(EffectOf(query)));
      server := next;
      r := if done then Some(outcome.stream) else None;
    }

    // The server reports that a stream has broken off.
    method Break(left: Database)
      modifies this
      ensures server == Broke(old(server), left)
    {
      if server.status.Active? {
        server := server.(working := left, status := Aborted);
      }
    }
  }
}
