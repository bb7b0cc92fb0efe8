/** The registry told as a log: what a frame means, by the statements executed before it. */
module StatementLog {
  import opened Wrappers
  import opened Machine
  import opened CursorRegistry
  import opened SessionLoop
  import opened Streaming

  // A statement executed: what it was, the sequence byte of the call, and the
  // id it was answered with.
  datatype Entry = Entry(statement: Prepared, seqByte: byte, id: nat)

  datatype Key = ById(id: nat) | BySequence(seqByte: byte) | Latest

  predicate Fits(e: Entry, key: Key) {
    match key
    case ById(id) => e.id == id
    case BySequence(seqByte) => e.seqByte == seqByte
    case Latest => true
  }

  // ---- What the log says -----------------------------------------------------------

  // The last statement of that key.
  function LastOf(log: seq<Entry>, key: Key): Option<Prepared> {
    if log == [] then None
    else if Fits(log[|log| - 1], key) then Some(log[|log| - 1].statement)
    else LastOf(log[..|log| - 1], key)
  }

  // The id a text was last answered with.
  function IdOf(log: seq<Entry>, sql: string): Option<nat> {
    if log == [] then None
    else if log[|log| - 1].statement.sql == sql then Some(log[|log| - 1].id)
    else IdOf(log[..|log| - 1], sql)
  }

  // How many different texts there have been.
  function Texts(log: seq<Entry>): nat {
    if log == [] then 0
    else
      var before := log[..|log| - 1];
      Texts(before) + if IdOf(before, log[|log| - 1].statement.sql).None? then 1 else 0
  }

  // Classic clients know one cursor; for the others every text has its own.
  function AnswerId(mode: Mode, log: seq<Entry>, sql: string): nat {
    if mode.Classic? then 1
    else if IdOf(log, sql).Some? then IdOf(log, sql).value
    else IdAt(mode, Texts(log))
  }

  // What a frame means: its own text; or else the statement it names, in OCI
  // that of the last execution with its sequence byte, or the last one
  // executed. Classic clients re-execute the last one executed, and so do those
  // of the newer framing. Bind types that the frame brings take precedence.
  function Meant(mode: Mode, log: seq<Entry>, f: Frame): Option<Prepared> {
    if f.sql.Some? then Some(Prepared(f.sql.value, if f.types.Some? then f.types.value else []))
    else
      var named := if f.named.Some? then LastOf(log, ById(f.named.value)) else None;
      var found :=
        if (f.func.Execute? || mode.Oci?) && named.Some? then named
        else if !f.func.Execute? && mode.Oci? && LastOf(log, BySequence(f.seqByte)).Some? then
          LastOf(log, BySequence(f.seqByte))
        else LastOf(log, Latest);
      if found.Some? && f.types.Some? then Some(Prepared(found.value.sql, f.types.value)) else found
  }

  predicate Executes(f: Frame, p: Prepared) {
    f.func.Execute? && p.sql != ""
  }

  function Log(mode: Mode, frames: seq<Frame>): seq<Entry> {
    if frames == [] then []
    else
      var log, f := Log(mode, frames[..|frames| - 1]), frames[|frames| - 1];
      match Meant(mode, log, f)
      case None => log
      case Some(p) => if Executes(f, p) then log + [Entry(p, f.seqByte, AnswerId(mode, log, p.sql))] else log
  }

  // The id the client is answered with after the last frame.
  function CurrentId(mode: Mode, frames: seq<Frame>): nat {
    if frames == [] then (if mode.Oci? then 2 else 1)
    else
      var before, f := frames[..|frames| - 1], frames[|frames| - 1];
      var log := Log(mode, before);
      match Meant(mode, log, f)
      case None => CurrentId(mode, before)
      case Some(p) =>
        if Executes(f, p) then AnswerId(mode, log, p.sql)
        else if !f.func.Execute? && !mode.Classic? && IdOf(log, p.sql).Some? then IdOf(log, p.sql).value
        else CurrentId(mode, before)
  }

  // ---- The registry keeps the log -----------------------------------------------------

  ghost predicate Keeps(mode: Mode, r: Registry, log: seq<Entry>) {
    && r.last == LastOf(log, Latest)
    && (forall b: byte :: Lookup(r.seqToSql, Some(b)) == LastOf(log, BySequence(b)))
    && (forall id: nat :: Lookup(r.idToSql, Some(id)) == LastOf(log, ById(id)))
    && (if mode.Classic? then r.ids == map[] && r.cursorId == 1
        else (forall sql: string :: Lookup(r.ids, Some(sql)) == IdOf(log, sql)) && r.nextId == IdAt(mode, Texts(log)))
  }

  lemma OneMoreEntry(log: seq<Entry>, e: Entry)
    ensures forall key :: LastOf(log + [e], key) == if Fits(e, key) then Some(e.statement) else LastOf(log, key)
    ensures forall sql :: IdOf(log + [e], sql) == if e.statement.sql == sql then Some(e.id) else IdOf(log, sql)
    ensures Texts(log + [e]) == Texts(log) + if IdOf(log, e.statement.sql).None? then 1 else 0
  {
    assert (log + [e])[..|log|] == log;
  }

  lemma MeansTheSame(mode: Mode, r: Registry, log: seq<Entry>, f: Frame)
    requires Keeps(mode, r, log)
    ensures Resolve(mode, r, f) == Meant(mode, log, f)
  {
    assert Lookup(r.seqToSql, Some(f.seqByte)) == LastOf(log, BySequence(f.seqByte));
    if f.named.Some? {
      assert Lookup(r.idToSql, f.named) == LastOf(log, ById(f.named.value));
    }
  }

  lemma MapsKeep(r: Registry, log: seq<Entry>, e: Entry, next: Registry)
    requires r.last == LastOf(log, Latest)
    requires forall b: byte :: Lookup(r.seqToSql, Some(b)) == LastOf(log, BySequence(b))
    requires forall id: nat :: Lookup(r.idToSql, Some(id)) == LastOf(log, ById(id))
    requires next.last == Some(e.statement) && next.seqToSql == r.seqToSql[e.seqByte := e.statement]
    requires next.idToSql == r.idToSql[e.id := e.statement]
    ensures next.last == LastOf(log + [e], Latest)
    ensures forall b: byte :: Lookup(next.seqToSql, Some(b)) == LastOf(log + [e], BySequence(b))
    ensures forall id: nat :: Lookup(next.idToSql, Some(id)) == LastOf(log + [e], ById(id))
  {
    OneMoreEntry(log, e);
  }

  lemma IdsKeep(mode: Mode, r: Registry, log: seq<Entry>, e: Entry, next: Registry)
    requires !mode.Classic? && e.id == AnswerId(mode, log, e.statement.sql)
    requires (forall sql: string :: Lookup(r.ids, Some(sql)) == IdOf(log, sql)) && r.nextId == IdAt(mode, Texts(log))
    requires if e.statement.sql in r.ids then next.ids == r.ids && next.nextId == r.nextId
      else next.ids == r.ids[e.statement.sql := r.nextId] && next.nextId == NextId(r.nextId)
    ensures (forall sql: string :: Lookup(next.ids, Some(sql)) == IdOf(log + [e], sql))
    ensures next.nextId == IdAt(mode, Texts(log + [e]))
  {
    OneMoreEntry(log, e);
    assert Lookup(r.ids, Some(e.statement.sql)) == IdOf(log, e.statement.sql);
  }

  lemma ExecutionKeeps(mode: Mode, r: Registry, log: seq<Entry>, f: Frame, p: Prepared)
    requires Keeps(mode, r, log) && Executes(f, p)
    ensures var e := Entry(p, f.seqByte, AnswerId(mode, log, p.sql));
      Keeps(mode, Recorded(mode, r, f, p), log + [e]) && Recorded(mode, r, f, p).cursorId == e.id
  {
    var e, next := Entry(p, f.seqByte, AnswerId(mode, log, p.sql)), Recorded(mode, r, f, p);
    if !mode.Classic? {
      assert Lookup(r.ids, Some(p.sql)) == IdOf(log, p.sql);
      IdsKeep(mode, r, log, e, next);
    }
    MapsKeep(r, log, e, next);
  }

  lemma ReexecutionKeeps(mode: Mode, r: Registry, log: seq<Entry>, f: Frame, p: Prepared)
    requires Keeps(mode, r, log) && !Executes(f, p)
    ensures Keeps(mode, Recorded(mode, r, f, p), log)
    ensures Recorded(mode, r, f, p).cursorId ==
      if !f.func.Execute? && !mode.Classic? && IdOf(log, p.sql).Some? then IdOf(log, p.sql).value else r.cursorId
  {
    if !mode.Classic? {
      assert Lookup(r.ids, Some(p.sql)) == IdOf(log, p.sql);
    }
  }

  // After every run of frames, in every mode, the registry answers as the log
  // does: which statement a frame means, and under which id.
  lemma {:induction false} RegistryKeepsLog(mode: Mode, frames: seq<Frame>)
    ensures Keeps(mode, Run(mode, frames), Log(mode, frames))
    ensures Run(mode, frames).cursorId == CurrentId(mode, frames)
  {
    if frames != [] {
      var before, f := frames[..|frames| - 1], frames[|frames| - 1];
      RegistryKeepsLog(mode, before);
      var r, log := Run(mode, before), Log(mode, before);
      MeansTheSame(mode, r, log, f);
      var p := Meant(mode, log, f);
      if p.Some? {
        if Executes(f, p.value) {
          ExecutionKeeps(mode, r, log, f, p.value);
        } else {
          ReexecutionKeeps(mode, r, log, f, p.value);
        }
      }
    }
  }

  lemma FramesMeanWhatTheLogSays(mode: Mode, frames: seq<Frame>, f: Frame)
    ensures Resolve(mode, Run(mode, frames), f) == Meant(mode, Log(mode, frames), f)
  {
    RegistryKeepsLog(mode, frames);
    MeansTheSame(mode, Run(mode, frames), Log(mode, frames), f);
  }

  lemma {:induction false} NoEmptyText(mode: Mode, frames: seq<Frame>)
    ensures IdOf(Log(mode, frames), "") == None
  {
    if frames != [] {
      var before, f := frames[..|frames| - 1], frames[|frames| - 1];
      NoEmptyText(mode, before);
      var log := Log(mode, before);
      var p := Meant(mode, log, f);
      if p.Some? && Executes(f, p.value) {
        OneMoreEntry(log, Entry(p.value, f.seqByte, AnswerId(mode, log, p.value.sql)));
      }
    }
  }

  // After any frame whose statement has an id, that id is the current one.
  lemma CurrentIdIsTheTexts(mode: Mode, frames: seq<Frame>, f: Frame)
    requires !mode.Classic? && Resolve(mode, Run(mode, frames), f).Some?
    ensures var sql, r := Resolve(mode, Run(mode, frames), f).value.sql, Run(mode, frames + [f]);
      sql in r.ids ==> r.cursorId == r.ids[sql]
  {
    assert (frames + [f])[..|frames|] == frames;
    NoEmptyText(mode, frames);
    RegistryKeepsLog(mode, frames);
    var sql := Resolve(mode, Run(mode, frames), f).value.sql;
    assert Lookup(Run(mode, frames).ids, Some("")) == IdOf(Log(mode, frames), "");
  }

  // So a query that is re-executed is answered under the id its execution was
  // answered with, and every cursor of another id stays as it is.
  lemma ReexecutionKeepsOthers(mode: Mode, v: SessionView, frame: Frame, prefetch: nat, plan: string -> Plan, p: Prepared)
    requires !mode.Classic? && !frame.func.Execute?
    requires Resolve(mode, v.registry, frame) == Some(p) && p.sql in v.registry.ids && plan(p.sql).Query?
    ensures var (w, reply) := Served(mode, v, Execution(frame, prefetch, plan));
      var id := v.registry.ids[p.sql];
      && w.registry.cursorId == id && (reply.Delivery? ==> reply.id == id)
      && forall other: nat | other != id :: SameCursor(v, w, other)
  {
    var request, id := Execution(frame, prefetch, plan), v.registry.ids[p.sql];
    forall other: nat | other != id
      ensures SameCursor(v, Served(mode, v, request).0, other)
    {
      OthersLeaveCursor(mode, v, request, other);
    }
  }
}
