/** The session's statement registry: which SQL text each cursor id stands for. */
module CursorRegistry {
  import opened Wrappers
  import opened Machine

  datatype Mode = Oci | NewerFraming | Classic

  datatype Prepared = Prepared(sql: string, types: seq<byte>)

  datatype Function = Execute | Reexecute | ReexecuteAndFetch

  // A parsed request to run a statement; `sql` is absent when the frame names a
  // statement the client believes is already prepared.
  datatype Frame = Frame(func: Function, sql: Option<string>, types: Option<seq<byte>>, named: Option<nat>, seqByte: byte)

  datatype Registry = Registry(
    ids: map<string, nat>,
    idToSql: map<nat, Prepared>,
    seqToSql: map<byte, Prepared>,
    last: Option<Prepared>,
    cursorId: nat,
    nextId: nat)

  function Initial(mode: Mode): Registry {
    Registry(map[], map[], map[], None, if mode.Oci? then 2 else 1, if mode.Oci? then 3 else 1)
  }

  // `wrapping_add(1).max(3)` on 16 bits.
  function NextId(id: nat): nat {
    var n := (id + 1) % 65536;
    if n < 3 then 3 else n
  }

  function Lookup<K, V>(m: map<K, V>, key: Option<K>): Option<V> {
    if key.Some? && key.value in m then Some(m[key.value]) else None
  }

  function Or<V>(a: Option<V>, b: Option<V>): Option<V> {
    if a.Some? then a else b
  }

  // The statement a frame means.
  function Resolve(mode: Mode, r: Registry, f: Frame): Option<Prepared> {
    if f.sql.Some? then Some(Prepared(f.sql.value, if f.types.Some? then f.types.value else []))
    else
      var hint :=
        if f.func.Execute? then Or(Lookup(r.idToSql, f.named), r.last)
        else if mode.Oci? then Or(Lookup(r.idToSql, f.named), Or(Lookup(r.seqToSql, Some(f.seqByte)), r.last))
        else r.last;
      match hint
      case None => None
      case Some(p) => Some(if f.types.Some? then p.(types := f.types.value) else p)
  }

  // The registry once the statement is about to run; its cursor id is the one
  // the client is answered with.
  function Recorded(mode: Mode, r: Registry, f: Frame, p: Prepared): Registry {
    if !f.func.Execute? then
      if !mode.Classic? && p.sql in r.ids then r.(cursorId := r.ids[p.sql]) else r
    else if p.sql == "" then r
    else
      var noted := r.(last := Some(p), seqToSql := r.seqToSql[f.seqByte := p]);
      if mode.Classic? then noted.(idToSql := r.idToSql[r.cursorId := p])
      else if p.sql in r.ids then
        noted.(cursorId := r.ids[p.sql], idToSql := r.idToSql[r.ids[p.sql] := p])
      else
        noted.(ids := r.ids[p.sql := r.nextId], nextId := NextId(r.nextId), cursorId := r.nextId,
          idToSql := r.idToSql[r.nextId := p])
  }

  function Step(mode: Mode, r: Registry, f: Frame): Registry {
    match Resolve(mode, r, f)
    case None => r
    case Some(p) => Recorded(mode, r, f, p)
  }

  function Run(mode: Mode, frames: seq<Frame>): Registry {
    if frames == [] then Initial(mode)
    else Step(mode, Run(mode, frames[..|frames| - 1]), frames[|frames| - 1])
  }

  class SessionRegistry {
    const mode: Mode
    var ids: map<string, nat>
    var idToSql: map<nat, Prepared>
    var seqToSql: map<byte, Prepared>
    var last: Option<Prepared>
    var cursorId: nat
    var nextId: nat

    ghost function View(): Registry
      reads this
    {
      Registry(ids, idToSql, seqToSql, last, cursorId, nextId)
    }

    constructor (mode: Mode)
      ensures this.mode == mode && View() == Initial(mode)
    {
      this.mode := mode;
      ids, idToSql, seqToSql, last := map[], map[], map[], None;
      cursorId := if mode.Oci? then 2 else 1;
      nextId := if mode.Oci? then 3 else 1;
    }

    // Resolves a frame and notes its statement, or fails with nothing changed.
    method Prepare(f: Frame) returns (p: Option<Prepared>)
      modifies this
      ensures p == Resolve(mode, old(View()), f)
      ensures View() == Step(mode, old(View()), f)
    {
      if f.sql.Some? {
        p := Some(Prepared(f.sql.value, if f.types.Some? then f.types.value else []));
      } else {
        var hint := last;
        if !f.func.Execute? && mode.Oci? && f.seqByte in seqToSql {
          hint := Some(seqToSql[f.seqByte]);
        }
        if (f.func.Execute? || mode.Oci?) && f.named.Some? && f.named.value in idToSql {
          hint := Some(idToSql[f.named.value]);
        }
        if hint.None? {
          return None;
        }
        p := Some(if f.types.Some? then hint.value.(types := f.types.value) else hint.value);
      }
      var sql := p.value.sql;
      if !mode.Classic? && !f.func.Execute? && sql in ids {
        cursorId := ids[sql];
      }
      if f.func.Execute? && sql != "" {
        last := p;
        seqToSql := seqToSql[f.seqByte := p.value];
        if !mode.Classic? {
          if sql !in ids {
            ids := ids[sql := nextId];
            nextId := NextId(nextId);
          }
          cursorId := ids[sql];
        }
        idToSql := idToSql[cursorId := p.value];
      }
    }
  }

  // ---- Ids over whole runs ----------------------------------------------------

  // How many ids there are before one is handed out twice.
  function Capacity(mode: Mode): nat {
    if mode.Oci? then 65533 else 65534
  }

  // The id of the k-th text.
  function IdAt(mode: Mode, k: nat): nat {
    if k == 0 then (if mode.Oci? then 3 else 1) else NextId(IdAt(mode, k - 1))
  }

  lemma {:induction false} IdsCountUp(mode: Mode, k: nat)
    requires k <= Capacity(mode)
    ensures k < Capacity(mode) ==> IdAt(mode, k) == if mode.Oci? then 3 + k else if k == 0 then 1 else 2 + k
    ensures k == Capacity(mode) ==> IdAt(mode, k) == 3
  {
    if k > 0 {
      IdsCountUp(mode, k - 1);
    }
  }

  lemma IdsAreDistinct(mode: Mode, j: nat, k: nat)
    requires j < k < Capacity(mode)
    ensures IdAt(mode, j) != IdAt(mode, k)
  {
    IdsCountUp(mode, j);
    IdsCountUp(mode, k);
  }

  predicate Distinct(texts: seq<string>) {
    forall i, j | 0 <= i < j < |texts| :: texts[i] != texts[j]
  }

  // The texts executed, each at its first execution.
  function Texts(mode: Mode, frames: seq<Frame>): seq<string> {
    if frames == [] then []
    else
      var before, f := frames[..|frames| - 1], frames[|frames| - 1];
      match Resolve(mode, Run(mode, before), f)
      case None => Texts(mode, before)
      case Some(p) =>
        if f.func.Execute? && p.sql != "" && p.sql !in Texts(mode, before) then Texts(mode, before) + [p.sql]
        else Texts(mode, before)
  }

  // What the registry holds once the given texts have been executed.
  ghost predicate Holds(mode: Mode, r: Registry, texts: seq<string>) {
    && Distinct(texts)
    && (forall s :: s in r.ids <==> s in texts)
    && (forall k | 0 <= k < |texts| :: r.ids[texts[k]] == IdAt(mode, k))
    && r.nextId == IdAt(mode, |texts|)
  }

  // The reverse map is the inverse of the ids.
  ghost predicate Inverse(r: Registry) {
    && (forall s <- r.ids :: r.ids[s] in r.idToSql && r.idToSql[r.ids[s]].sql == s)
    && (forall id <- r.idToSql :: r.idToSql[id].sql in r.ids && r.ids[r.idToSql[id].sql] == id)
  }

  lemma {:induction false} RunHolds(mode: Mode, frames: seq<Frame>)
    requires !mode.Classic?
    ensures Holds(mode, Run(mode, frames), Texts(mode, frames))
    ensures |Texts(mode, frames)| <= Capacity(mode) ==> Inverse(Run(mode, frames))
  {
    if frames != [] {
      var before, f := frames[..|frames| - 1], frames[|frames| - 1];
      RunHolds(mode, before);
      var r, texts := Run(mode, before), Texts(mode, before);
      match Resolve(mode, r, f)
      case None =>
      case Some(p) =>
        if f.func.Execute? && p.sql != "" {
          StepHolds(mode, r, texts, f, p);
        }
    }
  }

  // While ids last, the next one is not in use.
  lemma NextIdIsFresh(mode: Mode, r: Registry, texts: seq<string>)
    requires Holds(mode, r, texts) && |texts| < Capacity(mode)
    ensures forall s <- r.ids :: r.ids[s] != r.nextId
  {
    forall s | s in r.ids ensures r.ids[s] != r.nextId {
      var k :| 0 <= k < |texts| && texts[k] == s;
      IdsAreDistinct(mode, k, |texts|);
    }
  }

  lemma InverseExtends(r: Registry, p: Prepared)
    requires Inverse(r) && p.sql !in r.ids && forall s <- r.ids :: r.ids[s] != r.nextId
    ensures Inverse(r.(ids := r.ids[p.sql := r.nextId], idToSql := r.idToSql[r.nextId := p]))
  {
  }

  lemma InverseRenews(r: Registry, p: Prepared)
    requires Inverse(r) && p.sql in r.ids
    ensures Inverse(r.(idToSql := r.idToSql[r.ids[p.sql] := p]))
  {
  }

  lemma HoldsExtends(mode: Mode, r: Registry, texts: seq<string>, sql: string)
    requires Holds(mode, r, texts) && sql !in texts
    ensures Holds(mode, r.(ids := r.ids[sql := r.nextId], nextId := NextId(r.nextId)), texts + [sql])
  {
    assert IdAt(mode, |texts| + 1) == NextId(IdAt(mode, |texts|));
  }

  lemma StepHolds(mode: Mode, r: Registry, texts: seq<string>, f: Frame, p: Prepared)
    requires !mode.Classic? && f.func.Execute? && p.sql != ""
    requires Holds(mode, r, texts) && (|texts| <= Capacity(mode) ==> Inverse(r))
    ensures var more := if p.sql in texts then texts else texts + [p.sql];
      && Holds(mode, Recorded(mode, r, f, p), more)
      && (|more| <= Capacity(mode) ==> Inverse(Recorded(mode, r, f, p)))
  {
    if p.sql in texts {
      if |texts| <= Capacity(mode) {
        InverseRenews(r, p);
      }
    } else {
      HoldsExtends(mode, r, texts, p.sql);
      if |texts| < Capacity(mode) {
        NextIdIsFresh(mode, r, texts);
        InverseExtends(r, p);
      }
    }
  }

  predicate Injective(ids: map<string, nat>) {
    forall s, t | s in ids && t in ids && s != t :: ids[s] != ids[t]
  }

  // Ids are injective as long as, and only as long as, there are enough.
  lemma IdsAreInjective(mode: Mode, frames: seq<Frame>)
    requires !mode.Classic?
    ensures Injective(Run(mode, frames).ids) <==> |Texts(mode, frames)| <= Capacity(mode)
  {
    RunHolds(mode, frames);
    var ids, texts := Run(mode, frames).ids, Texts(mode, frames);
    if |texts| > Capacity(mode) {
      var first := if mode.Oci? then 0 else 1;
      IdsCountUp(mode, first);
      IdsCountUp(mode, Capacity(mode));
      assert texts[first] != texts[Capacity(mode)];
      assert ids[texts[first]] == ids[texts[Capacity(mode)]];
    }
  }

  // A text keeps its id for the rest of the session.
  lemma {:induction false} IdsAreStable(mode: Mode, frames: seq<Frame>, more: seq<Frame>)
    ensures var now, later := Run(mode, frames).ids, Run(mode, frames + more).ids;
      forall s <- now :: s in later && later[s] == now[s]
    ensures Texts(mode, frames) <= Texts(mode, frames + more)
  {
    if more == [] {
      assert frames + more == frames;
    } else {
      var init := more[..|more| - 1];
      assert (frames + more)[..|frames + more| - 1] == frames + init;
      IdsAreStable(mode, frames, init);
    }
  }

  // Whether the code consults the id a frame names.
  predicate Consults(mode: Mode, func: Function) {
    func.Execute? || mode.Oci?
  }

  // A statement executed and answered with an id is the one that id resolves
  // to ever after.
  lemma NamedIdFindsItsText(mode: Mode, frames: seq<Frame>, more: seq<Frame>, f: Frame)
    requires !mode.Classic? && frames != [] && frames[|frames| - 1].func.Execute?
    requires |Texts(mode, frames + more)| <= Capacity(mode)
    requires f.sql.None? && Consults(mode, f.func) && f.named == Some(Run(mode, frames).cursorId)
    requires var p := Resolve(mode, Run(mode, frames[..|frames| - 1]), frames[|frames| - 1]);
      p.Some? && p.value.sql != ""
    ensures var p := Resolve(mode, Run(mode, frames[..|frames| - 1]), frames[|frames| - 1]).value;
      var found := Resolve(mode, Run(mode, frames + more), f);
      found.Some? && found.value.sql == p.sql
  {
    var p := Resolve(mode, Run(mode, frames[..|frames| - 1]), frames[|frames| - 1]).value;
    var now, later := Run(mode, frames), Run(mode, frames + more);
    assert p.sql in now.ids && now.ids[p.sql] == now.cursorId;
    IdsAreStable(mode, frames, more);
    RunHolds(mode, frames + more);
  }
}
