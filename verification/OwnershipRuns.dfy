/** What every run of the binding keeps: conservation of references, connections and statements, and live registrations. */
module OwnershipRuns {
  import opened Options
  import opened Counting
  import opened Ownership

  function Front(es: seq<Event>): seq<Event>
    requires es != []
  {
    es[..|es| - 1]
  }

  function Last(es: seq<Event>): Event
    requires es != []
  {
    es[|es| - 1]
  }

  /** The world after `es`; after an event the caller must not issue nothing is promised, and the model stands still. */
  function Run(w: World, es: seq<Event>): World {
    if es == [] then w
    else
      var v := Run(w, Front(es));
      if CallerOk(v, Last(es)) then Apply(v, Last(es)) else v
  }

  /** Caller and environment keep their sides of the contract all along. */
  predicate Legal(w: World, es: seq<Event>) {
    es == [] ||
    (&& Legal(w, Front(es))
     && CallerOk(Run(w, Front(es)), Last(es))
     && EnvironmentOk(Run(w, Front(es)), Last(es)))
  }

  lemma RunStep(w: World, es: seq<Event>)
    requires Legal(w, es) && es != []
    ensures Legal(w, Front(es)) && CallerOk(Run(w, Front(es)), Last(es))
    ensures EnvironmentOk(Run(w, Front(es)), Last(es))
    ensures Run(w, es) == Apply(Run(w, Front(es)), Last(es))
  {
  }

  lemma {:induction false} RunKeepsInvariant(w: World, es: seq<Event>)
    requires Invariant(w) && Legal(w, es)
    ensures Invariant(Run(w, es))
  {
    if es == [] {
    } else {
      RunKeepsInvariant(w, Front(es));
      EventKeepsInvariant(Run(w, Front(es)), Last(es));
    }
  }

  // ---------------------------------------------------------------- counting

  function Count(es: seq<Event>, counts: Event -> bool): nat {
    if es == [] then 0 else Count(Front(es), counts) + (if counts(Last(es)) then 1 else 0)
  }

  predicate FailedCollation(e: Event) {
    e.CreateCollation? && !e.ok
  }

  predicate FailedOpen(e: Event) {
    e.OpenDb? && e.result.OpenFailed? && e.result.handle != 0
  }

  /** A prepare that produced a statement. */
  predicate Prepared(e: Event) {
    e.PrepareStmt? && e.stmt != 0
  }

  /** An event that finalizes a statement: either close(), or an insert or execute that was not done. */
  predicate Finalized(e: Event) {
    (e.FinalizeStmt? && e.stmt != 0) || (e.RunStmt? && !e.done && e.stmt != 0)
  }

  // ---------------------------------------------------------------- global references

  /** The current trace of each open SQLiteDb that has one. */
  function CurrentTraces(dbs: map<Ptr, NativeDb>): map<Ptr, Ref> {
    map d | d in dbs && dbs[d].trace.Some? :: dbs[d].trace.value
  }

  /** Live references that no owner will ever delete. */
  function Stray(w: World): set<Ref> {
    w.live - Values(w.slots) - Values(CurrentTraces(w.dbs))
  }

  lemma LiveReferences(w: World)
    requires RefsOk(w.dbs, w.slots, w.live, w.nextRef)
    ensures |w.live| == |CurrentTraces(w.dbs)| + |w.slots| + |Stray(w)|
  {
    var traces := CurrentTraces(w.dbs);
    ValuesCount(traces);
    ValuesCount(w.slots);
    PartsCount(w.live, Values(w.slots), Values(traces));
  }

  lemma SettleStray(w: World, c: Ptr)
    requires RefsOk(w.dbs, w.slots, w.live, w.nextRef)
    ensures Stray(Settle(w, c)) == Stray(w)
  {
    var gone := set s | s in w.slots && s.conn == c;
    assert OtherSlots(w.slots, c) == w.slots - gone;
    ValuesWithout(w.slots, gone);
    assert SlotRefs(w.slots, c) == set s | s in gone && s in w.slots :: w.slots[s];
  }

  lemma CloseStray(w: World, db: Ptr)
    requires RefsOk(w.dbs, w.slots, w.live, w.nextRef) && db in w.dbs
    ensures Stray(CloseEffect(w, db)) == Stray(w)
  {
    var v := Unwrap(w, db);
    var traces := CurrentTraces(w.dbs);
    assert CurrentTraces(v.dbs) == traces - {db};
    ValuesWithoutKey(traces, db);
    SettleStray(v, w.dbs[db].handle);
  }

  lemma InstallStray(w: World, slot: Slot)
    requires RefsOk(w.dbs, w.slots, w.live, w.nextRef)
    ensures Stray(InstallEffect(w, slot)) == Stray(w)
  {
    ValuesOfUpdate(w.slots, slot, w.nextRef);
  }

  lemma TraceStray(w: World, db: Ptr, answer: TraceAnswer)
    requires RefsOk(w.dbs, w.slots, w.live, w.nextRef) && db in w.dbs
    ensures Stray(TraceEffect(w, db, answer)) == Stray(w)
  {
    var v := TraceEffect(w, db, answer);
    var traces := CurrentTraces(w.dbs);
    assert CurrentTraces(v.dbs) == traces[db := w.nextRef];
    ValuesOfUpdate(traces, db, w.nextRef);
  }

  lemma FinalizeStray(w: World, stmt: Ptr)
    requires RefsOk(w.dbs, w.slots, w.live, w.nextRef) && (stmt == 0 || stmt in w.stmts)
    ensures Stray(FinalizeEffect(w, stmt)) == Stray(w)
  {
    if stmt != 0 {
      SettleStray(w.(stmts := w.stmts - {stmt}), w.stmts[stmt]);
    }
  }

  lemma OpenStray(w: World, result: OpenResult)
    requires EnvironmentOk(w, OpenDb(result))
    ensures Stray(OpenEffect(w, result)) == Stray(w)
  {
    if result.Opened? {
      assert CurrentTraces(w.dbs[result.db := NativeDb(result.handle, None)]) == CurrentTraces(w.dbs);
    }
  }

  /** One call makes a reference stray exactly when it is a failed createCollation, and never adopts one. */
  lemma EventStray(w: World, e: Event)
    requires RefsOk(w.dbs, w.slots, w.live, w.nextRef) && CallerOk(w, e) && EnvironmentOk(w, e)
    ensures Stray(Apply(w, e)) == Stray(w) + if FailedCollation(e) then {w.nextRef} else {}
  {
    match e
    case OpenDb(result) => OpenStray(w, result);
    case TraceDb(db, answer) => TraceStray(w, db, answer);
    case CreateFunction(db, name, nArgs, ok) =>
      if ok { InstallStray(w, FuncSlot(w.dbs[db].handle, Folded(name), nArgs)); }
    case CreateCollation(db, name, ok) =>
      if ok { InstallStray(w, CollSlot(w.dbs[db].handle, Folded(name))); }
    case RunStmt(stmt, done) => if !done { FinalizeStray(w, stmt); }
    case FinalizeStmt(stmt) => FinalizeStray(w, stmt);
    case CloseDb(db) => CloseStray(w, db);
    case _ =>
  }

  lemma {:induction false} StrayCount(w: World, es: seq<Event>)
    requires Invariant(w) && Legal(w, es)
    ensures |Stray(Run(w, es))| == |Stray(w)| + Count(es, FailedCollation)
  {
    if es == [] {
    } else {
      StrayCount(w, Front(es));
      RunKeepsInvariant(w, Front(es));
      EventStray(Run(w, Front(es)), Last(es));
    }
  }

  /**
    Over every run, the live references are one per open SQLiteDb with a trace, one per function or
    collation still installed (on a zombie too), and one per failed createCollation.
   */
  lemma ReferenceConservation(es: seq<Event>)
    requires Legal(EMPTY, es)
    ensures var w := Run(EMPTY, es);
            |w.live| == |CurrentTraces(w.dbs)| + |w.slots| + Count(es, FailedCollation)
  {
    EmptyIsFine();
    RunKeepsInvariant(EMPTY, es);
    StrayCount(EMPTY, es);
    LiveReferences(Run(EMPTY, es));
  }

  lemma EmptyIsFine()
    ensures Invariant(EMPTY) && Stray(EMPTY) == {}
  {
  }

  lemma EventLive(w: World, e: Event)
    requires (forall r :: r in w.live ==> r < w.nextRef) && CallerOk(w, e) && EnvironmentOk(w, e)
    ensures Apply(w, e).nextRef >= w.nextRef
    ensures forall r :: r in Apply(w, e).live ==> r in w.live || w.nextRef <= r < Apply(w, e).nextRef
  {
  }

  /** A deleted reference never comes back, so a second deletion would always be of a dead one. */
  lemma {:induction false} DeadStaysDead(w: World, es: seq<Event>, r: Ref)
    requires Invariant(w) && Legal(w, es) && r < w.nextRef && r !in w.live
    ensures r < Run(w, es).nextRef && r !in Run(w, es).live
  {
    if es == [] {
    } else {
      DeadStaysDead(w, Front(es), r);
      RunKeepsInvariant(w, Front(es));
      EventLive(Run(w, Front(es)), Last(es));
    }
  }

  // ---------------------------------------------------------------- connections

  function WithStatus(conns: map<Ptr, Status>, holds: Status -> bool): set<Ptr> {
    set c | c in conns && holds(conns[c])
  }

  function Zombies(conns: map<Ptr, Status>): set<Ptr> {
    WithStatus(conns, (s: Status) => s.Zombie?)
  }

  function Orphans(conns: map<Ptr, Status>): set<Ptr> {
    WithStatus(conns, (s: Status) => s.Orphan?)
  }

  lemma StatusCounts(conns: map<Ptr, Status>)
    ensures |conns| == |WithStatus(conns, (s: Status) => s.Open?)| + |Zombies(conns)| + |Orphans(conns)|
  {
    var open := WithStatus(conns, (s: Status) => s.Open?);
    assert conns.Keys == open + Zombies(conns) + Orphans(conns);
    assert open !! Zombies(conns) && open + Zombies(conns) !! Orphans(conns);
    assert |conns| == |conns.Keys|;
  }

  lemma OpenConnections(dbs: map<Ptr, NativeDb>, conns: map<Ptr, Status>)
    requires DbsOk(dbs, conns)
    ensures |conns| == |dbs| + |Zombies(conns)| + |Orphans(conns)|
  {
    var handles := map d | d in dbs :: dbs[d].handle;
    ValuesCount(handles);
    HandlesAreOpen(dbs, conns, handles);
    StatusCounts(conns);
    assert handles.Keys == dbs.Keys;
    assert |dbs| == |dbs.Keys| == |handles.Keys| == |handles|;
  }

  lemma HandlesAreOpen(dbs: map<Ptr, NativeDb>, conns: map<Ptr, Status>, handles: map<Ptr, Ptr>)
    requires DbsOk(dbs, conns) && handles == map d | d in dbs :: dbs[d].handle
    ensures Values(handles) == WithStatus(conns, (s: Status) => s.Open?)
  {
    var open := WithStatus(conns, (s: Status) => s.Open?);
    assert handles.Keys == dbs.Keys;
    assert forall c :: c in open ==> handles[conns[c].db] == c;
  }

  lemma EventOrphans(w: World, e: Event)
    requires DbsOk(w.dbs, w.conns) && CallerOk(w, e) && EnvironmentOk(w, e)
    ensures Orphans(Apply(w, e).conns) == Orphans(w.conns) + if FailedOpen(e) then {e.result.handle} else {}
  {
  }

  lemma {:induction false} OrphanCount(w: World, es: seq<Event>)
    requires Invariant(w) && Legal(w, es)
    ensures |Orphans(Run(w, es).conns)| == |Orphans(w.conns)| + Count(es, FailedOpen)
  {
    if es == [] {
    } else {
      OrphanCount(w, Front(es));
      RunKeepsInvariant(w, Front(es));
      EventOrphans(Run(w, Front(es)), Last(es));
    }
  }

  /**
    Over every run, the connections not deallocated are the open wrappers, the zombies that some
    statement still holds, and one per failed open that returned a handle.
   */
  lemma ConnectionConservation(es: seq<Event>)
    requires Legal(EMPTY, es)
    ensures var w := Run(EMPTY, es);
            && |w.conns| == |w.dbs| + |Zombies(w.conns)| + Count(es, FailedOpen)
            && forall c :: c in Zombies(w.conns) ==> StmtsOf(w.stmts, c) != {}
  {
    EmptyIsFine();
    RunKeepsInvariant(EMPTY, es);
    OrphanCount(EMPTY, es);
    var w := Run(EMPTY, es);
    OpenConnections(w.dbs, w.conns);
  }

  lemma EventDbs(w: World, e: Event)
    requires CallerOk(w, e)
    ensures Apply(w, e).dbs.Keys ==
            if e.OpenDb? && e.result.Opened? then w.dbs.Keys + {e.result.db}
            else if e.CloseDb? then w.dbs.Keys - {e.db}
            else w.dbs.Keys
  {
  }

  /** A SQLiteDb that is open before and after a call keeps its connection. */
  lemma EventHandle(w: World, e: Event, db: Ptr)
    requires CallerOk(w, e) && EnvironmentOk(w, e) && db in Apply(w, e).dbs
    ensures db in w.dbs <==> !(e.OpenDb? && e.result.Opened? && e.result.db == db)
    ensures db in w.dbs ==> Apply(w, e).dbs[db].handle == w.dbs[db].handle
    ensures db !in w.dbs ==> Apply(w, e).dbs[db].handle == e.result.handle
  {
  }

  // ---------------------------------------------------------------- statements

  /** Over every run, the outstanding statements are the non-empty prepares less the finalizing events. */
  lemma {:induction false} StatementConservation(es: seq<Event>)
    requires Legal(EMPTY, es)
    ensures |Run(EMPTY, es).stmts| == Count(es, Prepared) - Count(es, Finalized)
  {
    if es == [] {
    } else {
      StatementConservation(Front(es));
      StatementStep(Run(EMPTY, Front(es)), Last(es));
    }
  }

  lemma EventStatements(w: World, e: Event)
    requires CallerOk(w, e)
    ensures Apply(w, e).stmts ==
            if Prepared(e) then w.stmts[e.stmt := w.dbs[e.db].handle]
            else if Finalized(e) then w.stmts - {e.stmt}
            else w.stmts
  {
  }

  lemma StatementStep(w: World, e: Event)
    requires CallerOk(w, e) && EnvironmentOk(w, e)
    ensures |Apply(w, e).stmts| == |w.stmts| + (if Prepared(e) then 1 else 0) - (if Finalized(e) then 1 else 0)
  {
    EventStatements(w, e);
    if Finalized(e) {
      SizeAfterRemoval(w.stmts, e.stmt);
    } else if Prepared(e) {
      SizeAfterUpdate(w.stmts, e.stmt, w.dbs[e.db].handle);
    }
  }

  // ---------------------------------------------------------------- functions and collations

  /** A function or collation the library may call holds a live reference in every reachable state, on zombies too. */
  lemma CallbacksHoldLiveReferences(es: seq<Event>, slot: Slot)
    requires Legal(EMPTY, es) && slot in Run(EMPTY, es).slots
    ensures Run(EMPTY, es).slots[slot] in Run(EMPTY, es).live
    ensures Serves(Run(EMPTY, es).conns, slot.conn)
  {
    EmptyIsFine();
    RunKeepsInvariant(EMPTY, es);
  }
}
