/**
  The trace callback of a connection over whole runs: when it can fire with a reference that close() or
  another trace() has deleted, told from the calls alone, and which call is the first to make it possible.
 */
module TraceCallbacks {
  import opened Options
  import opened Ownership
  import opened OwnershipRuns

  // ---------------------------------------------------------------- what the calls say

  /** What the calls of trace() on an open `db` amount to: no registration, the current one, or an outdated one. */
  datatype TraceRecord = Untraced | Registered | Stale

  function Traces(es: seq<Event>, db: Ptr): TraceRecord {
    if es == [] then Untraced
    else NextRecord(Last(es), Traces(Front(es), db), db)
  }

  function NextRecord(e: Event, record: TraceRecord, db: Ptr): TraceRecord {
    match e
    case OpenDb(Opened(d, _)) => if d == db then Untraced else record
    case TraceDb(d, answer) => if d == db then RecordAfter(answer, record) else record
    case CloseDb(d) => if d == db then Untraced else record
    case _ => record
  }

  function RecordAfter(answer: TraceAnswer, record: TraceRecord): TraceRecord {
    match answer
    case Accepted => Registered
    case FailedKeepingOld => if record == Untraced then Untraced else Stale
    case FailedCancellingOld => Untraced
  }

  /** The statements prepared from `db` since it was opened and not finalized since. */
  function OwnStmts(es: seq<Event>, db: Ptr): set<Ptr> {
    if es == [] then {}
    else NextStmts(Last(es), OwnStmts(Front(es), db), db)
  }

  function NextStmts(e: Event, own: set<Ptr>, db: Ptr): set<Ptr> {
    if e.OpenDb? && e.result.Opened? && e.result.db == db then {}
    else if Prepared(e) && e.db == db then own + {e.stmt}
    else if Finalized(e) then own - {e.stmt}
    else own
  }

  /** Outstanding statements whose SQLiteDb was closed while its connection was traced. */
  function Haunted(es: seq<Event>): set<Ptr> {
    if es == [] then {}
    else
      var past, e := Front(es), Last(es);
      if e.CloseDb? && Traces(past, e.db) != Untraced then Haunted(past) + OwnStmts(past, e.db)
      else if Finalized(e) then Haunted(past) - {e.stmt}
      else Haunted(past)
  }

  // ---------------------------------------------------------------- statements of an open SQLiteDb

  lemma StmtsOfUpdate(stmts: map<Ptr, Ptr>, s: Ptr, c: Ptr, x: Ptr)
    requires s !in stmts
    ensures StmtsOf(stmts[s := c], x) == if c == x then StmtsOf(stmts, x) + {s} else StmtsOf(stmts, x)
  {
  }

  lemma StmtsOfRemoval(stmts: map<Ptr, Ptr>, s: Ptr, x: Ptr)
    ensures StmtsOf(stmts - {s}, x) == StmtsOf(stmts, x) - {s}
  {
  }

  lemma EventStmtsOf(w: World, e: Event, c: Ptr)
    requires CallerOk(w, e) && EnvironmentOk(w, e)
    ensures StmtsOf(Apply(w, e).stmts, c) ==
            if Prepared(e) && w.dbs[e.db].handle == c then StmtsOf(w.stmts, c) + {e.stmt}
            else if Finalized(e) then StmtsOf(w.stmts, c) - {e.stmt}
            else StmtsOf(w.stmts, c)
  {
    EventStatements(w, e);
    if Prepared(e) {
      StmtsOfUpdate(w.stmts, e.stmt, w.dbs[e.db].handle, c);
    } else if Finalized(e) {
      StmtsOfRemoval(w.stmts, e.stmt, c);
    }
  }

  /** The outstanding statements of an open SQLiteDb's connection are those the calls name. */
  lemma {:induction false} OwnStmtsAreOutstanding(es: seq<Event>, db: Ptr)
    requires Legal(EMPTY, es) && db in Run(EMPTY, es).dbs
    ensures StmtsOf(Run(EMPTY, es).stmts, Run(EMPTY, es).dbs[db].handle) == OwnStmts(es, db)
  {
    if es == [] {
    } else {
      var w, e, c := Run(EMPTY, Front(es)), Last(es), Run(EMPTY, es).dbs[db].handle;
      EmptyIsFine();
      RunKeepsInvariant(EMPTY, Front(es));
      RunStep(EMPTY, es);
      EventHandle(w, e, db);
      EventStmtsOf(w, e, c);
      if db in w.dbs {
        OwnStmtsAreOutstanding(Front(es), db);
        OwnConnection(w, e, db);
      } else {
        NewConnectionHasNoStmts(w, c);
      }
    }
  }

  lemma OwnConnection(w: World, e: Event, db: Ptr)
    requires DbsOk(w.dbs, w.conns) && CallerOk(w, e) && db in w.dbs
    ensures Prepared(e) ==> (w.dbs[e.db].handle == w.dbs[db].handle <==> e.db == db)
  {
  }

  lemma NewConnectionHasNoStmts(w: World, c: Ptr)
    requires StmtsOk(w.stmts, w.conns) && c !in w.conns
    ensures StmtsOf(w.stmts, c) == {}
  {
    assert forall s :: s in w.stmts ==> Serves(w.conns, w.stmts[s]);
  }

  // ---------------------------------------------------------------- the trace of an open SQLiteDb

  /** What the record of `db` says about its connection's trace callback. */
  ghost predicate RecordFits(w: World, db: Ptr, record: TraceRecord)
    requires db in w.dbs
  {
    var c := w.dbs[db].handle;
    && (c in w.tracers <==> record != Untraced)
    && (c in w.tracers ==> (w.tracers[c] in w.live <==> record == Registered))
  }

  /** On an open connection: live if and only if current. */
  lemma CurrentTraceIsLive(w: World, db: Ptr)
    requires DbsOk(w.dbs, w.conns) && TracersOk(w) && db in w.dbs && w.dbs[db].handle in w.tracers
    ensures var r := w.tracers[w.dbs[db].handle];
            r in w.live <==> w.dbs[db].trace == Some(r)
  {
  }

  lemma OwnTraceFits(w: World, db: Ptr, answer: TraceAnswer, record: TraceRecord)
    requires DbsOk(w.dbs, w.conns) && TracersOk(w) && db in w.dbs && RecordFits(w, db, record)
    requires var v := TraceEffect(w, db, answer); DbsOk(v.dbs, v.conns) && TracersOk(v)
    ensures RecordFits(TraceEffect(w, db, answer), db, RecordAfter(answer, record))
  {
    var v := TraceEffect(w, db, answer);
    if v.dbs[db].handle in v.tracers { CurrentTraceIsLive(v, db); }
  }

  /** `v` has the trace of `db`, and of its connection, that `w` has. */
  ghost predicate SameTrace(w: World, v: World, db: Ptr)
    requires db in w.dbs
  {
    var c := w.dbs[db].handle;
    && db in v.dbs && v.dbs[db] == w.dbs[db]
    && (c in v.tracers <==> c in w.tracers)
    && (c in w.tracers ==> v.tracers[c] == w.tracers[c])
  }

  lemma SettleLeavesTrace(w: World, x: Ptr, db: Ptr)
    requires db in w.dbs && w.dbs[db].handle in w.conns && w.conns[w.dbs[db].handle] != Zombie
    ensures SameTrace(w, Settle(w, x), db)
  {
  }

  lemma ReleaseEventLeavesTrace(w: World, e: Event, db: Ptr)
    requires DbsOk(w.dbs, w.conns) && CallerOk(w, e) && db in w.dbs
    requires Finalized(e) || (e.CloseDb? && e.db != db)
    ensures SameTrace(w, Apply(w, e), db)
  {
    if e.CloseDb? {
      SettleLeavesTrace(Unwrap(w, e.db), w.dbs[e.db].handle, db);
    } else {
      SettleLeavesTrace(w.(stmts := w.stmts - {e.stmt}), w.stmts[e.stmt], db);
    }
  }

  lemma TraceEventLeavesTrace(w: World, other: Ptr, answer: TraceAnswer, db: Ptr)
    requires DbsOk(w.dbs, w.conns) && db in w.dbs && other in w.dbs && other != db
    ensures SameTrace(w, TraceEffect(w, other, answer), db)
  {
  }

  lemma OtherEventLeavesTrace(w: World, e: Event, db: Ptr)
    requires DbsOk(w.dbs, w.conns) && CallerOk(w, e) && EnvironmentOk(w, e)
    requires db in w.dbs && db in Apply(w, e).dbs && !(e.TraceDb? && e.db == db)
    ensures SameTrace(w, Apply(w, e), db)
  {
    EventDbs(w, e);
    if e.TraceDb? {
      TraceEventLeavesTrace(w, e.db, e.answer, db);
    } else if e.CloseDb? || Finalized(e) {
      ReleaseEventLeavesTrace(w, e, db);
    }
  }

  lemma OtherEventFits(w: World, e: Event, db: Ptr, record: TraceRecord)
    requires DbsOk(w.dbs, w.conns) && TracersOk(w) && CallerOk(w, e) && EnvironmentOk(w, e)
    requires var v := Apply(w, e); DbsOk(v.dbs, v.conns) && TracersOk(v) && db in v.dbs
    requires db in w.dbs && !(e.TraceDb? && e.db == db) && RecordFits(w, db, record)
    ensures RecordFits(Apply(w, e), db, record)
  {
    OtherEventLeavesTrace(w, e, db);
    if w.dbs[db].handle in w.tracers {
      CurrentTraceIsLive(w, db);
      CurrentTraceIsLive(Apply(w, e), db);
    }
  }

  lemma OpenedFits(w: World, db: Ptr, handle: Ptr)
    requires RegistrationsOk(w.slots, w.tracers, w.conns) && handle !in w.conns
    ensures RecordFits(OpenEffect(w, Opened(db, handle)), db, Untraced)
  {
    assert forall c :: c in w.tracers ==> Serves(w.conns, c);
  }

  lemma NextRecordOfOther(w: World, e: Event, record: TraceRecord, db: Ptr)
    requires CallerOk(w, e) && EnvironmentOk(w, e)
    requires db in w.dbs && db in Apply(w, e).dbs && !(e.TraceDb? && e.db == db)
    ensures NextRecord(e, record, db) == record
  {
    EventDbs(w, e);
  }

  /**
    While a SQLiteDb is open, its connection calls back with a live reference exactly when the last
    trace() succeeded, and with a deleted one exactly when a later trace() failed and the library kept
    the old registration.
   */
  lemma {:induction false} TraceWhileOpen(es: seq<Event>, db: Ptr)
    requires Legal(EMPTY, es) && db in Run(EMPTY, es).dbs
    ensures RecordFits(Run(EMPTY, es), db, Traces(es, db))
  {
    if es == [] {
    } else {
      var w, e, record := Run(EMPTY, Front(es)), Last(es), Traces(Front(es), db);
      EmptyIsFine();
      RunKeepsInvariant(EMPTY, Front(es));
      RunKeepsInvariant(EMPTY, es);
      RunStep(EMPTY, es);
      if db !in w.dbs {
        EventDbs(w, e);
        OpenedFits(w, db, e.result.handle);
      } else {
        TraceWhileOpen(Front(es), db);
        if e.TraceDb? && e.db == db {
          OwnTraceFits(w, db, e.answer, record);
        } else {
          OtherEventFits(w, e, db, record);
          NextRecordOfOther(w, e, record, db);
        }
      }
    }
  }

  lemma {:induction false} NotOpenIsUntraced(es: seq<Event>, db: Ptr)
    requires Legal(EMPTY, es) && db !in Run(EMPTY, es).dbs
    ensures Traces(es, db) == Untraced
  {
    if es == [] {
    } else {
      RunStep(EMPTY, es);
      EventDbs(Run(EMPTY, Front(es)), Last(es));
      if db !in Run(EMPTY, Front(es)).dbs {
        NotOpenIsUntraced(Front(es), db);
      }
    }
  }

  // ---------------------------------------------------------------- zombies

  /** Outstanding statements of traced zombies. */
  function OnTracedZombies(w: World): set<Ptr> {
    set s | s in w.stmts && w.stmts[s] in w.tracers && w.stmts[s] in w.conns && w.conns[w.stmts[s]] == Zombie
  }

  lemma CloseHaunts(w: World, db: Ptr)
    requires DbsOk(w.dbs, w.conns) && db in w.dbs
    ensures var c := w.dbs[db].handle;
            OnTracedZombies(CloseEffect(w, db)) == OnTracedZombies(w) + if c in w.tracers then StmtsOf(w.stmts, c) else {}
  {
    var v, c := Unwrap(w, db), w.dbs[db].handle;
    assert OnTracedZombies(v) == OnTracedZombies(w) + if c in w.tracers then StmtsOf(w.stmts, c) else {};
    SettleHauntsNone(v, c);
  }

  /** The connection that goes has no statement left. */
  lemma SettleHauntsNone(w: World, c: Ptr)
    ensures OnTracedZombies(Settle(w, c)) == OnTracedZombies(w)
  {
    if Settle(w, c) != w {
      forall s | s in w.stmts
        ensures w.stmts[s] != c
      {
        assert s !in StmtsOf(w.stmts, c);
      }
    }
  }

  lemma FinalizeHaunts(w: World, stmt: Ptr)
    requires stmt == 0 || stmt in w.stmts
    ensures stmt == 0 ==> FinalizeEffect(w, stmt) == w
    ensures stmt != 0 ==> OnTracedZombies(FinalizeEffect(w, stmt)) == OnTracedZombies(w) - {stmt}
  {
    if stmt != 0 {
      SettleHauntsNone(w.(stmts := w.stmts - {stmt}), w.stmts[stmt]);
    }
  }

  lemma OpenHauntsNone(w: World, result: OpenResult)
    requires StmtsOk(w.stmts, w.conns) && EnvironmentOk(w, OpenDb(result))
    ensures OnTracedZombies(OpenEffect(w, result)) == OnTracedZombies(w)
  {
    assert forall s :: s in w.stmts ==> Serves(w.conns, w.stmts[s]);
  }

  lemma OtherEventHauntsNone(w: World, e: Event)
    requires DbsOk(w.dbs, w.conns) && CallerOk(w, e) && EnvironmentOk(w, e)
    requires !e.OpenDb? && !e.CloseDb? && !Finalized(e)
    ensures OnTracedZombies(Apply(w, e)) == OnTracedZombies(w)
  {
  }

  lemma CloseAfterRunHaunts(es: seq<Event>, db: Ptr)
    requires Legal(EMPTY, es) && db in Run(EMPTY, es).dbs
    ensures var w := Run(EMPTY, es);
            OnTracedZombies(CloseEffect(w, db))
            == OnTracedZombies(w) + if Traces(es, db) != Untraced then OwnStmts(es, db) else {}
  {
    RunOwners(es);
    CloseHaunts(Run(EMPTY, es), db);
    TraceWhileOpen(es, db);
    OwnStmtsAreOutstanding(es, db);
  }

  /** The parts of the invariant that speak of connections and their owners. */
  lemma RunOwners(es: seq<Event>)
    requires Legal(EMPTY, es)
    ensures var w := Run(EMPTY, es); DbsOk(w.dbs, w.conns) && StmtsOk(w.stmts, w.conns)
  {
    EmptyIsFine();
    RunKeepsInvariant(EMPTY, es);
  }

  lemma {:induction false} HauntedAreOnTracedZombies(es: seq<Event>)
    requires Legal(EMPTY, es)
    ensures Haunted(es) == OnTracedZombies(Run(EMPTY, es))
  {
    if es == [] {
    } else {
      var w, e := Run(EMPTY, Front(es)), Last(es);
      HauntedAreOnTracedZombies(Front(es));
      RunOwners(Front(es));
      RunStep(EMPTY, es);
      if e.CloseDb? {
        CloseAfterRunHaunts(Front(es), e.db);
      } else if Finalized(e) {
        FinalizeHaunts(w, e.stmt);
      } else if e.OpenDb? {
        OpenHauntsNone(w, e.result);
      } else {
        OtherEventHauntsNone(w, e);
      }
    }
  }

  lemma ZombieTraceIsDead(w: World, c: Ptr)
    requires TracersOk(w) && c in w.tracers && c in w.conns && w.conns[c] == Zombie
    ensures w.tracers[c] !in w.live
  {
  }

  /** A zombie's trace callback, if it has one, holds a deleted reference. */
  lemma TraceOnZombie(es: seq<Event>, c: Ptr)
    requires Legal(EMPTY, es) && c in Zombies(Run(EMPTY, es).conns) && c in Run(EMPTY, es).tracers
    ensures Run(EMPTY, es).tracers[c] !in Run(EMPTY, es).live
  {
    EmptyIsFine();
    RunKeepsInvariant(EMPTY, es);
    ZombieTraceIsDead(Run(EMPTY, es), c);
  }

  // ---------------------------------------------------------------- safety

  ghost predicate EveryTraceLive(w: World) {
    forall c :: c in w.tracers ==> w.tracers[c] in w.live
  }

  /** An outdated callback is on a zombie, which some statement holds, or on an open connection. */
  lemma OutdatedTrace(w: World, c: Ptr)
    requires DbsOk(w.dbs, w.conns) && ZombiesHeld(w.conns, w.stmts, {}) && RegistrationsOk(w.slots, w.tracers, w.conns)
    requires c in w.tracers && w.tracers[c] !in w.live
    ensures OnTracedZombies(w) != {} ||
            exists d :: d in w.dbs && w.dbs[d].handle == c
  {
    assert Serves(w.conns, c);
    if w.conns[c] == Zombie {
      var s :| s in StmtsOf(w.stmts, c);
      assert s in OnTracedZombies(w);
    } else {
      assert w.dbs[w.conns[c].db].handle == c;
    }
  }

  /** No open SQLiteDb is left with an outdated registration. */
  ghost predicate NoneStale(es: seq<Event>) {
    forall db: Ptr :: Traces(es, db) != Stale
  }

  lemma LiveTracesHauntNone(w: World)
    requires TracersOk(w) && EveryTraceLive(w)
    ensures OnTracedZombies(w) == {}
  {
    forall s | s in w.stmts && w.stmts[s] in w.tracers && w.stmts[s] in w.conns
      ensures w.conns[w.stmts[s]] != Zombie
    {
      if w.conns[w.stmts[s]] == Zombie { ZombieTraceIsDead(w, w.stmts[s]); }
    }
  }

  lemma LiveTracesAreNotStale(es: seq<Event>, db: Ptr)
    requires Legal(EMPTY, es) && EveryTraceLive(Run(EMPTY, es))
    ensures Traces(es, db) != Stale
  {
    if db in Run(EMPTY, es).dbs { TraceWhileOpen(es, db); } else { NotOpenIsUntraced(es, db); }
  }

  lemma OutdatedTraceAfterRun(es: seq<Event>, c: Ptr)
    requires Legal(EMPTY, es) && c in Run(EMPTY, es).tracers && Run(EMPTY, es).tracers[c] !in Run(EMPTY, es).live
    ensures OnTracedZombies(Run(EMPTY, es)) != {} || !NoneStale(es)
  {
    var w := Run(EMPTY, es);
    EmptyIsFine();
    RunKeepsInvariant(EMPTY, es);
    OutdatedTrace(w, c);
    if d :| d in w.dbs && w.dbs[d].handle == c {
      TraceWhileOpen(es, d);
    }
  }

  /**
    No trace callback can fire with a deleted reference, exactly when every statement whose SQLiteDb was
    closed while traced has been finalized and no open SQLiteDb is left with an outdated registration.
   */
  lemma TraceSafety(es: seq<Event>)
    requires Legal(EMPTY, es)
    ensures EveryTraceLive(Run(EMPTY, es)) <==> Haunted(es) == {} && NoneStale(es)
  {
    HauntedAreOnTracedZombies(es);
    if EveryTraceLive(Run(EMPTY, es)) {
      RunTracers(es);
      LiveTracesHauntNone(Run(EMPTY, es));
      forall db: Ptr { LiveTracesAreNotStale(es, db); }
    } else {
      var c :| c in Run(EMPTY, es).tracers && Run(EMPTY, es).tracers[c] !in Run(EMPTY, es).live;
      OutdatedTraceAfterRun(es, c);
    }
  }

  lemma RunTracers(es: seq<Event>)
    requires Legal(EMPTY, es)
    ensures TracersOk(Run(EMPTY, es))
  {
    EmptyIsFine();
    RunKeepsInvariant(EMPTY, es);
  }

  // ---------------------------------------------------------------- the guard of the next call

  /**
    The caller closes only what is not traced or has no statement out, and no trace() of a traced
    SQLiteDb fails with the library keeping the old registration.
   */
  predicate Guarded(past: seq<Event>, e: Event) {
    && (e.CloseDb? ==> Traces(past, e.db) == Untraced || OwnStmts(past, e.db) == {})
    && (e.TraceDb? && e.answer.FailedKeepingOld? ==> Traces(past, e.db) == Untraced)
  }

  lemma Extend(es: seq<Event>, e: Event)
    requires Legal(EMPTY, es) && CallerOk(Run(EMPTY, es), e) && EnvironmentOk(Run(EMPTY, es), e)
    ensures Front(es + [e]) == es && Last(es + [e]) == e
    ensures Legal(EMPTY, es + [e]) && Run(EMPTY, es + [e]) == Apply(Run(EMPTY, es), e)
  {
    assert Front(es + [e]) == es;
  }

  /** The guard, on the calls alone. */
  lemma GuardMeans(es: seq<Event>, e: Event)
    requires Haunted(es) == {} && NoneStale(es)
    ensures Haunted(es + [e]) == {} && NoneStale(es + [e]) <==> Guarded(es, e)
  {
    assert Front(es + [e]) == es && Last(es + [e]) == e;
    assert forall db :: Traces(es + [e], db) == NextRecord(e, Traces(es, db), db);
    if NoneStale(es + [e]) && e.TraceDb? {
      assert RecordAfter(e.answer, Traces(es, e.db)) == Traces(es + [e], e.db);
    }
  }

  /** From a safe state, a call keeps every trace callback live if and only if it passes the guard. */
  lemma TraceGuard(es: seq<Event>, e: Event)
    requires Legal(EMPTY, es) && CallerOk(Run(EMPTY, es), e) && EnvironmentOk(Run(EMPTY, es), e)
    requires EveryTraceLive(Run(EMPTY, es))
    ensures EveryTraceLive(Apply(Run(EMPTY, es), e)) <==> Guarded(es, e)
  {
    Extend(es, e);
    TraceSafety(es);
    TraceSafety(es + [e]);
    GuardMeans(es, e);
  }

  /** trace() is safe whatever the library answers if and only if the SQLiteDb is not traced already. */
  lemma TraceAtTheLibrarysMercy(es: seq<Event>, db: Ptr)
    requires Legal(EMPTY, es) && db in Run(EMPTY, es).dbs && EveryTraceLive(Run(EMPTY, es))
    ensures (forall answer :: EveryTraceLive(Apply(Run(EMPTY, es), TraceDb(db, answer)))) <==> Traces(es, db) == Untraced
  {
    TraceGuard(es, TraceDb(db, Accepted));
    TraceGuard(es, TraceDb(db, FailedKeepingOld));
    TraceGuard(es, TraceDb(db, FailedCancellingOld));
  }

  ghost predicate AlwaysTraceLive(es: seq<Event>) {
    EveryTraceLive(Run(EMPTY, es)) && (es == [] || AlwaysTraceLive(Front(es)))
  }

  predicate AllGuarded(es: seq<Event>) {
    es == [] || (AllGuarded(Front(es)) && Guarded(Front(es), Last(es)))
  }

  /** No trace callback can fire with a deleted reference at any time of a run, if and only if every call passes the guard. */
  lemma {:induction false} TraceSafetyAlways(es: seq<Event>)
    requires Legal(EMPTY, es)
    ensures AlwaysTraceLive(es) <==> AllGuarded(es)
  {
    if es == [] {
    } else {
      TraceSafetyAlways(Front(es));
      RunStep(EMPTY, es);
      if AlwaysTraceLive(Front(es)) {
        TraceGuard(Front(es), Last(es));
      }
    }
  }

  // ---------------------------------------------------------------- orderly runs

  /** Every trace() call succeeds, and no SQLiteDb is closed while a statement of its own is outstanding. */
  predicate Orderly(es: seq<Event>) {
    es == [] ||
    (&& Orderly(Front(es))
     && (Last(es).TraceDb? ==> Last(es).answer == Accepted)
     && (Last(es).CloseDb? ==> OwnStmts(Front(es), Last(es).db) == {}))
  }

  lemma NoZombieStep(w: World, e: Event)
    requires DbsOk(w.dbs, w.conns) && CallerOk(w, e) && EnvironmentOk(w, e)
    requires forall c :: c in w.conns ==> w.conns[c] != Zombie
    requires e.CloseDb? ==> StmtsOf(w.stmts, w.dbs[e.db].handle) == {}
    ensures forall c :: c in Apply(w, e).conns ==> Apply(w, e).conns[c] != Zombie
  {
  }

  lemma {:induction false} OrderlyRunsHaveNoZombies(es: seq<Event>)
    requires Legal(EMPTY, es) && Orderly(es)
    ensures forall c :: c in Run(EMPTY, es).conns ==> Run(EMPTY, es).conns[c] != Zombie
  {
    if es == [] {
    } else {
      OrderlyRunsHaveNoZombies(Front(es));
      EmptyIsFine();
      RunStep(EMPTY, es);
      RunKeepsInvariant(EMPTY, Front(es));
      if Last(es).CloseDb? {
        OwnStmtsAreOutstanding(Front(es), Last(es).db);
      }
      NoZombieStep(Run(EMPTY, Front(es)), Last(es));
    }
  }

  lemma {:induction false} OrderlyIsGuarded(es: seq<Event>)
    requires Orderly(es)
    ensures AllGuarded(es)
  {
    if es == [] {
    } else {
      OrderlyIsGuarded(Front(es));
    }
  }

  /** Statements finalized before close: no zombies, and the trace callback is live all through the run. */
  lemma OrderlyRunsAreTraceSafe(es: seq<Event>)
    requires Legal(EMPTY, es) && Orderly(es)
    ensures Zombies(Run(EMPTY, es).conns) == {} && AlwaysTraceLive(es)
  {
    OrderlyRunsHaveNoZombies(es);
    OrderlyIsGuarded(es);
    TraceSafetyAlways(es);
  }
}
