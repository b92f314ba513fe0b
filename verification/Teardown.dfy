/**
  Teardown: closing SQLiteDbs and finalizing statements in any order.  The world after any such sequence
  depends only on what was closed and finalized, and closing everything leaves nothing but the leftovers
  of failed calls.
 */
module Teardown {
  import opened Options
  import opened Counting
  import opened Ownership
  import opened OwnershipRuns

  /** A close of a SQLiteDb, or one of the events that finalize a statement. */
  predicate IsTeardown(e: Event) {
    e.CloseDb? || Finalized(e)
  }

  predicate AllTeardown(es: seq<Event>) {
    forall i :: 0 <= i < |es| ==> IsTeardown(es[i])
  }

  function Closed(es: seq<Event>): set<Ptr> {
    set i | 0 <= i < |es| && es[i].CloseDb? :: es[i].db
  }

  function Ended(es: seq<Event>): set<Ptr> {
    set i | 0 <= i < |es| && Finalized(es[i]) :: es[i].stmt
  }

  // ---------------------------------------------------------------- the result, told at once

  /** The connection is not wrapped once the SQLiteDbs in `closed` are gone. */
  predicate Unwrapped(status: Status, closed: set<Ptr>) {
    match status
    case Open(db) => db in closed
    case Zombie => true
    case Orphan => false
  }

  /** Connections nobody holds: unwrapped, and every statement of theirs in `ended`. */
  function Gone(w: World, closed: set<Ptr>, ended: set<Ptr>): set<Ptr> {
    set c | c in w.conns && Unwrapped(w.conns[c], closed) && StmtsOf(w.stmts, c) <= ended
  }

  function ConnsLeft(conns: map<Ptr, Status>, closed: set<Ptr>, gone: set<Ptr>): map<Ptr, Status> {
    map c | c in conns && c !in gone :: if Unwrapped(conns[c], closed) then Zombie else conns[c]
  }

  function SlotsLeft(slots: map<Slot, Ref>, gone: set<Ptr>): map<Slot, Ref> {
    map s | s in slots && s.conn !in gone :: slots[s]
  }

  function RefsOn(slots: map<Slot, Ref>, gone: set<Ptr>): set<Ref> {
    set s | s in slots && s.conn in gone :: slots[s]
  }

  function TracesOf(dbs: map<Ptr, NativeDb>, closed: set<Ptr>): set<Ref> {
    set d | d in closed && d in dbs && dbs[d].trace.Some? :: dbs[d].trace.value
  }

  /** The world after closing `closed` and finalizing `ended`, with no word about order. */
  function TornDown(w: World, closed: set<Ptr>, ended: set<Ptr>): World {
    Without(w, closed, ended, Gone(w, closed, ended))
  }

  /** The same with the connections to leave out given. */
  function Without(w: World, closed: set<Ptr>, ended: set<Ptr>, gone: set<Ptr>): World {
    World(ConnsLeft(w.conns, closed, gone), w.tracers - gone, SlotsLeft(w.slots, gone), w.stmts - ended,
          w.dbs - closed, w.live - TracesOf(w.dbs, closed) - RefsOn(w.slots, gone), w.nextRef)
  }

  lemma NobodyGone(w: World)
    requires DbsOk(w.dbs, w.conns) && ZombiesHeld(w.conns, w.stmts, {})
    ensures Gone(w, {}, {}) == {}
  {
    forall c | c in w.conns && Unwrapped(w.conns[c], {})
      ensures !(StmtsOf(w.stmts, c) <= {})
    {
      assert StmtsOf(w.stmts, c) != {};
    }
  }

  lemma NothingTornDown(w: World)
    requires DbsOk(w.dbs, w.conns) && ZombiesHeld(w.conns, w.stmts, {})
    ensures TornDown(w, {}, {}) == w
  {
    NobodyGone(w);
    assert ConnsLeft(w.conns, {}, {}) == w.conns;
    assert SlotsLeft(w.slots, {}) == w.slots;
    assert RefsOn(w.slots, {}) == {};
  }

  // ---------------------------------------------------------------- one more close

  lemma StmtsLeft(stmts: map<Ptr, Ptr>, ended: set<Ptr>, c: Ptr)
    ensures StmtsOf(stmts - ended, c) == StmtsOf(stmts, c) - ended
    ensures StmtsOf(stmts - ended, c) == {} <==> StmtsOf(stmts, c) <= ended
  {
    var left := StmtsOf(stmts, c) - ended;
    assert StmtsOf(stmts - ended, c) == left;
    if left == {} {
      assert forall s :: s in StmtsOf(stmts, c) ==> s !in left;
    }
  }

  lemma GoneByClose(w: World, closed: set<Ptr>, ended: set<Ptr>, db: Ptr)
    requires DbsOk(w.dbs, w.conns) && db in w.dbs && db !in closed
    ensures var c := w.dbs[db].handle;
            && c !in Gone(w, closed, ended)
            && (StmtsOf(w.stmts, c) <= ended ==> Gone(w, closed + {db}, ended) == Gone(w, closed, ended) + {c})
            && (!(StmtsOf(w.stmts, c) <= ended) ==> Gone(w, closed + {db}, ended) == Gone(w, closed, ended))
  {
  }

  lemma ConnsByClose(w: World, closed: set<Ptr>, gone: set<Ptr>, db: Ptr)
    requires DbsOk(w.dbs, w.conns) && db in w.dbs && db !in closed && w.dbs[db].handle !in gone
    ensures var c := w.dbs[db].handle;
            && ConnsLeft(w.conns, closed, gone)[c := Zombie] == ConnsLeft(w.conns, closed + {db}, gone)
            && ConnsLeft(w.conns, closed, gone)[c := Zombie] - {c} == ConnsLeft(w.conns, closed + {db}, gone + {c})
  {
  }

  lemma SlotsByRelease(slots: map<Slot, Ref>, gone: set<Ptr>, c: Ptr)
    ensures OtherSlots(SlotsLeft(slots, gone), c) == SlotsLeft(slots, gone + {c})
    ensures RefsOn(slots, gone + {c}) == RefsOn(slots, gone) + SlotRefs(SlotsLeft(slots, gone), c)
  {
    var left := SlotsLeft(slots, gone);
    forall s | s in slots && s.conn == c
      ensures slots[s] in RefsOn(slots, gone) + SlotRefs(left, c)
    {
      if c !in gone {
        assert s in left && left[s] == slots[s];
      }
    }
  }

  lemma TracesByClose(dbs: map<Ptr, NativeDb>, closed: set<Ptr>, db: Ptr)
    requires db in dbs
    ensures TracesOf(dbs, closed + {db}) == TracesOf(dbs, closed) + TraceRefs(dbs[db])
  {
  }

  lemma UnwrapAfter(w: World, closed: set<Ptr>, ended: set<Ptr>, gone: set<Ptr>, db: Ptr)
    requires DbsOk(w.dbs, w.conns) && db in w.dbs && db !in closed && w.dbs[db].handle !in gone
    ensures var c, v := w.dbs[db].handle, Without(w, closed, ended, gone);
            && db in v.dbs && v.dbs[db] == w.dbs[db]
            && Unwrap(v, db) == Without(w, closed + {db}, ended, gone)
            && c in Without(w, closed + {db}, ended, gone).conns
            && Without(w, closed + {db}, ended, gone).conns[c] == Zombie
  {
    ConnsByClose(w, closed, gone, db);
    TracesByClose(w.dbs, closed, db);
    assert w.dbs - closed - {db} == w.dbs - (closed + {db});
  }

  /** Releasing `c` from a world without `gone` is being without `gone` and `c`. */
  lemma ReleaseAfter(w: World, closed: set<Ptr>, ended: set<Ptr>, gone: set<Ptr>, c: Ptr)
    ensures Release(Without(w, closed, ended, gone), c) == Without(w, closed, ended, gone + {c})
  {
    SlotsByRelease(w.slots, gone, c);
    assert ConnsLeft(w.conns, closed, gone) - {c} == ConnsLeft(w.conns, closed, gone + {c});
    assert w.tracers - gone - {c} == w.tracers - (gone + {c});
    assert w.live - TracesOf(w.dbs, closed) - RefsOn(w.slots, gone) - SlotRefs(SlotsLeft(w.slots, gone), c)
        == w.live - TracesOf(w.dbs, closed) - RefsOn(w.slots, gone + {c});
  }

  /** Settling a zombie: it goes exactly when all its statements have ended. */
  lemma SettleAfter(w: World, closed: set<Ptr>, ended: set<Ptr>, gone: set<Ptr>, c: Ptr)
    requires c in w.conns && c !in gone
    ensures Settle(Without(w, closed, ended, gone), c)
            == Without(w, closed, ended,
                       if Unwrapped(w.conns[c], closed) && StmtsOf(w.stmts, c) <= ended then gone + {c} else gone)
  {
    StmtsLeft(w.stmts, ended, c);
    ReleaseAfter(w, closed, ended, gone, c);
  }

  lemma CloseAfter(w: World, closed: set<Ptr>, ended: set<Ptr>, db: Ptr)
    requires DbsOk(w.dbs, w.conns) && db in w.dbs && db !in closed
    ensures db in TornDown(w, closed, ended).dbs
    ensures CloseEffect(TornDown(w, closed, ended), db) == TornDown(w, closed + {db}, ended)
  {
    var c, gone := w.dbs[db].handle, Gone(w, closed, ended);
    GoneByClose(w, closed, ended, db);
    UnwrapAfter(w, closed, ended, gone, db);
    SettleAfter(w, closed + {db}, ended, gone, c);
  }

  // ---------------------------------------------------------------- one more finalization

  lemma GoneByFinalize(w: World, closed: set<Ptr>, ended: set<Ptr>, stmt: Ptr)
    requires stmt in w.stmts && stmt !in ended && w.stmts[stmt] in w.conns
    ensures var c := w.stmts[stmt];
            && c !in Gone(w, closed, ended)
            && var last := Unwrapped(w.conns[c], closed) && StmtsOf(w.stmts, c) <= ended + {stmt};
            && (last ==> Gone(w, closed, ended + {stmt}) == Gone(w, closed, ended) + {c})
            && (!last ==> Gone(w, closed, ended + {stmt}) == Gone(w, closed, ended))
  {
    var c := w.stmts[stmt];
    assert stmt in StmtsOf(w.stmts, c);
    forall x | x in w.conns && x != c
      ensures StmtsOf(w.stmts, x) <= ended + {stmt} <==> StmtsOf(w.stmts, x) <= ended
    {
      assert stmt !in StmtsOf(w.stmts, x);
    }
  }

  lemma FinalizeAfter(w: World, closed: set<Ptr>, ended: set<Ptr>, stmt: Ptr)
    requires StmtsOk(w.stmts, w.conns) && stmt in w.stmts && stmt !in ended
    ensures stmt in TornDown(w, closed, ended).stmts
    ensures FinalizeEffect(TornDown(w, closed, ended), stmt) == TornDown(w, closed, ended + {stmt})
  {
    var c, gone := w.stmts[stmt], Gone(w, closed, ended);
    assert Serves(w.conns, c);
    GoneByFinalize(w, closed, ended, stmt);
    SettleAfter(w, closed, ended + {stmt}, gone, c);
    var v := Without(w, closed, ended, gone);
    assert v.(stmts := v.stmts - {stmt}) == Without(w, closed, ended + {stmt}, gone) by {
      assert w.stmts - ended - {stmt} == w.stmts - (ended + {stmt});
    }
  }

  // ---------------------------------------------------------------- any sequence

  lemma TargetsStep(es: seq<Event>)
    requires es != []
    ensures Closed(es) == Closed(Front(es)) + Closes(Last(es))
    ensures Ended(es) == Ended(Front(es)) + Ends(Last(es))
  {
    var n := |es| - 1;
    forall d | d in Closed(es) && !(Last(es).CloseDb? && d == Last(es).db)
      ensures d in Closed(Front(es))
    {
      var i :| 0 <= i < |es| && es[i].CloseDb? && es[i].db == d;
      assert Front(es)[i] == es[i];
    }
    forall d | d in Closed(Front(es))
      ensures d in Closed(es)
    {
      var i :| 0 <= i < n && Front(es)[i].CloseDb? && Front(es)[i].db == d;
      assert es[i] == Front(es)[i];
    }
    forall s | s in Ended(es) && !(Finalized(Last(es)) && s == Last(es).stmt)
      ensures s in Ended(Front(es))
    {
      var i :| 0 <= i < |es| && Finalized(es[i]) && es[i].stmt == s;
      assert Front(es)[i] == es[i];
    }
    forall s | s in Ended(Front(es))
      ensures s in Ended(es)
    {
      var i :| 0 <= i < n && Finalized(Front(es)[i]) && Front(es)[i].stmt == s;
      assert es[i] == Front(es)[i];
    }
  }

  function Closes(e: Event): set<Ptr> {
    if e.CloseDb? then {e.db} else {}
  }

  function Ends(e: Event): set<Ptr> {
    if Finalized(e) then {e.stmt} else {}
  }

  lemma TeardownClose(w: World, es: seq<Event>)
    requires DbsOk(w.dbs, w.conns) && es != [] && Legal(w, es) && Last(es).CloseDb?
    requires Run(w, Front(es)) == TornDown(w, Closed(Front(es)), Ended(Front(es)))
    ensures Run(w, es) == TornDown(w, Closed(es), Ended(es))
  {
    var db, closed, ended := Last(es).db, Closed(Front(es)), Ended(Front(es));
    RunStep(w, es);
    TargetsStep(es);
    CloseAfter(w, closed, ended, db);
    assert Closed(es) == closed + {db} && Ended(es) == ended;
  }

  lemma TeardownFinalize(w: World, es: seq<Event>)
    requires StmtsOk(w.stmts, w.conns) && es != [] && Legal(w, es) && Finalized(Last(es))
    requires Run(w, Front(es)) == TornDown(w, Closed(Front(es)), Ended(Front(es)))
    ensures Run(w, es) == TornDown(w, Closed(es), Ended(es))
  {
    var stmt, closed, ended := Last(es).stmt, Closed(Front(es)), Ended(Front(es));
    RunStep(w, es);
    TargetsStep(es);
    FinalizeAfter(w, closed, ended, stmt);
    assert Closed(es) == closed && Ended(es) == ended + {stmt};
  }

  lemma AllTeardownFront(es: seq<Event>)
    requires AllTeardown(es) && es != []
    ensures AllTeardown(Front(es)) && IsTeardown(Last(es))
  {
    assert forall i :: 0 <= i < |es| - 1 ==> Front(es)[i] == es[i];
  }

  /** A teardown sequence ends in the world told from the two sets of its targets. */
  lemma {:induction false} TeardownResult(w: World, es: seq<Event>)
    requires Invariant(w) && AllTeardown(es) && Legal(w, es)
    ensures Run(w, es) == TornDown(w, Closed(es), Ended(es))
  {
    if es == [] {
      assert Closed(es) == {} && Ended(es) == {};
      NothingTornDown(w);
    } else {
      AllTeardownFront(es);
      TeardownResult(w, Front(es));
      if Last(es).CloseDb? { TeardownClose(w, es); } else { TeardownFinalize(w, es); }
    }
  }

  /** Each event has its own target, live at the start. */
  predicate OwnTargets(w: World, es: seq<Event>) {
    && AllTeardown(es)
    && (forall i :: 0 <= i < |es| && es[i].CloseDb? ==> es[i].db in w.dbs)
    && (forall i :: 0 <= i < |es| && !es[i].CloseDb? ==> es[i].stmt in w.stmts)
    && (forall i, j :: 0 <= i < j < |es| && es[i].CloseDb? && es[j].CloseDb? ==> es[i].db != es[j].db)
    && (forall i, j :: 0 <= i < j < |es| && !es[i].CloseDb? && !es[j].CloseDb? ==> es[i].stmt != es[j].stmt)
  }

  lemma OwnTargetsFront(w: World, es: seq<Event>)
    requires OwnTargets(w, es) && es != []
    ensures OwnTargets(w, Front(es))
    ensures Last(es).CloseDb? ==> Last(es).db in w.dbs && Last(es).db !in Closed(Front(es))
    ensures !Last(es).CloseDb? ==> Last(es).stmt in w.stmts && Last(es).stmt !in Ended(Front(es))
  {
    assert forall i :: 0 <= i < |es| - 1 ==> Front(es)[i] == es[i];
    forall d | d in Closed(Front(es)) && Last(es).CloseDb?
      ensures d != Last(es).db
    {
      var i :| 0 <= i < |es| - 1 && Front(es)[i].CloseDb? && Front(es)[i].db == d;
      assert es[i].db == d;
    }
    forall s | s in Ended(Front(es)) && !Last(es).CloseDb?
      ensures s != Last(es).stmt
    {
      var i :| 0 <= i < |es| - 1 && Finalized(Front(es)[i]) && Front(es)[i].stmt == s;
      assert es[i].stmt == s;
    }
  }

  /** Every order is allowed: no close or finalization ever meets a dead pointer. */
  lemma {:induction false} AnyOrderIsLegal(w: World, es: seq<Event>)
    requires Invariant(w) && OwnTargets(w, es)
    ensures Legal(w, es)
  {
    if es == [] {
    } else {
      OwnTargetsFront(w, es);
      AnyOrderIsLegal(w, Front(es));
      TeardownResult(w, Front(es));
    }
  }

  /** Two teardowns of the same things end in the same world, whatever their orders and whichever handle finalizes. */
  lemma TeardownConfluent(w: World, es: seq<Event>, fs: seq<Event>)
    requires Invariant(w) && OwnTargets(w, es) && OwnTargets(w, fs)
    requires Closed(es) == Closed(fs) && Ended(es) == Ended(fs)
    ensures Legal(w, es) && Legal(w, fs) && Run(w, es) == Run(w, fs)
  {
    AnyOrderIsLegal(w, es);
    AnyOrderIsLegal(w, fs);
    TeardownResult(w, es);
    TeardownResult(w, fs);
  }

  lemma EverythingGone(w: World)
    requires Invariant(w)
    ensures var gone := Gone(w, w.dbs.Keys, w.stmts.Keys);
            && gone == w.conns.Keys - Orphans(w.conns)
            && (forall c :: Serves(w.conns, c) ==> c in gone)
  {
    assert forall c :: StmtsOf(w.stmts, c) <= w.stmts.Keys;
  }

  lemma AllTraces(dbs: map<Ptr, NativeDb>)
    ensures TracesOf(dbs, dbs.Keys) == Values(CurrentTraces(dbs))
  {
    var traces := CurrentTraces(dbs);
    assert forall d :: d in traces ==> d in dbs.Keys && dbs[d].trace == Some(traces[d]);
    forall d | d in dbs && dbs[d].trace.Some?
      ensures dbs[d].trace.value in Values(traces)
    {
      assert d in traces && traces[d] == dbs[d].trace.value;
    }
  }

  lemma AllSlots(slots: map<Slot, Ref>, gone: set<Ptr>)
    requires forall s :: s in slots ==> s.conn in gone
    ensures SlotsLeft(slots, gone) == map[] && RefsOn(slots, gone) == Values(slots)
  {
  }

  function OrphanMap(conns: map<Ptr, Status>): map<Ptr, Status> {
    map c | c in Orphans(conns) :: Orphan
  }

  /** Once everything is closed and finalized, only the connections of failed opens and the stray references are left. */
  lemma EverythingTornDown(w: World)
    requires Invariant(w)
    ensures var end := TornDown(w, w.dbs.Keys, w.stmts.Keys);
            && end.stmts == map[] && end.dbs == map[] && end.slots == map[] && end.tracers == map[]
            && end.conns == OrphanMap(w.conns)
            && end.live == Stray(w)
  {
    var closed := w.dbs.Keys;
    var gone := Gone(w, closed, w.stmts.Keys);
    EverythingGone(w);
    AllTraces(w.dbs);
    AllSlots(w.slots, gone);
    OrphansLeft(w.conns, closed);
    assert w.tracers - gone == map[];
    assert w.live - Values(CurrentTraces(w.dbs)) - Values(w.slots) == Stray(w);
  }

  lemma OrphansLeft(conns: map<Ptr, Status>, closed: set<Ptr>)
    ensures ConnsLeft(conns, closed, conns.Keys - Orphans(conns)) == OrphanMap(conns)
  {
  }

  lemma OrphanMapSize(conns: map<Ptr, Status>)
    ensures |OrphanMap(conns)| == |Orphans(conns)| && Zombies(OrphanMap(conns)) == {}
  {
    var left := OrphanMap(conns);
    MapSize(left);
    assert left.Keys == Orphans(conns);
  }

  lemma MapSize<K, V>(m: map<K, V>)
    ensures |m| == |m.Keys|
  {
  }

  lemma AllClosed(w: World, down: seq<Event>)
    requires Invariant(w) && OwnTargets(w, down)
    requires Closed(down) == w.dbs.Keys && Ended(down) == w.stmts.Keys
    ensures Legal(w, down) && Run(w, down) == TornDown(w, w.dbs.Keys, w.stmts.Keys)
  {
    AnyOrderIsLegal(w, down);
    TeardownResult(w, down);
  }

  /**
    After any run, any teardown of all that is open leaves no statement, no SQLiteDb, no zombie and no
    registration: just one connection for each failed open and one reference for each failed
    createCollation.
   */
  lemma FullTeardown(es: seq<Event>, down: seq<Event>)
    requires Legal(EMPTY, es)
    requires OwnTargets(Run(EMPTY, es), down)
    requires Closed(down) == Run(EMPTY, es).dbs.Keys && Ended(down) == Run(EMPTY, es).stmts.Keys
    ensures Legal(Run(EMPTY, es), down)
    ensures var end := Run(Run(EMPTY, es), down);
            && end.stmts == map[] && end.dbs == map[] && end.slots == map[] && end.tracers == map[]
            && Zombies(end.conns) == {} && |end.conns| == Count(es, FailedOpen)
            && |end.live| == Count(es, FailedCollation)
  {
    EmptyIsFine();
    RunKeepsInvariant(EMPTY, es);
    StrayCount(EMPTY, es);
    OrphanCount(EMPTY, es);
    var w := Run(EMPTY, es);
    AllClosed(w, down);
    EverythingTornDown(w);
    OrphanMapSize(w.conns);
  }
}
