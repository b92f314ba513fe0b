/**
  The error text of a failed insert or execute: it is asked of the connection only after the statement was
  finalized, and that may have deallocated the connection.
 */
module ErrorTexts {
  import opened Ownership
  import opened OwnershipRuns
  import opened TraceCallbacks

  /** The connection is dead exactly when its SQLiteDb was closed before and the statement was its last one. */
  lemma ErrorTextConnection(w: World, stmt: Ptr)
    requires Invariant(w) && stmt in w.stmts
    ensures AsksDeadConnection(w, RunStmt(stmt, false)) <==>
            w.conns[w.stmts[stmt]] == Zombie && StmtsOf(w.stmts, w.stmts[stmt]) == {stmt}
  {
    var c := w.stmts[stmt];
    assert Serves(w.conns, c);
    assert StmtsOf(w.stmts - {stmt}, c) == StmtsOf(w.stmts, c) - {stmt};
    assert stmt in StmtsOf(w.stmts, c);
  }

  // ---------------------------------------------------------------- told from the calls

  /** Once the SQLiteDb of statement `s` is closed: the statements of that SQLiteDb not finalized yet. */
  function Left(es: seq<Event>, s: Ptr): set<Ptr> {
    if es == [] then {}
    else
      var past, e := Front(es), Last(es);
      if e.CloseDb? && s in OwnStmts(past, e.db) then OwnStmts(past, e.db)
      else if Prepared(e) && e.stmt == s then {}
      else if Finalized(e) then Left(past, s) - {e.stmt}
      else Left(past, s)
  }

  /** A connection with a statement outlasts every settling. */
  lemma SettleKeepsHeld(w: World, c: Ptr, x: Ptr)
    requires x in w.conns && StmtsOf(w.stmts, x) != {}
    ensures x in Settle(w, c).conns && Settle(w, c).conns[x] == w.conns[x] && Settle(w, c).stmts == w.stmts
  {
  }

  lemma CloseStatus(w: World, db: Ptr, s: Ptr)
    requires db in w.dbs && s in w.stmts && w.stmts[s] in w.conns
    ensures var v, c := CloseEffect(w, db), w.stmts[s];
            && v.stmts == w.stmts && c in v.conns
            && v.conns[c] == if w.dbs[db].handle == c then Zombie else w.conns[c]
  {
    assert s in StmtsOf(w.stmts, w.stmts[s]);
    SettleKeepsHeld(Unwrap(w, db), w.dbs[db].handle, w.stmts[s]);
  }

  lemma FinalizeStatus(w: World, stmt: Ptr, s: Ptr)
    requires stmt in w.stmts && s in w.stmts && s != stmt && w.stmts[s] in w.conns
    ensures var v, c := FinalizeEffect(w, stmt), w.stmts[s];
            && s in v.stmts && v.stmts[s] == c && c in v.conns && v.conns[c] == w.conns[c]
  {
    var left := w.(stmts := w.stmts - {stmt});
    assert s in StmtsOf(left.stmts, w.stmts[s]);
    SettleKeepsHeld(left, w.stmts[stmt], w.stmts[s]);
  }

  lemma OtherStatus(w: World, e: Event, s: Ptr)
    requires CallerOk(w, e) && EnvironmentOk(w, e) && !e.CloseDb? && !Finalized(e)
    requires s in w.stmts && w.stmts[s] in w.conns
    ensures var v, c := Apply(w, e), w.stmts[s];
            && s in v.stmts && v.stmts[s] == c && c in v.conns && v.conns[c] == w.conns[c]
  {
  }

  /** A statement that is still outstanding holds its connection; only close() of its own SQLiteDb makes that a zombie. */
  lemma EventStatus(w: World, e: Event, s: Ptr)
    requires StmtsOk(w.stmts, w.conns) && CallerOk(w, e) && EnvironmentOk(w, e)
    requires s in w.stmts && !(Finalized(e) && e.stmt == s)
    ensures var v, c := Apply(w, e), w.stmts[s];
            && s in v.stmts && v.stmts[s] == c && c in v.conns && c in w.conns
            && v.conns[c] == if e.CloseDb? && w.dbs[e.db].handle == c then Zombie else w.conns[c]
  {
    assert Serves(w.conns, w.stmts[s]);
    if e.CloseDb? {
      CloseStatus(w, e.db, s);
    } else if Finalized(e) {
      FinalizeStatus(w, e.stmt, s);
    } else {
      OtherStatus(w, e, s);
    }
  }

  /** What `Left` says about the world: the statements of the zombie that `s` runs on. */
  predicate LeftFits(w: World, s: Ptr, left: set<Ptr>)
    requires s in w.stmts
  {
    var c := w.stmts[s];
    left == if c in w.conns && w.conns[c] == Zombie then StmtsOf(w.stmts, c) else {}
  }

  lemma LeftByClose(es: seq<Event>, db: Ptr, s: Ptr)
    requires Legal(EMPTY, es) && db in Run(EMPTY, es).dbs && s in Run(EMPTY, es).stmts
    requires LeftFits(Run(EMPTY, es), s, Left(es, s))
    ensures LeftFits(Apply(Run(EMPTY, es), CloseDb(db)), s, if s in OwnStmts(es, db) then OwnStmts(es, db) else Left(es, s))
  {
    var w := Run(EMPTY, es);
    RunOwners(es);
    OwnStmtsAreOutstanding(es, db);
    EventStatus(w, CloseDb(db), s);
    EventStatements(w, CloseDb(db));
  }

  lemma LeftByOther(w: World, e: Event, s: Ptr, left: set<Ptr>)
    requires DbsOk(w.dbs, w.conns) && StmtsOk(w.stmts, w.conns) && CallerOk(w, e) && EnvironmentOk(w, e)
    requires s in w.stmts && !e.CloseDb? && !(Finalized(e) && e.stmt == s) && LeftFits(w, s, left)
    ensures s in Apply(w, e).stmts
    ensures LeftFits(Apply(w, e), s, if Finalized(e) then left - {e.stmt} else left)
  {
    EventStatus(w, e, s);
    EventStmtsOf(w, e, w.stmts[s]);
  }

  lemma LeftByPrepare(w: World, db: Ptr, s: Ptr)
    requires DbsOk(w.dbs, w.conns) && db in w.dbs && s != 0
    ensures LeftFits(Apply(w, PrepareStmt(db, s)), s, {})
  {
  }

  lemma {:induction false} LeftIsOutstanding(es: seq<Event>, s: Ptr)
    requires Legal(EMPTY, es) && s in Run(EMPTY, es).stmts
    ensures LeftFits(Run(EMPTY, es), s, Left(es, s))
  {
    if es == [] {
    } else {
      var w, e := Run(EMPTY, Front(es)), Last(es);
      RunOwners(Front(es));
      RunStep(EMPTY, es);
      EventStatements(w, e);
      if Prepared(e) && e.stmt == s {
        LeftByPrepare(w, e.db, s);
      } else {
        LeftIsOutstanding(Front(es), s);
        if e.CloseDb? {
          LeftByClose(Front(es), e.db, s);
        } else {
          LeftByOther(w, e, s, Left(Front(es), s));
        }
      }
    }
  }

  /** A failed insert or execute asks a deallocated connection if and only if its statement is all that was left. */
  lemma ErrorTextFromCalls(es: seq<Event>, s: Ptr)
    requires Legal(EMPTY, es) && s in Run(EMPTY, es).stmts
    ensures AsksDeadConnection(Run(EMPTY, es), RunStmt(s, false)) <==> Left(es, s) == {s}
  {
    EmptyIsFine();
    RunKeepsInvariant(EMPTY, es);
    LeftIsOutstanding(es, s);
    ErrorTextConnection(Run(EMPTY, es), s);
    assert Serves(Run(EMPTY, es).conns, Run(EMPTY, es).stmts[s]);
  }

  /** With statements finalized before close, the connection a failed insert or execute asks is always there. */
  lemma OrderlyRunsAskLiveConnections(es: seq<Event>, e: Event)
    requires Legal(EMPTY, es) && Orderly(es) && CallerOk(Run(EMPTY, es), e)
    ensures !AsksDeadConnection(Run(EMPTY, es), e)
  {
    EmptyIsFine();
    RunKeepsInvariant(EMPTY, es);
    OrderlyRunsHaveNoZombies(es);
    if e.RunStmt? && e.stmt != 0 {
      ErrorTextConnection(Run(EMPTY, es), e.stmt);
      assert Serves(Run(EMPTY, es).conns, Run(EMPTY, es).stmts[e.stmt]);
    }
  }
}
