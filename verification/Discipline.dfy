/**
  When a run touches no dead pointer, told from the events alone: a statement pointer is shared by its
  SQLiteStmt and all its RowIterators, and any of them may finalize it.
 */
module Discipline {
  import opened Ownership
  import opened OwnershipRuns

  predicate IssuesStmt(e: Event, s: Ptr) {
    e.PrepareStmt? && e.stmt == s && s != 0
  }

  predicate EndsStmt(e: Event, s: Ptr) {
    Finalized(e) && e.stmt == s
  }

  predicate IssuesDb(e: Event, d: Ptr) {
    e.OpenDb? && e.result.Opened? && e.result.db == d
  }

  predicate EndsDb(e: Event, d: Ptr) {
    e.CloseDb? && e.db == d
  }

  /** The j-th event issues and none after it ends. */
  predicate AliveSince(es: seq<Event>, j: int, issues: Event -> bool, ends: Event -> bool) {
    0 <= j < |es| && issues(es[j]) && forall k :: j < k < |es| ==> !ends(es[k])
  }

  ghost predicate Alive(es: seq<Event>, issues: Event -> bool, ends: Event -> bool) {
    exists j :: AliveSince(es, j, issues, ends)
  }

  /** Some prepare handed out `s` and no finalizing event came after it. */
  ghost predicate StmtAlive(es: seq<Event>, s: Ptr) {
    Alive(es, e => IssuesStmt(e, s), e => EndsStmt(e, s))
  }

  /** Some open handed out `d` and no close came after it. */
  ghost predicate DbAlive(es: seq<Event>, d: Ptr) {
    Alive(es, e => IssuesDb(e, d), e => EndsDb(e, d))
  }

  /** `e` goes only through pointers that are alive, or through the NULL statement. */
  ghost predicate UsesAlive(past: seq<Event>, e: Event) {
    match e
    case OpenDb(_) => true
    case TraceDb(db, _) => DbAlive(past, db)
    case CreateFunction(db, _, _, _) => DbAlive(past, db)
    case CreateCollation(db, _, _) => DbAlive(past, db)
    case PrepareStmt(db, _) => DbAlive(past, db)
    case ExecForNumber(db, _) => DbAlive(past, db)
    case UseDb(db) => DbAlive(past, db)
    case UseStmt(stmt) => stmt == 0 || StmtAlive(past, stmt)
    case RunStmt(stmt, _) => stmt == 0 || StmtAlive(past, stmt)
    case FinalizeStmt(stmt) => stmt == 0 || StmtAlive(past, stmt)
    case CloseDb(db) => DbAlive(past, db)
  }

  ghost predicate Disciplined(es: seq<Event>) {
    forall i :: 0 <= i < |es| ==> UsesAlive(es[..i], es[i])
  }

  /** The allocators and the library behave for as long as the caller does. */
  ghost predicate EnvironmentBehaves(es: seq<Event>) {
    forall i :: 0 <= i < |es| && Legal(EMPTY, es[..i]) ==> EnvironmentOk(Run(EMPTY, es[..i]), es[i])
  }

  lemma AliveStep(es: seq<Event>, issues: Event -> bool, ends: Event -> bool)
    requires es != []
    ensures Alive(es, issues, ends) <==> issues(Last(es)) || (Alive(Front(es), issues, ends) && !ends(Last(es)))
  {
    var n := |es| - 1;
    if issues(Last(es)) {
      assert AliveSince(es, n, issues, ends);
    }
    if !ends(Last(es)) {
      forall j | AliveSince(Front(es), j, issues, ends)
        ensures AliveSince(es, j, issues, ends)
      {
        assert forall k :: j <= k < n ==> es[k] == Front(es)[k];
      }
    }
    forall j | AliveSince(es, j, issues, ends) && j < n
      ensures AliveSince(Front(es), j, issues, ends)
    {
      assert forall k :: j <= k < n ==> es[k] == Front(es)[k];
    }
  }

  /** Closing a SQLiteDb kills none of its statements: a pointer is usable exactly until its own finalizing event. */
  lemma {:induction false} AliveIsOutstanding(es: seq<Event>, p: Ptr)
    requires Legal(EMPTY, es)
    ensures p in Run(EMPTY, es).stmts <==> StmtAlive(es, p)
    ensures p in Run(EMPTY, es).dbs <==> DbAlive(es, p)
  {
    if es == [] {
    } else {
      RunStep(EMPTY, es);
      AliveIsOutstanding(Front(es), p);
      EventDbs(Run(EMPTY, Front(es)), Last(es));
      AliveStep(es, e => IssuesStmt(e, p), e => EndsStmt(e, p));
      AliveStep(es, e => IssuesDb(e, p), e => EndsDb(e, p));
      EventStatements(Run(EMPTY, Front(es)), Last(es));
    }
  }

  lemma UsesAliveIsCallerOk(es: seq<Event>, e: Event)
    requires Legal(EMPTY, es)
    ensures UsesAlive(es, e) <==> CallerOk(Run(EMPTY, es), e)
  {
    match e
    case OpenDb(_) =>
    case UseStmt(stmt) => AliveIsOutstanding(es, stmt);
    case RunStmt(stmt, _) => AliveIsOutstanding(es, stmt);
    case FinalizeStmt(stmt) => AliveIsOutstanding(es, stmt);
    case _ => AliveIsOutstanding(es, e.db);
  }

  /** A run never touches a dead pointer exactly when every pointer is used between its issue and its one finalizing event. */
  lemma {:induction false} LegalIsDisciplined(es: seq<Event>)
    requires EnvironmentBehaves(es)
    ensures Legal(EMPTY, es) <==> Disciplined(es)
  {
    if es == [] {
    } else {
      var n := |es| - 1;
      assert forall i :: 0 <= i <= n ==> Front(es)[..i] == es[..i];
      assert EnvironmentBehaves(Front(es));
      LegalIsDisciplined(Front(es));
      assert Disciplined(es) <==> Disciplined(Front(es)) && UsesAlive(es[..n], es[n]);
      if Legal(EMPTY, Front(es)) {
        UsesAliveIsCallerOk(Front(es), Last(es));
      }
    }
  }
}
