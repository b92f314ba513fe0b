/** Concrete inputs, each as short as can be, on which a tidy promise about the binding fails. */
module KnownFaults {
  import opened Options
  import opened Ownership
  import opened OwnershipRuns
  import opened TraceCallbacks
  import opened ErrorTexts
  import opened JavaTypes
  import opened ModifiedUtf8
  import opened StandardUtf8
  import opened DoubleTransport
  import Cursors
  import SharedCursors

  // ---------------------------------------------------------------- ownership

  const OPEN := OpenDb(Opened(1, 2))
  const AFTER_OPEN := World(map[2 := Open(1)], map[], map[], map[], map[1 := NativeDb(2, None)], {}, 0)

  lemma OpenRuns()
    ensures Legal(EMPTY, [OPEN]) && Run(EMPTY, [OPEN]) == AFTER_OPEN
  {
    Extend([], OPEN);
    assert [] + [OPEN] == [OPEN];
    assert Apply(EMPTY, OPEN) == AFTER_OPEN;
  }

  /** open, trace, prepare, close: the zombie still calls back, with the reference close() deleted. */
  lemma ZombieTracesWithDeletedReference()
    ensures var es := [OPEN, TraceDb(1, Accepted), PrepareStmt(1, 3), CloseDb(1)];
            Legal(EMPTY, es) && !EveryTraceLive(Run(EMPTY, es))
  {
    OpenRuns();
    Extend([OPEN], TraceDb(1, Accepted));
    Extend([OPEN] + [TraceDb(1, Accepted)], PrepareStmt(1, 3));
    var es := [OPEN] + [TraceDb(1, Accepted)] + [PrepareStmt(1, 3)];
    assert 3 in StmtsOf(Run(EMPTY, es).stmts, 2);
    Extend(es, CloseDb(1));
    var w := Run(EMPTY, es + [CloseDb(1)]);
    assert 2 in w.tracers && w.tracers[2] == 0 && 0 !in w.live;
    assert es + [CloseDb(1)] == [OPEN, TraceDb(1, Accepted), PrepareStmt(1, 3), CloseDb(1)];
  }

  /** open, trace, failed trace that leaves the old registration: the connection calls back with the deleted reference. */
  lemma FailedTraceLeavesDeletedReference()
    ensures var es := [OPEN, TraceDb(1, Accepted), TraceDb(1, FailedKeepingOld)];
            Legal(EMPTY, es) && !EveryTraceLive(Run(EMPTY, es))
  {
    OpenRuns();
    Extend([OPEN], TraceDb(1, Accepted));
    Extend([OPEN] + [TraceDb(1, Accepted)], TraceDb(1, FailedKeepingOld));
    var es := [OPEN] + [TraceDb(1, Accepted)] + [TraceDb(1, FailedKeepingOld)];
    var w := Run(EMPTY, es);
    assert 2 in w.tracers && w.tracers[2] == 0 && 0 !in w.live;
    assert es == [OPEN, TraceDb(1, Accepted), TraceDb(1, FailedKeepingOld)];
  }

  /** A failed open that returned a handle: the connection stays, wrapped by nothing. */
  lemma FailedOpenLeaksConnection()
    ensures var es := [OpenDb(OpenFailed(2))];
            Legal(EMPTY, es) && Run(EMPTY, es) == EMPTY.(conns := map[2 := Orphan])
  {
    Extend([], OpenDb(OpenFailed(2)));
    assert [] + [OpenDb(OpenFailed(2))] == [OpenDb(OpenFailed(2))];
  }

  /** open, failed createCollation, close: nothing is left but the comparator's reference. */
  lemma FailedCollationLeaksReference(name: string)
    ensures var es := [OPEN, CreateCollation(1, name, false), CloseDb(1)];
            Legal(EMPTY, es) && Run(EMPTY, es) == EMPTY.(live := {0}, nextRef := 1)
  {
    OpenRuns();
    Extend([OPEN], CreateCollation(1, name, false));
    var es := [OPEN] + [CreateCollation(1, name, false)];
    Extend(es, CloseDb(1));
    assert StmtsOf(map[], 2) == {};
    assert es + [CloseDb(1)] == [OPEN, CreateCollation(1, name, false), CloseDb(1)];
  }

  /** open, prepare, close, failed execute: the error text is asked of a deallocated connection. */
  lemma LateExecuteAsksDeadConnection()
    ensures var es := [OPEN, PrepareStmt(1, 3), CloseDb(1)];
            && Legal(EMPTY, es) && CallerOk(Run(EMPTY, es), RunStmt(3, false))
            && AsksDeadConnection(Run(EMPTY, es), RunStmt(3, false))
  {
    OpenRuns();
    Extend([OPEN], PrepareStmt(1, 3));
    var es := [OPEN] + [PrepareStmt(1, 3)];
    assert 3 in StmtsOf(Run(EMPTY, es).stmts, 2);
    Extend(es, CloseDb(1));
    assert es + [CloseDb(1)] == [OPEN, PrepareStmt(1, 3), CloseDb(1)];
    var w := Run(EMPTY, es + [CloseDb(1)]);
    EmptyIsFine();
    RunKeepsInvariant(EMPTY, es + [CloseDb(1)]);
    assert StmtsOf(w.stmts, 2) == {3};
    ErrorTextConnection(w, 3);
  }

  // ---------------------------------------------------------------- text and numbers

  /** A string with U+0000, and one with surrogates: the bytes bound are not UTF-8. */
  lemma BoundTextIsNotUtf8(s: JavaString)
    requires s == [0] || s == [0xD83D, 0xDE00]
    ensures !IsUtf8(NativeText(s))
  {
    NativeTextKeepsString(s, s);
    EncodeIsUtf8(s);
    assert !PlainUnit(s[0]);
  }

  /** U+1F600 in UTF-8, as any other program stores it: no string can be read. */
  lemma FourByteTextIsUnreadable()
    ensures var b: Bytes := [0xF0, 0x9F, 0x98, 0x80]; IsUtf8(b) && TextToJava(b) == None
  {
    var b: Bytes := [0xF0, 0x9F, 0x98, 0x80];
    assert b[4..] == [];
    assert 0 !in b;
    StrLenOfTerminated(b);
  }

  /** The first integer a double cannot hold. */
  lemma LargeIntegerChanges()
    ensures LongValue(ToDouble(TWO_TO_53 + 1)) == TWO_TO_53
  {
    var m := TWO_TO_53 + 1;
    assert Exponent(m) == 1 && Pow2(1) == 2;
    assert m / 2 == TWO_TO_52 && m % 2 == 1 && TWO_TO_52 % 2 == 0;
  }

  // ---------------------------------------------------------------- cursors

  /** A two-row select whose second step fails: the loop ends after one row; asked again, it starts over. */
  lemma FailedStepEndsSelect()
    ensures var calls := [Cursors.CallHasNext(false), Cursors.CallNext, Cursors.CallHasNext(true),
                          Cursors.CallHasNext(false), Cursors.CallNext];
            var answer := (k: nat) requires k < 5 =>
              Cursors.AnswerAt(Cursors.Session(Cursors.Fresh, Cursors.NEW_ITERATOR), ["a", "b"], calls, k);
            && answer(0) == Cursors.Says(true) && answer(1) == Cursors.Gives("a")
            && answer(2) == Cursors.Says(false)
            && answer(3) == Cursors.Says(true) && answer(4) == Cursors.Gives("a")
  {
    var calls := [Cursors.CallHasNext(false), Cursors.CallNext, Cursors.CallHasNext(true),
                  Cursors.CallHasNext(false), Cursors.CallNext];
    assert forall k :: 0 <= k < 5 ==> calls[..k + 1][..k] == calls[..k] && calls[..k + 1][k] == calls[k];
  }

  /** Two iterators ask before either takes: both get row 1 and row 0 is lost. */
  lemma SharedIteratorsTakeTheSameRow()
    ensures var asked := SharedCursors.After(TwoIterators(), [Ask(0), Ask(1)]);
            && asked.iterators == [Cursors.Flags(true, false), Cursors.Flags(true, false)]
            && asked.cursor == Cursors.OnRow(["a", "b"], 1)
  {
    assert [Ask(0), Ask(1)][..1] == [Ask(0)];
  }

  /** select() after hasNext(): the old iterator hands out its row, but the statement stands on none. */
  lemma SelectTakesTheRowAway()
    ensures var t := SharedCursors.After(TwoIterators(), [Ask(0), SharedCursors.Select]);
            && t.iterators == [Cursors.Flags(true, false), Cursors.NEW_ITERATOR, Cursors.NEW_ITERATOR]
            && t.cursor == Cursors.Fresh
  {
    assert [Ask(0), SharedCursors.Select][..1] == [Ask(0)];
  }

  function Ask(i: nat): SharedCursors.SharedCall<string> {
    SharedCursors.HasNextOf(i, ["a", "b"], false)
  }

  function TwoIterators(): SharedCursors.Shared<string> {
    SharedCursors.Shared(Cursors.Fresh, 0, [Cursors.NEW_ITERATOR, Cursors.NEW_ITERATOR])
  }
}
