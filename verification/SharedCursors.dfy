/**
  Several iterators on one statement.  Every select() makes a new RowIterator on the same handle, the old
  ones stay usable, and a row is the iterator itself: a view of wherever the statement stands when it is read.
 */
module SharedCursors {
  import opened Options
  import opened Cursors

  /** A statement with all the iterators made on it; `run` counts the executions started. */
  datatype Shared<R> = Shared(cursor: Cursor<R>, run: nat, iterators: seq<Flags>)

  datatype SharedCall<R> =
    | HasNextOf(i: nat, result: seq<R>, fails: bool)   // `result` is what an execution started now yields
    | NextOf(i: nat)
    | Select
    | ClearBindings

  /** A call on an iterator that was never made is no call. */
  function Perform<R>(s: Shared<R>, call: SharedCall<R>): (t: Shared<R>)
    requires ValidCursor(s.cursor)
    ensures ValidCursor(t.cursor)
  {
    match call
    case HasNextOf(i, result, fails) =>
      if i >= |s.iterators| || s.iterators[i].done then s
      else
        var t := HasNext(Session(s.cursor, s.iterators[i]), result, fails);
        Shared(t.cursor, if s.cursor.OnRow? then s.run else s.run + 1, s.iterators[i := t.flags])
    case NextOf(i) =>
      if i >= |s.iterators| then s else s.(iterators := s.iterators[i := s.iterators[i].(hasNext := false)])
    case Select =>
      // A statement that failed is reset, but the reset throws and no iterator is made.
      s.(cursor := AfterSelect(s.cursor), iterators := if s.cursor.Failed? then s.iterators else s.iterators + [NEW_ITERATOR])
    case ClearBindings => s.(cursor := Fresh)
  }

  /** The call steps the statement or resets it. */
  predicate Moves<R>(s: Shared<R>, call: SharedCall<R>) {
    match call
    case HasNextOf(i, _, _) => i < |s.iterators| && !s.iterators[i].done
    case NextOf(_) => false
    case Select => Busy(s.cursor)
    case ClearBindings => true
  }

  /** The row the statement stands on, told apart from the rows of earlier executions. */
  function RowAt<R>(s: Shared<R>): Option<(nat, nat)> {
    if s.cursor.OnRow? then Some((s.run, s.cursor.at)) else None
  }

  function After<R>(s: Shared<R>, calls: seq<SharedCall<R>>): (t: Shared<R>)
    requires ValidCursor(s.cursor)
    ensures ValidCursor(t.cursor)
  {
    if calls == [] then s else Perform(After(s, calls[..|calls| - 1]), calls[|calls| - 1])
  }

  predicate NoneMoves<R>(s: Shared<R>, calls: seq<SharedCall<R>>)
    requires ValidCursor(s.cursor)
  {
    calls == [] ||
    (NoneMoves(s, calls[..|calls| - 1]) && !Moves(After(s, calls[..|calls| - 1]), calls[|calls| - 1]))
  }

  /** The statement has left row `at` of execution `run` behind. */
  predicate Passed<R>(s: Shared<R>, run: nat, at: nat) {
    s.run > run || (s.run == run && (s.cursor.OnRow? ==> s.cursor.at > at))
  }

  lemma {:induction false} StaysOrPasses<R>(s: Shared<R>, calls: seq<SharedCall<R>>)
    requires ValidCursor(s.cursor) && s.cursor.OnRow?
    ensures var t := After(s, calls);
            if NoneMoves(s, calls) then t.cursor == s.cursor && t.run == s.run else Passed(t, s.run, s.cursor.at)
  {
    if calls == [] {
    } else {
      StaysOrPasses(s, calls[..|calls| - 1]);
    }
  }

  /** `calls` leave iterator `i` alone. */
  predicate Spares<R>(calls: seq<SharedCall<R>>, i: nat) {
    forall k :: 0 <= k < |calls| && (calls[k].HasNextOf? || calls[k].NextOf?) ==> calls[k].i != i
  }

  lemma {:induction false} SparedKeepsFlags<R>(s: Shared<R>, calls: seq<SharedCall<R>>, i: nat)
    requires ValidCursor(s.cursor) && i < |s.iterators| && Spares(calls, i)
    ensures i < |After(s, calls).iterators| && After(s, calls).iterators[i] == s.iterators[i]
  {
    if calls == [] {
    } else {
      var shorter := calls[..|calls| - 1];
      assert Spares(shorter, i);
      SparedKeepsFlags(s, shorter, i);
    }
  }

  /**
    hasNext() of one iterator answers true, then anything happens through the others and through select()
    and clearBindings(), then next() is called.  It always hands out a row; that is the row hasNext()
    announced if and only if none of the calls between stepped or reset the statement.
   */
  lemma NextGivesAnnouncedRow<R>(s: Shared<R>, i: nat, result: seq<R>, fails: bool, between: seq<SharedCall<R>>)
    requires ValidCursor(s.cursor) && i < |s.iterators| && Spares(between, i)
    requires HasNextAnswer(Perform(s, HasNextOf(i, result, fails)).iterators[i])
    ensures var asked := Perform(s, HasNextOf(i, result, fails));
            var t := After(asked, between);
            && i < |t.iterators| && t.iterators[i].hasNext
            && asked.cursor.OnRow?
            && (RowAt(t) == RowAt(asked) <==> NoneMoves(asked, between))
            && (NoneMoves(asked, between) ==> t.cursor == asked.cursor)
  {
    var asked := Perform(s, HasNextOf(i, result, fails));
    SparedKeepsFlags(asked, between, i);
    StaysOrPasses(asked, between);
  }

  // ---------------------------------------------------------------- one iterator

  /** The calls of a single iterator, as calls on iterator `i`. */
  function On<R>(i: nat, calls: seq<Call>, result: seq<R>): (shared: seq<SharedCall<R>>)
    ensures |shared| == |calls|
  {
    seq(|calls|, k requires 0 <= k < |calls| =>
      match calls[k] case CallHasNext(fails) => HasNextOf(i, result, fails) case CallNext => NextOf(i))
  }

  /** While only one iterator is used, it lives through the sessions of Cursors, and the others keep their flags. */
  lemma {:induction false} AloneIsSession<R>(s: Shared<R>, i: nat, result: seq<R>, calls: seq<Call>)
    requires i < |s.iterators| && ValidSession(Session(s.cursor, s.iterators[i]))
    ensures var t, alone := After(s, On(i, calls, result)), Cursors.After(Session(s.cursor, s.iterators[i]), result, calls);
            t.iterators == s.iterators[i := alone.flags] && t.cursor == alone.cursor
  {
    if calls == [] {
    } else {
      var shorter := calls[..|calls| - 1];
      AloneIsSession(s, i, result, shorter);
      assert On(i, calls, result)[..|calls| - 1] == On(i, shorter, result);
    }
  }
}
