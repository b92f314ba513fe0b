/**
  The stepping of one statement as seen through one RowIterator, on values: the library's step with its
  automatic reset, the two flags of the iterator, and what any sequence of calls observes.
 */
module Cursors {

  /** Where an execution stands: never stepped since the last reset, on row `at`, run to completion, or failed. */
  datatype Cursor<R> = Fresh | OnRow(rows: seq<R>, at: nat) | Done | Failed

  predicate ValidCursor<R>(c: Cursor<R>) {
    c.OnRow? ==> c.at < |c.rows|
  }

  /** sqlite3_step: anything but a row is reset automatically, so an execution starts over with `result`. */
  function Step<R>(c: Cursor<R>, result: seq<R>, fails: bool): (next: Cursor<R>)
    requires ValidCursor(c)
    ensures ValidCursor(next) && next != Fresh
  {
    if fails then Failed
    else match c
      case OnRow(rows, at) => if at + 1 < |rows| then OnRow(rows, at + 1) else Done
      case _ => if result == [] then Done else OnRow(result, 0)
  }

  /** sqlite3_stmt_busy: stepped since the last reset and not run to completion. */
  predicate Busy<R>(c: Cursor<R>) {
    c.OnRow? || c.Failed?
  }

  /** The cursor select() leaves: reset if busy. */
  function AfterSelect<R>(c: Cursor<R>): Cursor<R> {
    if Busy(c) then Fresh else c
  }

  /** The flags mHasNext and mDone. */
  datatype Flags = Flags(hasNext: bool, done: bool)

  const NEW_ITERATOR := Flags(false, false)

  datatype Session<R> = Session(cursor: Cursor<R>, flags: Flags)

  predicate ValidSession<R>(s: Session<R>) {
    && ValidCursor(s.cursor)
    && (s.flags.hasNext ==> s.cursor.OnRow?)
  }

  function FlagsAfterStep<R>(c: Cursor<R>): Flags {
    Flags(c.OnRow?, c.Done?)
  }

  function HasNext<R>(s: Session<R>, result: seq<R>, fails: bool): Session<R>
    requires ValidCursor(s.cursor)
  {
    if s.flags.done then s
    else
      var c := Step(s.cursor, result, fails);
      Session(c, FlagsAfterStep(c))
  }

  predicate HasNextAnswer(f: Flags) {
    !f.done && f.hasNext
  }

  // ---------------------------------------------------------------- sequences of calls

  datatype Call = CallHasNext(fails: bool) | CallNext

  datatype Answer<R> = Says(more: bool) | Gives(row: R) | NoSuchElement

  function Perform<R>(s: Session<R>, result: seq<R>, call: Call): (out: (Session<R>, Answer<R>))
    requires ValidSession(s)
    ensures ValidSession(out.0)
  {
    match call
    case CallHasNext(fails) =>
      var t := HasNext(s, result, fails);
      (t, Says(HasNextAnswer(t.flags)))
    case CallNext =>
      if s.flags.hasNext
      then (s.(flags := s.flags.(hasNext := false)), Gives(s.cursor.rows[s.cursor.at]))
      else (s, NoSuchElement)
  }

  /** The session after all of `calls`. */
  function After<R>(s: Session<R>, result: seq<R>, calls: seq<Call>): (t: Session<R>)
    requires ValidSession(s)
    ensures ValidSession(t)
  {
    if calls == [] then s
    else Perform(After(s, result, calls[..|calls| - 1]), result, calls[|calls| - 1]).0
  }

  /** What the i-th of `calls` returns. */
  function AnswerAt<R>(s: Session<R>, result: seq<R>, calls: seq<Call>, i: nat): Answer<R>
    requires ValidSession(s) && i < |calls|
  {
    Perform(After(s, result, calls[..i]), result, calls[i]).1
  }

  // ---------------------------------------------------------------- select() forgets the past

  /**
    A new iterator on a statement that is not on a row behaves like one on a never-stepped statement,
    for every sequence of calls and every pattern of failures.
   */
  lemma {:induction false} NewIteratorForgets<R>(c: Cursor<R>, result: seq<R>, calls: seq<Call>)
    requires !c.OnRow?
    ensures var a, b := After(Session(c, NEW_ITERATOR), result, calls), After(Session(Fresh, NEW_ITERATOR), result, calls);
            a == b || (a == Session(c, NEW_ITERATOR) && b == Session(Fresh, NEW_ITERATOR))
  {
    if calls == [] {
    } else {
      NewIteratorForgets(c, result, calls[..|calls| - 1]);
    }
  }

  /** After select(), whatever was done to the statement before, every later call answers as on a fresh statement. */
  lemma SelectForgets<R>(c: Cursor<R>, result: seq<R>, calls: seq<Call>, i: nat)
    requires ValidCursor(c) && i < |calls|
    ensures AnswerAt(Session(AfterSelect(c), NEW_ITERATOR), result, calls, i)
            == AnswerAt(Session(Fresh, NEW_ITERATOR), result, calls, i)
  {
    NewIteratorForgets(AfterSelect(c), result, calls[..i]);
  }

  /** A failed step sets neither flag: from then on the iterator is a new one on a reset statement. */
  lemma FailureRestarts<R>(s: Session<R>, result: seq<R>, calls: seq<Call>, i: nat)
    requires ValidSession(s) && !s.flags.done && i < |calls|
    ensures AnswerAt(HasNext(s, result, true), result, calls, i)
            == AnswerAt(Session(Fresh, NEW_ITERATOR), result, calls, i)
  {
    assert HasNext(s, result, true) == Session(Failed, NEW_ITERATOR);
    NewIteratorForgets<R>(Failed, result, calls[..i]);
  }

  /** Once exhausted, an iterator never steps its statement again. */
  lemma {:induction false} ExhaustedStays<R>(s: Session<R>, result: seq<R>, calls: seq<Call>)
    requires ValidSession(s) && s.flags.done && !s.flags.hasNext
    ensures After(s, result, calls) == s
    ensures forall i :: 0 <= i < |calls| ==>
              AnswerAt(s, result, calls, i) == if calls[i].CallNext? then NoSuchElement else Says(false)
  {
    if calls == [] {
    } else {
      var shorter := calls[..|calls| - 1];
      ExhaustedStays(s, result, shorter);
      forall i | 0 <= i < |calls|
        ensures AnswerAt(s, result, calls, i) == if calls[i].CallNext? then NoSuchElement else Says(false)
      {
        if i < |shorter| {
          assert calls[..i] == shorter[..i];
          assert AnswerAt(s, result, calls, i) == AnswerAt(s, result, shorter, i);
        }
      }
    }
  }

  // ---------------------------------------------------------------- every answer, from the calls alone

  predicate NoFailure(calls: seq<Call>) {
    forall i :: 0 <= i < |calls| && calls[i].CallHasNext? ==> !calls[i].fails
  }

  /** How many of the calls are hasNext. */
  function Asked(calls: seq<Call>): (n: nat)
    ensures n <= |calls|
  {
    if calls == [] then 0
    else Asked(calls[..|calls| - 1]) + (if calls[|calls| - 1].CallHasNext? then 1 else 0)
  }

  /** A row is waiting: the last call was a hasNext and the result was not yet used up. */
  predicate Waiting(calls: seq<Call>, rowCount: nat) {
    calls != [] && calls[|calls| - 1].CallHasNext? && Asked(calls) <= rowCount
  }

  /** What the i-th call must return, read off the calls: the n-th hasNext is about row n - 1, asked for or not. */
  function ExpectedAnswer<R>(calls: seq<Call>, result: seq<R>, i: nat): Answer<R>
    requires i < |calls|
  {
    if calls[i].CallHasNext? then Says(Asked(calls[..i]) + 1 <= |result|)
    else if Waiting(calls[..i], |result|) then
      AskedPositive(calls[..i]);
      Gives(result[Asked(calls[..i]) - 1])
    else NoSuchElement
  }

  lemma AskedPositive(calls: seq<Call>)
    requires calls != [] && calls[|calls| - 1].CallHasNext?
    ensures Asked(calls) >= 1
  {
  }

  lemma {:induction false} SessionFromCalls<R>(c: Cursor<R>, result: seq<R>, calls: seq<Call>)
    requires ValidCursor(c) && !c.OnRow? && NoFailure(calls)
    ensures var t, n := After(Session(c, NEW_ITERATOR), result, calls), Asked(calls);
            && t.flags == Flags(Waiting(calls, |result|), n > |result|)
            && t.cursor == if n == 0 then c else if n <= |result| then OnRow(result, n - 1) else Done
  {
    if calls == [] {
    } else {
      SessionFromCalls(c, result, calls[..|calls| - 1]);
    }
  }

  /** For any sequence of calls on one error-free iterator, every single answer. */
  lemma EveryAnswer<R>(c: Cursor<R>, result: seq<R>, calls: seq<Call>, i: nat)
    requires ValidCursor(c) && NoFailure(calls) && i < |calls|
    ensures AnswerAt(Session(AfterSelect(c), NEW_ITERATOR), result, calls, i) == ExpectedAnswer(calls, result, i)
  {
    SessionFromCalls(AfterSelect(c), result, calls[..i]);
  }

  // ---------------------------------------------------------------- accounting

  /** The tally of a run: rows the statement was stepped onto, row numbers delivered, rows overwritten unread. */
  datatype Tally = Tally(stepped: nat, delivered: seq<nat>, overwritten: nat)

  function Count<R>(s: Session<R>, result: seq<R>, calls: seq<Call>): Tally
    requires ValidSession(s)
  {
    if calls == [] then Tally(0, [], 0)
    else
      var before := After(s, result, calls[..|calls| - 1]);
      var t := Count(s, result, calls[..|calls| - 1]);
      if calls[|calls| - 1].CallNext? then
        if before.flags.hasNext then t.(delivered := t.delivered + [before.cursor.at]) else t
      else if before.flags.done then t
      else
        var now := After(s, result, calls);
        t.(stepped := t.stepped + (if now.cursor.OnRow? then 1 else 0),
           overwritten := t.overwritten + (if before.flags.hasNext then 1 else 0))
  }

  function One(b: bool): nat {
    if b then 1 else 0
  }

  /** Every row stepped onto is delivered, overwritten unread, or still waiting; failures included. */
  lemma {:induction false} RowsAccounted<R>(c: Cursor<R>, result: seq<R>, calls: seq<Call>)
    requires ValidCursor(c)
    ensures var s := Session(c, NEW_ITERATOR);
            var t := Count(s, result, calls);
            t.stepped == |t.delivered| + t.overwritten + One(After(s, result, calls).flags.hasNext)
    ensures After(Session(c, NEW_ITERATOR), result, calls).flags.done ==>
              !After(Session(c, NEW_ITERATOR), result, calls).flags.hasNext
  {
    if calls == [] {
    } else {
      RowsAccounted(c, result, calls[..|calls| - 1]);
    }
  }

  predicate StrictlyIncreasing(xs: seq<nat>) {
    forall i, j :: 0 <= i < j < |xs| ==> xs[i] < xs[j]
  }

  /** Without failures the delivered row numbers strictly increase, so no row comes twice or out of order. */
  lemma {:induction false} DeliveredInOrder<R>(c: Cursor<R>, result: seq<R>, calls: seq<Call>)
    requires ValidCursor(c) && !c.OnRow? && NoFailure(calls)
    ensures var t := Count(Session(c, NEW_ITERATOR), result, calls);
            && StrictlyIncreasing(t.delivered)
            && (forall i :: 0 <= i < |t.delivered| ==> t.delivered[i] < |result|)
            && (forall i :: 0 <= i < |t.delivered| ==>
                  t.delivered[i] + One(Waiting(calls, |result|)) < Asked(calls))
            && t.stepped == if Asked(calls) <= |result| then Asked(calls) else |result|
  {
    if calls == [] {
    } else {
      var shorter := calls[..|calls| - 1];
      DeliveredInOrder(c, result, shorter);
      SessionFromCalls(c, result, shorter);
      SessionFromCalls(c, result, calls);
    }
  }

  /** hasNext, next, hasNext, next, ...: `k` pairs. */
  function Alternating(k: nat): (calls: seq<Call>)
    ensures |calls| == 2 * k
  {
    if k == 0 then [] else Alternating(k - 1) + [CallHasNext(false), CallNext]
  }

  lemma {:induction false} AlternatingCalls(k: nat)
    ensures NoFailure(Alternating(k)) && Asked(Alternating(k)) == k
  {
    if k == 0 {
    } else {
      AlternatingCalls(k - 1);
      var calls := Alternating(k);
      assert calls[..|calls| - 1] == Alternating(k - 1) + [CallHasNext(false)];
      assert calls[..|calls| - 1][..|calls| - 2] == Alternating(k - 1);
    }
  }

  lemma CountExtend<R>(s: Session<R>, result: seq<R>, calls: seq<Call>)
    requires ValidSession(s) && !After(s, result, calls).flags.hasNext
    ensures var mid := After(s, result, calls);
            var asked := HasNext(mid, result, false);
            var more := calls + [CallHasNext(false), CallNext];
            Count(s, result, more).delivered
            == Count(s, result, calls).delivered + if asked.flags.hasNext then [asked.cursor.at] else []
  {
    var more := calls + [CallHasNext(false), CallNext];
    var asked := calls + [CallHasNext(false)];
    assert more[..|more| - 1] == asked;
    assert asked[..|asked| - 1] == calls;
    assert After(s, result, asked) == HasNext(After(s, result, calls), result, false);
    assert Count(s, result, asked).delivered == Count(s, result, calls).delivered;
  }

  function FirstNumbers(n: nat): (numbers: seq<nat>)
    ensures |numbers| == n && forall i :: 0 <= i < n ==> numbers[i] == i
  {
    if n == 0 then [] else FirstNumbers(n - 1) + [n - 1]
  }

  /** After `k` pairs nothing waits, and the next hasNext is about row `k`. */
  lemma AfterPairs<R>(c: Cursor<R>, result: seq<R>, k: nat)
    requires ValidCursor(c) && !c.OnRow?
    ensures var s := After(Session(c, NEW_ITERATOR), result, Alternating(k));
            && !s.flags.hasNext
            && (HasNext(s, result, false).flags.hasNext <==> k < |result|)
            && (k < |result| ==> HasNext(s, result, false).cursor == OnRow(result, k))
  {
    AlternatingCalls(k);
    SessionFromCalls(c, result, Alternating(k));
    NotWaitingAfterPairs(k, |result|);
  }

  lemma CountPair<R>(c: Cursor<R>, result: seq<R>, k: nat)
    requires ValidCursor(c) && !c.OnRow?
    ensures PairsDelivered(c, result, k + 1) == PairsDelivered(c, result, k) + if k < |result| then [k] else []
  {
    AfterPairs(c, result, k);
    CountExtend(Session(c, NEW_ITERATOR), result, Alternating(k));
  }

  /** The row numbers `k` pairs deliver. */
  function PairsDelivered<R>(c: Cursor<R>, result: seq<R>, k: nat): seq<nat>
    requires ValidCursor(c) && !c.OnRow?
  {
    Count(Session(c, NEW_ITERATOR), result, Alternating(k)).delivered
  }

  /** Strict alternation delivers row 0, row 1, ... and misses none. */
  lemma {:induction false} AlternationDelivers<R>(c: Cursor<R>, result: seq<R>, k: nat)
    requires ValidCursor(c) && !c.OnRow?
    ensures PairsDelivered(c, result, k) == FirstNumbers(if k <= |result| then k else |result|)
  {
    if k == 0 {
      assert Alternating(0) == [];
    } else {
      AlternationDelivers(c, result, k - 1);
      CountPair(c, result, k - 1);
    }
  }

  lemma NotWaitingAfterPairs(k: nat, rowCount: nat)
    ensures !Waiting(Alternating(k), rowCount)
  {
  }
}
