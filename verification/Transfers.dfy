/**
  The two loops this library is used with: append a list of tuples through one prepared INSERT, and
  drain one select().  Failures are decided by an oracle for the i-th step.
 */
module Transfers {
  import opened JavaTypes
  import opened Options
  import opened ModifiedUtf8
  import opened StandardUtf8
  import opened Cursors
  import opened Statements

  /** One argument of a tuple, as the caller has it; a None is a Java null. */
  datatype Arg = ArgNull | ArgLong(n: Long) | ArgDouble(r: real) | ArgString(s: Option<JavaString>) | ArgBlob(b: Option<Bytes>)

  type Tuple = seq<Arg>

  /** What a parameter holds after its bind call, where `before` is what it held. */
  function Bound(before: Value, arg: Arg): Value {
    match arg
    case ArgNull => Null
    case ArgLong(n) => Integer(n)
    case ArgDouble(r) => Real(r)
    case ArgString(s) => if s.None? then before else Text(NativeText(s.value))
    case ArgBlob(b) => if b.None? then before else Blob(b.value)
  }

  function Overlay(before: seq<Value>, tuple: Tuple): (after: seq<Value>)
    requires |tuple| <= |before|
    ensures |after| == |before|
  {
    seq(|before|, i requires 0 <= i < |before| => if i < |tuple| then Bound(before[i], tuple[i]) else before[i])
  }

  /** The rows the loop must append: the first over the bindings found, every later one over nulls only. */
  function StoredRows(before: seq<Value>, tuples: seq<Tuple>): (rows: seq<Row>)
    requires forall t :: t in tuples ==> |t| <= |before|
    ensures |rows| == |tuples|
  {
    seq(|tuples|, i requires 0 <= i < |tuples| => Overlay(if i == 0 then before else Nulls(|before|), tuples[i]))
  }

  /** A stored value means the caller's argument: nulls are NULL, text denotes the string and reads back as it. */
  predicate Means(v: Value, arg: Arg) {
    match arg
    case ArgNull => v == Null
    case ArgLong(n) => v == Integer(n)
    case ArgDouble(r) => v == Real(r)
    case ArgString(s) => if s.None? then v == Null else v.Text? && CodePoints(v.text) == s.value && TextToJava(v.text) == s
    case ArgBlob(b) => if b.None? then v == Null else v == Blob(b.value)
  }

  predicate RowMeans(row: Row, tuple: Tuple) {
    && |tuple| <= |row|
    && (forall i :: 0 <= i < |tuple| ==> Means(row[i], tuple[i]))
    && (forall i :: |tuple| <= i < |row| ==> row[i] == Null)
  }

  /** Nothing is carried over: each stored row means its own tuple. */
  lemma StoredRowsMean(n: nat, tuples: seq<Tuple>, k: nat)
    requires forall t :: t in tuples ==> |t| <= n
    requires k < |tuples|
    ensures RowMeans(StoredRows(Nulls(n), tuples)[k], tuples[k])
  {
    var t := tuples[k];
    forall i | 0 <= i < |t|
      ensures Means(Overlay(Nulls(n), t)[i], t[i])
    {
      if t[i].ArgString? && t[i].s.Some? {
        StringRoundTrip(t[i].s.value);
        BoundTextDenotes(t[i].s.value);
      }
    }
  }

  /** The bind calls for one tuple; on a reset statement none of them is a misuse. */
  method BindTuple(s: SQLiteStmt, tuple: Tuple) returns (thrown: bool)
    requires s.stmt.Valid() && !s.stmt.finalized
    requires s.stmt.cursor == Fresh && |tuple| <= s.stmt.parameterCount
    modifies s.stmt`bindings
    ensures s.stmt.Valid() && !thrown
    ensures s.stmt.bindings == Overlay(old(s.stmt.bindings), tuple)
  {
    thrown := false;
    var i := 0;
    while i < |tuple|
      invariant 0 <= i <= |tuple|
      invariant s.stmt.Valid() && !thrown
      invariant s.stmt.bindings == Overlay(old(s.stmt.bindings), tuple[..i])
    {
      match tuple[i] {
        case ArgNull => thrown := s.BindNull(i + 1);
        case ArgLong(n) => thrown := s.BindLong(i + 1, n);
        case ArgDouble(r) => thrown := s.BindDouble(i + 1, r);
        case ArgString(v) => thrown := s.BindString(i + 1, v);
        case ArgBlob(v) => thrown := s.BindBlob(i + 1, v);
      }
      i := i + 1;
    }
    assert tuple[..i] == tuple;
  }

  /** "bind, insert, clearBindings" for one tuple. */
  method InsertTuple(s: SQLiteStmt, tuple: Tuple, fails: bool, newRowid: Long) returns (thrown: bool)
    requires s.stmt.Valid() && !s.stmt.finalized
    requires s.stmt.cursor == Fresh && s.stmt.program.Insert? && |tuple| <= s.stmt.parameterCount
    modifies s.stmt`cursor, s.stmt`bindings, s.stmt`finalized, s.stmt.db
    ensures s.stmt.Valid() && thrown == fails && s.stmt.finalized == thrown
    ensures s.stmt.db.table ==
            if thrown then old(s.stmt.db.table) else old(s.stmt.db.table) + [Overlay(old(s.stmt.bindings), tuple)]
    ensures !thrown ==> s.stmt.cursor == Fresh && s.stmt.bindings == Nulls(s.stmt.parameterCount)
  {
    thrown := BindTuple(s, tuple);
    var rowid;
    thrown, rowid := s.Insert(fails, newRowid);
    if !thrown {
      thrown := s.ClearBindings();
    }
  }

  /**
    "bind, insert, clearBindings" for each tuple.  Up to the first failing step every tuple is appended;
    that failure finalizes the statement.
   */
  method InsertAll(s: SQLiteStmt, tuples: seq<Tuple>, fails: nat -> bool, rowids: nat -> Long) returns (inserted: nat, thrown: bool)
    requires s.stmt.Valid() && !s.stmt.finalized
    requires s.stmt.cursor == Fresh && s.stmt.program.Insert?
    requires forall t :: t in tuples ==> |t| <= s.stmt.parameterCount
    modifies s.stmt`cursor, s.stmt`bindings, s.stmt`finalized, s.stmt.db
    ensures s.stmt.Valid()
    ensures inserted <= |tuples| && (forall k :: 0 <= k < inserted ==> !fails(k))
    ensures thrown <==> inserted < |tuples|
    ensures thrown ==> fails(inserted)
    ensures s.stmt.db.table == old(s.stmt.db.table) + StoredRows(old(s.stmt.bindings), tuples)[..inserted]
    ensures s.stmt.finalized == thrown
    ensures !thrown && tuples != [] ==> s.stmt.cursor == Fresh && s.stmt.bindings == Nulls(s.stmt.parameterCount)
  {
    ghost var rows := StoredRows(s.stmt.bindings, tuples);
    inserted, thrown := 0, false;
    while inserted < |tuples|
      invariant 0 <= inserted <= |tuples|
      invariant s.stmt.Valid() && !s.stmt.finalized && !thrown && s.stmt.cursor == Fresh
      invariant forall k :: 0 <= k < inserted ==> !fails(k)
      invariant s.stmt.bindings == if inserted == 0 then old(s.stmt.bindings) else Nulls(s.stmt.parameterCount)
      invariant s.stmt.db.table == old(s.stmt.db.table) + rows[..inserted]
    {
      assert rows[inserted] == Overlay(s.stmt.bindings, tuples[inserted]);
      thrown := InsertTuple(s, tuples[inserted], fails(inserted), rowids(inserted));
      if thrown {
        return;
      }
      assert rows[..inserted + 1] == rows[..inserted] + [rows[inserted]];
      inserted := inserted + 1;
    }
  }

  /** What the loop delivers of `result`: the rows up to the first failing step, so all of them exactly if none fails. */
  ghost predicate Delivered(rows: seq<Row>, result: seq<Row>, fails: nat -> bool) {
    && rows <= result
    && (forall k :: 0 <= k < |rows| ==> !fails(k))
    && (|rows| < |result| ==> fails(|rows|))
    && (rows == result <==> forall k :: 0 <= k < |result| ==> !fails(k))
  }

  /**
    select() and the loop "while (hasNext) next" on the new iterator, from any state of the statement.
    A failing step ends the loop like the end of the rows does.
   */
  method Drain(s: SQLiteStmt, fails: nat -> bool) returns (rows: Option<seq<Row>>)
    requires s.stmt.Valid() && !s.stmt.finalized && s.stmt.program.Query?
    modifies s.stmt`cursor, s.stmt.db
    ensures s.stmt.Valid() && s.stmt.db.table == old(s.stmt.db.table)
    ensures rows.None? <==> old(s.stmt.cursor).Failed?
    ensures rows.Some? ==> Delivered(rows.value, s.stmt.program.result(old(s.stmt.db.table), old(s.stmt.bindings)), fails)
  {
    ghost var result := s.stmt.program.result(s.stmt.db.table, s.stmt.bindings);
    var selected := s.Select();
    if selected.None? {
      return None;
    }
    var rowIterator := selected.value;
    var got := [];
    var more := rowIterator.HasNext(fails(0), 0);
    while more
      invariant s.stmt.Valid() && s.stmt.db.table == old(s.stmt.db.table)
      invariant fresh(rowIterator) && rowIterator.stmt == s.stmt
      invariant more == (rowIterator.mHasNext && !rowIterator.mDone)
      invariant |got| <= |result| && got == result[..|got|]
      invariant forall k :: 0 <= k < |got| ==> !fails(k)
      invariant more ==> |got| < |result| && !fails(|got|) && s.stmt.cursor == OnRow(result, |got|)
      invariant !more && |got| < |result| ==> fails(|got|)
      decreases |result| - |got|, more
    {
      var row := rowIterator.Next();
      got := got + [row.value.Columns()];
      more := rowIterator.HasNext(fails(|got|), 0);
    }
    rows := Some(got);
    if forall k :: 0 <= k < |result| ==> !fails(k) {
      assert |got| == |result|;
    }
  }

  /** A full tuple bound over cleared bindings: a row that means it. */
  lemma BoundRowMeans(n: nat, tuple: Tuple)
    requires |tuple| <= n
    ensures RowMeans(Overlay(Nulls(n), tuple), tuple)
  {
    StoredRowsMean(n, [tuple], 0);
  }

  /**
    clearBindings(), the bind calls of a tuple, select() and the loop, for any query and from any state of the
    statement: the rows are those of the query run with parameters that mean the tuple.
   */
  method DrainBound(s: SQLiteStmt, tuple: Tuple, fails: nat -> bool) returns (rows: Option<seq<Row>>, ghost bound: Row)
    requires s.stmt.Valid() && !s.stmt.finalized && s.stmt.program.Query? && |tuple| <= s.stmt.parameterCount
    modifies s.stmt`cursor, s.stmt`bindings, s.stmt.db
    ensures s.stmt.Valid() && s.stmt.db.table == old(s.stmt.db.table)
    ensures rows.None? <==> old(s.stmt.cursor).Failed?
    ensures RowMeans(bound, tuple) && |bound| == s.stmt.parameterCount
    ensures rows.Some? ==> Delivered(rows.value, s.stmt.program.result(old(s.stmt.db.table), bound), fails)
  {
    bound := Overlay(Nulls(s.stmt.parameterCount), tuple);
    BoundRowMeans(s.stmt.parameterCount, tuple);
    var thrown := s.ClearBindings();
    if thrown {
      return None, bound;
    }
    thrown := BindTuple(s, tuple);
    rows := Drain(s, fails);
  }

  /**
    The bind calls of a tuple and execute() on a cleared statement that deletes or updates, then a select of the
    whole table: what is read, and the count returned, are what the statement makes of the old table with
    parameters that mean the tuple.
   */
  method UpdateThenRead(u: SQLiteStmt, r: SQLiteStmt, tuple: Tuple)
    returns (changes: int, rows: Option<seq<Row>>, ghost bound: Row)
    requires u.stmt.Valid() && !u.stmt.finalized && u.stmt.cursor == Fresh && u.stmt.program.Update?
    requires u.stmt.bindings == Nulls(u.stmt.parameterCount) && |tuple| <= u.stmt.parameterCount
    requires r.stmt.Valid() && !r.stmt.finalized && !r.stmt.cursor.Failed?
    requires r.stmt != u.stmt && r.stmt.db == u.stmt.db
    requires r.stmt.program.Query? && forall table, bindings :: r.stmt.program.result(table, bindings) == table
    modifies u.stmt, r.stmt, u.stmt.db
    ensures RowMeans(bound, tuple) && |bound| == u.stmt.parameterCount
    ensures rows.Some? && (rows.value, changes) == u.stmt.program.effect(old(u.stmt.db.table), bound)
  {
    BoundRowMeans(u.stmt.parameterCount, tuple);
    var thrown := BindTuple(u, tuple);
    bound := u.stmt.bindings;
    thrown, changes := u.Execute(false, 0);
    rows := Drain(r, i => false);
  }

  /** Both loops on one table: what is read is what was there, then the tuples, in order. */
  method WriteThenRead(w: SQLiteStmt, r: SQLiteStmt, tuples: seq<Tuple>) returns (rows: Option<seq<Row>>)
    requires w.stmt.Valid() && !w.stmt.finalized && w.stmt.cursor == Fresh && w.stmt.program.Insert?
    requires w.stmt.bindings == Nulls(w.stmt.parameterCount)
    requires forall t :: t in tuples ==> |t| <= w.stmt.parameterCount
    requires r.stmt.Valid() && !r.stmt.finalized && !r.stmt.cursor.Failed?
    requires r.stmt != w.stmt && r.stmt.db == w.stmt.db
    requires r.stmt.program.Query? && forall table, bindings :: r.stmt.program.result(table, bindings) == table
    modifies w.stmt, r.stmt, w.stmt.db
    ensures rows.Some? && |rows.value| == |old(w.stmt.db.table)| + |tuples|
    ensures rows.value[..|old(w.stmt.db.table)|] == old(w.stmt.db.table)
    ensures forall k :: 0 <= k < |tuples| ==> RowMeans(rows.value[|old(w.stmt.db.table)| + k], tuples[k])
  {
    ghost var n := w.stmt.parameterCount;
    ghost var before := w.stmt.db.table;
    var inserted, thrown := InsertAll(w, tuples, i => false, i => 0);
    assert StoredRows(Nulls(n), tuples)[..inserted] == StoredRows(Nulls(n), tuples);
    rows := Drain(r, i => false);
    forall k | 0 <= k < |tuples|
      ensures RowMeans(rows.value[|before| + k], tuples[k])
    {
      StoredRowsMean(n, tuples, k);
    }
  }

  /**
    bindString for each parameter, insert and select, then hasNext and next up to the new row, and
    getColumnString of any column: the string bound there, or null for null, whatever the table held before.
   */
  method StoreAndFetchString(w: SQLiteStmt, r: SQLiteStmt, strings: seq<Option<JavaString>>, index: nat)
    returns (fetched: Option<JavaString>)
    requires w.stmt.Valid() && !w.stmt.finalized && w.stmt.cursor == Fresh && w.stmt.program.Insert?
    requires index < |strings| <= w.stmt.parameterCount && w.stmt.bindings == Nulls(w.stmt.parameterCount)
    requires r.stmt.Valid() && !r.stmt.finalized && !r.stmt.cursor.Failed?
    requires r.stmt != w.stmt && r.stmt.db == w.stmt.db
    requires r.stmt.program.Query? && forall table, bindings :: r.stmt.program.result(table, bindings) == table
    modifies w.stmt, r.stmt, w.stmt.db
    ensures fetched == strings[index]
  {
    var older := |w.stmt.db.table|;
    var tuple := seq(|strings|, i requires 0 <= i < |strings| => ArgString(strings[i]));
    BoundRowMeans(w.stmt.parameterCount, tuple);
    var thrown := InsertTuple(w, tuple, false, 1);
    ghost var table := w.stmt.db.table;
    assert |table| == older + 1 && RowMeans(table[older], tuple);
    var row := NthRow(r, older);
    assert Means(table[older][index], tuple[index]);
    fetched := row.GetColumnString(index);
  }

  /** select(), then hasNext and next until row `k` is taken. */
  method NthRow(s: SQLiteStmt, k: nat) returns (row: RowIterator)
    requires s.stmt.Valid() && !s.stmt.finalized && s.stmt.program.Query? && !s.stmt.cursor.Failed?
    requires k < |s.stmt.program.result(s.stmt.db.table, s.stmt.bindings)|
    modifies s.stmt`cursor, s.stmt.db
    ensures s.stmt.Valid() && row.stmt == s.stmt && fresh(row)
    ensures s.stmt.cursor == OnRow(s.stmt.program.result(old(s.stmt.db.table), old(s.stmt.bindings)), k)
  {
    ghost var result := s.stmt.program.result(s.stmt.db.table, s.stmt.bindings);
    var selected := s.Select();
    var rowIterator := selected.value;
    var more := rowIterator.HasNext(false, 0);
    var taken := rowIterator.Next();
    var i := 0;
    while i < k
      invariant 0 <= i <= k
      invariant s.stmt.Valid() && s.stmt.cursor == OnRow(result, i)
      invariant fresh(rowIterator) && rowIterator.stmt == s.stmt && !rowIterator.mDone
      invariant taken == Some(rowIterator)
    {
      more := rowIterator.HasNext(false, 0);
      taken := rowIterator.Next();
      i := i + 1;
    }
    row := taken.value;
  }
}
