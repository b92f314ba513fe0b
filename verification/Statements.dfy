/**
  Prepared statements: the library's contract for one statement object, and the Java classes SQLiteStmt
  and RowIterator that share its handle.
 */
module Statements {
  import opened JavaTypes
  import opened Options
  import opened ModifiedUtf8
  import opened StandardUtf8
  import opened Cursors
  import SharedCursors
  import opened ResultCodes

  datatype Value = Null | Integer(n: Long) | Real(r: real) | Text(text: Bytes) | Blob(blob: Bytes)

  type Row = seq<Value>

  /**
    What a statement does when it runs: append its bindings as a row, change the table in any other way
    and count the rows it changed, or compute rows from the table and the bindings.
   */
  datatype Program =
    | Insert
    | Update(effect: (seq<Row>, seq<Value>) -> (seq<Row>, nat))
    | Query(result: (seq<Row>, seq<Value>) -> seq<Row>)

  /** The table, the change count and the last row id after an execution that ran to completion. */
  predicate Ran(program: Program, bindings: seq<Value>, rowid: Long,
                table: seq<Row>, changes: int, lastRowid: Long, newTable: seq<Row>, newChanges: int, newLastRowid: Long) {
    match program
    case Insert => newTable == table + [bindings] && newChanges == 1 && newLastRowid == rowid
    case Update(effect) => (newTable, newChanges) == effect(table, bindings) && newLastRowid == lastRowid
    case Query(_) => newTable == table && newChanges == changes && newLastRowid == lastRowid
  }

  function Nulls(n: nat): seq<Value> {
    seq(n, i => Null)
  }

  function StepCode(c: Cursor<Row>): int {
    match c
    case OnRow(_, _) => ROW
    case Failed => ERROR
    case _ => DONE
  }

  class Database {
    var table: seq<Row>
    var lastInsertRowid: Long
    var changes: int

    constructor ()
      ensures table == []
    {
      table, lastInsertRowid, changes := [], 0, 0;
    }
  }

  /** The library's sqlite3_stmt.  `fails` and `rowid` are what the environment decides for one step. */
  class PreparedStmt {
    const db: Database
    const program: Program
    const parameterCount: nat
    var cursor: Cursor<Row>
    var bindings: seq<Value>
    var finalized: bool

    ghost predicate Valid()
      reads this
    {
      ValidCursor(cursor) && |bindings| == parameterCount
    }

    constructor (db: Database, program: Program, parameterCount: nat)
      ensures Valid() && !finalized && cursor == Fresh && bindings == Nulls(parameterCount)
      ensures this.db == db && this.program == program && this.parameterCount == parameterCount
    {
      this.db, this.program, this.parameterCount := db, program, parameterCount;
      cursor, bindings, finalized := Fresh, Nulls(parameterCount), false;
    }

    /** The rows of an execution that starts now. */
    function Result(): seq<Row>
      reads this, db
    {
      match program
      case Query(result) => result(db.table, bindings)
      case _ => []
    }

    /** What an execution that ran to completion did to the database; nothing if `done` is false. */
    twostate predicate Executed(done: bool, rowid: Long)
      reads this, db
    {
      if done
      then Ran(program, bindings, rowid, old(db.table), old(db.changes), old(db.lastInsertRowid),
               db.table, db.changes, db.lastInsertRowid)
      else db.table == old(db.table) && db.changes == old(db.changes) && db.lastInsertRowid == old(db.lastInsertRowid)
    }

    method Bind(index: int, value: Value) returns (rc: int)
      requires Valid() && !finalized
      modifies this`bindings
      ensures Valid()
      ensures rc == if cursor != Fresh then MISUSE else if 1 <= index <= parameterCount then OK else RANGE
      ensures bindings == if rc == OK then old(bindings)[index - 1 := value] else old(bindings)
    {
      if cursor != Fresh {
        rc := MISUSE;
      } else if index < 1 || index > parameterCount {
        rc := RANGE;
      } else {
        bindings := bindings[index - 1 := value];
        rc := OK;
      }
    }

    method ClearBindings() returns (rc: int)
      requires Valid() && !finalized
      modifies this`bindings
      ensures Valid() && rc == OK && bindings == Nulls(parameterCount)
    {
      bindings := Nulls(parameterCount);
      rc := OK;
    }

    /** Resets in every case; the code repeats the failure of the last step. */
    method Reset() returns (rc: int)
      requires Valid() && !finalized
      modifies this`cursor
      ensures Valid() && cursor == Fresh
      ensures rc == if old(cursor).Failed? then ERROR else OK
    {
      rc := if cursor.Failed? then ERROR else OK;
      cursor := Fresh;
    }

    method Step(fails: bool, rowid: Long) returns (rc: int)
      requires Valid() && !finalized
      modifies this`cursor, db
      ensures Valid()
      ensures program.Query? ==> cursor == Cursors.Step(old(cursor), program.result(old(db.table), bindings), fails)
      ensures !program.Query? ==> cursor == Cursors.Step(old(cursor), [], fails)
      ensures rc == if cursor.OnRow? then ROW else if cursor.Failed? then ERROR else DONE
      ensures Executed(rc == DONE, rowid)
    {
      cursor := Cursors.Step(cursor, Result(), fails);
      rc := StepCode(cursor);
      if rc == DONE {
        match program {
          case Insert => db.table, db.changes, db.lastInsertRowid := db.table + [bindings], 1, rowid;
          case Update(effect) =>
            var changed := effect(db.table, bindings);
            db.table, db.changes := changed.0, changed.1;
          case Query(_) =>
        }
      }
    }

    method Finalize()
      requires !finalized
      modifies this`finalized
      ensures finalized
    {
      finalized := true;
    }
  }

  // ---------------------------------------------------------------- sqlite4a.SQLiteStmt

  class SQLiteStmt {
    const stmt: PreparedStmt

    constructor (stmt: PreparedStmt)
      ensures this.stmt == stmt
    {
      this.stmt := stmt;
    }

    method BindNull(index: int) returns (thrown: bool)
      requires stmt.Valid() && !stmt.finalized
      modifies stmt`bindings
      ensures stmt.Valid() && Bound(old(stmt.bindings), index, Some(Null), thrown)
    {
      thrown := NativeBind(index, Null);
    }

    method BindLong(index: int, value: Long) returns (thrown: bool)
      requires stmt.Valid() && !stmt.finalized
      modifies stmt`bindings
      ensures stmt.Valid() && Bound(old(stmt.bindings), index, Some(Integer(value)), thrown)
    {
      thrown := NativeBind(index, Integer(value));
    }

    method BindDouble(index: int, value: real) returns (thrown: bool)
      requires stmt.Valid() && !stmt.finalized
      modifies stmt`bindings
      ensures stmt.Valid() && Bound(old(stmt.bindings), index, Some(Real(value)), thrown)
    {
      thrown := NativeBind(index, Real(value));
    }

    /** A null string binds nothing: the parameter keeps what it had. */
    method BindString(index: int, value: Option<JavaString>) returns (thrown: bool)
      requires stmt.Valid() && !stmt.finalized
      modifies stmt`bindings
      ensures stmt.Valid()
      ensures Bound(old(stmt.bindings), index, if value.None? then None else Some(Text(NativeText(value.value))), thrown)
      ensures value.Some? && !thrown ==>
                stmt.bindings[index - 1].Text? && CodePoints(stmt.bindings[index - 1].text) == value.value
    {
      thrown := false;
      if value.Some? { BoundTextDenotes(value.value); }
      if value.Some? {
        thrown := NativeBind(index, Text(NativeText(value.value)));
      }
    }

    method BindBlob(index: int, value: Option<Bytes>) returns (thrown: bool)
      requires stmt.Valid() && !stmt.finalized
      modifies stmt`bindings
      ensures stmt.Valid()
      ensures Bound(old(stmt.bindings), index, if value.None? then None else Some(Blob(value.value)), thrown)
    {
      thrown := false;
      if value.Some? {
        thrown := NativeBind(index, Blob(value.value));
      }
    }

    /** The bindings after a bind call with `value`, or with a Java null that is skipped. */
    ghost predicate Bound(before: seq<Value>, index: int, value: Option<Value>, thrown: bool)
      reads stmt
    {
      var accepted := stmt.cursor == Fresh && 1 <= index <= |before|;
      match value
      case None => !thrown && stmt.bindings == before
      case Some(v) => thrown == !accepted && stmt.bindings == if accepted then before[index - 1 := v] else before
    }

    method NativeBind(index: int, value: Value) returns (thrown: bool)
      requires stmt.Valid() && !stmt.finalized
      modifies stmt`bindings
      ensures stmt.Valid() && Bound(old(stmt.bindings), index, Some(value), thrown)
    {
      var rc := stmt.Bind(index, value);
      thrown := rc != OK;
    }

    /** Clears only if the reset reports no failure; the reset itself happens in any case. */
    method ClearBindings() returns (thrown: bool)
      requires stmt.Valid() && !stmt.finalized
      modifies stmt`bindings, stmt`cursor
      ensures stmt.Valid() && stmt.cursor == Fresh
      ensures thrown == old(stmt.cursor).Failed?
      ensures stmt.bindings == if thrown then old(stmt.bindings) else Nulls(stmt.parameterCount)
    {
      var rc := stmt.Reset();
      if rc == OK {
        rc := stmt.ClearBindings();
      }
      thrown := rc != OK;
    }

    /** Anything but DONE finalizes the statement and throws. */
    method Insert(fails: bool, newRowid: Long) returns (thrown: bool, rowid: Long)
      requires stmt.Valid() && !stmt.finalized
      modifies stmt`cursor, stmt`finalized, stmt.db
      ensures stmt.Valid() && stmt.finalized == thrown
      ensures stmt.program.Query? ==>
                stmt.cursor == Cursors.Step(old(stmt.cursor), stmt.program.result(old(stmt.db.table), stmt.bindings), fails)
      ensures !stmt.program.Query? ==> stmt.cursor == Cursors.Step(old(stmt.cursor), [], fails)
      ensures thrown <==> !stmt.cursor.Done?
      ensures stmt.Executed(!thrown, newRowid)
      ensures rowid == if thrown then -1 else if stmt.program.Insert? then newRowid else old(stmt.db.lastInsertRowid)
    {
      var rc := stmt.Step(fails, newRowid);
      if rc != DONE {
        stmt.Finalize();
        return true, -1;
      }
      return false, stmt.db.lastInsertRowid;
    }

    method Execute(fails: bool, newRowid: Long) returns (thrown: bool, changes: int)
      requires stmt.Valid() && !stmt.finalized
      modifies stmt`cursor, stmt`finalized, stmt.db
      ensures stmt.Valid() && stmt.finalized == thrown
      ensures stmt.program.Query? ==>
                stmt.cursor == Cursors.Step(old(stmt.cursor), stmt.program.result(old(stmt.db.table), stmt.bindings), fails)
      ensures !stmt.program.Query? ==> stmt.cursor == Cursors.Step(old(stmt.cursor), [], fails)
      ensures thrown <==> !stmt.cursor.Done?
      ensures thrown ==> changes == -1 && stmt.db.table == old(stmt.db.table) && stmt.db.changes == old(stmt.db.changes)
      ensures !thrown ==>
                match stmt.program
                case Insert => changes == 1 && stmt.db.table == old(stmt.db.table) + [stmt.bindings]
                case Update(effect) => (stmt.db.table, changes) == effect(old(stmt.db.table), stmt.bindings)
                case Query(_) => changes == old(stmt.db.changes) && stmt.db.table == old(stmt.db.table)
      ensures stmt.Executed(!thrown, newRowid)
    {
      var rc := stmt.Step(fails, newRowid);
      if rc != DONE {
        stmt.Finalize();
        return true, -1;
      }
      return false, stmt.db.changes;
    }

    /** None when the reset of a failed statement throws; the statement is reset all the same. */
    method Select() returns (rowIterator: Option<RowIterator>)
      requires stmt.Valid() && !stmt.finalized
      modifies stmt`cursor
      ensures stmt.Valid() && stmt.cursor == AfterSelect(old(stmt.cursor))
      ensures stmt.cursor == if old(stmt.cursor).Done? then Done else Fresh
      ensures rowIterator.None? <==> old(stmt.cursor).Failed?
      ensures rowIterator.Some? ==>
                && fresh(rowIterator.value) && rowIterator.value.stmt == stmt
                && !rowIterator.value.mHasNext && !rowIterator.value.mDone
      ensures forall run: nat, others: seq<Flags> ::
                SharedCursors.Perform(SharedCursors.Shared(old(stmt.cursor), run, others), SharedCursors.Select)
                == SharedCursors.Shared(stmt.cursor, run,
                                        if rowIterator.None? then others else others + [rowIterator.value.Flags()])
    {
      if Busy(stmt.cursor) {
        var rc := stmt.Reset();
        if rc != OK {
          return None;
        }
      }
      var it := new RowIterator(stmt);
      rowIterator := Some(it);
    }

    method Close()
      requires !stmt.finalized
      modifies stmt`finalized
      ensures stmt.finalized
    {
      stmt.Finalize();
    }
  }

  // ---------------------------------------------------------------- sqlite4a.RowIterator

  class RowIterator {
    const stmt: PreparedStmt
    var mHasNext: bool
    var mDone: bool

    constructor (stmt: PreparedStmt)
      ensures this.stmt == stmt && Flags() == NEW_ITERATOR
    {
      this.stmt := stmt;
      mHasNext, mDone := false, false;
    }

    function Flags(): Flags
      reads this
    {
      Cursors.Flags(mHasNext, mDone)
    }

    /** The iterator together with the statement it shares. */
    function Session(): Session<Row>
      reads this, stmt
    {
      Cursors.Session(stmt.cursor, Flags())
    }

    /** Steps the statement at every call until it is done. */
    method HasNext(fails: bool, rowid: Long) returns (more: bool)
      requires stmt.Valid() && !stmt.finalized
      modifies this, stmt`cursor, stmt.db
      ensures stmt.Valid()
      ensures stmt.program.Query? ==>
                Session() == Cursors.HasNext(old(Session()), stmt.program.result(old(stmt.db.table), stmt.bindings), fails)
      ensures !stmt.program.Query? ==> Session() == Cursors.HasNext(old(Session()), [], fails)
      ensures more == HasNextAnswer(Flags())
      ensures stmt.Executed(!old(mDone) && mDone, rowid)
    {
      if !mDone {
        var step := stmt.Step(fails, rowid);
        mDone := step == DONE;
        mHasNext := step == ROW;
      }
      more := !mDone && mHasNext;
    }

    /** The row is the iterator itself, a view of the statement's current row; None stands for NoSuchElementException. */
    method Next() returns (row: Option<RowIterator>)
      modifies this
      ensures Flags() == old(Flags()).(hasNext := false)
      ensures row == if old(mHasNext) then Some(this) else None
    {
      if mHasNext {
        mHasNext := false;
        return Some(this);
      }
      row := None;
    }

    method Close()
      requires !stmt.finalized
      modifies stmt`finalized
      ensures stmt.finalized
    {
      stmt.Finalize();
    }

    /** The columns seen through this row now. */
    function Columns(): Row
      requires stmt.Valid() && stmt.cursor.OnRow?
      reads this, stmt
    {
      stmt.cursor.rows[stmt.cursor.at]
    }

    /** None is a Java null, given for SQL NULL. */
    function GetColumnString(index: nat): Option<JavaString>
      requires stmt.Valid() && stmt.cursor.OnRow?
      requires index < |Columns()| && (Columns()[index].Null? || Columns()[index].Text?)
      requires Columns()[index].Text? ==> TextToJava(Columns()[index].text).Some?
      reads this, stmt
    {
      match Columns()[index]
      case Text(text) => TextToJava(text)
      case _ => None
    }
  }
}
