/**
  The native methods of the binding, step by step, over the mutable state of the process: the JNI
  reference table, the native heap of SQLiteDb structs, and the library behind its documented contract.
  Each native, called where the invariant holds, is proved to have exactly the effect the ownership model
  gives its event; EventKeepsInvariant says that this effect keeps the invariant for the next call.
 */
module Natives {
  import opened Options
  import opened Ownership
  import opened ResultCodes

  /** How nativeOpen ends, from the flags and what the library answers. */
  function OpenOutcome(flags: int, openRc: int, handle: Ptr, readOnly: int, busyRc: int, newDb: Ptr): OpenResult {
    if openRc != OK then OpenFailed(handle)
    else if OpensReadWrite(flags) && readOnly != 0 then ReadOnlyRejected(handle)
    else if busyRc != OK then BusyTimeoutFailed(handle)
    else Opened(newDb, handle)
  }

  function TraceOutcome(traceRc: int, keepsOld: bool): TraceAnswer {
    if traceRc == OK then Accepted else if keepsOld then FailedKeepingOld else FailedCancellingOld
  }

  /** The SQLITE_OPEN_READWRITE bit, 0x2. */
  predicate OpensReadWrite(flags: int) {
    flags / 2 % 2 == 1
  }

  lemma WriteBit(flags: int)
    ensures OpensReadWrite(flags) <==> flags % 4 >= 2
  {
  }

  /** The application data of the registrations in `chosen`. */
  function DataOf(slots: map<Slot, Ref>, chosen: set<Slot>): set<Ref> {
    set s | s in chosen && s in slots :: slots[s]
  }

  lemma DataOfOneMore(slots: map<Slot, Ref>, chosen: set<Slot>, s: Slot)
    requires s in slots && s !in chosen && chosen <= slots.Keys
    requires forall s, t :: s in slots && t in slots && slots[s] == slots[t] ==> s == t
    ensures slots[s] !in DataOf(slots, chosen)
    ensures DataOf(slots, chosen + {s}) == DataOf(slots, chosen) + {slots[s]}
    ensures slots - chosen - {s} == slots - (chosen + {s})
  {
  }

  class Process {
    var conns: map<Ptr, Status>
    var tracers: map<Ptr, Ref>
    var slots: map<Slot, Ref>
    var stmts: map<Ptr, Ptr>
    var dbs: map<Ptr, NativeDb>
    var live: set<Ref>
    var nextRef: Ref

    constructor ()
      ensures World() == EMPTY
    {
      conns, tracers, slots, stmts, dbs, live, nextRef := map[], map[], map[], map[], map[], {}, 0;
    }

    function World(): World
      reads this
    {
      Ownership.World(conns, tracers, slots, stmts, dbs, live, nextRef)
    }

    // -------------------------------------------------------------- JNI

    method NewGlobalRef() returns (r: Ref)
      modifies this`live, this`nextRef
      ensures r == old(nextRef) && live == old(live) + {r} && nextRef == r + 1
    {
      r := nextRef;
      live := live + {r};
      nextRef := nextRef + 1;
    }

    /** Deleting a reference that is not live is an error of the caller. */
    method DeleteGlobalRef(r: Ref)
      requires r in live
      modifies this`live
      ensures live == old(live) - {r}
    {
      live := live - {r};
    }

    /** The destructor registered with every function and collation. */
    method JavaDestroy(data: Ref)
      requires data in live
      modifies this`live
      ensures live == old(live) - {data}
    {
      DeleteGlobalRef(data);
    }

    // -------------------------------------------------------------- the library

    /** What registrations rely on: each holds a live reference of its own. */
    ghost predicate SlotsHoldLive()
      reads this
    {
      && (forall s :: s in slots ==> slots[s] in live)
      && (forall s, t :: s in slots && t in slots && slots[s] == slots[t] ==> s == t)
    }

    /** Deallocates a connection, running the destructor of each of its registrations. */
    method Destroy(c: Ptr)
      requires SlotsHoldLive()
      modifies this`conns, this`tracers, this`slots, this`live
      ensures World() == Release(old(World()), c)
    {
      var rest := set s | s in slots && s.conn == c;
      ghost var all, gone := rest, {};
      while rest != {}
        invariant rest !! gone && rest + gone == all && all <= old(slots).Keys
        invariant slots == old(slots) - gone
        invariant live == old(live) - DataOf(old(slots), gone)
        decreases rest
        modifies this`slots, this`live
      {
        var s :| s in rest;
        DataOfOneMore(old(slots), gone, s);
        JavaDestroy(slots[s]);
        slots := slots - {s};
        rest, gone := rest - {s}, gone + {s};
      }
      conns := conns - {c};
      tracers := tracers - {c};
      assert gone == all;
      assert slots == OtherSlots(old(slots), c);
      assert DataOf(old(slots), all) == SlotRefs(old(slots), c);
    }

    /** Gives the new connection, if there is one, to nobody yet. */
    method OpenV2(openRc: int, handle: Ptr) returns (rc: int)
      requires handle !in conns && (openRc == OK ==> handle != 0)
      modifies this`conns
      ensures rc == openRc
      ensures conns == if handle == 0 then old(conns) else old(conns)[handle := Orphan]
    {
      if handle != 0 {
        conns := conns[handle := Orphan];
      }
      rc := openRc;
    }

    /** Destroys the connection now, or leaves a zombie until its last statement is finalized. */
    method CloseV2(c: Ptr)
      requires c in conns && SlotsHoldLive()
      modifies this`conns, this`tracers, this`slots, this`live
      ensures World() == Settle(old(World()).(conns := old(conns)[c := Zombie]), c)
    {
      conns := conns[c := Zombie];
      if StmtsOf(stmts, c) == {} {
        Destroy(c);
      }
    }

    /** Refuses while statements are outstanding. */
    method Close(c: Ptr) returns (rc: int)
      requires c in conns && SlotsHoldLive()
      modifies this`conns, this`tracers, this`slots, this`live
      ensures rc == if StmtsOf(stmts, c) == {} then OK else BUSY
      ensures World() == if rc == OK then Release(old(World()), c) else old(World())
    {
      if StmtsOf(stmts, c) != {} {
        return BUSY;
      }
      Destroy(c);
      rc := OK;
    }

    /** Replaces the registration; whether a failed call still cancels the old one is up to the library. */
    method TraceV2(c: Ptr, context: Ref, traceRc: int, keepsOld: bool) returns (rc: int)
      modifies this`tracers
      ensures rc == traceRc && tracers == TracersAfter(old(tracers), c, context, TraceOutcome(traceRc, keepsOld))
    {
      if traceRc == OK {
        tracers := tracers[c := context];
      } else if !keepsOld {
        tracers := tracers - {c};
      }
      rc := traceRc;
    }

    /** Installs `data` in `slot`, destroying what it replaces. */
    method Install(slot: Slot, data: Ref)
      requires data in live && SlotsHoldLive() && data !in slots.Values
      modifies this`slots, this`live
      ensures slots == old(slots)[slot := data]
      ensures live == old(live) - if slot in old(slots) then {old(slots)[slot]} else {}
    {
      if slot in slots {
        JavaDestroy(slots[slot]);
      }
      slots := slots[slot := data];
    }

    /** On failure the destructor is not run. */
    method CreateCollationV2(c: Ptr, name: string, data: Ref, createRc: int) returns (rc: int)
      requires data in live && SlotsHoldLive() && data !in slots.Values
      modifies this`slots, this`live
      ensures rc == createRc
      ensures var slot := CollSlot(c, Folded(name));
              && slots == (if rc == OK then old(slots)[slot := data] else old(slots))
              && live == if rc == OK && slot in old(slots) then old(live) - {old(slots)[slot]} else old(live)
    {
      if createRc == OK {
        Install(CollSlot(c, Folded(name)), data);
      }
      rc := createRc;
    }

    /** On failure the destructor is run. */
    method CreateFunctionV2(c: Ptr, name: string, nArgs: int, data: Ref, createRc: int) returns (rc: int)
      requires data in live && SlotsHoldLive() && data !in slots.Values
      modifies this`slots, this`live
      ensures rc == createRc
      ensures var slot := FuncSlot(c, Folded(name), nArgs);
              && slots == (if rc == OK then old(slots)[slot := data] else old(slots))
              && live == if rc != OK then old(live) - {data}
                         else if slot in old(slots) then old(live) - {old(slots)[slot]} else old(live)
    {
      if createRc == OK {
        Install(FuncSlot(c, Folded(name), nArgs), data);
      } else {
        JavaDestroy(data);
      }
      rc := createRc;
    }

    /** A compile error gives NULL, and so does text without SQL. */
    method PrepareV2(c: Ptr, prepareRc: int, newStmt: Ptr) returns (rc: int, stmt: Ptr)
      requires newStmt !in stmts && (prepareRc != OK ==> newStmt == 0)
      modifies this`stmts
      ensures rc == prepareRc && stmt == newStmt
      ensures stmts == if stmt == 0 then old(stmts) else old(stmts)[stmt := c]
    {
      if newStmt != 0 {
        stmts := stmts[newStmt := c];
      }
      rc, stmt := prepareRc, newStmt;
    }

    /** Nothing for NULL; the last statement of a zombie takes the connection with it. */
    method Finalize(stmt: Ptr)
      requires (stmt == 0 || stmt in stmts) && SlotsHoldLive()
      modifies this`conns, this`tracers, this`slots, this`live, this`stmts
      ensures World() == FinalizeEffect(old(World()), stmt)
    {
      if stmt != 0 {
        var c := stmts[stmt];
        stmts := stmts - {stmt};
        if c in conns && conns[c] == Zombie && StmtsOf(stmts, c) == {} {
          Destroy(c);
        }
      }
    }

    // -------------------------------------------------------------- the natives

    /** Returns 0 after throwing. */
    method NativeOpen(flags: int, openRc: int, handle: Ptr, readOnly: int, busyRc: int, newDb: Ptr) returns (db: Ptr)
      requires Invariant(World())
      requires openRc == OK ==> handle != 0
      requires handle !in conns && newDb != 0 && newDb !in dbs
      modifies this
      ensures World() == Apply(old(World()), OpenDb(OpenOutcome(flags, openRc, handle, readOnly, busyRc, newDb)))
      // SQLITE_OPEN_READWRITE is bit 1 of the flags, so it is set when the last two bits are 2 or 3.
      ensures db != 0 <==> openRc == OK && busyRc == OK && !(flags % 4 >= 2 && readOnly != 0)
      ensures db != 0 ==> db == newDb && dbs == old(dbs)[newDb := NativeDb(handle, None)]
                          && conns == old(conns)[handle := Open(newDb)]
      ensures db == 0 && (openRc == OK || handle == 0) ==> World() == old(World())
      ensures openRc != OK && handle != 0 ==> World() == old(World()).(conns := old(conns)[handle := Orphan])
    {
      WriteBit(flags);
      var rc := OpenV2(openRc, handle);
      if rc != OK {
        return 0;
      }
      if OpensReadWrite(flags) && readOnly != 0 {
        NothingOnFreshConnection(old(World()), handle);
        CloseV2(handle);
        return 0;
      }
      if busyRc != OK {
        NothingOnFreshConnection(old(World()), handle);
        var closeRc := Close(handle);
        return 0;
      }
      dbs := dbs[newDb := NativeDb(handle, None)];
      conns := conns[handle := Open(newDb)];
      db := newDb;
    }

    method NativeClose(db: Ptr)
      requires Invariant(World()) && db in dbs
      modifies this
      ensures World() == Apply(old(World()), CloseDb(db))
    {
      var native := dbs[db];
      if native.trace.Some? {
        DeleteGlobalRef(native.trace.value);
      }
      assert live == old(live) - TraceRefs(native);
      SettleIgnoresDbs(World().(conns := conns[native.handle := Zombie]), native.handle, dbs - {db});
      CloseV2(native.handle);
      dbs := dbs - {db};
    }

    /** Deletes the reference held for `db`'s trace, if there is one. */
    method DropTrace(db: Ptr)
      requires db in dbs && (dbs[db].trace.Some? ==> dbs[db].trace.value in live)
      modifies this`live, this`dbs
      ensures live == old(live) - TraceRefs(old(dbs)[db])
      ensures dbs == old(dbs)[db := old(dbs)[db].(trace := None)]
    {
      if dbs[db].trace.Some? {
        DeleteGlobalRef(dbs[db].trace.value);
      }
      dbs := dbs[db := dbs[db].(trace := None)];
    }

    method NativeTrace(db: Ptr, traceRc: int, keepsOld: bool) returns (thrown: bool)
      requires Invariant(World()) && db in dbs
      modifies this
      ensures thrown == (traceRc != OK)
      ensures World() == Apply(old(World()), TraceDb(db, TraceOutcome(traceRc, keepsOld)))
    {
      DropTrace(db);
      var r := NewGlobalRef();
      dbs := dbs[db := dbs[db].(trace := Some(r))];
      assert dbs == old(dbs)[db := old(dbs)[db].(trace := Some(r))];
      var rc := TraceV2(dbs[db].handle, r, traceRc, keepsOld);
      thrown := rc != OK;
    }

    method NativeCreateCollation(db: Ptr, name: string, createRc: int) returns (thrown: bool)
      requires Invariant(World()) && db in dbs
      modifies this
      ensures thrown == (createRc != OK)
      ensures World() == Apply(old(World()), CreateCollation(db, name, createRc == OK))
    {
      var comparator := NewGlobalRef();
      var rc := CreateCollationV2(dbs[db].handle, name, comparator, createRc);
      thrown := rc != OK;
    }

    method NativeCreateFunction(db: Ptr, name: string, nArgs: int, createRc: int) returns (thrown: bool)
      requires Invariant(World()) && db in dbs
      modifies this
      ensures thrown == (createRc != OK)
      ensures World() == Apply(old(World()), CreateFunction(db, name, nArgs, createRc == OK))
    {
      var func := NewGlobalRef();
      var rc := CreateFunctionV2(dbs[db].handle, name, nArgs, func, createRc);
      thrown := rc != OK;
    }

    method NativePrepare(db: Ptr, prepareRc: int, newStmt: Ptr) returns (thrown: bool, stmt: Ptr)
      requires Invariant(World()) && db in dbs
      requires newStmt !in stmts && (prepareRc != OK ==> newStmt == 0)
      modifies this
      ensures thrown == (prepareRc != OK) && stmt == newStmt
      ensures World() == Apply(old(World()), PrepareStmt(db, stmt))
    {
      var rc;
      rc, stmt := PrepareV2(dbs[db].handle, prepareRc, newStmt);
      thrown := rc != OK;
    }

    /** Prepares, steps and finalizes; also after a failed prepare, where the statement is NULL. */
    method NativeExecForDouble(db: Ptr, prepareRc: int, newStmt: Ptr) returns (thrown: bool)
      requires Invariant(World()) && db in dbs
      requires newStmt !in stmts && (prepareRc != OK ==> newStmt == 0)
      modifies this
      ensures thrown == (prepareRc != OK)
      ensures World() == Apply(old(World()), ExecForNumber(db, newStmt)) && World() == old(World())
    {
      var rc, stmt := PrepareV2(dbs[db].handle, prepareRc, newStmt);
      thrown := rc != OK;
      Finalize(stmt);
    }

    /**
      nativeInsert and nativeExecute: a step that is not done costs the statement, and the error text is
      asked of its connection only afterwards.  `askedLive` tells whether that connection is still there.
     */
    method NativeRun(stmt: Ptr, stepRc: int) returns (thrown: bool, askedLive: bool)
      requires Invariant(World()) && (stmt == 0 || stmt in stmts)
      requires stmt == 0 ==> stepRc != DONE
      modifies this
      ensures thrown == (stepRc != DONE)
      ensures World() == Apply(old(World()), RunStmt(stmt, !thrown))
      ensures askedLive == !AsksDeadConnection(old(World()), RunStmt(stmt, !thrown))
    {
      var db := if stmt == 0 then 0 else stmts[stmt];
      if stepRc != DONE {
        Finalize(stmt);
        return true, db == 0 || db in conns;
      }
      thrown, askedLive := false, true;
    }

    method NativeFinalize(stmt: Ptr)
      requires Invariant(World()) && (stmt == 0 || stmt in stmts)
      modifies this
      ensures World() == Apply(old(World()), FinalizeStmt(stmt))
    {
      Finalize(stmt);
    }
  }

  lemma SettleIgnoresDbs(w: World, c: Ptr, dbs: map<Ptr, NativeDb>)
    ensures Settle(w, c).(dbs := dbs) == Settle(w.(dbs := dbs), c)
  {
  }

  /** A connection that was just opened has no registration and no statement to lose. */
  lemma NothingOnFreshConnection(w: World, c: Ptr)
    requires StmtsOk(w.stmts, w.conns) && RegistrationsOk(w.slots, w.tracers, w.conns) && c !in w.conns
    ensures StmtsOf(w.stmts, c) == {}
    ensures Settle(w.(conns := w.conns[c := Orphan][c := Zombie]), c) == w
    ensures Release(w.(conns := w.conns[c := Orphan]), c) == w
  {
    forall s | s in w.stmts
      ensures w.stmts[s] != c
    {
      assert Serves(w.conns, w.stmts[s]);
    }
    assert forall s :: s in w.slots ==> Serves(w.conns, s.conn);
    assert OtherSlots(w.slots, c) == w.slots && SlotRefs(w.slots, c) == {};
    assert w.tracers - {c} == w.tracers by {
      assert forall x :: x in w.tracers ==> Serves(w.conns, x);
    }
    assert w.conns[c := Orphan][c := Zombie] - {c} == w.conns;
    assert w.conns[c := Orphan] - {c} == w.conns;
  }
}
