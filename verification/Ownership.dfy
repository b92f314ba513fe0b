/**
  Who owns what: library connections, prepared statements, native SQLiteDb structs and JNI global
  references, and how each call of the binding moves them.  Events carry what the environment decides
  (result codes and the addresses of new objects).  A pointer is a number and 0 is NULL; an address may
  come back once its object is gone, a global reference is never reissued.
 */
module Ownership {
  import opened Options

  type Ptr = nat
  type Ref = nat

  /** A connection the library has not deallocated: wrapped by a SQLiteDb, a zombie, or left by a failed open. */
  datatype Status = Open(db: Ptr) | Zombie | Orphan

  /** What a registered callback is known by inside its connection. */
  datatype Slot = FuncSlot(conn: Ptr, name: string, nArgs: int) | CollSlot(conn: Ptr, name: string)

  /** The library compares names without regard to ASCII case. */
  function Folded(name: string): string {
    seq(|name|, i requires 0 <= i < |name| => if 'A' <= name[i] <= 'Z' then name[i] - 'A' + 'a' else name[i])
  }

  datatype NativeDb = NativeDb(handle: Ptr, trace: Option<Ref>)

  datatype World = World(
    conns: map<Ptr, Status>,      // library connections
    tracers: map<Ptr, Ref>,       // connection -> context pointer of its trace callback
    slots: map<Slot, Ref>,        // installed functions and collations -> application data
    stmts: map<Ptr, Ptr>,         // outstanding statement -> connection
    dbs: map<Ptr, NativeDb>,      // native SQLiteDb structs not yet deleted
    live: set<Ref>,               // JNI global references not yet deleted
    nextRef: Ref)

  const EMPTY := World(map[], map[], map[], map[], map[], {}, 0)

  // ---------------------------------------------------------------- events

  datatype OpenResult =
    | OpenFailed(handle: Ptr)         // sqlite3_open_v2 failed; 0 when it could not even allocate
    | ReadOnlyRejected(handle: Ptr)
    | BusyTimeoutFailed(handle: Ptr)
    | Opened(db: Ptr, handle: Ptr)

  /** How sqlite3_trace_v2 ends.  Whether a failed call cancels the earlier registration is not documented. */
  datatype TraceAnswer = Accepted | FailedKeepingOld | FailedCancellingOld

  datatype Event =
    | OpenDb(result: OpenResult)
    | TraceDb(db: Ptr, answer: TraceAnswer)
    | CreateFunction(db: Ptr, name: string, nArgs: int, ok: bool)
    | CreateCollation(db: Ptr, name: string, ok: bool)
    | PrepareStmt(db: Ptr, stmt: Ptr)           // 0 for a compile error or for text without SQL
    | ExecForNumber(db: Ptr, stmt: Ptr)
    | UseDb(db: Ptr)                            // exec, isReadOnly, inTransaction
    | UseStmt(stmt: Ptr)                        // bind, clearBindings, busy, reset, step, column access
    | RunStmt(stmt: Ptr, done: bool)            // insert or execute
    | FinalizeStmt(stmt: Ptr)                   // SQLiteStmt.close or RowIterator.close
    | CloseDb(db: Ptr)

  /** What the caller must respect: the Java object's pointer was not released before. */
  predicate CallerOk(w: World, e: Event) {
    match e
    case OpenDb(_) => true
    case TraceDb(db, _) => db in w.dbs
    case CreateFunction(db, _, _, _) => db in w.dbs
    case CreateCollation(db, _, _) => db in w.dbs
    case PrepareStmt(db, _) => db in w.dbs
    case ExecForNumber(db, _) => db in w.dbs
    case UseDb(db) => db in w.dbs
    case UseStmt(stmt) => stmt == 0 || stmt in w.stmts
    case RunStmt(stmt, _) => stmt == 0 || stmt in w.stmts
    case FinalizeStmt(stmt) => stmt == 0 || stmt in w.stmts
    case CloseDb(db) => db in w.dbs
  }

  /** What the allocators and the library respect: new objects are not where live ones are, NULL never runs to completion. */
  predicate EnvironmentOk(w: World, e: Event) {
    match e
    case OpenDb(OpenFailed(handle)) => handle !in w.conns
    case OpenDb(ReadOnlyRejected(handle)) => handle != 0 && handle !in w.conns
    case OpenDb(BusyTimeoutFailed(handle)) => handle != 0 && handle !in w.conns
    case OpenDb(Opened(db, handle)) => handle != 0 && handle !in w.conns && db != 0 && db !in w.dbs
    case PrepareStmt(_, stmt) => stmt !in w.stmts
    case ExecForNumber(_, stmt) => stmt !in w.stmts
    case RunStmt(stmt, done) => stmt == 0 ==> !done
    case _ => true
  }

  // ---------------------------------------------------------------- effects

  /** The outstanding statements of connection `c`. */
  function StmtsOf(stmts: map<Ptr, Ptr>, c: Ptr): set<Ptr> {
    set s | s in stmts && stmts[s] == c
  }

  /** The references the library destroys together with connection `c`. */
  function SlotRefs(slots: map<Slot, Ref>, c: Ptr): set<Ref> {
    set s | s in slots && s.conn == c :: slots[s]
  }

  function OtherSlots(slots: map<Slot, Ref>, c: Ptr): map<Slot, Ref> {
    map s | s in slots && s.conn != c :: slots[s]
  }

  function Release(w: World, c: Ptr): World {
    w.(conns := w.conns - {c},
       tracers := w.tracers - {c},
       slots := OtherSlots(w.slots, c),
       live := w.live - SlotRefs(w.slots, c))
  }

  /** A zombie goes as soon as no statement holds it. */
  function Settle(w: World, c: Ptr): World {
    if c in w.conns && w.conns[c] == Zombie && StmtsOf(w.stmts, c) == {} then Release(w, c) else w
  }

  function TraceRefs(db: NativeDb): set<Ref> {
    if db.trace.Some? then {db.trace.value} else {}
  }

  /** The SQLiteDb and its trace reference are gone, and its connection is nobody's. */
  function Unwrap(w: World, db: Ptr): World
    requires db in w.dbs
  {
    w.(dbs := w.dbs - {db},
       live := w.live - TraceRefs(w.dbs[db]),
       conns := w.conns[w.dbs[db].handle := Zombie])
  }

  function CloseEffect(w: World, db: Ptr): World
    requires db in w.dbs
  {
    Settle(Unwrap(w, db), w.dbs[db].handle)
  }

  function FinalizeEffect(w: World, stmt: Ptr): World
    requires stmt == 0 || stmt in w.stmts
  {
    if stmt == 0 then w else Settle(w.(stmts := w.stmts - {stmt}), w.stmts[stmt])
  }

  function InstallEffect(w: World, slot: Slot): World {
    w.(slots := w.slots[slot := w.nextRef],
       live := w.live - (if slot in w.slots then {w.slots[slot]} else {}) + {w.nextRef},
       nextRef := w.nextRef + 1)
  }

  /** The registrations after sqlite3_trace_v2 on `c` with the new context pointer `r`. */
  function TracersAfter(tracers: map<Ptr, Ref>, c: Ptr, r: Ref, answer: TraceAnswer): map<Ptr, Ref> {
    match answer
    case Accepted => tracers[c := r]
    case FailedKeepingOld => tracers
    case FailedCancellingOld => tracers - {c}
  }

  /** The old trace reference is deleted and a new one held, before the library is asked. */
  function TraceEffect(w: World, db: Ptr, answer: TraceAnswer): World
    requires db in w.dbs
  {
    w.(dbs := w.dbs[db := w.dbs[db].(trace := Some(w.nextRef))],
       tracers := TracersAfter(w.tracers, w.dbs[db].handle, w.nextRef, answer),
       live := w.live - TraceRefs(w.dbs[db]) + {w.nextRef},
       nextRef := w.nextRef + 1)
  }

  function OpenEffect(w: World, result: OpenResult): World {
    match result
    case OpenFailed(handle) => if handle == 0 then w else w.(conns := w.conns[handle := Orphan])
    case ReadOnlyRejected(_) => w
    case BusyTimeoutFailed(_) => w
    case Opened(db, handle) => w.(conns := w.conns[handle := Open(db)], dbs := w.dbs[db := NativeDb(handle, None)])
  }

  function Apply(w: World, e: Event): World
    requires CallerOk(w, e)
  {
    match e
    case OpenDb(result) => OpenEffect(w, result)
    case TraceDb(db, answer) => TraceEffect(w, db, answer)
    case CreateFunction(db, name, nArgs, ok) =>
      // On failure the library runs the destructor on the new reference.
      if ok then InstallEffect(w, FuncSlot(w.dbs[db].handle, Folded(name), nArgs)) else w.(nextRef := w.nextRef + 1)
    case CreateCollation(db, name, ok) =>
      // On failure the library does not run the destructor, and neither does the binding.
      if ok then InstallEffect(w, CollSlot(w.dbs[db].handle, Folded(name)))
      else w.(live := w.live + {w.nextRef}, nextRef := w.nextRef + 1)
    case PrepareStmt(db, stmt) => if stmt == 0 then w else w.(stmts := w.stmts[stmt := w.dbs[db].handle])
    case ExecForNumber(_, _) => w
    case UseDb(_) => w
    case UseStmt(_) => w
    case RunStmt(stmt, done) => if done then w else FinalizeEffect(w, stmt)
    case FinalizeStmt(stmt) => FinalizeEffect(w, stmt)
    case CloseDb(db) => CloseEffect(w, db)
  }

  /** A failed insert or execute that asks for the error text of a connection its own finalize deallocated. */
  predicate AsksDeadConnection(w: World, e: Event)
    requires CallerOk(w, e)
  {
    e.RunStmt? && !e.done && e.stmt != 0 && w.stmts[e.stmt] !in Apply(w, e).conns
  }

  // ---------------------------------------------------------------- the invariant

  /** Each SQLiteDb wraps its own open connection, and each open connection has its SQLiteDb. */
  ghost predicate DbsOk(dbs: map<Ptr, NativeDb>, conns: map<Ptr, Status>) {
    && 0 !in dbs && 0 !in conns
    && (forall d :: d in dbs ==> dbs[d].handle in conns && conns[dbs[d].handle] == Open(d))
    && (forall c :: c in conns && conns[c].Open? ==> conns[c].db in dbs && dbs[conns[c].db].handle == c)
  }

  /** Connections that can still run statements or hold registrations. */
  predicate Serves(conns: map<Ptr, Status>, c: Ptr) {
    c in conns && conns[c] != Orphan
  }

  ghost predicate StmtsOk(stmts: map<Ptr, Ptr>, conns: map<Ptr, Status>) {
    0 !in stmts && forall s :: s in stmts ==> Serves(conns, stmts[s])
  }

  /** A zombie is held by an outstanding statement; `except` may just have lost its last one. */
  ghost predicate ZombiesHeld(conns: map<Ptr, Status>, stmts: map<Ptr, Ptr>, except: set<Ptr>) {
    forall c :: c in conns && conns[c] == Zombie && c !in except ==> StmtsOf(stmts, c) != {}
  }

  ghost predicate RegistrationsOk(slots: map<Slot, Ref>, tracers: map<Ptr, Ref>, conns: map<Ptr, Status>) {
    && (forall s :: s in slots ==> Serves(conns, s.conn))
    && (forall c :: c in tracers ==> Serves(conns, c))
  }

  /** Every reference some owner counts on is live, and no two owners share one. */
  ghost predicate RefsOk(dbs: map<Ptr, NativeDb>, slots: map<Slot, Ref>, live: set<Ref>, nextRef: Ref) {
    && (forall r :: r in live ==> r < nextRef)
    && (forall s :: s in slots ==> slots[s] in live)
    && (forall d :: d in dbs && dbs[d].trace.Some? ==> dbs[d].trace.value in live)
    && (forall s, t :: s in slots && t in slots && slots[s] == slots[t] ==> s == t)
    && (forall d, e :: d in dbs && e in dbs && dbs[d].trace.Some? && dbs[d].trace == dbs[e].trace ==> d == e)
    && (forall s, d :: s in slots && d in dbs && dbs[d].trace.Some? ==> slots[s] != dbs[d].trace.value)
  }

  /** The connection's SQLiteDb is open and its current trace is `r`. */
  predicate IsCurrentTrace(dbs: map<Ptr, NativeDb>, conns: map<Ptr, Status>, c: Ptr, r: Ref) {
    c in conns && conns[c].Open? && conns[c].db in dbs && dbs[conns[c].db].trace == Some(r)
  }

  /** The context pointer of a trace callback is live exactly while it is its own SQLiteDb's current trace. */
  ghost predicate TracersOk(w: World) {
    forall c :: c in w.tracers ==>
      && w.tracers[c] < w.nextRef
      && (w.tracers[c] in w.live <==> IsCurrentTrace(w.dbs, w.conns, c, w.tracers[c]))
  }

  ghost predicate SettledBut(w: World, except: set<Ptr>) {
    && DbsOk(w.dbs, w.conns)
    && StmtsOk(w.stmts, w.conns)
    && ZombiesHeld(w.conns, w.stmts, except)
    && RegistrationsOk(w.slots, w.tracers, w.conns)
    && RefsOk(w.dbs, w.slots, w.live, w.nextRef)
    && TracersOk(w)
  }

  ghost predicate Invariant(w: World) {
    SettledBut(w, {})
  }

  // ---------------------------------------------------------------- every event keeps it

  lemma SettleKeeps(w: World, c: Ptr)
    requires SettledBut(w, {c}) && Serves(w.conns, c)
    ensures Invariant(Settle(w, c))
  {
    if w.conns[c] == Zombie && StmtsOf(w.stmts, c) == {} {
      ReleaseKeepsOwners(w.dbs, w.conns, c);
      ReleaseKeepsStmts(w.stmts, w.conns, c);
      ReleaseKeepsRegistrations(w.slots, w.tracers, w.conns, c);
      ReleaseKeepsRefs(w, c);
      ReleaseKeepsTracers(w, c);
    }
  }

  lemma ReleaseKeepsOwners(dbs: map<Ptr, NativeDb>, conns: map<Ptr, Status>, c: Ptr)
    requires DbsOk(dbs, conns) && c in conns && conns[c] == Zombie
    ensures DbsOk(dbs, conns - {c})
  {
  }

  lemma ReleaseKeepsStmts(stmts: map<Ptr, Ptr>, conns: map<Ptr, Status>, c: Ptr)
    requires StmtsOk(stmts, conns) && ZombiesHeld(conns, stmts, {c}) && StmtsOf(stmts, c) == {}
    ensures StmtsOk(stmts, conns - {c}) && ZombiesHeld(conns - {c}, stmts, {})
  {
    forall s | s in stmts
      ensures Serves(conns - {c}, stmts[s])
    {
      assert s !in StmtsOf(stmts, c);
    }
  }

  lemma ReleaseKeepsRegistrations(slots: map<Slot, Ref>, tracers: map<Ptr, Ref>, conns: map<Ptr, Status>, c: Ptr)
    requires RegistrationsOk(slots, tracers, conns)
    ensures RegistrationsOk(OtherSlots(slots, c), tracers - {c}, conns - {c})
  {
  }

  lemma ReleaseKeepsRefs(w: World, c: Ptr)
    requires RefsOk(w.dbs, w.slots, w.live, w.nextRef)
    ensures var v := Release(w, c);
            RefsOk(v.dbs, v.slots, v.live, v.nextRef)
  {
    var dead := SlotRefs(w.slots, c);
    assert forall s :: s in OtherSlots(w.slots, c) ==> w.slots[s] !in dead;
    assert forall d :: d in w.dbs && w.dbs[d].trace.Some? ==> w.dbs[d].trace.value !in dead;
  }

  lemma ReleaseKeepsTracers(w: World, c: Ptr)
    requires DbsOk(w.dbs, w.conns) && RefsOk(w.dbs, w.slots, w.live, w.nextRef) && TracersOk(w)
    requires c in w.conns && w.conns[c] == Zombie
    ensures TracersOk(Release(w, c))
  {
    var dead := SlotRefs(w.slots, c);
    assert forall d :: d in w.dbs && w.dbs[d].trace.Some? ==> w.dbs[d].trace.value !in dead;
  }

  lemma UnwrapKeepsRefs(dbs: map<Ptr, NativeDb>, slots: map<Slot, Ref>, live: set<Ref>, nextRef: Ref, db: Ptr)
    requires RefsOk(dbs, slots, live, nextRef) && db in dbs
    ensures RefsOk(dbs - {db}, slots, live - TraceRefs(dbs[db]), nextRef)
  {
  }

  lemma UnwrapKeepsTracers(w: World, db: Ptr)
    requires DbsOk(w.dbs, w.conns) && TracersOk(w) && RefsOk(w.dbs, w.slots, w.live, w.nextRef) && db in w.dbs
    ensures TracersOk(Unwrap(w, db))
  {
    var v := Unwrap(w, db);
    forall x | x in v.tracers
      ensures v.tracers[x] in v.live <==> IsCurrentTrace(v.dbs, v.conns, x, v.tracers[x])
    {
      if x != w.dbs[db].handle && IsCurrentTrace(w.dbs, w.conns, x, w.tracers[x]) {
        assert w.conns[x].db != db;
      }
    }
  }

  lemma CloseKeepsInvariant(w: World, db: Ptr)
    requires Invariant(w) && db in w.dbs
    ensures Invariant(CloseEffect(w, db))
  {
    var v := Unwrap(w, db);
    UnwrapKeepsRefs(w.dbs, w.slots, w.live, w.nextRef, db);
    UnwrapKeepsTracers(w, db);
    assert forall x :: Serves(w.conns, x) ==> Serves(v.conns, x);
    SettleKeeps(v, w.dbs[db].handle);
  }

  lemma FinalizeKeepsInvariant(w: World, stmt: Ptr)
    requires Invariant(w) && (stmt == 0 || stmt in w.stmts)
    ensures Invariant(FinalizeEffect(w, stmt))
  {
    if stmt != 0 {
      var c := w.stmts[stmt];
      var v := w.(stmts := w.stmts - {stmt});
      forall z | z in v.conns && v.conns[z] == Zombie && z != c
        ensures StmtsOf(v.stmts, z) != {}
      {
        assert StmtsOf(v.stmts, z) == StmtsOf(w.stmts, z);
      }
      SettleKeeps(v, c);
    }
  }

  lemma InstallKeepsRefs(w: World, slot: Slot)
    requires RefsOk(w.dbs, w.slots, w.live, w.nextRef)
    ensures var v := InstallEffect(w, slot);
            RefsOk(v.dbs, v.slots, v.live, v.nextRef)
  {
  }

  lemma InstallKeepsTracers(w: World, slot: Slot)
    requires DbsOk(w.dbs, w.conns) && RefsOk(w.dbs, w.slots, w.live, w.nextRef) && TracersOk(w)
    ensures TracersOk(InstallEffect(w, slot))
  {
  }

  lemma InstallKeepsInvariant(w: World, slot: Slot)
    requires Invariant(w) && Serves(w.conns, slot.conn)
    ensures Invariant(InstallEffect(w, slot))
  {
    InstallKeepsRefs(w, slot);
    InstallKeepsTracers(w, slot);
  }

  lemma TraceKeepsRefs(dbs: map<Ptr, NativeDb>, slots: map<Slot, Ref>, live: set<Ref>, nextRef: Ref, db: Ptr)
    requires RefsOk(dbs, slots, live, nextRef) && db in dbs
    ensures RefsOk(dbs[db := dbs[db].(trace := Some(nextRef))], slots, live - TraceRefs(dbs[db]) + {nextRef}, nextRef + 1)
  {
  }

  lemma TraceKeepsTracers(w: World, db: Ptr, answer: TraceAnswer)
    requires DbsOk(w.dbs, w.conns) && TracersOk(w) && RefsOk(w.dbs, w.slots, w.live, w.nextRef) && db in w.dbs
    ensures TracersOk(TraceEffect(w, db, answer))
  {
    var v := TraceEffect(w, db, answer);
    var c := w.dbs[db].handle;
    forall x | x in v.tracers
      ensures v.tracers[x] < v.nextRef
      ensures v.tracers[x] in v.live <==> IsCurrentTrace(v.dbs, v.conns, x, v.tracers[x])
    {
      if x != c && IsCurrentTrace(w.dbs, w.conns, x, w.tracers[x]) {
        assert w.conns[x].db != db;
      }
    }
  }

  lemma TraceKeepsInvariant(w: World, db: Ptr, answer: TraceAnswer)
    requires Invariant(w) && db in w.dbs
    ensures Invariant(TraceEffect(w, db, answer))
  {
    TraceKeepsTracers(w, db, answer);
    TraceKeepsRefs(w.dbs, w.slots, w.live, w.nextRef, db);
    assert Serves(w.conns, w.dbs[db].handle);
  }

  /** Adding a connection at a fresh address disturbs nobody. */
  lemma NewConnection(w: World, c: Ptr, status: Status)
    requires Invariant(w) && c !in w.conns && status != Zombie
    ensures var conns := w.conns[c := status];
            && StmtsOk(w.stmts, conns) && ZombiesHeld(conns, w.stmts, {})
            && RegistrationsOk(w.slots, w.tracers, conns)
            && c !in w.tracers
  {
    assert forall x :: Serves(w.conns, x) ==> Serves(w.conns[c := status], x);
  }

  lemma OpenedKeepsDbs(dbs: map<Ptr, NativeDb>, conns: map<Ptr, Status>, db: Ptr, handle: Ptr)
    requires DbsOk(dbs, conns) && db != 0 && db !in dbs && handle != 0 && handle !in conns
    ensures DbsOk(dbs[db := NativeDb(handle, None)], conns[handle := Open(db)])
  {
  }

  lemma OpenedKeepsRefs(dbs: map<Ptr, NativeDb>, slots: map<Slot, Ref>, live: set<Ref>, nextRef: Ref, db: Ptr, handle: Ptr)
    requires RefsOk(dbs, slots, live, nextRef) && db !in dbs
    ensures RefsOk(dbs[db := NativeDb(handle, None)], slots, live, nextRef)
  {
  }

  lemma OrphanKeepsInvariant(w: World, handle: Ptr)
    requires Invariant(w) && handle != 0 && handle !in w.conns
    ensures Invariant(w.(conns := w.conns[handle := Orphan]))
  {
    NewConnection(w, handle, Orphan);
  }

  lemma OpenedKeepsTracers(w: World, db: Ptr, handle: Ptr)
    requires TracersOk(w) && DbsOk(w.dbs, w.conns) && db !in w.dbs && handle !in w.conns && handle !in w.tracers
    ensures TracersOk(OpenEffect(w, Opened(db, handle)))
  {
  }

  lemma OpenedKeepsInvariant(w: World, db: Ptr, handle: Ptr)
    requires Invariant(w) && db != 0 && db !in w.dbs && handle != 0 && handle !in w.conns
    ensures Invariant(OpenEffect(w, Opened(db, handle)))
  {
    NewConnection(w, handle, Open(db));
    OpenedKeepsDbs(w.dbs, w.conns, db, handle);
    OpenedKeepsRefs(w.dbs, w.slots, w.live, w.nextRef, db, handle);
    OpenedKeepsTracers(w, db, handle);
  }

  lemma OpenKeepsInvariant(w: World, result: OpenResult)
    requires Invariant(w) && EnvironmentOk(w, OpenDb(result))
    ensures Invariant(OpenEffect(w, result))
  {
    match result
    case OpenFailed(handle) => if handle != 0 { OrphanKeepsInvariant(w, handle); }
    case Opened(db, handle) => OpenedKeepsInvariant(w, db, handle);
    case _ =>
  }

  lemma PrepareKeepsInvariant(w: World, db: Ptr, stmt: Ptr)
    requires Invariant(w) && db in w.dbs && stmt !in w.stmts
    ensures Invariant(Apply(w, PrepareStmt(db, stmt)))
  {
    var v := Apply(w, PrepareStmt(db, stmt));
    forall z | z in v.conns && v.conns[z] == Zombie
      ensures StmtsOf(v.stmts, z) != {}
    {
      assert StmtsOf(w.stmts, z) <= StmtsOf(v.stmts, z);
    }
  }

  /** A reference made for a registration that failed, deleted by the library or not. */
  lemma UnusedRefKeepsInvariant(w: World, live: set<Ref>)
    requires Invariant(w) && w.live <= live <= w.live + {w.nextRef}
    ensures Invariant(w.(live := live, nextRef := w.nextRef + 1))
  {
  }

  lemma FunctionKeepsInvariant(w: World, db: Ptr, name: string, nArgs: int, ok: bool)
    requires Invariant(w) && db in w.dbs
    ensures Invariant(Apply(w, CreateFunction(db, name, nArgs, ok)))
  {
    assert Serves(w.conns, w.dbs[db].handle);
    if ok {
      InstallKeepsInvariant(w, FuncSlot(w.dbs[db].handle, Folded(name), nArgs));
    } else {
      UnusedRefKeepsInvariant(w, w.live);
    }
  }

  lemma CollationKeepsInvariant(w: World, db: Ptr, name: string, ok: bool)
    requires Invariant(w) && db in w.dbs
    ensures Invariant(Apply(w, CreateCollation(db, name, ok)))
  {
    assert Serves(w.conns, w.dbs[db].handle);
    if ok {
      InstallKeepsInvariant(w, CollSlot(w.dbs[db].handle, Folded(name)));
    } else {
      UnusedRefKeepsInvariant(w, w.live + {w.nextRef});
    }
  }

  /** Whatever the environment answers, one call keeps the invariant. */
  lemma EventKeepsInvariant(w: World, e: Event)
    requires Invariant(w) && CallerOk(w, e) && EnvironmentOk(w, e)
    ensures Invariant(Apply(w, e))
  {
    match e
    case OpenDb(result) => OpenKeepsInvariant(w, result);
    case TraceDb(db, answer) => TraceKeepsInvariant(w, db, answer);
    case CreateFunction(db, name, nArgs, ok) => FunctionKeepsInvariant(w, db, name, nArgs, ok);
    case CreateCollation(db, name, ok) => CollationKeepsInvariant(w, db, name, ok);
    case PrepareStmt(db, stmt) => PrepareKeepsInvariant(w, db, stmt);
    case RunStmt(stmt, done) => if !done { FinalizeKeepsInvariant(w, stmt); }
    case FinalizeStmt(stmt) => FinalizeKeepsInvariant(w, stmt);
    case CloseDb(db) => CloseKeepsInvariant(w, db);
    case _ =>
  }
}
