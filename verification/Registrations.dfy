/**
  Which registration a name stands for.  The library takes two names for one when they differ in nothing
  but ASCII case; a later createFunction or createCollation replaces exactly the earlier one of its name.
 */
module Registrations {
  import opened Options
  import opened Counting
  import opened Ownership
  import opened OwnershipRuns

  // ---------------------------------------------------------------- names

  predicate IsCapital(a: char) {
    'A' <= a <= 'Z'
  }

  /** `small` is the small letter of the ASCII capital `capital`; they are 32 apart. */
  predicate CaseOf(capital: char, small: char) {
    IsCapital(capital) && small as int == capital as int + 32
  }

  /** Equal but for the case of ASCII letters. */
  predicate SameName(a: string, b: string) {
    |a| == |b| && forall i :: 0 <= i < |a| ==> a[i] == b[i] || CaseOf(a[i], b[i]) || CaseOf(b[i], a[i])
  }

  /** Folding tells exactly the names apart that differ in more than ASCII case. */
  lemma FoldedMeans(a: string, b: string)
    ensures Folded(a) == Folded(b) <==> SameName(a, b)
    ensures Folded(Folded(a)) == Folded(a)
  {
    if |a| == |b| {
      forall i | 0 <= i < |a|
        ensures Folded(a)[i] == Folded(b)[i] <==> a[i] == b[i] || CaseOf(a[i], b[i]) || CaseOf(b[i], a[i])
      {
      }
      assert Folded(a) == Folded(b) <==> forall i :: 0 <= i < |a| ==> Folded(a)[i] == Folded(b)[i];
    } else {
      assert |Folded(a)| != |Folded(b)|;
    }
  }

  // ---------------------------------------------------------------- two calls

  /** What is registered: a function with so many arguments, or a collation. */
  datatype Kind = OfFunction(nArgs: int) | OfCollation

  function Create(db: Ptr, kind: Kind, name: string, ok: bool): Event {
    match kind
    case OfFunction(nArgs) => CreateFunction(db, name, nArgs, ok)
    case OfCollation => CreateCollation(db, name, ok)
  }

  function KeyOf(c: Ptr, kind: Kind, name: string): Slot {
    match kind
    case OfFunction(nArgs) => FuncSlot(c, Folded(name), nArgs)
    case OfCollation => CollSlot(c, Folded(name))
  }

  lemma KeysMeet(c: Ptr, kind: Kind, a: string, d: Ptr, other: Kind, b: string)
    ensures KeyOf(c, kind, a) == KeyOf(d, other, b) <==> c == d && kind == other && SameName(a, b)
  {
    FoldedMeans(a, b);
  }

  lemma InstallOver(w: World, first: Slot, second: Slot)
    requires RefsOk(w.dbs, w.slots, w.live, w.nextRef)
    ensures var v := InstallEffect(InstallEffect(w, first), second);
            && second in v.slots && v.slots[second] == w.nextRef + 1 && w.nextRef + 1 in v.live
            && (first != second ==> first in v.slots && v.slots[first] == w.nextRef && w.nextRef in v.live)
            && (first == second ==> w.nextRef !in v.live && w.nextRef !in Values(v.slots))
            && v.slots.Keys == w.slots.Keys + {first, second}
  {
  }

  /**
    Two successful registrations in a row: the first keeps its place and its live reference, unless the
    second is of the same kind on the same SQLiteDb under a name that differs in nothing but ASCII case;
    then one registration is left of the two, and the first reference is dead.
   */
  lemma SecondRegistration(w: World, db: Ptr, kind: Kind, a: string, other: Ptr, second: Kind, b: string)
    requires DbsOk(w.dbs, w.conns) && RefsOk(w.dbs, w.slots, w.live, w.nextRef) && db in w.dbs && other in w.dbs
    ensures var mid := Apply(w, Create(db, kind, a, true));
            && other in mid.dbs
            && var end := Apply(mid, Create(other, second, b, true));
            && var replaced := db == other && kind == second && SameName(a, b);
            && (w.nextRef in end.live <==> !replaced)
            && (w.nextRef in Values(end.slots) <==> !replaced)
            && mid.nextRef in end.live && mid.nextRef in Values(end.slots)
            && (replaced ==> end.slots.Keys == mid.slots.Keys)
  {
    var first := KeyOf(w.dbs[db].handle, kind, a);
    var last := KeyOf(w.dbs[other].handle, second, b);
    assert Apply(w, Create(db, kind, a, true)) == InstallEffect(w, first);
    InstallOver(w, first, last);
    KeysMeet(w.dbs[db].handle, kind, a, w.dbs[other].handle, second, b);
    assert w.dbs[db].handle == w.dbs[other].handle <==> db == other;
  }

  // ---------------------------------------------------------------- whole runs

  /** The call makes a new global reference. */
  predicate MakesRef(e: Event) {
    e.TraceDb? || e.CreateFunction? || e.CreateCollation?
  }

  /** The call registers something on `db` that answers to `name`. */
  predicate Registers(e: Event, db: Ptr, kind: Kind, name: string) {
    match e
    case CreateFunction(d, a, nArgs, ok) => ok && d == db && kind == OfFunction(nArgs) && SameName(a, name)
    case CreateCollation(d, a, ok) => ok && d == db && kind == OfCollation && SameName(a, name)
    case _ => false
  }

  /** The reference made by the last successful registration of `name` since `db` was opened; references are numbered by their calls. */
  function Latest(es: seq<Event>, db: Ptr, kind: Kind, name: string): Option<Ref> {
    if es == [] then None
    else
      var past, e := Front(es), Last(es);
      if Registers(e, db, kind, name) then Some(Count(past, MakesRef))
      else if e.OpenDb? && e.result.Opened? && e.result.db == db then None
      else Latest(past, db, kind, name)
  }

  /** What the library finds under `name`: a registration of that kind whose name differs in nothing but ASCII case. */
  ghost predicate Finds(slots: map<Slot, Ref>, c: Ptr, kind: Kind, name: string, r: Ref) {
    exists s :: s in slots && slots[s] == r && AnswersTo(s, c, kind, name)
  }

  predicate AnswersTo(s: Slot, c: Ptr, kind: Kind, name: string) {
    && s.conn == c && SameName(s.name, name)
    && match kind
       case OfFunction(nArgs) => s.FuncSlot? && s.nArgs == nArgs
       case OfCollation => s.CollSlot?
  }

  ghost predicate KeysFolded(slots: map<Slot, Ref>) {
    forall s :: s in slots ==> Folded(s.name) == s.name
  }

  lemma AnswersToKey(s: Slot, c: Ptr, kind: Kind, name: string)
    requires Folded(s.name) == s.name
    ensures AnswersTo(s, c, kind, name) <==> s == KeyOf(c, kind, name)
  {
    FoldedMeans(s.name, name);
  }

  lemma FindsKey(slots: map<Slot, Ref>, c: Ptr, kind: Kind, name: string, r: Ref)
    requires KeysFolded(slots)
    ensures Finds(slots, c, kind, name, r) <==> KeyOf(c, kind, name) in slots && slots[KeyOf(c, kind, name)] == r
  {
    forall s | s in slots
      ensures AnswersTo(s, c, kind, name) <==> s == KeyOf(c, kind, name)
    {
      AnswersToKey(s, c, kind, name);
    }
  }

  lemma EventRefs(w: World, e: Event)
    requires CallerOk(w, e)
    ensures Apply(w, e).nextRef == w.nextRef + if MakesRef(e) then 1 else 0
  {
  }

  lemma {:induction false} RefsAreNumbered(es: seq<Event>)
    requires Legal(EMPTY, es)
    ensures Run(EMPTY, es).nextRef == Count(es, MakesRef)
  {
    if es == [] {
    } else {
      RefsAreNumbered(Front(es));
      RunStep(EMPTY, es);
      EventRefs(Run(EMPTY, Front(es)), Last(es));
    }
  }

  // ---------------------------------------------------------------- one call and one name

  lemma CreateMovesKey(w: World, e: Event, db: Ptr, kind: Kind, name: string)
    requires DbsOk(w.dbs, w.conns) && db in w.dbs && CallerOk(w, e) && (e.CreateFunction? || e.CreateCollation?)
    ensures KeyMoves(w, e, db, kind, name)
  {
    var c := w.dbs[db].handle;
    assert w.dbs[e.db].handle == c <==> e.db == db;
    match e
    case CreateFunction(d, a, nArgs, ok) => KeysMeet(w.dbs[d].handle, OfFunction(nArgs), a, c, kind, name);
    case CreateCollation(d, a, ok) => KeysMeet(w.dbs[d].handle, OfCollation, a, c, kind, name);
  }

  /** After the call the key of `name` on `db`'s connection holds the new reference, or what it held before. */
  ghost predicate KeyMoves(w: World, e: Event, db: Ptr, kind: Kind, name: string)
    requires db in w.dbs && CallerOk(w, e)
  {
    var key, slots := KeyOf(w.dbs[db].handle, kind, name), Apply(w, e).slots;
    if Registers(e, db, kind, name) then key in slots && slots[key] == w.nextRef else SameAt(w.slots, slots, key)
  }

  predicate SameAt(before: map<Slot, Ref>, after: map<Slot, Ref>, key: Slot) {
    (key in after <==> key in before) && (key in before ==> after[key] == before[key])
  }

  lemma SettleSparesKey(w: World, x: Ptr, key: Slot)
    requires key.conn in w.conns && w.conns[key.conn] != Zombie
    ensures SameAt(w.slots, Settle(w, x).slots, key)
  {
  }

  lemma CloseSparesKey(w: World, other: Ptr, db: Ptr, key: Slot)
    requires DbsOk(w.dbs, w.conns) && db in w.dbs && other in w.dbs && other != db && key.conn == w.dbs[db].handle
    ensures SameAt(w.slots, CloseEffect(w, other).slots, key)
  {
    SettleSparesKey(Unwrap(w, other), w.dbs[other].handle, key);
  }

  lemma FinalizeSparesKey(w: World, stmt: Ptr, db: Ptr, key: Slot)
    requires DbsOk(w.dbs, w.conns) && db in w.dbs && stmt in w.stmts && key.conn == w.dbs[db].handle
    ensures SameAt(w.slots, FinalizeEffect(w, stmt).slots, key)
  {
    SettleSparesKey(w.(stmts := w.stmts - {stmt}), w.stmts[stmt], key);
  }

  lemma OtherSlotsUnchanged(w: World, e: Event)
    requires CallerOk(w, e) && !e.CreateFunction? && !e.CreateCollation? && !e.CloseDb? && !Finalized(e)
    ensures Apply(w, e).slots == w.slots
  {
  }

  lemma EventMovesKey(w: World, e: Event, db: Ptr, kind: Kind, name: string)
    requires DbsOk(w.dbs, w.conns) && CallerOk(w, e) && db in w.dbs && !(e.CloseDb? && e.db == db)
    ensures KeyMoves(w, e, db, kind, name)
  {
    var key := KeyOf(w.dbs[db].handle, kind, name);
    if e.CreateFunction? || e.CreateCollation? {
      CreateMovesKey(w, e, db, kind, name);
    } else if e.CloseDb? {
      CloseSparesKey(w, e.db, db, key);
    } else if Finalized(e) {
      FinalizeSparesKey(w, e.stmt, db, key);
    } else {
      OtherSlotsUnchanged(w, e);
    }
  }

  lemma EventKeepsFolded(w: World, e: Event)
    requires CallerOk(w, e) && KeysFolded(w.slots)
    ensures KeysFolded(Apply(w, e).slots)
  {
    if e.CreateFunction? || e.CreateCollation? {
      FoldedMeans(e.name, e.name);
    }
  }

  lemma {:induction false} KeysStayFolded(es: seq<Event>)
    requires Legal(EMPTY, es)
    ensures KeysFolded(Run(EMPTY, es).slots)
  {
    if es == [] {
    } else {
      KeysStayFolded(Front(es));
      RunStep(EMPTY, es);
      EventKeepsFolded(Run(EMPTY, Front(es)), Last(es));
    }
  }

  lemma FreshConnectionHasNoKey(w: World, db: Ptr, handle: Ptr, key: Slot)
    requires RegistrationsOk(w.slots, w.tracers, w.conns) && handle !in w.conns && key.conn == handle
    ensures key !in OpenEffect(w, Opened(db, handle)).slots
  {
    assert forall s :: s in w.slots ==> Serves(w.conns, s.conn);
  }

  /** The key of `name` holds the reference of the latest registration, and nothing if there is none. */
  ghost predicate KeyFits(w: World, db: Ptr, kind: Kind, name: string, latest: Option<Ref>)
    requires db in w.dbs
  {
    var key := KeyOf(w.dbs[db].handle, kind, name);
    latest == if key in w.slots then Some(w.slots[key]) else None
  }

  lemma RunOwnersAndRegistrations(es: seq<Event>)
    requires Legal(EMPTY, es)
    ensures var w := Run(EMPTY, es);
            DbsOk(w.dbs, w.conns) && RegistrationsOk(w.slots, w.tracers, w.conns) && w.nextRef == Count(es, MakesRef)
  {
    EmptyIsFine();
    RunKeepsInvariant(EMPTY, es);
    RefsAreNumbered(es);
  }

  lemma {:induction false} LatestIsAtKey(es: seq<Event>, db: Ptr, kind: Kind, name: string)
    requires Legal(EMPTY, es) && db in Run(EMPTY, es).dbs
    ensures KeyFits(Run(EMPTY, es), db, kind, name, Latest(es, db, kind, name))
  {
    if es == [] {
    } else {
      var w, e := Run(EMPTY, Front(es)), Last(es);
      RunOwnersAndRegistrations(Front(es));
      RunStep(EMPTY, es);
      EventDbs(w, e);
      EventHandle(w, e, db);
      if db in w.dbs {
        LatestIsAtKey(Front(es), db, kind, name);
        EventMovesKey(w, e, db, kind, name);
      } else {
        FreshConnectionHasNoKey(w, db, e.result.handle, KeyOf(e.result.handle, kind, name));
      }
    }
  }

  /**
    In every reachable state, what the library finds under a name on an open SQLiteDb is exactly the object of
    the last successful registration under a name equal to it but for ASCII case, and that object is live.
   */
  lemma LatestIsFound(es: seq<Event>, db: Ptr, kind: Kind, name: string, r: Ref)
    requires Legal(EMPTY, es) && db in Run(EMPTY, es).dbs
    ensures var w := Run(EMPTY, es);
            && (Finds(w.slots, w.dbs[db].handle, kind, name, r) <==> Latest(es, db, kind, name) == Some(r))
            && (Latest(es, db, kind, name) == Some(r) ==> r in w.live)
  {
    var w := Run(EMPTY, es);
    KeysStayFolded(es);
    LatestIsAtKey(es, db, kind, name);
    FindsKey(w.slots, w.dbs[db].handle, kind, name, r);
    if Latest(es, db, kind, name) == Some(r) {
      CallbacksHoldLiveReferences(es, KeyOf(w.dbs[db].handle, kind, name));
    }
  }
}
