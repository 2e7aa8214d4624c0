/** The life of Go cursors and their C handles in mdbx/cursor.go, with the pool that cursors are recycled through. */
module CursorPool {
  import opened Octets

  type Handle = nat
  type TxnId = nat

  /** What the C library knows: the handles it has given out, which of them are not yet closed, the transactions they
      are bound to, how often each was closed, and the transactions that have not ended. */
  datatype Engine = Engine(next: Handle, live: set<Handle>, bound: map<Handle, TxnId>, closes: multiset<Handle>,
                           txns: set<TxnId>)

  /** The two fields of a `Cursor`. */
  datatype GoCursor = GoCursor(txn: Option<TxnId>, c: Option<Handle>)

  const UNOPENED := GoCursor(None, None)

  // ---------- the C calls ----------

  function CCreate(e: Engine): Engine { e.(next := e.next + 1, live := e.live + {e.next}) }

  function CBind(e: Engine, h: Handle, t: TxnId): Engine { e.(bound := e.bound[h := t]) }

  function CUnbind(e: Engine, h: Handle): Engine { e.(bound := e.bound - {h}) }

  function CClose(e: Engine, h: Handle): Engine {
    e.(live := e.live - {h}, bound := e.bound - {h}, closes := e.closes + multiset{h})
  }

  /** Ending a transaction unbinds its cursors and closes none. */
  function CEndTxn(e: Engine, t: TxnId): Engine {
    e.(txns := e.txns - {t}, bound := map h | h in e.bound && e.bound[h] != t :: e.bound[h])
  }

  // ---------- the Go operations on one cursor ----------

  /** `ok` is whether the C call succeeds; opening and unbinding have no effect when they fail. */
  function Opened(g: GoCursor, e: Engine, t: Option<TxnId>, ok: bool): (GoCursor, Engine, bool) {
    if t.None? || t.value !in e.txns || g.c.Some? || !ok then (g, e, false)
    else (GoCursor(t, Some(e.next)), CBind(CCreate(e), e.next, t.value), true)
  }

  /** How binding ends in the C library: it may fail at once, or after it has unbound the cursor from where it was. */
  datatype BindOutcome = Binds | Refuses | RefusesUnbound

  /** `Renew` and `Bind`; the C calls refuse a nil handle and an ended transaction. */
  function Rebound(g: GoCursor, e: Engine, t: TxnId, how: BindOutcome): (GoCursor, Engine, bool) {
    if g.c.None? || t !in e.txns then (g, e, false)
    else
      match how
      case Binds => (g.(txn := Some(t)), CBind(e, g.c.value, t), true)
      case Refuses => (g, e, false)
      case RefusesUnbound => (g, CUnbind(e, g.c.value), false)
  }

  function Unbound(g: GoCursor, e: Engine, ok: bool): (GoCursor, Engine, bool) {
    if g.c.None? || !ok then (g, e, false)
    else (g.(txn := None), CUnbind(e, g.c.value), true)
  }

  function Closed(g: GoCursor, e: Engine): (GoCursor, Engine) {
    if g.c.None? then (g, e) else (UNOPENED, CClose(e, g.c.value))
  }

  /** `CursorToPool`; the last part says whether the cursor is put into the pool. */
  function Pooled(g: GoCursor, e: Engine, ok: bool): (GoCursor, Engine, bool) {
    if g.c.None? then (g, e, false)
    else
      var (g', e', unbound) := Unbound(g, e, ok);
      if unbound then (g', e', true) else var (g'', e'') := Closed(g', e'); (g'', e'', false)
  }

  // ---------- the same operations on objects ----------

  /** The C library. */
  class Library {
    var state: Engine

    constructor ()
      ensures state == Engine(0, {}, map[], multiset{}, {})
    {
      state := Engine(0, {}, map[], multiset{}, {});
    }

    method CursorOpen(t: TxnId, ok: bool) returns (handle: Option<Handle>)
      modifies this
      ensures handle == if ok then Some(old(state).next) else None
      ensures state == if ok then CBind(CCreate(old(state)), old(state).next, t) else old(state)
    {
      if !ok {
        return None;
      }
      handle := Some(state.next);
      state := CBind(CCreate(state), state.next, t);
    }

    method CursorBind(handle: Option<Handle>, t: TxnId, how: BindOutcome) returns (success: bool)
      modifies this
      ensures success <==> how == Binds && handle.Some? && t in old(state).txns
      ensures state == if handle.None? || t !in old(state).txns || how == Refuses then old(state)
                       else if how == Binds then CBind(old(state), handle.value, t)
                       else CUnbind(old(state), handle.value)
    {
      if handle.None? || t !in state.txns || how == Refuses {
        return false;
      }
      state := CUnbind(state, handle.value);
      success := how == Binds;
      if success {
        state := CBind(state, handle.value, t);
      }
    }

    method CursorUnbind(handle: Option<Handle>, ok: bool) returns (success: bool)
      modifies this
      ensures success <==> ok && handle.Some?
      ensures state == if success then CUnbind(old(state), handle.value) else old(state)
    {
      success := ok && handle.Some?;
      if success {
        state := CUnbind(state, handle.value);
      }
    }

    method CursorClose(handle: Handle)
      modifies this
      ensures state == CClose(old(state), handle)
    {
      state := CClose(state, handle);
    }

    method CursorCreate(ok: bool) returns (handle: Option<Handle>)
      modifies this
      ensures handle == if ok then Some(old(state).next) else None
      ensures state == if ok then CCreate(old(state)) else old(state)
    {
      if !ok {
        return None;
      }
      handle := Some(state.next);
      state := CCreate(state);
    }
  }

  class Cursor {
    var txn: Option<TxnId>
    var c: Option<Handle>

    ghost function View(): GoCursor
      reads this
    {
      GoCursor(txn, c)
    }

    constructor ()
      ensures View() == UNOPENED
    {
      txn := None;
      c := None;
    }

    constructor Holding(handle: Handle)
      ensures View() == GoCursor(None, Some(handle))
    {
      txn := None;
      c := Some(handle);
    }

    method Open(lib: Library, t: Option<TxnId>, ok: bool) returns (success: bool)
      modifies this, lib
      ensures (View(), lib.state, success) == Opened(old(View()), old(lib.state), t, ok)
    {
      if t.None? || t.value !in lib.state.txns {
        return false;
      }
      if c.Some? {
        return false;
      }
      var handle := lib.CursorOpen(t.value, ok);
      if handle.None? {
        return false;
      }
      c := handle;
      txn := t;
      success := true;
    }

    method Rebind(lib: Library, t: TxnId, how: BindOutcome) returns (success: bool)
      modifies this, lib
      ensures (View(), lib.state, success) == Rebound(old(View()), old(lib.state), t, how)
    {
      success := lib.CursorBind(c, t, how);
      if !success {
        return;
      }
      txn := Some(t);
    }

    method Unbind(lib: Library, ok: bool) returns (success: bool)
      modifies this, lib
      ensures (View(), lib.state, success) == Unbound(old(View()), old(lib.state), ok)
    {
      success := lib.CursorUnbind(c, ok);
      if !success {
        return;
      }
      txn := None;
    }

    method Close(lib: Library)
      modifies this, lib
      ensures (View(), lib.state) == Closed(old(View()), old(lib.state))
    {
      if c.Some? {
        lib.CursorClose(c.value);
        txn := None;
        c := None;
      }
    }
  }

  class Pool {
    var free: seq<Cursor>

    constructor ()
      ensures free == []
    {
      free := [];
    }

    /** `CursorFromPool`: any cursor of the pool, or a new one when the pool gives none; no cursor is the panic when
        memory runs out. */
    method CursorFromPool(lib: Library, pick: Option<nat>, ok: bool) returns (cursor: Cursor?)
      requires pick.Some? ==> pick.value < |free|
      modifies this, lib
      ensures pick.Some? ==> (cursor == old(free)[pick.value] && lib.state == old(lib.state) &&
                              free == old(free)[..pick.value] + old(free)[pick.value + 1..])
      ensures pick.None? ==> free == old(free) && (cursor != null <==> ok)
      ensures pick.None? && ok ==> (fresh(cursor) && cursor.View() == GoCursor(None, Some(old(lib.state).next)) &&
                                    lib.state == CCreate(old(lib.state)))
      ensures pick.None? && !ok ==> lib.state == old(lib.state)
    {
      if pick.Some? {
        cursor := free[pick.value];
        free := free[..pick.value] + free[pick.value + 1..];
        return;
      }
      var handle := lib.CursorCreate(ok);
      if handle.None? {
        return null;
      }
      cursor := new Cursor.Holding(handle.value);
    }

    method CursorToPool(cursor: Cursor?, lib: Library, ok: bool)
      modifies this, lib, cursor
      ensures cursor == null ==> free == old(free) && lib.state == old(lib.state)
      ensures cursor != null ==>
                var (g, e, pooled) := Pooled(old(cursor.View()), old(lib.state), ok);
                cursor.View() == g && lib.state == e && free == if pooled then old(free) + [cursor] else old(free)
    {
      if cursor == null || cursor.c.None? {
        return;
      }
      var success := cursor.Unbind(lib, ok);
      if !success {
        cursor.Close(lib);
        return;
      }
      free := free + [cursor];
    }
  }

  // ---------- runs ----------

  type CursorId = nat

  /** All cursors ever used, which of them are in the pool, and which the collector has taken out of it. */
  datatype State = State(cursors: map<CursorId, GoCursor>, pool: set<CursorId>, evicted: set<CursorId>, engine: Engine)

  const INITIAL := State(map[], {}, {}, Engine(0, {}, map[], multiset{}, {}))

  function At(s: State, c: CursorId): GoCursor { if c in s.cursors then s.cursors[c] else UNOPENED }

  datatype Step =
    | BeginTxn(t: TxnId)
    | EndTxn(t: TxnId)
    | OpenStep(c: CursorId, txn: Option<TxnId>, ok: bool)
    | RebindStep(c: CursorId, t: TxnId, how: BindOutcome)
    | UnbindStep(c: CursorId, ok: bool)
    | CloseStep(c: CursorId)
    | CreateStep(c: CursorId)
    | FromPoolStep(c: CursorId)
    | ToPoolStep(c: CursorId, ok: bool)
    | EvictStep(c: CursorId)

  /** A caller forgets a cursor that it has pooled; nothing else is asked of callers. */
  predicate Enabled(s: State, step: Step) {
    match step
    case BeginTxn(t) => true
    case EndTxn(t) => true
    case CreateStep(c) => c !in s.cursors
    case FromPoolStep(c) => c in s.pool
    case EvictStep(c) => c in s.pool
    case _ => step.c !in s.pool && step.c !in s.evicted
  }

  function Put(s: State, c: CursorId, g: GoCursor, e: Engine): State { s.(cursors := s.cursors[c := g], engine := e) }

  function Next(s: State, step: Step): State {
    match step
    case BeginTxn(t) => s.(engine := s.engine.(txns := s.engine.txns + {t}))
    case EndTxn(t) => s.(engine := CEndTxn(s.engine, t))
    case OpenStep(c, t, ok) => var (g, e, _) := Opened(At(s, c), s.engine, t, ok); Put(s, c, g, e)
    case RebindStep(c, t, how) => var (g, e, _) := Rebound(At(s, c), s.engine, t, how); Put(s, c, g, e)
    case UnbindStep(c, ok) => var (g, e, _) := Unbound(At(s, c), s.engine, ok); Put(s, c, g, e)
    case CloseStep(c) => var (g, e) := Closed(At(s, c), s.engine); Put(s, c, g, e)
    case CreateStep(c) => Put(s, c, GoCursor(None, Some(s.engine.next)), CCreate(s.engine))
    case FromPoolStep(c) => s.(pool := s.pool - {c})
    case ToPoolStep(c, ok) =>
      var (g, e, pooled) := Pooled(At(s, c), s.engine, ok);
      Put(s, c, g, e).(pool := if pooled then s.pool + {c} else s.pool)
    case EvictStep(c) => s.(pool := s.pool - {c}, evicted := s.evicted + {c})
  }

  datatype Run = Start | Then(before: Run, step: Step)

  function After(run: Run): State {
    if run.Start? then INITIAL else Next(After(run.before), run.step)
  }

  predicate Valid(run: Run) {
    run.Start? || (Valid(run.before) && Enabled(After(run.before), run.step))
  }

  // ---------- invariants ----------

  /** No handle is closed twice, and each one given out is either live or closed. */
  ghost predicate HandleOk(e: Engine, h: Handle) {
    && e.closes[h] <= 1
    && (h in e.live <==> h < e.next && e.closes[h] == 0)
    && (h in e.bound ==> h in e.live && e.bound[h] in e.txns)
    && (h >= e.next ==> e.closes[h] == 0)
  }

  /** A cursor with a handle holds a live one, and when that is bound, the Go field names the transaction. */
  ghost predicate CursorOk(s: State, c: CursorId) {
    var g := At(s, c);
    g.c.Some? ==>
      && g.c.value in s.engine.live
      && (g.c.value in s.engine.bound ==> g.txn == Some(s.engine.bound[g.c.value]))
  }

  ghost predicate PooledOk(s: State, c: CursorId) {
    c in s.pool ==> At(s, c).c.Some? && At(s, c).txn == None && At(s, c).c.value !in s.engine.bound
  }

  ghost predicate Separate(s: State, c: CursorId, d: CursorId) {
    c != d && At(s, c).c.Some? ==> At(s, c).c != At(s, d).c
  }

  predicate OnCursor(step: Step) { !step.BeginTxn? && !step.EndTxn? }

  lemma HandleKept(run: Run, h: Handle)
    requires run.Then? && Enabled(After(run.before), run.step) && HandleOk(After(run.before).engine, h)
    requires OnCursor(run.step) ==> CursorOk(After(run.before), run.step.c)
    ensures HandleOk(After(run).engine, h)
  {
  }

  lemma {:induction false} HandlesStayOk(run: Run, h: Handle)
    requires Valid(run)
    ensures HandleOk(After(run).engine, h)
  {
    if run.Then? {
      HandlesStayOk(run.before, h);
      if OnCursor(run.step) {
        CursorsStayOk(run.before, run.step.c);
      }
      HandleKept(run, h);
    }
  }

  lemma ActingCursorKept(run: Run)
    requires run.Then? && Valid(run) && OnCursor(run.step) && CursorOk(After(run.before), run.step.c)
    requires HandleOk(After(run.before).engine, After(run.before).engine.next)
    ensures CursorOk(After(run), run.step.c)
  {
  }

  lemma OtherCursorKept(run: Run, c: CursorId)
    requires run.Then? && Valid(run) && CursorOk(After(run.before), c)
    requires OnCursor(run.step) ==> run.step.c != c && Separate(After(run.before), c, run.step.c)
    requires At(After(run.before), c).c.Some? ==> At(After(run.before), c).c.value < After(run.before).engine.next
    ensures CursorOk(After(run), c)
  {
  }

  lemma {:induction false} CursorsStayOk(run: Run, c: CursorId)
    requires Valid(run)
    ensures CursorOk(After(run), c)
  {
    if run.Then? {
      var s := After(run.before);
      CursorsStayOk(run.before, c);
      if OnCursor(run.step) && run.step.c == c {
        HandlesStayOk(run.before, s.engine.next);
        ActingCursorKept(run);
      } else {
        HeldHandlesAreOld(run.before, c);
        if OnCursor(run.step) {
          CursorsStaySeparate(run.before, c, run.step.c);
        }
        OtherCursorKept(run, c);
      }
    }
  }

  lemma {:induction false} HeldHandlesAreOld(run: Run, c: CursorId)
    requires Valid(run)
    ensures At(After(run), c).c.Some? ==> At(After(run), c).c.value < After(run).engine.next
  {
    if run.Then? {
      HeldHandlesAreOld(run.before, c);
    }
  }

  /** No two cursors hold the same handle. */
  lemma {:induction false} CursorsStaySeparate(run: Run, c: CursorId, d: CursorId)
    requires Valid(run)
    ensures Separate(After(run), c, d)
  {
    if run.Then? {
      CursorsStaySeparate(run.before, c, d);
      HeldHandlesAreOld(run.before, c);
      HeldHandlesAreOld(run.before, d);
    }
  }

  lemma PooledKept(run: Run, c: CursorId)
    requires run.Then? && Valid(run) && PooledOk(After(run.before), c)
    requires OnCursor(run.step) ==> Separate(After(run.before), c, run.step.c)
    requires At(After(run.before), c).c.Some? ==> At(After(run.before), c).c.value < After(run.before).engine.next
    ensures PooledOk(After(run), c)
  {
  }

  /** Every cursor in the pool has a handle, no transaction, and no binding in the C library. */
  lemma {:induction false} PoolStaysClean(run: Run, c: CursorId)
    requires Valid(run)
    ensures PooledOk(After(run), c)
  {
    if run.Then? {
      PoolStaysClean(run.before, c);
      HeldHandlesAreOld(run.before, c);
      if OnCursor(run.step) {
        CursorsStaySeparate(run.before, c, run.step.c);
      }
      PooledKept(run, c);
    }
  }

  // ---------- what callers and the library can rely on ----------

  /** Every handle passed to the C library is live: no call uses a cursor after it was closed. */
  lemma NoUseAfterClose(run: Run)
    requires run.Then? && Valid(run) && OnCursor(run.step) && At(After(run.before), run.step.c).c.Some?
    ensures At(After(run.before), run.step.c).c.value in After(run.before).engine.live
  {
    CursorsStayOk(run.before, run.step.c);
  }

  /** Each handle is closed at most once, and until then it is live. */
  lemma ClosedAtMostOnce(run: Run, h: Handle)
    requires Valid(run) && h < After(run).engine.next
    ensures After(run).engine.closes[h] == if h in After(run).engine.live then 0 else 1
  {
    HandlesStayOk(run, h);
  }

  /** When the C library has a cursor bound, the Go cursor names that transaction, and it has not ended. */
  lemma BoundCursorNamesItsTxn(run: Run, c: CursorId)
    requires Valid(run) && At(After(run), c).c.Some? && At(After(run), c).c.value in After(run).engine.bound
    ensures At(After(run), c).txn == Some(After(run).engine.bound[At(After(run), c).c.value])
    ensures After(run).engine.bound[At(After(run), c).c.value] in After(run).engine.txns
  {
    CursorsStayOk(run, c);
    HandlesStayOk(run, At(After(run), c).c.value);
  }

  /** A cursor from the pool is like a new one: it has a live handle, and it works on nothing until it is bound. */
  lemma FromPoolIsLikeNew(run: Run, c: CursorId)
    requires Valid(run) && c in After(run).pool
    ensures var s := Next(After(run), FromPoolStep(c));
            && At(s, c).txn == None && At(s, c).c.Some? && At(s, c).c.value in s.engine.live
            && At(s, c).c.value !in s.engine.bound && c !in s.pool
  {
    PoolStaysClean(run, c);
    CursorsStayOk(run, c);
  }

  /** A cursor that goes through the pool keeps its handle, and binding it again makes it work for the new
      transaction; no handle is created or closed on the way. */
  lemma RecycledCursorWorks(run: Run, c: CursorId, t: TxnId)
    requires Valid(run) && t in After(run).engine.txns && At(After(run), c).c.Some?
    requires c !in After(run).pool && c !in After(run).evicted
    ensures var run' := Then(Then(Then(run, ToPoolStep(c, true)), FromPoolStep(c)), RebindStep(c, t, Binds));
            var s, s' := After(run), After(run');
            && Valid(run')
            && At(s', c) == GoCursor(Some(t), At(s, c).c) && s'.pool == s.pool
            && s'.engine == CBind(CUnbind(s.engine, At(s, c).c.value), At(s, c).c.value, t)
  {
    var s := After(run);
    var run1 := Then(run, ToPoolStep(c, true));
    var s1 := After(run1);
    assert Valid(run1) && c in s1.pool && At(s1, c) == GoCursor(None, At(s, c).c);
    var run2 := Then(run1, FromPoolStep(c));
    var s2 := After(run2);
    assert Valid(run2) && c !in s2.pool && c !in s2.evicted && At(s2, c) == At(s1, c);
    assert s2.pool == s.pool && s2.engine == CUnbind(s.engine, At(s, c).c.value);
    var run3 := Then(run2, RebindStep(c, t, Binds));
    assert Valid(run3);
  }

  /** A cursor that cannot be unbound is closed and does not get into the pool. */
  lemma BrokenCursorIsClosed(run: Run, c: CursorId)
    requires Valid(run) && At(After(run), c).c.Some? && c !in After(run).pool && c !in After(run).evicted
    ensures var s, s' := After(run), After(Then(run, ToPoolStep(c, false)));
            && s'.pool == s.pool && At(s', c) == UNOPENED
            && At(s, c).c.value !in s'.engine.live && s'.engine.closes[At(s, c).c.value] == 1
  {
    CursorsStayOk(run, c);
    HandlesStayOk(run, At(After(run), c).c.value);
  }

  ghost predicate Holds(s: State, c: CursorId, h: Handle) { At(s, c).c == Some(h) }

  lemma HolderKept(run: Run, c: CursorId, h: Handle)
    requires run.Then? && Valid(run) && Holds(After(run.before), c, h) && h in After(run).engine.live
    ensures Holds(After(run), c, h)
  {
  }

  /** Every live handle is held by exactly one cursor, so a handle is lost only with its cursor. */
  lemma {:induction false} LiveHandlesAreHeld(run: Run, h: Handle)
    requires Valid(run) && h in After(run).engine.live
    ensures exists c :: Holds(After(run), c, h)
    ensures forall c, d :: Holds(After(run), c, h) && Holds(After(run), d, h) ==> c == d
  {
    var s := After(run);
    forall c, d | Holds(s, c, h) && Holds(s, d, h)
      ensures c == d
    {
      CursorsStaySeparate(run, c, d);
    }
    if h in After(run.before).engine.live {
      LiveHandlesAreHeld(run.before, h);
      var c :| Holds(After(run.before), c, h);
      HolderKept(run, c, h);
    } else {
      assert Holds(s, run.step.c, h);
    }
  }

  /** A cursor that the collector takes out of the pool leaks: its handle stays live for the rest of every run. */
  lemma {:induction false} EvictedHandlesLeak(run: Run, c: CursorId)
    requires Valid(run) && c in After(run).evicted
    ensures At(After(run), c).c.Some? && At(After(run), c).c.value in After(run).engine.live
  {
    if c in After(run.before).evicted {
      EvictedHandlesLeak(run.before, c);
    } else {
      PoolStaysClean(run.before, c);
    }
    CursorsStayOk(run, c);
  }

  /** The caller's duty to forget a pooled cursor is needed: a caller that pools a new cursor and then binds it leaves a
      bound cursor in the pool. */
  lemma RebindingAPooledCursor(c: CursorId, t: TxnId)
    ensures var run := Then(Then(Then(Start, CreateStep(c)), BeginTxn(t)), ToPoolStep(c, true));
            var s := Next(After(run), RebindStep(c, t, Binds));
            && Valid(run) && !Enabled(After(run), RebindStep(c, t, Binds))
            && c in s.pool && At(s, c).c.value in s.engine.bound && !PooledOk(s, c)
  {
    assert Valid(Start) && After(Start) == INITIAL;
    var run1 := Then(Start, CreateStep(c));
    var s1 := After(run1);
    assert Valid(run1) && At(s1, c) == GoCursor(None, Some(0)) && s1.pool == {};
    var run2 := Then(run1, BeginTxn(t));
    var s2 := After(run2);
    assert Valid(run2) && At(s2, c) == At(s1, c) && s2.pool == {} && t in s2.engine.txns;
    var run3 := Then(run2, ToPoolStep(c, true));
    var s3 := After(run3);
    assert Valid(run3) && At(s3, c) == GoCursor(None, Some(0)) && c in s3.pool && t in s3.engine.txns;
  }
}
