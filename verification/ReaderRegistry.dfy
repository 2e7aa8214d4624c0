/** The registry of reader-list callbacks in mdbx/msgfunc.go, and the calls of `ReaderList` in mdbx/reader.go that use
    it concurrently. */
module ReaderRegistry {
  import opened Octets
  import opened Words

  // ---------- the registry ----------

  /** `atomic.AddUint32(&readerctxn, 1)`. */
  function NextHandle(counter: nat): nat { (counter + 1) % U32 }

  /** `register` under the write lock; no value stands for the panic. */
  function Claim<R>(table: map<nat, R>, handle: nat, record: R): Option<map<nat, R>> {
    if handle in table then None else Some(table[handle := record])
  }

  /** `deregister` under the write lock. */
  function Drop<R>(table: map<nat, R>, handle: nat): map<nat, R> { table - {handle} }

  type Error = nat

  class ReaderCtx {
    const fn: nat
    var err: Option<Error>

    constructor (fn: nat)
      ensures this.fn == fn && err == None
    {
      this.fn := fn;
      err := None;
    }
  }

  class Registry {
    var counter: nat
    var table: map<nat, ReaderCtx>

    constructor ()
      ensures counter == 0 && table == map[]
    {
      counter := 0;
      table := map[];
    }

    method Draw() returns (handle: nat)
      modifies `counter
      ensures handle == counter == NextHandle(old(counter))
    {
      counter := (counter + 1) % U32;
      handle := counter;
    }

    /** The record is made only after the test, so a refused call leaves no trace. */
    method Register(handle: nat, fn: nat) returns (ok: bool)
      modifies `table
      ensures ok <==> handle !in old(table)
      ensures ok ==> (handle in table && fresh(table[handle]) && table[handle].fn == fn && table[handle].err == None &&
                      Some(table) == Claim(old(table), handle, table[handle]))
      ensures !ok ==> table == old(table)
    {
      if handle in table {
        return false;
      }
      var record := new ReaderCtx(fn);
      table := table[handle := record];
      ok := true;
    }

    method NewReaderFunc(fn: nat) returns (handle: Option<nat>)
      modifies this
      ensures counter == NextHandle(old(counter))
      ensures handle == if counter in old(table) then None else Some(counter)
      ensures handle.Some? ==> (counter in table && fresh(table[counter]) && table[counter].fn == fn &&
                                table[counter].err == None && table == old(table)[counter := table[counter]])
      ensures handle.None? ==> table == old(table)
    {
      var drawn := Draw();
      var ok := Register(drawn, fn);
      handle := if ok then Some(drawn) else None;
    }

    method Deregister(handle: nat)
      modifies `table
      ensures table == Drop(old(table), handle)
    {
      table := table - {handle};
    }

    method Get(handle: nat) returns (record: ReaderCtx?)
      ensures record == if handle in table then table[handle] else null
    {
      record := if handle in table then table[handle] else null;
    }
  }

  // ---------- concurrent calls of ReaderList ----------

  /** A call of `ReaderList`; it stands for its callback as well. */
  type Caller = nat

  datatype Record = Record(fn: Caller, err: Option<Error>)

  datatype Phase =
    | Idle
    | Drawn(handle: nat)
    | Registered(handle: nat)
    | Calling(handle: nat, record: nat)    // the bridge has looked up a record and runs its callback
    | Answered(handle: nat, answer: Option<Error>)
    | Done(answer: Option<Error>)
    | Panicked

  /** The table points into the records ever made. */
  datatype State = State(counter: nat, table: map<nat, nat>, records: seq<Record>, phases: map<Caller, Phase>)

  const INITIAL := State(0, map[], [], map[])

  function PhaseOf(s: State, c: Caller): Phase {
    if c in s.phases then s.phases[c] else Idle
  }

  /** The atomic steps of a call: the counter's increment, and what happens under one holding of the lock. */
  datatype Step =
    | Draw(c: Caller)
    | Register(c: Caller)
    | Lookup(c: Caller)                             // the bridge gets the record for one slot of the reader table
    | CallbackReturns(c: Caller, err: Option<Error>)
    | ReadAnswer(c: Caller)                         // ctx.get().err
    | Deregister(c: Caller)

  /** Which steps have a next state. Looking up a handle that is not in the table gives a nil pointer and a crash, so
      such a lookup has none. */
  predicate Enabled(s: State, step: Step) {
    match step
    case Draw(c) => PhaseOf(s, c).Idle?
    case Register(c) => PhaseOf(s, c).Drawn?
    case Lookup(c) => PhaseOf(s, c).Registered? && Finds(s, c)
    case CallbackReturns(c, _) => PhaseOf(s, c).Calling? && PhaseOf(s, c).record < |s.records|
    case ReadAnswer(c) => PhaseOf(s, c).Registered? && Finds(s, c)
    case Deregister(c) => PhaseOf(s, c).Answered?
  }

  predicate Finds(s: State, c: Caller)
    requires PhaseOf(s, c).Registered?
  {
    PhaseOf(s, c).handle in s.table && s.table[PhaseOf(s, c).handle] < |s.records|
  }

  function Move(s: State, c: Caller, phase: Phase): State { s.(phases := s.phases[c := phase]) }

  function Next(s: State, step: Step): State
    requires Enabled(s, step)
  {
    var phase := PhaseOf(s, step.c);
    match step
    case Draw(c) =>
      var handle := NextHandle(s.counter);
      Move(s, c, Drawn(handle)).(counter := handle)
    case Register(c) => (
      match Claim(s.table, phase.handle, |s.records|)
      case None => Move(s, c, Panicked)
      case Some(table) =>
        Move(s, c, Registered(phase.handle)).(table := table, records := s.records + [Record(c, None)])
    )
    case Lookup(c) => Move(s, c, Calling(phase.handle, s.table[phase.handle]))
    case CallbackReturns(c, err) =>
      var record := s.records[phase.record];
      var record' := if err.Some? then record.(err := err) else record;
      Move(s, c, Registered(phase.handle)).(records := s.records[phase.record := record'])
    case ReadAnswer(c) => Move(s, c, Answered(phase.handle, s.records[s.table[phase.handle]].err))
    case Deregister(c) => Move(s, c, Done(phase.answer)).(table := Drop(s.table, phase.handle))
  }

  // ---------- runs ----------

  /** Any interleaving of the steps of any number of calls. */
  datatype Run = Start | Then(before: Run, step: Step)

  function After(run: Run): State {
    if run.Start? then INITIAL
    else var s := After(run.before); if Enabled(s, run.step) then Next(s, run.step) else s
  }

  predicate Valid(run: Run) {
    run.Start? || (Valid(run.before) && Enabled(After(run.before), run.step))
  }

  /** How many handles have been drawn. */
  function Draws(run: Run): nat {
    if run.Start? then 0 else Draws(run.before) + if run.step.Draw? then 1 else 0
  }

  /** Which of the draws was the caller's. */
  function Number(run: Run, c: Caller): nat {
    if run.Start? then 0 else if run.step == Draw(c) then Draws(run) else Number(run.before, c)
  }

  /** The last error that the caller's callback returned. */
  function Raised(run: Run, c: Caller): Option<Error> {
    if run.Start? then None
    else if run.step.CallbackReturns? && run.step.c == c && run.step.err.Some? then run.step.err
    else Raised(run.before, c)
  }

  predicate Live(phase: Phase) { phase.Registered? || phase.Calling? || phase.Answered? }

  predicate Active(phase: Phase) { phase.Drawn? || Live(phase) }

  /** What a caller can rely on, whatever the others do. */
  ghost predicate Own(run: Run, c: Caller) {
    var s := After(run);
    var phase := PhaseOf(s, c);
    && (if phase.Idle? then Number(run, c) == 0 else 1 <= Number(run, c) <= Draws(run))
    && (phase.Idle? || phase.Drawn? || phase.Panicked? ==> Raised(run, c) == None)
    && (Active(phase) ==> phase.handle == Number(run, c) % U32)
    && (Live(phase) ==> HasRecord(s, phase.handle, Record(c, Raised(run, c))))
    && (phase.Calling? ==> phase.record == s.table[phase.handle])
    && (phase.Answered? || phase.Done? ==> phase.answer == Raised(run, c))
  }

  ghost predicate HasRecord(s: State, handle: nat, record: Record) {
    handle in s.table && s.table[handle] < |s.records| && s.records[s.table[handle]] == record
  }

  /** Every entry of the table belongs to a live registration. */
  ghost predicate NoLeak(s: State) {
    forall handle :: handle in s.table ==> OwnedEntry(s, handle)
  }

  ghost predicate OwnedEntry(s: State, handle: nat)
    requires handle in s.table
  {
    && s.table[handle] < |s.records|
    && var phase := PhaseOf(s, s.records[s.table[handle]].fn); Live(phase) && phase.handle == handle
  }

  lemma {:induction false} CounterIsDraws(run: Run)
    requires Valid(run)
    ensures After(run).counter == Draws(run) % U32
  {
    if run.Then? {
      CounterIsDraws(run.before);
    }
  }

  /** A step of another caller takes nothing away from `c`. */
  lemma OthersKeepOwn(run: Run, c: Caller)
    requires run.Then? && Valid(run) && run.step.c != c
    requires Own(run.before, c) && Own(run.before, run.step.c)
    ensures Own(run, c)
  {
  }

  lemma ActorKeepsOwnDrawing(run: Run)
    requires run.Then? && Valid(run) && Own(run.before, run.step.c) && run.step.Draw?
    ensures Own(run, run.step.c)
  {
    CounterIsDraws(run.before);
  }

  lemma ActorKeepsOwnRegistering(run: Run)
    requires run.Then? && Valid(run) && Own(run.before, run.step.c) && run.step.Register?
    ensures Own(run, run.step.c)
  {
  }

  lemma ActorKeepsOwnReturning(run: Run)
    requires run.Then? && Valid(run) && Own(run.before, run.step.c) && run.step.CallbackReturns?
    ensures Own(run, run.step.c)
  {
  }

  lemma ActorKeepsOwn(run: Run)
    requires run.Then? && Valid(run) && Own(run.before, run.step.c)
    ensures Own(run, run.step.c)
  {
    match run.step
    case Draw(_) => ActorKeepsOwnDrawing(run);
    case Register(_) => ActorKeepsOwnRegistering(run);
    case CallbackReturns(_, _) => ActorKeepsOwnReturning(run);
    case Lookup(_) =>
    case ReadAnswer(_) =>
    case Deregister(_) =>
  }

  /** Every caller, at every point of every run, has what it relies on. */
  lemma {:induction false} CallersAreIndependent(run: Run, c: Caller)
    requires Valid(run)
    ensures Own(run, c)
  {
    if run.Then? {
      CallersAreIndependent(run.before, c);
      CallersAreIndependent(run.before, run.step.c);
      if c == run.step.c {
        ActorKeepsOwn(run);
      } else {
        OthersKeepOwn(run, c);
      }
    }
  }

  /** A registered caller's lookups never fail, and they find its own callback and the errors that this raised. */
  lemma RegisteredFindsItself(run: Run, c: Caller)
    requires Valid(run) && PhaseOf(After(run), c).Registered?
    ensures Enabled(After(run), Lookup(c)) && Enabled(After(run), ReadAnswer(c))
    ensures var s := After(run);
            s.records[s.table[PhaseOf(s, c).handle]] == Record(c, Raised(run, c))
  {
    CallersAreIndependent(run, c);
  }

  /** The bridge runs the callback of the call it works for, and no other. */
  lemma OwnCallbackRuns(run: Run, c: Caller)
    requires Valid(run) && PhaseOf(After(run), c).Calling?
    ensures PhaseOf(After(run), c).record < |After(run).records|
    ensures After(run).records[PhaseOf(After(run), c).record].fn == c
  {
    CallersAreIndependent(run, c);
  }

  /** A finished call answers with the last error of its own callback. */
  lemma AnswerIsOwn(run: Run, c: Caller)
    requires Valid(run) && PhaseOf(After(run), c).Done?
    ensures PhaseOf(After(run), c).answer == Raised(run, c)
  {
    CallersAreIndependent(run, c);
  }

  // ---------- the table holds the live registrations and nothing else ----------

  lemma EntryIsKept(run: Run, handle: nat)
    requires run.Then? && Valid(run) && Own(run.before, run.step.c) && NoLeak(After(run.before))
    requires handle in After(run).table
    ensures OwnedEntry(After(run), handle)
  {
    assert handle in After(run.before).table ==> OwnedEntry(After(run.before), handle);
  }

  lemma {:induction false} NothingLeaks(run: Run)
    requires Valid(run)
    ensures NoLeak(After(run))
  {
    if run.Then? {
      NothingLeaks(run.before);
      CallersAreIndependent(run.before, run.step.c);
      forall handle | handle in After(run).table
        ensures OwnedEntry(After(run), handle)
      {
        EntryIsKept(run, handle);
      }
    }
  }

  ghost predicate HeldByAnother(run: Run, c: Caller, handle: nat) {
    exists d :: d != c && Live(PhaseOf(After(run), d)) && Number(run, d) % U32 == handle
  }

  /** A handle is in the table exactly while a registration drawn with that number, modulo 2 to the 32nd, is live. */
  lemma TableIsLiveRegistrations(run: Run, handle: nat)
    requires Valid(run)
    ensures handle in After(run).table <==>
            exists d :: Live(PhaseOf(After(run), d)) && Number(run, d) % U32 == handle
  {
    var s := After(run);
    NothingLeaks(run);
    if handle in s.table {
      var d := s.records[s.table[handle]].fn;
      assert OwnedEntry(s, handle);
      CallersAreIndependent(run, d);
      assert Live(PhaseOf(s, d)) && Number(run, d) % U32 == handle;
    }
    if d :| Live(PhaseOf(s, d)) && Number(run, d) % U32 == handle {
      CallersAreIndependent(run, d);
    }
  }

  // ---------- when a registration panics ----------

  /** Registering panics exactly when the handle is that of another call's live registration, and a panic leaves the
      table and the records as they were. */
  lemma RegisterPanicsIff(run: Run, c: Caller)
    requires Valid(run) && PhaseOf(After(run), c).Drawn?
    ensures var s := After(run); var s' := Next(s, Register(c));
            && (PhaseOf(s', c).Panicked? <==> HeldByAnother(run, c, Number(run, c) % U32))
            && (PhaseOf(s', c).Panicked? ==> s'.table == s.table && s'.records == s.records)
            && (!PhaseOf(s', c).Panicked? ==> PhaseOf(s', c) == Registered(Number(run, c) % U32))
  {
    CallersAreIndependent(run, c);
    TableIsLiveRegistrations(run, Number(run, c) % U32);
  }

  lemma {:induction false} NumbersAreDistinct(run: Run, c: Caller, d: Caller)
    requires Valid(run) && c != d && Number(run, c) > 0 && Number(run, d) > 0
    ensures Number(run, c) != Number(run, d)
  {
    CallersAreIndependent(run.before, c);
    CallersAreIndependent(run.before, d);
    if run.step != Draw(c) && run.step != Draw(d) {
      NumbersAreDistinct(run.before, c, d);
    }
  }

  /** Fewer than 2 to the 32nd handles have been drawn since any call that is registering or registered drew its own. */
  ghost predicate AllRecent(run: Run) {
    forall c :: Active(PhaseOf(After(run), c)) ==> Draws(run) - Number(run, c) < U32
  }

  ghost predicate AlwaysRecent(run: Run) {
    AllRecent(run) && (run.Then? ==> AlwaysRecent(run.before))
  }

  lemma SameResidue(a: nat, b: nat)
    requires a % U32 == b % U32 && a < b + U32 && b < a + U32
    ensures a == b
  {
  }

  lemma RecentDoNotConflict(run: Run, c: Caller)
    requires Valid(run) && AllRecent(run) && PhaseOf(After(run), c).Drawn?
    ensures !HeldByAnother(run, c, Number(run, c) % U32)
  {
    if d :| d != c && Live(PhaseOf(After(run), d)) && Number(run, d) % U32 == Number(run, c) % U32 {
      CallersAreIndependent(run, c);
      CallersAreIndependent(run, d);
      SameResidue(Number(run, c), Number(run, d));
      NumbersAreDistinct(run, c, d);
    }
  }

  /** No call panics as long as fewer than 2 to the 32nd handles are drawn during the life of any registration. */
  lemma {:induction false} NoPanic(run: Run, c: Caller)
    requires Valid(run) && AlwaysRecent(run)
    ensures !PhaseOf(After(run), c).Panicked?
  {
    if run.Then? {
      NoPanic(run.before, c);
      if run.step == Register(c) {
        RecentDoNotConflict(run.before, c);
        RegisterPanicsIff(run.before, c);
      }
    }
  }

  /** The bound is sharp: a call that draws exactly 2 to the 32nd handles after a live registration panics. */
  lemma WrapPanics(run: Run, c: Caller, d: Caller)
    requires Valid(run) && PhaseOf(After(run), c).Drawn? && Live(PhaseOf(After(run), d))
    requires Number(run, c) == Number(run, d) + U32
    ensures PhaseOf(Next(After(run), Register(c)), c).Panicked?
  {
    RegisterPanicsIff(run, c);
  }

  /** One call registers and stays, and the callers 1 to `n` draw after it. */
  function OneStays(n: nat): Run {
    if n == 0 then Then(Then(Start, Draw(0)), Register(0)) else Then(OneStays(n - 1), Draw(n))
  }

  lemma {:induction false} OneStaysReached(n: nat)
    ensures var run := OneStays(n);
            && Valid(run) && Draws(run) == n + 1 && Number(run, 0) == 1
            && PhaseOf(After(run), 0).Registered? && (forall c :: c > n ==> PhaseOf(After(run), c).Idle?)
            && (n > 0 ==> PhaseOf(After(run), n).Drawn? && Number(run, n) == n + 1)
  {
    if n == 0 {
      assert Valid(Start) && After(Start) == INITIAL;
      var run := Then(Start, Draw(0));
      assert Valid(run) && PhaseOf(After(run), 0).Drawn?;
    } else {
      OneStaysReached(n - 1);
      var before, run := OneStays(n - 1), OneStays(n);
      assert After(run) == Next(After(before), Draw(n));
      forall c | c > n
        ensures PhaseOf(After(run), c).Idle?
      {
        assert PhaseOf(After(before), c).Idle?;
      }
    }
  }

  /** Such a panic happens: in the run in which 2 to the 32nd callers draw while the first one stays registered. */
  lemma WrapPanicHappens(n: nat)
    requires n == U32
    ensures Valid(OneStays(n)) && PhaseOf(After(OneStays(n)), n).Drawn?
    ensures PhaseOf(Next(After(OneStays(n)), Register(n)), n).Panicked?
  {
    OneStaysReached(n);
    WrapPanics(OneStays(n), n, 0);
  }
}
