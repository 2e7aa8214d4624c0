/** What reading a printed header restores, and exactly when that is what was dumped. */
module HeaderRestore {
  import opened Octets
  import opened Words
  import opened LineReader
  import opened Header
  import opened HeaderEntries
  import opened HeaderReader
  import opened HeaderDump

  // ---------- the loader's state after a header ----------

  function RestoredFlags(flags: set<TableFlag>): set<TableFlag> {
    flags + if HasDups(flags) then {DupSort} else {}
  }

  function RestoredName(name: Option<Bytes>): Option<Bytes> {
    if name == Some([]) then None else name
  }

  function RestoreEnv(g: Globals, env: EnvInfo): Globals {
    g.(geo := if env.upper == env.lower then g.geo
              else Geometry(env.lower, NO_CURRENT, env.upper, env.shrink, env.grow),
       mapsize := if MIN_MAPSIZE <= env.upper <= MAX_MAPSIZE then env.upper else g.mapsize,
       canary := if env.canary.v != 0 then env.canary else g.canary)
  }

  function RestoreTable(g: Globals, plain: bool, t: TableInfo): Globals {
    g.(plain := plain, name := RestoredName(t.name), flags := RestoredFlags(t.flags), sequence := t.sequence,
       pagesize := if g.global && MIN_PAGESIZE <= t.pagesize <= MAX_PAGESIZE then t.pagesize else g.pagesize)
  }

  function Restored(g: Globals, plain: bool, env: EnvInfo, t: TableInfo): Globals {
    RestoreTable(if g.global then RestoreEnv(g, env) else g, plain, t)
  }

  // ---------- the meaning of a whole header ----------

  lemma MeaningOne(g: Globals, e: Entry)
    ensures MeaningAll(g, [e]) == Meaning(g, e)
  {
    assert MeaningAll(g, [e]) == MeaningAll(Meaning(g, e), []);
  }

  lemma MeaningSnoc(g: Globals, es: seq<Entry>, e: Entry)
    ensures MeaningAll(g, es + [e]) == Meaning(MeaningAll(g, es), e)
  {
    MeaningAllAppend(g, es, [e]);
    MeaningOne(MeaningAll(g, es), e);
  }

  lemma EnvMeaning(g: Globals, env: EnvInfo)
    requires g.global
    ensures MeaningAll(g, EnvEntries(env)) == RestoreEnv(g, env)
  {
    var geo := GeometryOf(env.lower, env.upper, env.shrink, env.grow);
    var es := if env.upper != env.lower then [geo] else [];
    MeaningOne(g, geo);
    MeaningSnoc(g, es, MapSize(env.upper));
    MeaningSnoc(g, es + [MapSize(env.upper)], CanaryOf(env.canary));
    assert es + [MapSize(env.upper)] + [] == es + [MapSize(env.upper)];
  }

  lemma HeadMeaning(g: Globals, plain: bool, env: EnvInfo, t: TableInfo)
    requires g.name == None
    ensures MeaningAll(g, HeadEntries(g.global, plain, env, t))
         == (if g.global then RestoreEnv(g, env) else g).(plain := plain, name := RestoredName(t.name))
  {
    var es := if g.global then EnvEntries(env) else [];
    if g.global {
      EnvMeaning(g, env);
    }
    MeaningOne(g, Version);
    MeaningAllAppend(g, [Version], es);
    MeaningSnoc(g, [Version] + es, Format(plain));
    var head := [Version] + es + [Format(plain)];
    match t.name {
      case None => assert head + [] == head;
      case Some(n) => MeaningSnoc(g, head, Database(n));
    }
  }

  lemma {:induction false} FlagsMeaning(g: Globals, flags: set<TableFlag>, order: seq<TableFlag>)
    ensures MeaningAll(g, FlagEntries(flags, order)) == g.(flags := g.flags + set f | f in order && f in flags)
    decreases |order|
  {
    if order == [] {
      assert g.flags + (set f | f in order && f in flags) == g.flags;
    } else {
      var g' := MeaningAll(g, FlagEntry(flags, order[0]));
      MeaningOne(g, Flag(order[0]));
      MeaningAllAppend(g, FlagEntry(flags, order[0]), FlagEntries(flags, order[1..]));
      FlagsMeaning(g', flags, order[1..]);
      var rest := set f | f in order[1..] && f in flags;
      assert (set f | f in order && f in flags) == rest + if order[0] in flags then {order[0]} else {};
      assert g'.flags + rest == g.flags + set f | f in order && f in flags;
    }
  }

  lemma EveryFlagPrinted(f: TableFlag)
    ensures f in FLAG_ORDER
  {
    assert FLAG_ORDER[0] == ReverseKey && FLAG_ORDER[1] == DupSort && FLAG_ORDER[2] == IntegerKey;
    assert FLAG_ORDER[3] == DupFixed && FLAG_ORDER[4] == IntegerDup && FLAG_ORDER[5] == ReverseDup;
  }

  lemma KindMeaning(g: Globals, t: TableInfo)
    requires g.flags == {}
    ensures MeaningAll(g, KindEntries(t))
         == g.(flags := if HasDups(t.flags) then {DupSort} else {},
               pagesize := if g.global && MIN_PAGESIZE <= t.pagesize <= MAX_PAGESIZE then t.pagesize else g.pagesize)
  {
    MeaningOne(g, Btree);
    MeaningSnoc(g, [Btree], PageSize(t.pagesize));
    MeaningSnoc(g, [Btree, PageSize(t.pagesize)], Duplicates(HasDups(t.flags)));
    assert [Btree, PageSize(t.pagesize)] + [Duplicates(HasDups(t.flags))] == KindEntries(t);
    assert [Btree] + [PageSize(t.pagesize)] == [Btree, PageSize(t.pagesize)];
  }

  lemma TailMeaning(g: Globals, t: TableInfo)
    requires g.flags == {} && g.sequence == 0
    ensures MeaningAll(g, TailEntries(t)) == RestoreTable(g, g.plain, t).(name := g.name)
  {
    var g1 := MeaningAll(g, KindEntries(t));
    var flags := FlagEntries(t.flags, FLAG_ORDER);
    KindMeaning(g, t);
    FlagsMeaning(g1, t.flags, FLAG_ORDER);
    forall f
      ensures f in FLAG_ORDER
    {
      EveryFlagPrinted(f);
    }
    assert (set f | f in FLAG_ORDER && f in t.flags) == t.flags;
    assert g1.flags + t.flags == RestoredFlags(t.flags);
    MeaningAllAppend(g, KindEntries(t), flags);
    MeaningAllAppend(g, KindEntries(t) + flags, SequenceEntries(t));
    MeaningOne(MeaningAll(g, KindEntries(t) + flags), SequenceOf(t.sequence));
  }

  // ---------- the main result about headers ----------

  ghost predicate AllFit(es: seq<Entry>, cap: nat) {
    forall e :: e in es ==> ValidEntry(e) && Fits(e, cap)
  }

  lemma {:induction false} FlagEntriesFit(flags: set<TableFlag>, order: seq<TableFlag>, cap: nat)
    requires cap >= HEADER_ROOM
    ensures AllFit(FlagEntries(flags, order), cap)
    decreases |order|
  {
    if order != [] {
      EntryFits(Flag(order[0]), cap);
      FlagEntriesFit(flags, order[1..], cap);
    }
  }

  lemma HeadFits(global: bool, plain: bool, env: EnvInfo, t: TableInfo, cap: nat)
    requires ValidEnv(env) && ValidInfo(t) && cap >= HEADER_ROOM
    requires t.name.Some? ==> '\n' !in t.name.value && |t.name.value| + 9 < cap
    ensures AllFit(HeadEntries(global, plain, env, t), cap)
  {
    forall e | e in HeadEntries(global, plain, env, t)
      ensures ValidEntry(e) && Fits(e, cap)
    {
      EntryFits(e, cap);
    }
  }

  lemma TailFits(t: TableInfo, cap: nat)
    requires ValidInfo(t) && cap >= HEADER_ROOM
    ensures AllFit(TailEntries(t), cap)
  {
    FlagEntriesFit(t.flags, FLAG_ORDER, cap);
    forall e | e in KindEntries(t) + SequenceEntries(t)
      ensures ValidEntry(e) && Fits(e, cap)
    {
      EntryFits(e, cap);
    }
  }

  lemma HeaderFits(global: bool, plain: bool, env: EnvInfo, t: TableInfo, cap: nat)
    requires ValidEnv(env) && ValidInfo(t) && cap >= HEADER_ROOM
    requires t.name.Some? ==> '\n' !in t.name.value && |t.name.value| + 9 < cap
    ensures AllFit(HeaderOf(global, plain, env, t), cap)
  {
    HeadFits(global, plain, env, t, cap);
    TailFits(t, cap);
  }

  /** Reading the printed header of a table restores its format, name, flags, sequence and, for the first table, the
      page size, the geometry and the canary, up to what `Restored` says; nothing of what follows is consumed. */
  lemma HeaderRoundTrip(g: Globals, plain: bool, env: EnvInfo, t: TableInfo, rest: Bytes, cap: nat)
    requires ValidEnv(env) && ValidInfo(t) && cap >= HEADER_ROOM
    requires t.name.Some? ==> '\n' !in t.name.value && |t.name.value| + 9 < cap
    ensures ReadHeader(g, EntriesText(HeaderOf(g.global, plain, env, t)) + (END_LINE + rest), cap)
         == Parsed(Restored(g, plain, env, t), rest)
  {
    var g0 := Reset(g);
    HeaderFits(g.global, plain, env, t, cap);
    ReadEntries(g0, HeaderOf(g.global, plain, env, t), rest, cap);
    HeadMeaning(g0, plain, env, t);
    var g1 := MeaningAll(g0, HeadEntries(g.global, plain, env, t));
    TailMeaning(g1, t);
    MeaningAllAppend(g0, HeadEntries(g.global, plain, env, t), TailEntries(t));
  }

  /** The flags come back exactly when a table with duplicate-related flags is a DUPSORT table. */
  lemma FlagsRestoredIff(g: Globals, plain: bool, env: EnvInfo, t: TableInfo, rest: Bytes, cap: nat)
    requires ValidEnv(env) && ValidInfo(t) && cap >= HEADER_ROOM && RestorableName(t.name, cap)
    ensures var r := ReadHeader(g, EntriesText(HeaderOf(g.global, plain, env, t)) + (END_LINE + rest), cap);
            r.Parsed? && (r.g.flags == t.flags <==> (HasDups(t.flags) ==> DupSort in t.flags))
  {
    HeaderRoundTrip(g, plain, env, t, rest, cap);
    if DupSort in t.flags {
      assert t.flags + {DupSort} == t.flags;
    }
  }

  // ---------- table names ----------

  lemma ActKeepsName(g: Globals, i: Item, s: Bytes, cap: nat)
    requires RestorableName(g.name, cap)
    requires '\n' !in s && (i == DatabaseKey ==> |s| + 9 < cap)
    ensures Act(g, i, s) != Exit ==> RestorableName(Act(g, i, s).g.name, cap)
  {
  }

  lemma ValstrText(line: Bytes, item: Bytes)
    requires Valstr(line, item).Text?
    ensures var s := Valstr(line, item).text; '\n' !in s && |item| + 1 + |s| <= |line|
  {
    IndexOfIsFirst('\n', line[|item| + 1..]);
  }

  lemma {:induction false} DispatchKeepsName(g: Globals, line: Bytes, items: seq<Item>, cap: nat)
    requires RestorableName(g.name, cap) && |line| < cap
    ensures Dispatch(g, line, items) != Exit ==> RestorableName(Dispatch(g, line, items).g.name, cap)
    decreases |items|
  {
    if items != [] {
      match Valstr(line, Name(items[0]))
      case Absent => DispatchKeepsName(g, line, items[1..], cap);
      case BadLine =>
      case Text(s) =>
        ValstrText(line, Name(items[0]));
        ActKeepsName(g, items[0], s, cap);
    }
  }

  lemma {:induction false} NamesComeFromLines(g: Globals, s: Bytes, cap: nat)
    requires cap >= 2 && RestorableName(g.name, cap)
    ensures ReadLines(g, s, cap).Parsed? ==> RestorableName(ReadLines(g, s, cap).g.name, cap)
    decreases |s|
  {
    if s != [] {
      var chunk := Chunk(s, cap);
      DispatchKeepsName(g, CString(chunk), ITEMS, cap);
      match ReadHeaderLine(g, CString(chunk))
      case Next(g') => NamesComeFromLines(g', s[|chunk|..], cap);
      case _ =>
    }
  }

  /** A table's name comes back exactly when it is not empty, has no newline and fits the line buffer. */
  lemma NameRestoredIff(g: Globals, plain: bool, env: EnvInfo, t: TableInfo, rest: Bytes, cap: nat)
    requires ValidEnv(env) && ValidInfo(t) && cap >= HEADER_ROOM
    ensures var r := ReadHeader(g, EntriesText(HeaderOf(g.global, plain, env, t)) + (END_LINE + rest), cap);
            r.Parsed? && r.g.name == t.name <==> RestorableName(t.name, cap)
  {
    if RestorableName(t.name, cap) {
      HeaderRoundTrip(g, plain, env, t, rest, cap);
    } else {
      NamesComeFromLines(Reset(g), EntriesText(HeaderOf(g.global, plain, env, t)) + (END_LINE + rest), cap);
    }
  }

  // ---------- the arguments of mdbx_env_set_geometry ----------

  datatype GeometryCall = GeometryCall(lower: int, now: int, upper: int, growth: int, shrink: int, pagesize: int)

  /** Conversion to `intptr_t`. */
  function Signed(x: nat): int
    requires x < U64
  {
    if x >= U64 / 2 then x - U64 else x
  }

  ghost predicate InRange(g: Globals) {
    g.geo.lower < U64 && g.geo.current < U64 && g.geo.upper < U64 && g.geo.shrink < U64 && g.geo.grow < U64
    && g.mapsize < U64 && g.pagesize < U64
  }

  /** The call `main` makes, without a geometry on the command line. */
  function SetGeometry(g: Globals): Option<GeometryCall>
    requires InRange(g)
  {
    var pagesize := if g.pagesize != 0 then g.pagesize else -1;
    if g.geo.lower != 0 || g.geo.upper != 0 || g.geo.shrink != 0 || g.geo.grow != 0 then
      Some(GeometryCall(Signed(g.geo.lower), Signed(g.geo.current), Signed(g.geo.upper), Signed(g.geo.grow),
                        Signed(g.geo.shrink), pagesize))
    else if g.mapsize != 0 then
      Some(GeometryCall(g.mapsize, g.mapsize, g.mapsize, 0, 0, pagesize))
    else None
  }

  const INITIAL: Globals :=
    Globals(false, true, None, {}, 0, 0, 0, 0, Geometry(0, 0, 0, 0, 0), NO_CANARY)

  /** The loader asks for the dumped limits with no current size, or, for a database of fixed size, for that size. */
  lemma GeometryRestored(plain: bool, env: EnvInfo, t: TableInfo)
    requires ValidEnv(env) && MIN_MAPSIZE <= env.upper <= MAX_MAPSIZE && MIN_PAGESIZE <= t.pagesize <= MAX_PAGESIZE
    requires env.lower <= env.upper && env.shrink < U64 / 2 && env.grow < U64 / 2
    ensures var g := Restored(INITIAL, plain, env, t);
            InRange(g) && SetGeometry(g) ==
              Some(if env.upper != env.lower
                   then GeometryCall(env.lower, -1, env.upper, env.grow, env.shrink, t.pagesize)
                   else GeometryCall(env.upper, env.upper, env.upper, 0, 0, t.pagesize))
  {
  }

  /** All limits come back exactly when the size is not fixed or neither growth nor shrinking was set. */
  lemma GeometryRestoredIff(plain: bool, env: EnvInfo, t: TableInfo, rest: Bytes, cap: nat)
    requires ValidEnv(env) && ValidInfo(t) && cap >= HEADER_ROOM && RestorableName(t.name, cap)
    requires MIN_MAPSIZE <= env.upper <= MAX_MAPSIZE && MIN_PAGESIZE <= t.pagesize <= MAX_PAGESIZE
    requires env.lower <= env.upper && env.shrink < U64 / 2 && env.grow < U64 / 2
    ensures var r := ReadHeader(INITIAL, EntriesText(HeaderOf(true, plain, env, t)) + (END_LINE + rest), cap);
            r.Parsed? && InRange(r.g) && SetGeometry(r.g).Some? &&
            (var c := SetGeometry(r.g).value;
             c.pagesize == t.pagesize &&
             ((c.lower == env.lower && c.upper == env.upper && c.growth == env.grow && c.shrink == env.shrink) <==>
              (env.upper != env.lower || (env.shrink == 0 && env.grow == 0))))
  {
    HeaderRoundTrip(INITIAL, plain, env, t, rest, cap);
    GeometryRestored(plain, env, t);
  }

  /** The canary reaches the loader's variable exactly when its first number is set or all are zero. The engine sets
      that number whenever it changes another one, so this holds of every canary it gives out. */
  lemma CanaryRestoredIff(plain: bool, env: EnvInfo, t: TableInfo, rest: Bytes, cap: nat)
    requires ValidEnv(env) && ValidInfo(t) && cap >= HEADER_ROOM && RestorableName(t.name, cap)
    ensures var r := ReadHeader(INITIAL, EntriesText(HeaderOf(true, plain, env, t)) + (END_LINE + rest), cap);
            r.Parsed? && (r.g.canary == env.canary <==> (env.canary.v == 0 ==> env.canary == NO_CANARY))
  {
    HeaderRoundTrip(INITIAL, plain, env, t, rest, cap);
  }

  /** `mdbx_canary_put`: `v` becomes the transaction number when one of the others changes, and is never taken from the
      argument. */
  function CanaryPut(present: Canary, txnid: nat, c: Canary): Canary {
    if c.x == present.x && c.y == present.y && c.z == present.z then present else Canary(txnid, c.x, c.y, c.z)
  }

  /** What `main` leaves as the canary of a database. */
  function CanaryLoaded(present: Canary, txnid: nat, g: Globals): Canary {
    if g.canary != NO_CANARY then CanaryPut(present, txnid, g.canary) else present
  }

  /** Of a canary that the engine gives out, a new database gets the three numbers of the user, but not `v`: the whole
      canary comes back exactly when the loading transaction happens to have the number `v`, or, when the three numbers
      are zero, when `v` is zero too. */
  lemma CanaryStoredIff(plain: bool, env: EnvInfo, t: TableInfo, rest: Bytes, cap: nat, txnid: nat)
    requires ValidEnv(env) && ValidInfo(t) && cap >= HEADER_ROOM && RestorableName(t.name, cap)
    requires env.canary.v == 0 ==> env.canary == NO_CANARY
    ensures var r := ReadHeader(INITIAL, EntriesText(HeaderOf(true, plain, env, t)) + (END_LINE + rest), cap);
            && r.Parsed?
            && var stored, c := CanaryLoaded(NO_CANARY, txnid, r.g), env.canary;
               && stored.x == c.x && stored.y == c.y && stored.z == c.z
               && (stored == c <==> c.v == if c.x == 0 && c.y == 0 && c.z == 0 then 0 else txnid)
  {
    HeaderRoundTrip(INITIAL, plain, env, t, rest, cap);
  }
}
