/** The header of a dumped table, and what the loader restores from it. */
module HeaderDump {
  import opened Octets
  import opened Numbers
  import opened Words
  import opened Codec
  import opened Header
  import opened HeaderEntries
  import opened HeaderReader

  datatype EnvInfo = EnvInfo(lower: nat, upper: nat, shrink: nat, grow: nat, canary: Canary)

  datatype TableInfo = TableInfo(name: Option<Bytes>, flags: set<TableFlag>, sequence: nat, pagesize: nat)

  const FLAG_ORDER: seq<TableFlag> := [ReverseKey, DupSort, IntegerKey, DupFixed, IntegerDup, ReverseDup]

  predicate HasDups(flags: set<TableFlag>) {
    DupSort in flags || DupFixed in flags || IntegerDup in flags || ReverseDup in flags
  }

  function FlagEntries(flags: set<TableFlag>, order: seq<TableFlag>): seq<Entry> {
    if order == [] then []
    else FlagEntry(flags, order[0]) + FlagEntries(flags, order[1..])
  }

  /** What is printed once, before the first table. */
  function EnvEntries(env: EnvInfo): seq<Entry> {
    (if env.upper != env.lower then [GeometryOf(env.lower, env.upper, env.shrink, env.grow)] else [])
    + [MapSize(env.upper)]
    + (if env.canary.v != 0 then [CanaryOf(env.canary)] else [])
  }

  function NameEntries(name: Option<Bytes>): seq<Entry> {
    match name
    case None => []
    case Some(n) => [Database(n)]
  }

  function HeadEntries(global: bool, plain: bool, env: EnvInfo, t: TableInfo): seq<Entry> {
    [Version] + (if global then EnvEntries(env) else []) + [Format(plain)] + NameEntries(t.name)
  }

  function TailEntries(t: TableInfo): seq<Entry> {
    KindEntries(t) + FlagEntries(t.flags, FLAG_ORDER) + SequenceEntries(t)
  }

  function HeaderOf(global: bool, plain: bool, env: EnvInfo, t: TableInfo): seq<Entry> {
    HeadEntries(global, plain, env, t) + TailEntries(t)
  }

  // ---------- printing it ----------

  lemma {:induction false} EntriesTextAppend(es: seq<Entry>, fs: seq<Entry>)
    ensures EntriesText(es + fs) == EntriesText(es) + EntriesText(fs)
  {
    if es == [] {
      assert es + fs == fs;
    } else {
      assert (es + fs)[0] == es[0] && (es + fs)[1..] == es[1..] + fs;
      EntriesTextAppend(es[1..], fs);
    }
  }

  lemma EntriesTextSingle(e: Entry)
    ensures EntriesText([e]) == EntryLine(e, "\n")
  {
    assert EntriesText([e]) == EntryLine(e, "\n") + EntriesText([]);
  }

  lemma EntriesTextSnoc(start: Bytes, es: seq<Entry>, e: Entry)
    ensures start + EntriesText(es + [e]) == start + EntriesText(es) + EntryLine(e, "\n")
  {
    EntriesTextAppend(es, [e]);
    EntriesTextSingle(e);
    ConcatAssociates(start, EntriesText(es), EntryLine(e, "\n"));
  }

  /** One `printf` of a header line; `es` are the lines printed before. */
  method PrintEntry(out: Output, e: Entry, ghost start: Bytes, ghost es: seq<Entry>)
    requires out.text == start + EntriesText(es)
    modifies out
    ensures out.text == start + EntriesText(es + [e])
  {
    out.PutString(EntryLine(e, "\n"));
    EntriesTextSnoc(start, es, e);
  }

  lemma FlagEntriesStep(flags: set<TableFlag>, order: seq<TableFlag>, i: nat, es: seq<Entry>)
    requires i < |order|
    ensures es + FlagEntries(flags, order[i..])
         == es + FlagEntry(flags, order[i]) + FlagEntries(flags, order[i + 1..])
  {
    assert order[i..][0] == order[i] && order[i..][1..] == order[i + 1..];
    ConcatAssociates(es, FlagEntry(flags, order[i]), FlagEntries(flags, order[i + 1..]));
  }

  method PrintEnv(out: Output, env: EnvInfo)
    modifies out
    ensures out.text == old(out.text) + EntriesText(EnvEntries(env))
  {
    ghost var start, es: seq<Entry> := out.text, [];
    assert start + [] == start;
    if env.upper != env.lower {
      PrintEntry(out, GeometryOf(env.lower, env.upper, env.shrink, env.grow), start, es);
      es := es + [GeometryOf(env.lower, env.upper, env.shrink, env.grow)];
    }
    PrintEntry(out, MapSize(env.upper), start, es);
    es := es + [MapSize(env.upper)];
    if env.canary.v != 0 {
      PrintEntry(out, CanaryOf(env.canary), start, es);
      es := es + [CanaryOf(env.canary)];
    }
    assert es == EnvEntries(env);
  }

  method PrintHead(out: Output, global: bool, plain: bool, env: EnvInfo, t: TableInfo)
    modifies out
    ensures out.text == old(out.text) + EntriesText(HeadEntries(global, plain, env, t))
  {
    ghost var start, es: seq<Entry> := out.text, [];
    assert start + [] == start;
    PrintEntry(out, Version, start, es);
    es := [Version];
    if global {
      PrintEnv(out, env);
      EntriesTextAppend(es, EnvEntries(env));
      ConcatAssociates(start, EntriesText(es), EntriesText(EnvEntries(env)));
      es := es + EnvEntries(env);
    }
    PrintEntry(out, Format(plain), start, es);
    es := es + [Format(plain)];
    if t.name.Some? {
      PrintEntry(out, Database(t.name.value), start, es);
      es := es + [Database(t.name.value)];
    }
    assert es == HeadEntries(global, plain, env, t);
  }

  lemma EntriesTextJoin(start: Bytes, es: seq<Entry>, fs: seq<Entry>)
    ensures start + EntriesText(es) + EntriesText(fs) == start + EntriesText(es + fs)
  {
    EntriesTextAppend(es, fs);
    ConcatAssociates(start, EntriesText(es), EntriesText(fs));
  }

  function FlagEntry(flags: set<TableFlag>, f: TableFlag): seq<Entry> {
    if f in flags then [Flag(f)] else []
  }

  method PrintFlag(out: Output, flags: set<TableFlag>, f: TableFlag)
    modifies out
    ensures out.text == old(out.text) + EntriesText(FlagEntry(flags, f))
  {
    assert out.text + [] == out.text;
    if f in flags {
      PrintEntry(out, Flag(f), out.text, []);
    }
  }

  /** The loop over `dbflags`. */
  method PrintFlags(out: Output, flags: set<TableFlag>, order: seq<TableFlag>)
    modifies out
    ensures out.text == old(out.text) + EntriesText(FlagEntries(flags, order))
  {
    ghost var es: seq<Entry> := [];
    assert out.text + [] == out.text;
    var i := 0;
    assert order[0..] == order;
    while i < |order|
      invariant i <= |order| && out.text == old(out.text) + EntriesText(es)
      invariant es + FlagEntries(flags, order[i..]) == FlagEntries(flags, order)
    {
      FlagEntriesStep(flags, order, i, es);
      PrintFlag(out, flags, order[i]);
      EntriesTextJoin(old(out.text), es, FlagEntry(flags, order[i]));
      es := es + FlagEntry(flags, order[i]);
      i := i + 1;
    }
    assert es + [] == es;
  }

  function KindEntries(t: TableInfo): seq<Entry> {
    [Btree, PageSize(t.pagesize), Duplicates(HasDups(t.flags))]
  }

  method PrintKind(out: Output, t: TableInfo)
    modifies out
    ensures out.text == old(out.text) + EntriesText(KindEntries(t))
  {
    ghost var start := out.text;
    assert start + [] == start;
    PrintEntry(out, Btree, start, []);
    PrintEntry(out, PageSize(t.pagesize), start, [Btree]);
    PrintEntry(out, Duplicates(HasDups(t.flags)), start, [Btree, PageSize(t.pagesize)]);
  }

  function SequenceEntries(t: TableInfo): seq<Entry> {
    if t.sequence != 0 then [SequenceOf(t.sequence)] else []
  }

  method PrintSequence(out: Output, t: TableInfo)
    modifies out
    ensures out.text == old(out.text) + EntriesText(SequenceEntries(t))
  {
    assert out.text + [] == out.text;
    if t.sequence != 0 {
      PrintEntry(out, SequenceOf(t.sequence), out.text, []);
    }
  }

  method PrintTail(out: Output, t: TableInfo)
    modifies out
    ensures out.text == old(out.text) + EntriesText(TailEntries(t))
  {
    ghost var start, flags := out.text, FlagEntries(t.flags, FLAG_ORDER);
    PrintKind(out, t);
    PrintFlags(out, t.flags, FLAG_ORDER);
    EntriesTextJoin(start, KindEntries(t), flags);
    PrintSequence(out, t);
    EntriesTextJoin(start, KindEntries(t) + flags, SequenceEntries(t));
  }

  method PrintHeader(out: Output, global: bool, plain: bool, env: EnvInfo, t: TableInfo)
    modifies out
    ensures out.text == old(out.text) + (EntriesText(HeaderOf(global, plain, env, t)) + END_LINE)
  {
    ghost var es, fs := HeadEntries(global, plain, env, t), TailEntries(t);
    PrintHead(out, global, plain, env, t);
    PrintTail(out, t);
    EntriesTextAppend(es, fs);
    out.PutString(END_LINE);
    ConcatJoinsMiddle(old(out.text), EntriesText(es), EntriesText(fs), END_LINE);
  }

  // ---------- what comes back ----------

  ghost predicate ValidEnv(env: EnvInfo) {
    && env.lower < U64 && env.upper < U64 && env.shrink < U64 && env.grow < U64
    && env.canary.v < U64 && env.canary.x < U64 && env.canary.y < U64 && env.canary.z < U64
  }

  /** A table name is a C string. */
  ghost predicate ValidInfo(t: TableInfo) {
    t.sequence < U64 && t.pagesize < U64 && (t.name.Some? ==> '\0' !in t.name.value)
  }

  /** A name that the loader can get back through a line buffer of `cap` characters. */
  predicate RestorableName(name: Option<Bytes>, cap: nat) {
    match name
    case None => true
    case Some(n) => n != [] && '\n' !in n && |n| + 9 < cap
  }

  const HEADER_ROOM: nat := 128

  lemma NumberFits(e: Entry)
    requires ValidEntry(e) && EntryNumber(e).Some?
    ensures |EntryLine(e, [])| < HEADER_ROOM
  {
    NumberIsPrinted(e);
    U64Length(EntryNumber(e).value);
  }

  lemma FieldsFit(letters: Bytes, vs: seq<nat>)
    requires |vs| == |letters| == 4 && forall i :: 0 <= i < |vs| ==> vs[i] < U64
    ensures |FieldsText(letters, vs)| <= 4 * 22
  {
    U64Length(vs[0]);
    U64Length(vs[1]);
    U64Length(vs[2]);
    U64Length(vs[3]);
    FieldsLength(letters, vs);
  }

  lemma {:induction false} FieldsLength(letters: Bytes, vs: seq<nat>)
    requires |vs| == |letters| && forall i :: 0 <= i < |vs| ==> |Decimal(vs[i])| <= 20
    ensures |FieldsText(letters, vs)| <= 22 * |letters|
    decreases |letters|
  {
    if |letters| > 1 {
      FieldsLength(letters[1..], vs[1..]);
    }
  }

  lemma EntryFits(e: Entry, cap: nat)
    requires ValidEntry(e) && cap >= HEADER_ROOM && (e.Database? ==> |e.name| + 9 < cap)
    ensures Fits(e, cap)
  {
    if EntryNumber(e).Some? {
      NumberFits(e);
    } else if e.GeometryOf? {
      FieldsFit("lusg", [e.lower, e.upper, e.shrink, e.grow]);
    } else if e.CanaryOf? {
      FieldsFit("vxyz", [e.canary.v, e.canary.x, e.canary.y, e.canary.z]);
    }
  }
}
