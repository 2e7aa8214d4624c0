/** Whole dump files: the text `mdbx_dump` writes for a list of tables, the table loop of `main` in mdbx_load.c,
    and the restoration of all tables. */
module Files {
  import opened Octets
  import opened Codec
  import opened LineReader
  import opened LineFacts
  import opened Tables
  import opened Loading
  import opened Dumping
  import opened Restoring
  import opened Skipping
  import opened Header
  import opened HeaderEntries
  import opened HeaderReader
  import opened HeaderDump
  import opened HeaderRestore

  // ---------- dumping ----------

  datatype Dumped = Dumped(info: TableInfo, rs: seq<Record>)

  function TableText(global: bool, plain: bool, concise: bool, env: EnvInfo, d: Dumped): Bytes {
    EntriesText(HeaderOf(global, plain, env, d.info))
    + (END_LINE + (RecordsText(plain, concise && DupSort in d.info.flags, d.rs, None) + DATA_END_LINE))
  }

  function FileText(global: bool, plain: bool, concise: bool, env: EnvInfo, ds: seq<Dumped>): Bytes {
    if ds == [] then []
    else TableText(global, plain, concise, env, ds[0]) + FileText(false, plain, concise, env, ds[1..])
  }

  /** `mode` of mdbx_dump.c, whose GLOBAL bit is cleared by the first table. */
  class Dumper {
    const plain: bool
    const concise: bool
    var global: bool

    constructor (plain: bool, concise: bool)
      ensures this.plain == plain && this.concise == concise && global
    {
      this.plain, this.concise := plain, concise;
      global := true;
    }

    method DumpTbl(out: Output, env: EnvInfo, d: Dumped)
      modifies this, out
      ensures out.text == old(out.text) + TableText(old(global), plain, concise, env, d)
      ensures !global
    {
      PrintHeader(out, global, plain, env, d.info);
      ghost var start, header := old(out.text), EntriesText(HeaderOf(global, plain, env, d.info));
      global := false;
      var elide := concise && DupSort in d.info.flags;
      ghost var records := RecordsText(plain, elide, d.rs, None);
      DumpRecords(out, plain, elide, d.rs);
      out.PutString(DATA_END_LINE);
      assert out.text == start + (header + END_LINE) + records + DATA_END_LINE;
      Nest(start, header, END_LINE, records, DATA_END_LINE);
    }
  }

  lemma Nest(a: Bytes, b: Bytes, c: Bytes, d: Bytes, e: Bytes)
    ensures a + (b + c) + d + e == a + (b + (c + (d + e)))
  {
  }

  // ---------- loading ----------

  datatype TableState = TableState(flags: set<TableFlag>, sequence: nat, rows: Rows)

  type Database = map<Option<Bytes>, TableState>

  /** The options of mdbx_load that reach the record loop. */
  datatype Options = Options(keep: bool, bad: Record -> bool, rescue: bool, resume: bool, purge: bool,
                             batchItems: nat, dirtyLimit: nat)

  /** The flags that a table can have, as `check_table_flags` says. */
  predicate GoodFlags(flags: set<TableFlag>) {
    && (HasDups(flags) ==> DupSort in flags)
    && (IntegerDup in flags ==> DupFixed in flags)
    && !(ReverseKey in flags && IntegerKey in flags)
  }

  /** Emptying a table that has rows, as `mdbx_drop` does, also resets its sequence. */
  function Purged(t: TableState): TableState {
    if t.rows == map[] then t else TableState(t.flags, 0, map[])
  }

  /** The part of `main` before the record loop: open or create the table, advance its sequence, maybe empty it. With
      MDBX_CREATE an existing table that is empty is created anew with the given flags; another one must have them. */
  function OpenTable(o: Options, db: Database, g: Globals): Option<TableState> {
    var t := if g.name in db then db[g.name] else TableState(g.flags, 0, map[]);
    if !GoodFlags(g.flags) || (t.flags != g.flags && t.rows != map[]) || t.sequence > g.sequence then None
    else
      var t' := TableState(g.flags, g.sequence, t.rows);
      Some(if o.purge then Purged(t') else t')
  }

  function ConfigFor(o: Options, g: Globals): Config {
    Config(g.plain, PutMode(DupSort in g.flags, o.keep, o.bad), o.rescue, o.resume, o.batchItems, o.dirtyLimit)
  }

  /** How the load ends, and what is on disk then. */
  datatype LoadResult = Loaded(db: Database) | LoadFailed(db: Database)

  lemma {:induction false} ReadLinesShrinks(g: Globals, s: Bytes, cap: nat)
    requires cap >= 2
    ensures ReadLines(g, s, cap).Parsed? ==> |ReadLines(g, s, cap).rest| < |s|
    decreases |s|
  {
    if s != [] {
      var chunk := Chunk(s, cap);
      match ReadHeaderLine(g, CString(chunk))
      case Next(g') => ReadLinesShrinks(g', s[|chunk|..], cap);
      case _ =>
    }
  }

  /** The database with what a transaction committed of its table, if anything: then also its flags and sequence. */
  function Stored(db: Database, name: Option<Bytes>, t: TableState, rows: Option<Rows>): Database {
    if rows.Some? then db[name := t.(rows := rows.value)] else db
  }

  /** The table loop of `main`; `engine(i)` answers for the i-th table. */
  function LoadTables(o: Options, engine: nat -> Engine, i: nat, g: Globals, db: Database, s: Bytes,
                      kcap: nat, dcap: nat): LoadResult
    requires kcap >= 3 && dcap >= 3
    decreases |s|
  {
    match OpenTable(o, db, g)
    case None => LoadFailed(db)
    case Some(t) =>
      var (stop, f, txn) := Run(ConfigFor(o, g), engine(i), Feed(s, [], [], kcap, dcap), Begin(t.rows));
      var db' := Stored(db, g.name, t, Committed(engine(i), stop, txn));
      if !Commits(engine(i), stop, txn) then LoadFailed(db')
      else
        var g' := g.(global := false);
        ReadLinesShrinks(Reset(g'), f.text, f.dcap);
        match ReadHeader(g', f.text, f.dcap)
        case AtEnd => Loaded(db')
        case Exited => LoadFailed(db')
        case Parsed(g'', rest) => LoadTables(o, engine, i + 1, g'', db', rest, f.kcap, f.dcap)
  }

  function LoadFile(o: Options, engine: nat -> Engine, db: Database, s: Bytes, kcap: nat, dcap: nat): LoadResult
    requires kcap >= 3 && dcap >= 3
  {
    match ReadHeader(INITIAL, s, dcap)
    case Parsed(g, rest) => LoadTables(o, engine, 0, g, db, rest, kcap, dcap)
    case _ => LoadFailed(db)
  }

  /** `t` is at least the table it was before, unless the table was emptied first: no earlier sequence, the same flags
      if there were any rows, and all keys, with their values unless they may be overwritten. */
  ghost predicate Extends(o: Options, before: TableState, t: TableState) {
    !o.purge ==>
      && t.sequence >= before.sequence
      && (before.rows != map[] ==> t.flags == before.flags)
      && forall k :: k in before.rows ==> k in t.rows && (o.keep ==> t.rows[k] == before.rows[k])
  }

  ghost predicate ExtendsAll(o: Options, db: Database, db': Database) {
    forall n :: n in db ==> n in db' && Extends(o, db[n], db'[n])
  }

  lemma CommittedTableExtends(o: Options, engine: Engine, g: Globals, db: Database, f: Feed)
    requires Ready(f) && g.name in db && OpenTable(o, db, g).Some?
    ensures var t := OpenTable(o, db, g).value;
            var (stop, _, txn) := Run(ConfigFor(o, g), engine, f, Begin(t.rows));
            var committed := Committed(engine, stop, txn);
            committed.Some? ==> Extends(o, db[g.name], t.(rows := committed.value))
  {
    var t := OpenTable(o, db, g).value;
    var cfg := ConfigFor(o, g);
    var n := CheckpointTransparency(cfg, engine, f, t.rows);
    PutAllKeeps(cfg.put, t.rows, Records(cfg.plain, f).0[..n]);
  }

  lemma ExtendsStep(o: Options, db: Database, n: Option<Bytes>, t: TableState, db': Database)
    requires n in db ==> Extends(o, db[n], t)
    requires ExtendsAll(o, db[n := t], db')
    ensures ExtendsAll(o, db, db')
  {
    var db1 := db[n := t];
    forall m | m in db
      ensures m in db' && Extends(o, db[m], db'[m])
    {
      assert m in db1 && Extends(o, db1[m], db'[m]);
    }
  }

  lemma TransactionExtends(o: Options, engine: Engine, g: Globals, db: Database, f: Feed, db': Database)
    requires Ready(f) && OpenTable(o, db, g).Some?
    ensures var t := OpenTable(o, db, g).value;
            var (stop, _, txn) := Run(ConfigFor(o, g), engine, f, Begin(t.rows));
            ExtendsAll(o, Stored(db, g.name, t, Committed(engine, stop, txn)), db') ==> ExtendsAll(o, db, db')
  {
    var t := OpenTable(o, db, g).value;
    var (stop, _, txn) := Run(ConfigFor(o, g), engine, f, Begin(t.rows));
    var committed := Committed(engine, stop, txn);
    if committed.Some? && ExtendsAll(o, Stored(db, g.name, t, committed), db') {
      if g.name in db {
        CommittedTableExtends(o, engine, g, db, f);
      }
      ExtendsStep(o, db, g.name, t.(rows := committed.value), db');
    }
  }

  /** Whatever the input, the options and the answers of the engine, and whether the load succeeds or fails: no table
      is dropped, and unless -p empties the tables that are loaded, no key is dropped, no sequence is turned back, a
      table with rows keeps its flags, and with -N no value that was there changes. */
  lemma {:induction false} LoadExtends(o: Options, engine: nat -> Engine, i: nat, g: Globals, db: Database, s: Bytes,
                                       kcap: nat, dcap: nat)
    requires kcap >= 3 && dcap >= 3
    ensures ExtendsAll(o, db, LoadTables(o, engine, i, g, db, s, kcap, dcap).db)
    decreases |s|
  {
    match OpenTable(o, db, g)
    case None =>
    case Some(t) =>
      var f := Feed(s, [], [], kcap, dcap);
      var (stop, f', txn) := Run(ConfigFor(o, g), engine(i), f, Begin(t.rows));
      var db1 := Stored(db, g.name, t, Committed(engine(i), stop, txn));
      var g1 := g.(global := false);
      ReadLinesShrinks(Reset(g1), f'.text, f'.dcap);
      var r := ReadHeader(g1, f'.text, f'.dcap);
      if Commits(engine(i), stop, txn) && r.Parsed? {
        LoadExtends(o, engine, i + 1, r.g, db1, r.rest, f'.kcap, f'.dcap);
      }
      TransactionExtends(o, engine(i), g, db, f, LoadTables(o, engine, i, g, db, s, kcap, dcap).db);
  }

  /** The transaction of one table: open the table, run the record loop, commit. `db'` is what is on disk then. */
  method LoadTable(stdin: Stdin, state: LoaderState, o: Options, engine: Engine, db: Database, keyBuf: Val,
                   dataBuf: Val) returns (ok: bool, db': Database)
    requires keyBuf.IsBuffer() && dataBuf.IsBuffer() && keyBuf != dataBuf && keyBuf.base != dataBuf.base
    modifies stdin, state, keyBuf, dataBuf, keyBuf.base, dataBuf.base
    ensures keyBuf.IsBuffer() && dataBuf.IsBuffer() && keyBuf.base != dataBuf.base
    ensures keyBuf.base == old(keyBuf.base) || fresh(keyBuf.base)
    ensures dataBuf.base == old(dataBuf.base) || fresh(dataBuf.base)
    ensures state.globals == old(state.globals).(global := false)
    ensures var g := old(state.globals);
            match OpenTable(o, db, g)
            case None => !ok && db' == db
            case Some(t) =>
              var (stop, f, txn) := Run(ConfigFor(o, g), engine, Feed(old(stdin.rest), [], [], old(keyBuf.len),
                                        old(dataBuf.len)), Begin(t.rows));
              && ok == Commits(engine, stop, txn)
              && db' == Stored(db, g.name, t, Committed(engine, stop, txn))
              && (ok ==> stdin.rest == f.text && keyBuf.len == f.kcap && dataBuf.len == f.dcap)
  {
    db' := db;
    var g := state.globals;
    state.globals := g.(global := false);
    var table := OpenTable(o, db, g);
    if table == None {
      return false, db;
    }
    var t := table.value;
    var txn := new Transaction(t.rows);
    var stop, puts := LoadRecords(stdin, ConfigFor(o, g), engine, keyBuf, dataBuf, txn);
    ok := stop != Failed && engine(puts).commitOk;
    if ok {
      db' := db[g.name := t.(rows := txn.work)];
    } else if txn.saved.Some? {
      db' := db[g.name := t.(rows := txn.saved.value)];
    }
  }

  /** The table loop of `main`, after the first header. */
  method LoadAllTables(stdin: Stdin, state: LoaderState, o: Options, engine: nat -> Engine, db0: Database,
                       keyBuf: Val, dataBuf: Val) returns (ok: bool, db: Database)
    requires keyBuf.IsBuffer() && dataBuf.IsBuffer() && keyBuf != dataBuf && keyBuf.base != dataBuf.base
    modifies stdin, state, keyBuf, dataBuf, keyBuf.base, dataBuf.base
    ensures match LoadTables(o, engine, 0, old(state.globals), db0, old(stdin.rest), old(keyBuf.len), old(dataBuf.len))
            case Loaded(d) => ok && db == d
            case LoadFailed(d) => !ok && db == d
  {
    db := db0;
    var i := 0;
    ghost var goal := LoadTables(o, engine, i, state.globals, db, stdin.rest, keyBuf.len, dataBuf.len);
    while true
      invariant keyBuf.IsBuffer() && dataBuf.IsBuffer() && keyBuf.base != dataBuf.base
      invariant keyBuf.base == old(keyBuf.base) || fresh(keyBuf.base)
      invariant dataBuf.base == old(dataBuf.base) || fresh(dataBuf.base)
      invariant LoadTables(o, engine, i, state.globals, db, stdin.rest, keyBuf.len, dataBuf.len) == goal
      decreases |stdin.rest|
    {
      ok, db := LoadTable(stdin, state, o, engine(i), db, keyBuf, dataBuf);
      if !ok {
        return;
      }
      ReadLinesShrinks(Reset(state.globals), stdin.rest, dataBuf.len);
      var err, exited := state.Readhdr(stdin, dataBuf);
      if exited {
        return false, db;
      }
      if err == EndOfFile {
        return true, db;
      }
      i := i + 1;
    }
  }

  // ---------- loading a dump into any database ----------

  ghost predicate GrantingAll(engine: nat -> Engine) {
    forall i :: Granting(engine(i))
  }

  function ModeFor(o: Options, d: Dumped): PutMode { PutMode(DupSort in d.info.flags, o.keep, o.bad) }

  /** The rows that the table's records are put into. */
  function RowsBefore(o: Options, db: Database, d: Dumped): Rows {
    if d.info.name in db && !o.purge then db[d.info.name].rows else map[]
  }

  /** The rows afterwards: with all records put, or with those before the first refused one if the loop stops there. */
  function RowsAfter(o: Options, db: Database, d: Dumped): Rows {
    if o.resume then PutAll(ModeFor(o, d), RowsBefore(o, db, d), d.rs)
    else PutUntilRefused(ModeFor(o, d), RowsBefore(o, db, d), d.rs)
  }

  predicate EmptiesRows(o: Options, db: Database, d: Dumped) {
    o.purge && d.info.name in db && db[d.info.name].rows != map[]
  }

  /** The table afterwards; emptying it has reset the sequence that was set before. */
  function TableAfter(o: Options, db: Database, d: Dumped): TableState {
    TableState(d.info.flags, if EmptiesRows(o, db, d) then 0 else d.info.sequence, RowsAfter(o, db, d))
  }

  /** The records after the one at which the loop stops, if it does. */
  function LeftOver(o: Options, db: Database, d: Dumped): seq<Record> {
    var n := FirstRefused(ModeFor(o, d), RowsBefore(o, db, d), d.rs);
    if o.resume || n == |d.rs| then [] else d.rs[n + 1..]
  }

  /** Tables that the format can carry, whatever their rows. */
  ghost predicate ReadableDump(plain: bool, d: Dumped, cap: nat) {
    ValidInfo(d.info) && RestorableName(d.info.name, cap) && GoodFlags(d.info.flags) && RestorableTable(plain, d.rs)
  }

  ghost predicate FitsInto(d: Dumped, t: TableState) {
    (t.flags == d.info.flags || t.rows == map[]) && t.sequence <= d.info.sequence
  }

  /** A table of the dump that can be loaded into the database: an existing table has the same flags unless it is empty,
      and no later sequence; and in print mode no keyword occurs in the lines left unread where they exceed the
      buffer. */
  ghost predicate LoadableDump(o: Options, plain: bool, db: Database, d: Dumped, cap: nat) {
    && ReadableDump(plain, d, cap)
    && (d.info.name in db ==> FitsInto(d, db[d.info.name]))
    && (plain ==> LinesPass(plain, LeftOver(o, db, d), cap))
  }

  /** Records refused for their size are skipped, not an error. */
  ghost predicate SkipsRefused(o: Options) { forall r :: o.bad(r) ==> o.rescue }

  /** The loader's variables describe the table about to be read. */
  ghost predicate Describes(g: Globals, plain: bool, t: TableInfo) {
    g.plain == plain && g.name == t.name && g.flags == t.flags && g.sequence == t.sequence
  }

  /** The text of a table after its header, with what follows it. */
  function AfterHeaderOf(plain: bool, concise: bool, d: Dumped, tail: Bytes): Bytes {
    RecordsText(plain, concise && DupSort in d.info.flags, d.rs, None) + (DATA_END_LINE + tail)
  }

  /** The text of a file after its first header. */
  function AfterHeader(plain: bool, concise: bool, env: EnvInfo, ds: seq<Dumped>): Bytes
    requires ds != []
  {
    AfterHeaderOf(plain, concise, ds[0], FileText(false, plain, concise, env, ds[1..]))
  }

  /** The transaction of one dumped table commits the rows meant by `RowsAfter`. */
  lemma OneTableCommits(o: Options, engine: Engine, plain: bool, concise: bool, db: Database, d: Dumped, g: Globals,
                        tail: Bytes, kcap: nat, dcap: nat)
    requires SkipsRefused(o) && Granting(engine) && kcap >= 9 && dcap >= HEADER_ROOM
    requires LoadableDump(o, plain, db, d, dcap) && Describes(g, plain, d.info)
    ensures var (stop, f, txn) := Run(ConfigFor(o, g), engine, Feed(AfterHeaderOf(plain, concise, d, tail), [], [],
                                      kcap, dcap), Begin(RowsBefore(o, db, d)));
            && Commits(engine, stop, txn) && Committed(engine, stop, txn) == Some(RowsAfter(o, db, d))
            && (stop == Ended ==> f.text == tail)
  {
    var cfg := ConfigFor(o, g);
    var f := Feed(AfterHeaderOf(plain, concise, d, tail), [], [], kcap, dcap);
    var rows := RowsBefore(o, db, d);
    RecordsOfDump(plain, concise && DupSort in d.info.flags, d.rs, None, tail, f);
    RunOutcome(cfg, engine, f, Begin(rows));
    if o.resume {
      ResumingLoopCommits(cfg, engine, f, rows);
    } else {
      LiteralLoopCommits(cfg, engine, f, rows);
    }
    if Run(cfg, engine, f, Begin(rows)).0 == Ended {
      EndedPutsAll(cfg, engine, f, Begin(rows));
    }
  }

  /** Whether the loop reads a table to its end or stops in it, the next header read is the next one in the file. */
  lemma NextHeaderFound(o: Options, engine: Engine, plain: bool, concise: bool, db: Database, d: Dumped, g: Globals,
                        g': Globals, tail: Bytes, kcap: nat, dcap: nat)
    requires SkipsRefused(o) && Granting(engine) && kcap >= 9 && dcap >= HEADER_ROOM
    requires LoadableDump(o, plain, db, d, dcap) && Describes(g, plain, d.info)
    ensures var (_, f, _) := Run(ConfigFor(o, g), engine, Feed(AfterHeaderOf(plain, concise, d, tail), [], [], kcap,
                                 dcap), Begin(RowsBefore(o, db, d)));
            ReadHeader(g', f.text, f.dcap) == ReadHeader(g', tail, f.dcap)
  {
    var cfg, elide := ConfigFor(o, g), concise && DupSort in d.info.flags;
    var f := Feed(AfterHeaderOf(plain, concise, d, tail), [], [], kcap, dcap);
    var t := Begin(RowsBefore(o, db, d));
    OneTableCommits(o, engine, plain, concise, db, d, g, tail, kcap, dcap);
    var run := Run(cfg, engine, f, t);
    if run.0 == Skipped {
      SkippedPutsPrefix(cfg, engine, f, t);
      SkippedLeaves(cfg, engine, elide, d.rs, None, tail, f, t);
      var n := FirstRefused(cfg.put, t.work, d.rs);
      if !plain {
        BytevalueLinesPass(LeftOver(o, db, d), dcap);
      }
      LinesPassMore(plain, LeftOver(o, db, d), dcap, run.1.dcap);
      RecordsAreIgnored(Reset(g'), plain, elide, LeftOver(o, db, d), Some(d.rs[n].0), tail, run.1.dcap);
    }
  }

  /** Unread is a record whose value ends a header where the buffer of `f` is full, and then `rest`. */
  ghost predicate AtFalseHeader(f: Feed, key: Bytes, pad: Bytes, rest: Bytes) {
    && f.text == FieldText(true, key) + (FieldText(true, pad + HEADER_END) + rest)
    && f.dcap >= 12 && ValuePasses(true, key, f.dcap)
    && |pad| + 2 == f.dcap && forall c :: c in pad ==> IsPrint(c) && c != '\\'
  }

  /** Where a keyword does occur, the next header found need not be the next one in the file: after a left-over value
      that ends a header, the records after it are loaded as those of the main table. */
  lemma LeftOverGoesToMain(o: Options, engine: nat -> Engine, i: nat, g: Globals, db: Database, s: Bytes, kcap: nat,
                           dcap: nat, key: Bytes, pad: Bytes, rest: Bytes)
    requires kcap >= 3 && dcap >= 3 && OpenTable(o, db, g).Some?
    ensures var t := OpenTable(o, db, g).value;
            var (stop, f, txn) := Run(ConfigFor(o, g), engine(i), Feed(s, [], [], kcap, dcap), Begin(t.rows));
            var g' := Reset(g.(global := false));
            && g'.name == None && g'.flags == {}
            && (Commits(engine(i), stop, txn) && AtFalseHeader(f, key, pad, rest) ==>
                  LoadTables(o, engine, i, g, db, s, kcap, dcap)
                  == LoadTables(o, engine, i + 1, g', db[g.name := t.(rows := txn.work)], rest, f.kcap, f.dcap))
  {
    var t := OpenTable(o, db, g).value;
    var f := Run(ConfigFor(o, g), engine(i), Feed(s, [], [], kcap, dcap), Begin(t.rows)).1;
    if AtFalseHeader(f, key, pad, rest) {
      FalseHeaderFound(g.(global := false), f, key, pad, rest);
    }
  }

  lemma FalseHeaderFound(g: Globals, f: Feed, key: Bytes, pad: Bytes, rest: Bytes)
    requires AtFalseHeader(f, key, pad, rest)
    ensures ReadHeader(g, f.text, f.dcap) == Parsed(Reset(g), rest)
  {
    assert [] + f.text == f.text;
    FieldIsIgnored(Reset(g), true, [], key, FieldText(true, pad + HEADER_END) + rest, f.dcap);
    LeftOverEndsHeader(g, pad, rest, f.dcap);
  }

  /** One turn of the table loop: the table is stored under its name, and the loader goes on to the next header. */
  lemma TableTurn(o: Options, engine: nat -> Engine, i: nat, plain: bool, concise: bool, d: Dumped, g: Globals,
                  db: Database, tail: Bytes, kcap: nat, dcap: nat) returns (f: Feed)
    requires SkipsRefused(o) && Granting(engine(i)) && kcap >= 9 && dcap >= HEADER_ROOM
    requires LoadableDump(o, plain, db, d, dcap) && Describes(g, plain, d.info)
    ensures f.kcap >= kcap && f.dcap >= dcap
    ensures var db' := db[d.info.name := TableAfter(o, db, d)];
            LoadTables(o, engine, i, g, db, AfterHeaderOf(plain, concise, d, tail), kcap, dcap) ==
              match ReadHeader(g.(global := false), tail, f.dcap)
              case AtEnd => Loaded(db')
              case Exited => LoadFailed(db')
              case Parsed(g', rest) => LoadTables(o, engine, i + 1, g', db', rest, f.kcap, f.dcap)
  {
    var s := AfterHeaderOf(plain, concise, d, tail);
    OneTableCommits(o, engine(i), plain, concise, db, d, g, tail, kcap, dcap);
    NextHeaderFound(o, engine(i), plain, concise, db, d, g, g.(global := false), tail, kcap, dcap);
    f := Run(ConfigFor(o, g), engine(i), Feed(s, [], [], kcap, dcap), Begin(RowsBefore(o, db, d))).1;
    var t := OpenTable(o, db, g);
    assert t.Some? && t.value.rows == RowsBefore(o, db, d);
    assert t.value.(rows := RowsAfter(o, db, d)) == TableAfter(o, db, d);
  }

  /** The header of the first table of a file leads the loader to that table's records. */
  lemma ReadFirstHeader(g: Globals, plain: bool, concise: bool, env: EnvInfo, ds: seq<Dumped>, cap: nat)
    requires ds != [] && ValidEnv(env) && cap >= HEADER_ROOM && ReadableDump(plain, ds[0], cap)
    ensures var r := ReadHeader(g, FileText(g.global, plain, concise, env, ds), cap);
            r.Parsed? && Describes(r.g, plain, ds[0].info) &&
            r.rest == AfterHeader(plain, concise, env, ds)
  {
    var header := EntriesText(HeaderOf(g.global, plain, env, ds[0].info));
    var records := RecordsText(plain, concise && DupSort in ds[0].info.flags, ds[0].rs, None);
    var more := FileText(false, plain, concise, env, ds[1..]);
    HeaderRoundTrip(g, plain, env, ds[0].info, records + (DATA_END_LINE + more), cap);
    Unnest(header, END_LINE, records, DATA_END_LINE, more);
    assert ds[0].info.flags + {DupSort} == ds[0].info.flags || !HasDups(ds[0].info.flags);
  }

  lemma Unnest(a: Bytes, b: Bytes, c: Bytes, d: Bytes, e: Bytes)
    ensures (a + (b + (c + d))) + e == a + (b + (c + (d + e)))
  {
  }

  /** One turn of the table loop over a dump: either the file ends, or the loader is at the next table's records. */
  lemma NextTable(o: Options, engine: nat -> Engine, i: nat, plain: bool, concise: bool, env: EnvInfo, g: Globals,
                  db: Database, ds: seq<Dumped>, kcap: nat, dcap: nat) returns (f: Feed, g': Globals)
    requires SkipsRefused(o) && Granting(engine(i)) && ValidEnv(env) && kcap >= 9 && dcap >= HEADER_ROOM
    requires ds != [] && LoadableDump(o, plain, db, ds[0], dcap)
    requires ds[1..] != [] ==> ReadableDump(plain, ds[1], dcap)
    requires Describes(g, plain, ds[0].info)
    ensures f.kcap >= kcap && f.dcap >= dcap && (ds[1..] != [] ==> Describes(g', plain, ds[1].info))
    ensures var db' := db[ds[0].info.name := TableAfter(o, db, ds[0])];
            LoadTables(o, engine, i, g, db, AfterHeader(plain, concise, env, ds), kcap, dcap) ==
              if ds[1..] == [] then Loaded(db')
              else LoadTables(o, engine, i + 1, g', db', AfterHeader(plain, concise, env, ds[1..]), f.kcap, f.dcap)
  {
    var tail := FileText(false, plain, concise, env, ds[1..]);
    f := TableTurn(o, engine, i, plain, concise, ds[0], g, db, tail, kcap, dcap);
    g' := g.(global := false);
    if ds[1..] == [] {
      assert ReadHeader(g', tail, f.dcap) == AtEnd;
    } else {
      ReadFirstHeader(g', plain, concise, env, ds[1..], f.dcap);
      g' := ReadHeader(g', tail, f.dcap).g;
    }
  }

  ghost predicate DistinctNames(ds: seq<Dumped>) {
    forall i, j :: 0 <= i < j < |ds| ==> ds[i].info.name != ds[j].info.name
  }

  /** The names of named tables are records of the main table, so that it is neither dumped nor loaded together with
      them. */
  ghost predicate NotMixed(db: Database, ds: seq<Dumped>) {
    && (forall i, j :: 0 <= i < |ds| && 0 <= j < |ds| ==> (ds[i].info.name == None <==> ds[j].info.name == None))
    && (forall i, n :: 0 <= i < |ds| && n in db ==> (ds[i].info.name == None <==> n == None))
  }

  ghost predicate LoadableFile(o: Options, plain: bool, db: Database, ds: seq<Dumped>, cap: nat) {
    && DistinctNames(ds) && NotMixed(db, ds)
    && forall i :: 0 <= i < |ds| ==> LoadableDump(o, plain, db, ds[i], cap)
  }

  /** The database after each of the tables in turn is loaded into it. */
  ghost function WithTables(o: Options, db: Database, ds: seq<Dumped>): Database
    decreases |ds|
  {
    if ds == [] then db
    else WithTables(o, db[ds[0].info.name := TableAfter(o, db, ds[0])], ds[1..])
  }

  lemma LoadableTail(o: Options, plain: bool, db: Database, ds: seq<Dumped>, t: TableState, cap: nat, cap': nat)
    requires LoadableFile(o, plain, db, ds, cap) && ds != [] && cap <= cap'
    ensures LoadableFile(o, plain, db[ds[0].info.name := t], ds[1..], cap')
  {
    var db' := db[ds[0].info.name := t];
    forall i | 0 <= i < |ds[1..]|
      ensures LoadableDump(o, plain, db', ds[1..][i], cap')
    {
      var d := ds[i + 1];
      assert LoadableDump(o, plain, db, d, cap) && ds[1..][i] == d && d.info.name != ds[0].info.name;
      assert RowsBefore(o, db', d) == RowsBefore(o, db, d);
    }
  }

  lemma {:induction false} WithTablesElsewhere(o: Options, db: Database, ds: seq<Dumped>, n: Option<Bytes>)
    requires forall i :: 0 <= i < |ds| ==> ds[i].info.name != n
    ensures var db' := WithTables(o, db, ds); (n in db' <==> n in db) && (n in db ==> db'[n] == db[n])
    decreases |ds|
  {
    if ds != [] {
      assert forall i :: 0 <= i < |ds[1..]| ==> ds[1..][i] == ds[i + 1];
      WithTablesElsewhere(o, db[ds[0].info.name := TableAfter(o, db, ds[0])], ds[1..], n);
    }
  }

  /** Tables of different names do not get in each other's way. */
  lemma {:induction false} WithTablesAt(o: Options, db: Database, ds: seq<Dumped>, i: nat)
    requires DistinctNames(ds) && i < |ds|
    ensures var db', n := WithTables(o, db, ds), ds[i].info.name;
            n in db' && db'[n] == TableAfter(o, db, ds[i])
    decreases |ds|
  {
    var db1 := db[ds[0].info.name := TableAfter(o, db, ds[0])];
    assert forall j :: 0 <= j < |ds[1..]| ==> ds[1..][j] == ds[j + 1];
    if i == 0 {
      WithTablesElsewhere(o, db1, ds[1..], ds[0].info.name);
    } else {
      WithTablesAt(o, db1, ds[1..], i - 1);
      assert RowsBefore(o, db1, ds[i]) == RowsBefore(o, db, ds[i]);
    }
  }

  lemma FirstTwoLoadable(o: Options, plain: bool, db: Database, ds: seq<Dumped>, cap: nat)
    requires LoadableFile(o, plain, db, ds, cap) && ds != []
    ensures LoadableDump(o, plain, db, ds[0], cap) && (ds[1..] != [] ==> ReadableDump(plain, ds[1], cap))
  {
    assert ds[1..] != [] ==> LoadableDump(o, plain, db, ds[1], cap);
  }

  /** The loader has read the first header of `ds`, and all of `ds` can be loaded. */
  ghost predicate AtTables(o: Options, engine: nat -> Engine, plain: bool, env: EnvInfo, g: Globals, db: Database,
                           ds: seq<Dumped>, kcap: nat, dcap: nat) {
    && SkipsRefused(o) && GrantingAll(engine) && ValidEnv(env) && kcap >= 9 && dcap >= HEADER_ROOM
    && ds != [] && LoadableFile(o, plain, db, ds, dcap) && Describes(g, plain, ds[0].info)
  }

  lemma NextTables(o: Options, engine: nat -> Engine, i: nat, plain: bool, concise: bool, env: EnvInfo, g: Globals,
                   db: Database, ds: seq<Dumped>, kcap: nat, dcap: nat)
    returns (f: Feed, g': Globals, db': Database)
    requires AtTables(o, engine, plain, env, g, db, ds, kcap, dcap)
    ensures f.kcap >= kcap && f.dcap >= dcap && WithTables(o, db, ds) == WithTables(o, db', ds[1..])
    ensures ds[1..] != [] ==> AtTables(o, engine, plain, env, g', db', ds[1..], f.kcap, f.dcap)
    ensures LoadTables(o, engine, i, g, db, AfterHeader(plain, concise, env, ds), kcap, dcap) ==
              if ds[1..] == [] then Loaded(db')
              else LoadTables(o, engine, i + 1, g', db', AfterHeader(plain, concise, env, ds[1..]), f.kcap, f.dcap)
  {
    FirstTwoLoadable(o, plain, db, ds, dcap);
    assert Granting(engine(i));
    f, g' := NextTable(o, engine, i, plain, concise, env, g, db, ds, kcap, dcap);
    var t := TableAfter(o, db, ds[0]);
    LoadableTail(o, plain, db, ds, t, dcap, f.dcap);
    db' := db[ds[0].info.name := t];
  }

  /** The table loop loads the tables of the rest of a dump, each under its own name. */
  lemma {:induction false} TablesLoad(o: Options, engine: nat -> Engine, i: nat, plain: bool, concise: bool,
                                      env: EnvInfo, g: Globals, db: Database, ds: seq<Dumped>, kcap: nat, dcap: nat)
    requires AtTables(o, engine, plain, env, g, db, ds, kcap, dcap)
    ensures LoadTables(o, engine, i, g, db, AfterHeader(plain, concise, env, ds), kcap, dcap)
         == Loaded(WithTables(o, db, ds))
    decreases |ds|
  {
    var f, g', db' := NextTables(o, engine, i, plain, concise, env, g, db, ds, kcap, dcap);
    if ds[1..] != [] {
      TablesLoad(o, engine, i + 1, plain, concise, env, g', db', ds[1..], f.kcap, f.dcap);
    }
  }

  /** Loading a dump into any database that it fits: each table of the dump ends up with its flags, with its sequence if
      it had no rows to be purged, and with the rows that its records lead to, with or without -N, -p and -r, with the
      loop as meant or as written; every other table stays as it was. The batch size, the dirty limit and the moments of
      the checkpoints make no difference. */
  lemma FileLoads(o: Options, engine: nat -> Engine, plain: bool, concise: bool, env: EnvInfo, db: Database,
                  ds: seq<Dumped>, kcap: nat, dcap: nat)
    requires SkipsRefused(o) && GrantingAll(engine) && ValidEnv(env) && kcap >= 9 && dcap >= HEADER_ROOM
    requires LoadableFile(o, plain, db, ds, dcap) && ds != []
    ensures var r := LoadFile(o, engine, db, FileText(true, plain, concise, env, ds), kcap, dcap);
            && r.Loaded?
            && (forall n :: n in r.db <==> n in db || exists i :: 0 <= i < |ds| && ds[i].info.name == n)
            && (forall n :: n in db && (forall i :: 0 <= i < |ds| ==> ds[i].info.name != n) ==> r.db[n] == db[n])
            && (forall i :: 0 <= i < |ds| ==>
                  ds[i].info.name in r.db && r.db[ds[i].info.name] == TableAfter(o, db, ds[i]))
  {
    ReadFirstHeader(INITIAL, plain, concise, env, ds, dcap);
    var r := ReadHeader(INITIAL, FileText(true, plain, concise, env, ds), dcap);
    TablesLoad(o, engine, 0, plain, concise, env, r.g, db, ds, kcap, dcap);
    var r' := Loaded(WithTables(o, db, ds));
    forall i | 0 <= i < |ds|
      ensures ds[i].info.name in r'.db && r'.db[ds[i].info.name] == TableAfter(o, db, ds[i])
    {
      WithTablesAt(o, db, ds, i);
    }
    forall n | forall i :: 0 <= i < |ds| ==> ds[i].info.name != n
      ensures (n in r'.db <==> n in db) && (n in db ==> r'.db[n] == db[n])
    {
      WithTablesElsewhere(o, db, ds, n);
    }
  }

  /** -p loses the sequence of a table that was not empty: a table has the dumped sequence after the load exactly when
      it had no rows to be purged, or the sequence is 0. */
  lemma SequencesLoadedIff(o: Options, engine: nat -> Engine, plain: bool, concise: bool, env: EnvInfo, db: Database,
                           ds: seq<Dumped>, i: nat, kcap: nat, dcap: nat)
    requires SkipsRefused(o) && GrantingAll(engine) && ValidEnv(env) && kcap >= 9 && dcap >= HEADER_ROOM
    requires LoadableFile(o, plain, db, ds, dcap) && i < |ds|
    ensures var r := LoadFile(o, engine, db, FileText(true, plain, concise, env, ds), kcap, dcap);
            var n := ds[i].info.name;
            && n in r.db
            && (r.db[n].sequence == ds[i].info.sequence <==>
                  !(o.purge && n in db && db[n].rows != map[]) || ds[i].info.sequence == 0)
  {
    FileLoads(o, engine, plain, concise, env, db, ds, kcap, dcap);
  }

  // ---------- restoring ----------

  /** A plain load: no MDBX_NOOVERWRITE, no size refused. */
  ghost predicate PlainLoad(o: Options) { !o.keep && o.bad == Never }

  /** A table with the given rows that the format can carry. */
  ghost predicate RestorableDump(plain: bool, d: Dumped, rows: Rows, cap: nat) {
    ReadableDump(plain, d, cap) && ValidRows(DupSort in d.info.flags, rows) && Lists(d.rs, rows)
  }

  ghost predicate RestorableFile(plain: bool, ds: seq<Dumped>, tables: seq<Rows>, cap: nat) {
    && |ds| == |tables| && DistinctNames(ds) && NotMixed(map[], ds)
    && forall i :: 0 <= i < |ds| ==> RestorableDump(plain, ds[i], tables[i], cap)
  }

  lemma FreshTableRestored(o: Options, plain: bool, d: Dumped, rows: Rows, cap: nat)
    requires PlainLoad(o) && RestorableDump(plain, d, rows, cap)
    ensures LoadableDump(o, plain, map[], d, cap) && RowsAfter(o, map[], d) == rows
  {
    var m := ModeFor(o, d);
    assert m == Upsert(m.dup);
    NeverRefused(m.dup, map[], d.rs);
    UpsertRestores(m.dup, d.rs, rows);
    assert d.rs[..|d.rs|] == d.rs;
  }

  /** The main result about dump files: dumping any list of restorable tables, in either encoding and with or without
      key elision, and loading the file into an empty database restores every table, with its flags, sequence and
      records, and nothing else, whatever the batch size, the dirty limit and the moments of the checkpoints. */
  lemma FileRoundTrip(o: Options, engine: nat -> Engine, plain: bool, concise: bool, env: EnvInfo,
                      ds: seq<Dumped>, tables: seq<Rows>, kcap: nat, dcap: nat)
    requires PlainLoad(o) && GrantingAll(engine) && ValidEnv(env) && kcap >= 9 && dcap >= HEADER_ROOM
    requires RestorableFile(plain, ds, tables, dcap) && ds != []
    ensures var r := LoadFile(o, engine, map[], FileText(true, plain, concise, env, ds), kcap, dcap);
            && r.Loaded?
            && (forall n :: n in r.db <==> exists i :: 0 <= i < |ds| && ds[i].info.name == n)
            && (forall i :: 0 <= i < |ds| ==>
                  ds[i].info.name in r.db &&
                  r.db[ds[i].info.name] == TableState(ds[i].info.flags, ds[i].info.sequence, tables[i]))
  {
    forall i | 0 <= i < |ds|
      ensures LoadableDump(o, plain, map[], ds[i], dcap) && RowsAfter(o, map[], ds[i]) == tables[i]
    {
      FreshTableRestored(o, plain, ds[i], tables[i], dcap);
    }
    FileLoads(o, engine, plain, concise, env, map[], ds, kcap, dcap);
  }
}
