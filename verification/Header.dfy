/** The keyword header of a dump: what `dump_tbl` prints and how `readhdr` reads it. */
module Header {
  import opened Octets
  import opened Numbers
  import opened Words

  datatype TableFlag = ReverseKey | DupSort | IntegerKey | DupFixed | IntegerDup | ReverseDup

  datatype Geometry = Geometry(lower: nat, current: nat, upper: nat, shrink: nat, grow: nat)

  datatype Canary = Canary(v: nat, x: nat, y: nat, z: nat)

  const NO_CANARY: Canary := Canary(0, 0, 0, 0)

  /** The file-level variables of mdbx_load that headers set. `global` says that no table was loaded yet. */
  datatype Globals = Globals(plain: bool, global: bool, name: Option<Bytes>, flags: set<TableFlag>, sequence: nat,
                             pagesize: nat, mapsize: nat, maxreaders: nat, geo: Geometry, canary: Canary)

  // ---------- one keyword line ----------

  datatype Key = Absent | BadLine | Text(text: Bytes)

  /** `valstr`: the text after `item=`, without its newline. `char` is signed, so that bytes from 128 on compare
      below the space. */
  function Valstr(line: Bytes, item: Bytes): Key {
    if !(item <= line) then Absent
    else
      var c := if |line| > |item| then line[|item|] else '\0';
      if c == '=' then Text(line[|item| + 1..][..IndexOf('\n', line[|item| + 1..])])
      else if ' ' < c && c as int < 128 then Absent
      else BadLine
  }

  /** The keywords of `readhdr`, in the order in which it tests a line for them. */
  datatype Item =
    | VersionKey | PageSizeKey | FormatKey | DatabaseKey | TypeKey
    | MapAddrKey | MapSizeKey | MaxReadersKey | TxnIdKey | SequenceKey | GeometryKey | CanaryKey
    | ReverseKeyKey | DuplicatesKey | DupSortKey | IntegerKeyKey | DupFixKey | IntegerDupKey | ReverseDupKey
    | HeaderKey

  const ITEMS: seq<Item> := [
    VersionKey, PageSizeKey, FormatKey, DatabaseKey, TypeKey,
    MapAddrKey, MapSizeKey, MaxReadersKey, TxnIdKey, SequenceKey, GeometryKey, CanaryKey,
    ReverseKeyKey, DuplicatesKey, DupSortKey, IntegerKeyKey, DupFixKey, IntegerDupKey, ReverseDupKey,
    HeaderKey]

  function Name(i: Item): Bytes {
    match i
    case VersionKey => "VERSION"
    case PageSizeKey => "db_pagesize"
    case FormatKey => "format"
    case DatabaseKey => "database"
    case TypeKey => "type"
    case MapAddrKey => "mapaddr"
    case MapSizeKey => "mapsize"
    case MaxReadersKey => "maxreaders"
    case TxnIdKey => "txnid"
    case SequenceKey => "sequence"
    case GeometryKey => "geometry"
    case CanaryKey => "canary"
    case ReverseKeyKey => "reversekey"
    case DuplicatesKey => "duplicates"
    case DupSortKey => "dupsort"
    case IntegerKeyKey => "integerkey"
    case DupFixKey => "dupfix"
    case IntegerDupKey => "integerdup"
    case ReverseDupKey => "reversedup"
    case HeaderKey => "HEADER"
  }

  datatype Step = Next(g: Globals) | Done(g: Globals) | Exit

  const MIN_PAGESIZE: nat := 256
  const MAX_PAGESIZE: nat := 65536
  const MIN_MAPSIZE: nat := 768
  const MAX_MAPSIZE: nat := 0x8000_0000 * 65536
  const READERS_LIMIT: nat := 32767
  const NO_CURRENT: nat := U64 - 1

  /** `valbool` for one entry of `dbflags`. */
  function SetFlag(g: Globals, flag: TableFlag, v: nat): Step {
    if v > 1 then Exit
    else Next(g.(flags := if v == 1 then g.flags + {flag} else g.flags - {flag}))
  }

  /** Keywords with a number, as `valnum` returns it. */
  function ActOnNumber(g: Globals, i: Item, v: nat): Step {
    match i
    case VersionKey => if v != 3 then Exit else Next(g)
    case PageSizeKey =>
      if !g.global && g.pagesize != v then Next(g)
      else if v < MIN_PAGESIZE || v > MAX_PAGESIZE then Next(g)
      else Next(g.(pagesize := v))
    case MapSizeKey => Next(if g.global && MIN_MAPSIZE <= v <= MAX_MAPSIZE then g.(mapsize := v) else g)
    case MaxReadersKey => Next(if g.global && 1 <= v <= READERS_LIMIT then g.(maxreaders := v) else g)
    case SequenceKey => Next(g.(sequence := v))
    case ReverseKeyKey => SetFlag(g, ReverseKey, v)
    case DuplicatesKey => SetFlag(g, DupSort, v)
    case DupSortKey => SetFlag(g, DupSort, v)
    case IntegerKeyKey => SetFlag(g, IntegerKey, v)
    case DupFixKey => SetFlag(g, DupFixed, v)
    case IntegerDupKey => SetFlag(g, IntegerDup, v)
    case ReverseDupKey => SetFlag(g, ReverseDup, v)
    case _ => Next(g)
  }

  function ActOnGeometry(g: Globals, s: Bytes): Step {
    match ScanFields(s, "lusg")
    case Some(v) => if |v| == 4 then Next(g.(geo := Geometry(v[0], NO_CURRENT, v[1], v[2], v[3]))) else Exit
    case None =>
      match ScanFields(s, "lcusg")
      case Some(v) => if |v| == 5 then Next(g.(geo := Geometry(v[0], v[1], v[2], v[3], v[4]))) else Exit
      case None => Exit
  }

  function ActOnCanary(g: Globals, s: Bytes): Step {
    match ScanFields(s, "vxyz")
    case Some(v) => if |v| == 4 then Next(g.(canary := Canary(v[0], v[1], v[2], v[3]))) else Exit
    case None => Exit
  }

  /** What `readhdr` does with the text of the keyword that claims the line. A HEADER other than END is reported
      and ignored. */
  function Act(g: Globals, i: Item, s: Bytes): Step {
    match i
    case FormatKey =>
      if s == "print" then Next(g.(plain := true))
      else if s == "bytevalue" then Next(g.(plain := false))
      else Exit
    case DatabaseKey => Next(if s == [] then g else g.(name := Some(s)))
    case TypeKey => if s == "btree" then Next(g) else Exit
    case GeometryKey => if g.global then ActOnGeometry(g, s) else Next(g)
    case CanaryKey => if g.global then ActOnCanary(g, s) else Next(g)
    case HeaderKey => if s == "END" then Done(g) else Next(g)
    case _ =>
      var (v, rest) := Strtoull(s, 0);
      if rest == [] then ActOnNumber(g, i, v) else Exit
  }

  /** The first of `items` that claims the line decides; an unclaimed line is reported and ignored. */
  function Dispatch(g: Globals, line: Bytes, items: seq<Item>): Step {
    if items == [] then Next(g)
    else
      match Valstr(line, Name(items[0]))
      case Absent => Dispatch(g, line, items[1..])
      case BadLine => Exit
      case Text(s) => Act(g, items[0], s)
  }

  function ReadHeaderLine(g: Globals, line: Bytes): Step { Dispatch(g, line, ITEMS) }

  // ---------- which keyword claims which line ----------

  predicate KeywordChar(c: Octet) { ' ' < c && c as int < 128 && c != '=' }

  predicate Keyword(kw: Bytes) { forall i :: 0 <= i < |kw| ==> KeywordChar(kw[i]) }

  function KeyLine(kw: Bytes, text: Bytes): Bytes { kw + "=" + text }

  /** A keyword never claims the line of another one, not even when one is a prefix of the other. */
  lemma OtherKeyword(kw: Bytes, text: Bytes, item: Bytes)
    requires Keyword(kw) && Keyword(item) && kw != item
    ensures Valstr(KeyLine(kw, text), item) == Absent
  {
    var line := KeyLine(kw, text);
    if |item| < |kw| {
      assert line[|item|] == kw[|item|];
    } else if |item| == |kw| {
      assert line[..|kw|] == kw;
    } else {
      assert line[|kw|] == '=' && KeywordChar(item[|kw|]);
    }
  }

  ghost predicate Newline(nl: Bytes) { nl == [] || nl == "\n" }

  lemma OwnKeyword(kw: Bytes, text: Bytes, nl: Bytes)
    requires '\n' !in text && Newline(nl)
    ensures Valstr(KeyLine(kw, text + nl), kw) == Text(text)
  {
    var line := KeyLine(kw, text + nl);
    assert line[..|kw|] == kw && line[|kw|] == '=' && line[|kw| + 1..] == text + nl;
    assert (text + nl)[..|text|] == text;
    IndexOfUnique('\n', text + nl, |text|);
  }

  lemma NamesAreKeywords(i: Item)
    ensures Keyword(Name(i)) && |Name(i)| >= 4
  {
  }

  /** No two names agree in length, first and last character. */
  ghost function ItemWith(len: nat, first: Octet, last: Octet): Item {
    if len == 4 then TypeKey
    else if len == 5 then TxnIdKey
    else if len == 6 then
      if first == 'f' then FormatKey else if first == 'c' then CanaryKey else if first == 'd' then DupFixKey
      else HeaderKey
    else if len == 7 then
      if first == 'V' then VersionKey else if first == 'd' then DupSortKey else if last == 'r' then MapAddrKey
      else MapSizeKey
    else if len == 8 then
      if first == 'd' then DatabaseKey else if first == 's' then SequenceKey else GeometryKey
    else if len == 10 then
      if first == 'm' then MaxReadersKey else if first == 'd' then DuplicatesKey
      else if first == 'r' then (if last == 'y' then ReverseKeyKey else ReverseDupKey)
      else if last == 'y' then IntegerKeyKey else IntegerDupKey
    else PageSizeKey
  }

  lemma NameIsUnique(i: Item)
    ensures |Name(i)| >= 4 && ItemWith(|Name(i)|, Name(i)[0], Name(i)[|Name(i)| - 1]) == i
  {
  }

  /** A line is claimed by the test for its own keyword, and by no test before it. */
  lemma {:induction false} DispatchOwn(g: Globals, i: Item, text: Bytes, nl: Bytes, items: seq<Item>)
    requires i in items && '\n' !in text && Newline(nl)
    ensures Dispatch(g, KeyLine(Name(i), text + nl), items) == Act(g, i, text)
  {
    if items[0] == i {
      OwnKeyword(Name(i), text, nl);
    } else {
      NameIsUnique(i);
      NameIsUnique(items[0]);
      NamesAreKeywords(i);
      NamesAreKeywords(items[0]);
      OtherKeyword(Name(i), text + nl, Name(items[0]));
      DispatchOwn(g, i, text, nl, items[1..]);
    }
  }

  lemma EveryItemTested(i: Item)
    ensures i in ITEMS
  {
    assert ITEMS[0] == VersionKey && ITEMS[1] == PageSizeKey && ITEMS[2] == FormatKey && ITEMS[3] == DatabaseKey;
    assert ITEMS[4] == TypeKey && ITEMS[5] == MapAddrKey && ITEMS[6] == MapSizeKey && ITEMS[7] == MaxReadersKey;
    assert ITEMS[8] == TxnIdKey && ITEMS[9] == SequenceKey && ITEMS[10] == GeometryKey && ITEMS[11] == CanaryKey;
    assert ITEMS[12] == ReverseKeyKey && ITEMS[13] == DuplicatesKey && ITEMS[14] == DupSortKey;
    assert ITEMS[15] == IntegerKeyKey && ITEMS[16] == DupFixKey && ITEMS[17] == IntegerDupKey;
    assert ITEMS[18] == ReverseDupKey && ITEMS[19] == HeaderKey;
  }

  /** The printed line `keyword=text` does what `readhdr` does for that keyword, and nothing else. */
  lemma ReadKeyLine(g: Globals, i: Item, text: Bytes, nl: Bytes)
    requires '\n' !in text && Newline(nl)
    ensures ReadHeaderLine(g, KeyLine(Name(i), text + nl)) == Act(g, i, text)
  {
    EveryItemTested(i);
    DispatchOwn(g, i, text, nl, ITEMS);
  }

  lemma {:induction false} BlankIsIgnored(g: Globals, items: seq<Item>)
    ensures Dispatch(g, "\n", items) == Next(g)
  {
    if items != [] {
      NamesAreKeywords(items[0]);
      BlankIsIgnored(g, items[1..]);
    }
  }
}
