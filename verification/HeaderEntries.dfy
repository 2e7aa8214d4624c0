/** The lines of a printed header, one by one: how each is written and what reading it does. */
module HeaderEntries {
  import opened Octets
  import opened Numbers
  import opened Words
  import opened Header

  /** The header lines that `dump_tbl` prints, except the last one. */
  datatype Entry =
    | Version
    | GeometryOf(lower: nat, upper: nat, shrink: nat, grow: nat)
    | MapSize(size: nat)
    | CanaryOf(canary: Canary)
    | Format(plain: bool)
    | Database(name: Bytes)
    | Btree
    | PageSize(size: nat)
    | Duplicates(on: bool)
    | Flag(flag: TableFlag)
    | SequenceOf(n: nat)

  function EntryItem(e: Entry): Item {
    match e
    case Version => VersionKey
    case GeometryOf(_, _, _, _) => GeometryKey
    case MapSize(_) => MapSizeKey
    case CanaryOf(_) => CanaryKey
    case Format(_) => FormatKey
    case Database(_) => DatabaseKey
    case Btree => TypeKey
    case PageSize(_) => PageSizeKey
    case Duplicates(_) => DuplicatesKey
    case Flag(ReverseKey) => ReverseKeyKey
    case Flag(DupSort) => DupSortKey
    case Flag(IntegerKey) => IntegerKeyKey
    case Flag(DupFixed) => DupFixKey
    case Flag(IntegerDup) => IntegerDupKey
    case Flag(ReverseDup) => ReverseDupKey
    case SequenceOf(_) => SequenceKey
  }

  function EntryValue(e: Entry): Bytes {
    match e
    case Version => "3"
    case GeometryOf(l, u, s, g) => FieldsText("lusg", [l, u, s, g])
    case MapSize(n) => Decimal(n)
    case CanaryOf(c) => FieldsText("vxyz", [c.v, c.x, c.y, c.z])
    case Format(plain) => if plain then "print" else "bytevalue"
    case Database(name) => name
    case Btree => "btree"
    case PageSize(n) => Decimal(n)
    case Duplicates(on) => if on then "1" else "0"
    case Flag(_) => "1"
    case SequenceOf(n) => Decimal(n)
  }

  /** What the line is meant to do to the loader. */
  function Meaning(g: Globals, e: Entry): Globals {
    match e
    case Version => g
    case GeometryOf(l, u, s, gr) => if g.global then g.(geo := Geometry(l, NO_CURRENT, u, s, gr)) else g
    case MapSize(n) => if g.global && MIN_MAPSIZE <= n <= MAX_MAPSIZE then g.(mapsize := n) else g
    case CanaryOf(c) => if g.global then g.(canary := c) else g
    case Format(plain) => g.(plain := plain)
    case Database(name) => if name == [] then g else g.(name := Some(name))
    case Btree => g
    case PageSize(n) => if g.global && MIN_PAGESIZE <= n <= MAX_PAGESIZE then g.(pagesize := n) else g
    case Duplicates(on) => g.(flags := if on then g.flags + {DupSort} else g.flags - {DupSort})
    case Flag(f) => g.(flags := g.flags + {f})
    case SequenceOf(n) => g.(sequence := n)
  }

  ghost predicate ValidEntry(e: Entry) {
    match e
    case GeometryOf(l, u, s, g) => l < U64 && u < U64 && s < U64 && g < U64
    case MapSize(n) => n < U64
    case CanaryOf(c) => c.v < U64 && c.x < U64 && c.y < U64 && c.z < U64
    case Database(name) => '\n' !in name && '\0' !in name
    case PageSize(n) => n < U64
    case SequenceOf(n) => n < U64
    case _ => true
  }

  function EntryLine(e: Entry, nl: Bytes): Bytes { KeyLine(Name(EntryItem(e)), EntryValue(e) + nl) }

  // ---------- reading one line ----------

  lemma {:induction false} FieldsAreLine(letters: Bytes, vs: seq<nat>)
    requires |vs| == |letters| && '\n' !in letters && '\0' !in letters
    ensures '\n' !in FieldsText(letters, vs) && '\0' !in FieldsText(letters, vs)
    decreases |letters|
  {
    if letters != [] {
      assert letters[0] in letters;
      DecimalStart(vs[0]);
      if |letters| > 1 {
        FieldsAreLine(letters[1..], vs[1..]);
      }
    }
  }

  lemma EntryIsLine(e: Entry)
    requires ValidEntry(e)
    ensures '\n' !in EntryValue(e) && '\0' !in EntryValue(e)
  {
    match e
    case GeometryOf(l, u, s, g) => FieldsAreLine("lusg", [l, u, s, g]);
    case MapSize(n) => DecimalStart(n);
    case CanaryOf(c) => FieldsAreLine("vxyz", [c.v, c.x, c.y, c.z]);
    case PageSize(n) => DecimalStart(n);
    case SequenceOf(n) => DecimalStart(n);
    case _ =>
  }

  /** The entries whose value is a single number, and that number. */
  function EntryNumber(e: Entry): Option<nat> {
    match e
    case Version => Some(3)
    case MapSize(n) => Some(n)
    case PageSize(n) => Some(n)
    case Duplicates(on) => Some(if on then 1 else 0)
    case Flag(_) => Some(1)
    case SequenceOf(n) => Some(n)
    case _ => None
  }

  lemma NumberIsPrinted(e: Entry)
    requires EntryNumber(e).Some?
    ensures EntryValue(e) == Decimal(EntryNumber(e).value)
  {
    assert Decimal(3) == "3" && Decimal(1) == "1" && Decimal(0) == "0";
  }

  lemma NumberMeaning(g: Globals, e: Entry)
    requires EntryNumber(e).Some?
    ensures ActOnNumber(g, EntryItem(e), EntryNumber(e).value) == Next(Meaning(g, e))
  {
  }

  lemma NumberEntry(g: Globals, e: Entry)
    requires ValidEntry(e) && EntryNumber(e).Some?
    ensures Act(g, EntryItem(e), EntryValue(e)) == ActOnNumber(g, EntryItem(e), EntryNumber(e).value)
  {
    var n := EntryNumber(e).value;
    NumberIsPrinted(e);
    StrtoullPrinted(n, [], 0);
    assert Decimal(n) + [] == Decimal(n);
  }

  lemma NumericEntry(g: Globals, e: Entry)
    requires ValidEntry(e) && EntryNumber(e).Some?
    ensures Act(g, EntryItem(e), EntryValue(e)) == Next(Meaning(g, e))
  {
    NumberEntry(g, e);
    NumberMeaning(g, e);
  }

  lemma GeometryEntry(g: Globals, e: Entry)
    requires ValidEntry(e) && e.GeometryOf?
    ensures Act(g, EntryItem(e), EntryValue(e)) == Next(Meaning(g, e))
  {
    ScanPrintedFields("lusg", [e.lower, e.upper, e.shrink, e.grow]);
  }

  lemma CanaryEntry(g: Globals, e: Entry)
    requires ValidEntry(e) && e.CanaryOf?
    ensures Act(g, EntryItem(e), EntryValue(e)) == Next(Meaning(g, e))
  {
    ScanPrintedFields("vxyz", [e.canary.v, e.canary.x, e.canary.y, e.canary.z]);
  }

  lemma TextEntry(g: Globals, e: Entry)
    requires e.Format? || e.Database? || e.Btree?
    ensures Act(g, EntryItem(e), EntryValue(e)) == Next(Meaning(g, e))
  {
  }

  lemma ActOnEntry(g: Globals, e: Entry)
    requires ValidEntry(e)
    ensures Act(g, EntryItem(e), EntryValue(e)) == Next(Meaning(g, e))
  {
    if EntryNumber(e).Some? {
      NumericEntry(g, e);
    } else if e.GeometryOf? {
      GeometryEntry(g, e);
    } else if e.CanaryOf? {
      CanaryEntry(g, e);
    } else {
      TextEntry(g, e);
    }
  }

  /** Every printed line is claimed by its own keyword's test and by no earlier one, and does what it is meant to. */
  lemma ReadEntryLine(g: Globals, e: Entry, nl: Bytes)
    requires ValidEntry(e) && Newline(nl)
    ensures ReadHeaderLine(g, EntryLine(e, nl)) == Next(Meaning(g, e))
  {
    EntryIsLine(e);
    ReadKeyLine(g, EntryItem(e), EntryValue(e), nl);
    ActOnEntry(g, e);
  }

  const END_LINE: Bytes := "HEADER=END\n"

  /** The last line of a header ends it. */
  lemma ReadEndLine(g: Globals)
    ensures ReadHeaderLine(g, END_LINE) == Done(g)
  {
    ReadKeyLine(g, HeaderKey, "END", "\n");
    assert KeyLine(Name(HeaderKey), "END" + "\n") == END_LINE;
  }
}
