/** What becomes of the records that the loop of mdbx_load.c leaves unread when it stops at a refused one: the next
    header is looked for among them. */
module Skipping {
  import opened Octets
  import opened Codec
  import opened LineReader
  import opened LineFacts
  import opened Tables
  import opened Loading
  import opened Dumping
  import opened Header
  import opened HeaderEntries
  import opened HeaderReader

  // ---------- lines that no keyword claims ----------

  lemma {:induction false} UnclaimedLine(g: Globals, line: Bytes, items: seq<Item>)
    requires forall i :: i in items ==> !(Name(i) <= line)
    ensures Dispatch(g, line, items) == Next(g)
  {
    if items != [] {
      UnclaimedLine(g, line, items[1..]);
    }
  }

  /** No keyword occurs in the text from position `k` on. */
  ghost predicate KeywordFree(text: Bytes, k: int) {
    forall j, i: Item :: 0 <= j && k <= j <= |text| ==> !(Name(i) <= text[j..])
  }

  lemma NameIsPlain(i: Item)
    ensures Name(i) != [] && '\n' !in Name(i)
  {
  }

  /** A piece of a line in which no keyword occurs is no header line, with or without the newline. */
  lemma PieceIsUnclaimed(g: Globals, text: Bytes, j: nat, n: nat, nl: Bytes)
    requires j <= j + n <= |text| && Newline(nl) && forall i: Item :: !(Name(i) <= text[j..])
    ensures ReadHeaderLine(g, text[j..j + n] + nl) == Next(g)
  {
    var piece := text[j..j + n] + nl;
    assert text[j..][..n] == text[j..j + n];
    forall i: Item
      ensures !(Name(i) <= piece)
    {
      NameIsPlain(i);
      NewlineIsNoHelp(Name(i), text[j..j + n], nl);
    }
    UnclaimedLine(g, piece, ITEMS);
  }

  lemma NewlineIsNoHelp(name: Bytes, piece: Bytes, nl: Bytes)
    requires !(name <= piece) && '\n' !in name && Newline(nl)
    ensures !(name <= piece + nl)
  {
    if |name| <= |piece| {
      assert (piece + nl)[..|name|] == piece[..|name|];
    } else if |name| <= |piece + nl| {
      assert name[|piece|] in name && (piece + nl)[|piece|] == '\n';
    }
  }

  lemma WholeLineRead(g: Globals, line: Bytes, rest: Bytes, cap: nat)
    requires 2 <= cap && |line| + 1 < cap && '\n' !in line && '\0' !in line
    requires ReadHeaderLine(g, line + "\n") == Next(g)
    ensures ReadLines(g, line + "\n" + rest, cap) == ReadLines(g, rest, cap)
  {
    var s := line + "\n" + rest;
    IndexOfAt('\n', line, rest);
    assert Chunk(s, cap) == line + "\n";
    CStringIsWhole(line + "\n");
    assert s[|line| + 1..] == rest;
    ReadLinesStep(g, s, cap, g, rest);
  }

  lemma PieceRead(g: Globals, line: Bytes, rest: Bytes, cap: nat)
    requires 2 <= cap && |line| + 1 >= cap && '\n' !in line && '\0' !in line
    requires ReadHeaderLine(g, line[..cap - 1]) == Next(g)
    ensures ReadLines(g, line + "\n" + rest, cap) == ReadLines(g, line[cap - 1..] + "\n" + rest, cap)
  {
    var s := line + "\n" + rest;
    IndexOfAt('\n', line, rest);
    assert Chunk(s, cap) == line[..cap - 1];
    CStringIsWhole(line[..cap - 1]);
    assert s[cap - 1..] == line[cap - 1..] + "\n" + rest;
    ReadLinesStep(g, s, cap, g, line[cap - 1..] + "\n" + rest);
  }

  /** The first piece of a line, whole or not, belongs to no keyword. */
  ghost predicate StartsUnclaimed(line: Bytes) {
    forall i: Item :: !(Name(i) <= line)
  }

  /** A line is passed over, piece by piece, when no keyword claims its start and none occurs from the end of the buffer
      on. */
  lemma {:induction false} LineIsIgnored(g: Globals, line: Bytes, rest: Bytes, cap: nat)
    requires 2 <= cap && '\n' !in line && '\0' !in line
    requires StartsUnclaimed(line) && KeywordFree(line, cap - 1)
    ensures ReadLines(g, line + "\n" + rest, cap) == ReadLines(g, rest, cap)
    decreases |line|
  {
    assert line[0..] == line;
    if |line| + 1 < cap {
      PieceIsUnclaimed(g, line, 0, |line|, "\n");
      assert line[0..0 + |line|] == line;
      WholeLineRead(g, line, rest, cap);
    } else {
      var n := cap - 1;
      PieceIsUnclaimed(g, line, 0, n, []);
      assert line[0..0 + n] + [] == line[..n];
      PieceRead(g, line, rest, cap);
      KeywordFreeTail(line, n);
      LineIsIgnored(g, line[n..], rest, cap);
    }
  }

  lemma KeywordFreeTail(line: Bytes, n: nat)
    requires n <= |line| && KeywordFree(line, n) && n > 0
    ensures StartsUnclaimed(line[n..]) && KeywordFree(line[n..], n)
  {
    forall j, i: Item | 0 <= j && n <= j <= |line[n..]|
      ensures !(Name(i) <= line[n..][j..])
    {
      assert line[n..][j..] == line[n + j..];
    }
  }

  // ---------- record lines ----------

  /** The text of a value holds no keyword where its line, with a repeat marker or without, exceeds the buffer. */
  ghost predicate ValuePasses(plain: bool, v: Bytes, cap: nat) { KeywordFree(Encode(plain, v), cap - 3) }

  ghost predicate LinesPass(plain: bool, rs: seq<Record>, cap: nat) {
    forall r :: r in rs ==> ValuePasses(plain, r.0, cap) && ValuePasses(plain, r.1, cap)
  }

  /** Where every keyword holds a character that is no hexadecimal digit. */
  function NoDigitAt(i: Item): nat {
    match i
    case PageSizeKey => 2
    case DatabaseKey => 2
    case CanaryKey => 2
    case FormatKey => 1
    case DuplicatesKey => 1
    case DupSortKey => 1
    case DupFixKey => 1
    case _ => 0
  }

  lemma NameIsNoHex(i: Item)
    ensures NoDigitAt(i) < |Name(i)| && !IsXDigit(Name(i)[NoDigitAt(i)])
  {
  }

  lemma {:induction false} EncodeIsHex(v: Bytes)
    ensures forall c :: c in Encode(false, v) ==> IsXDigit(c)
  {
    if v != [] {
      EncodeIsHex(v[1..]);
    }
  }

  /** Any value in bytevalue mode passes: no keyword is spelled in hexadecimal digits. */
  lemma BytevaluePasses(v: Bytes, cap: nat)
    ensures ValuePasses(false, v, cap)
  {
    var e := Encode(false, v);
    EncodeIsHex(v);
    forall j, i: Item | 0 <= j <= |e|
      ensures !(Name(i) <= e[j..])
    {
      NameIsNoHex(i);
      NoPrefixOfHex(Name(i), e[j..], NoDigitAt(i));
    }
  }

  lemma NoPrefixOfHex(name: Bytes, text: Bytes, k: nat)
    requires k < |name| && !IsXDigit(name[k]) && forall c :: c in text ==> IsXDigit(c)
    ensures !(name <= text)
  {
    assert k < |text| ==> text[k] in text;
  }

  /** So does any value whose line the buffer holds. */
  lemma ShortPasses(plain: bool, v: Bytes, cap: nat)
    requires |Encode(plain, v)| + 2 < cap
    ensures ValuePasses(plain, v, cap)
  {
    var e := Encode(plain, v);
    forall j, i: Item | 0 <= j && cap - 3 <= j <= |e|
      ensures !(Name(i) <= e[j..])
    {
      NameIsPlain(i);
      assert e[j..] == [];
    }
  }

  lemma BytevalueLinesPass(rs: seq<Record>, cap: nat)
    ensures LinesPass(false, rs, cap)
  {
    forall r | r in rs
      ensures ValuePasses(false, r.0, cap) && ValuePasses(false, r.1, cap)
    {
      BytevaluePasses(r.0, cap);
      BytevaluePasses(r.1, cap);
    }
  }

  lemma NoNameStartsSo(i: Item)
    ensures Name(i) != [] && Name(i)[0] != ' ' && Name(i)[0] != 'D'
  {
  }

  lemma IndentedIsUnclaimed(line: Bytes)
    requires line != [] && (line[0] == ' ' || line[0] == 'D')
    ensures StartsUnclaimed(line)
  {
    forall i: Item
      ensures !(Name(i) <= line)
    {
      NoNameStartsSo(i);
    }
  }

  lemma FieldIsIgnored(g: Globals, plain: bool, marker: Bytes, v: Bytes, rest: Bytes, cap: nat)
    requires 3 < cap && ValuePasses(plain, v, cap) && (marker == [] || marker == " ")
    ensures ReadLines(g, marker + (FieldText(plain, v) + rest), cap) == ReadLines(g, rest, cap)
  {
    var e := Encode(plain, v);
    EncodeIsPrintable(plain, v);
    var line := marker + (" " + e);
    assert marker + (FieldText(plain, v) + rest) == line + "\n" + rest;
    IndentedIsUnclaimed(line);
    FieldIsFree(marker, e, cap);
    LineIsIgnored(g, line, rest, cap);
  }

  lemma FieldIsFree(marker: Bytes, e: Bytes, cap: nat)
    requires |marker| <= 1 && 3 < cap && KeywordFree(e, cap - 3)
    ensures KeywordFree(marker + (" " + e), cap - 1)
  {
    var line := marker + (" " + e);
    forall j, i: Item | 0 <= j && cap - 1 <= j <= |line|
      ensures !(Name(i) <= line[j..])
    {
      var k := j - |marker| - 1;
      assert line[j..] == e[k..];
    }
  }

  lemma EndMarkIsIgnored(g: Globals, rest: Bytes, cap: nat)
    requires cap >= 9
    ensures ReadLines(g, DATA_END_LINE + rest, cap) == ReadLines(g, rest, cap)
  {
    var line: Bytes := "DATA=END";
    IndentedIsUnclaimed(line);
    assert line + "\n" + rest == DATA_END_LINE + rest;
    forall j, i: Item | 0 <= j && cap - 1 <= j <= |line|
      ensures !(Name(i) <= line[j..])
    {
      NameIsPlain(i);
    }
    LineIsIgnored(g, line, rest, cap);
  }

  /** The rest of a table that is left unread is passed over, line by line, up to the next header. */
  lemma {:induction false} RecordsAreIgnored(g: Globals, plain: bool, concise: bool, rs: seq<Record>,
                                             prev: Option<Bytes>, rest: Bytes, cap: nat)
    requires cap >= 9 && LinesPass(plain, rs, cap)
    ensures ReadLines(g, RecordsText(plain, concise, rs, prev) + (DATA_END_LINE + rest), cap) == ReadLines(g, rest, cap)
    decreases |rs|
  {
    if rs == [] {
      assert [] + (DATA_END_LINE + rest) == DATA_END_LINE + rest;
      EndMarkIsIgnored(g, rest, cap);
    } else {
      var r, more := rs[0], RecordsText(plain, concise, rs[1..], Some(rs[0].0));
      var after := more + (DATA_END_LINE + rest);
      assert r in rs;
      ConcatNestsLast(KeyText(plain, concise, prev, r.0), FieldText(plain, r.1), more, DATA_END_LINE + rest);
      RecordsAreIgnored(g, plain, concise, rs[1..], Some(r.0), rest, cap);
      if concise && prev == Some(r.0) {
        FieldIsIgnored(g, plain, " ", r.1, after, cap);
      } else {
        TwoFieldsAreIgnored(g, plain, r, after, cap);
      }
    }
  }

  lemma TwoFieldsAreIgnored(g: Globals, plain: bool, r: Record, rest: Bytes, cap: nat)
    requires 3 < cap && ValuePasses(plain, r.0, cap) && ValuePasses(plain, r.1, cap)
    ensures ReadLines(g, FieldText(plain, r.0) + (FieldText(plain, r.1) + rest), cap) == ReadLines(g, rest, cap)
  {
    var value := FieldText(plain, r.1) + rest;
    assert [] + (FieldText(plain, r.0) + value) == FieldText(plain, r.0) + value;
    assert [] + value == value;
    FieldIsIgnored(g, plain, [], r.0, value, cap);
    FieldIsIgnored(g, plain, [], r.1, rest, cap);
  }

  /** A longer buffer makes it easier. */
  lemma LinesPassMore(plain: bool, rs: seq<Record>, cap: nat, cap': nat)
    requires LinesPass(plain, rs, cap) && cap <= cap'
    ensures LinesPass(plain, rs, cap')
  {
    forall r | r in rs
      ensures ValuePasses(plain, r.0, cap') && ValuePasses(plain, r.1, cap')
    {
      assert KeywordFree(Encode(plain, r.0), cap - 3) && KeywordFree(Encode(plain, r.1), cap - 3);
    }
  }

  // ---------- a keyword where the buffer ends ----------

  lemma {:induction false} PlainText(text: Bytes)
    requires forall c :: c in text ==> IsPrint(c) && c != '\\'
    ensures Encode(true, text) == text
  {
    if text != [] {
      assert text[0] in text && forall c :: c in text[1..] ==> c in text;
      PlainText(text[1..]);
    }
  }

  /** A printed value without escapes, and how its line is cut when the buffer ends after `pad`. */
  lemma PrintedLineIsCut(g: Globals, pad: Bytes, tail: Bytes, rest: Bytes, cap: nat)
    requires |pad| + 2 == cap && forall c :: c in pad + tail ==> IsPrint(c) && c != '\\'
    ensures ReadLines(g, FieldText(true, pad + tail) + rest, cap) == ReadLines(g, tail + "\n" + rest, cap)
  {
    var line := " " + (pad + tail);
    PlainText(pad + tail);
    assert FieldText(true, pad + tail) + rest == line + "\n" + rest;
    assert line[..cap - 1] == " " + pad && line[cap - 1..] == tail;
    IndentedIsUnclaimed(" " + pad);
    UnclaimedLine(g, " " + pad, ITEMS);
    PieceRead(g, line, rest, cap);
  }

  const HEADER_END: Bytes := "HEADER=END"

  /** In print mode a left-over value can end a header in the middle of a table: its text goes on with HEADER=END where
      the buffer is full. The loader then takes what follows for the records of the table with the reset name and
      flags, the main table. */
  lemma LeftOverEndsHeader(g: Globals, pad: Bytes, rest: Bytes, cap: nat)
    requires cap >= 12 && |pad| + 2 == cap && forall c :: c in pad ==> IsPrint(c) && c != '\\'
    ensures ReadHeader(g, FieldText(true, pad + HEADER_END) + rest, cap) == Parsed(Reset(g), rest)
    ensures Reset(g).name == None && Reset(g).flags == {}
  {
    PrintedLineIsCut(Reset(g), pad, HEADER_END, rest, cap);
    assert HEADER_END + "\n" == END_LINE;
    ReadEnd(Reset(g), rest, cap);
  }

  // ---------- where the loop stops ----------

  /** What is unread after the first `k` records of a dumped table. */
  ghost predicate LeftAfter(plain: bool, concise: bool, rs: seq<Record>, k: nat, tail: Bytes, text: Bytes) {
    0 < k <= |rs| && text == RecordsText(plain, concise, rs[k..], Some(rs[k - 1].0)) + (DATA_END_LINE + tail)
  }

  lemma LeftAfterMore(plain: bool, concise: bool, rs: seq<Record>, k: nat, tail: Bytes, text: Bytes)
    requires rs != [] && LeftAfter(plain, concise, rs[1..], k, tail, text)
    ensures LeftAfter(plain, concise, rs, k + 1, tail, text)
  {
    assert rs[1..][k - 1] == rs[k] && rs[1..][k..] == rs[k + 1..];
  }

  lemma RunTurn(cfg: Config, engine: Engine, f: Feed, t: Txn)
    requires Ready(f)
    ensures var p, run := PullRecord(cfg.plain, f), Run(cfg, engine, f, t);
            if p.Pulled? then
              var (verdict, t1) := Store(cfg, engine, t, p.record);
              if Continues(cfg, verdict) then run == Run(cfg, engine, p.feed, t1)
              else run.1 == p.feed && (run.0 == Skipped <==> verdict == Skip)
            else run.0 != Skipped
  {
  }

  lemma StoreRefuses(cfg: Config, engine: Engine, t: Txn, rs: seq<Record>)
    requires rs != []
    ensures var (verdict, t1) := Store(cfg, engine, t, rs[0]);
            var n := FirstRefused(cfg.put, t.work, rs);
            && (verdict == Go ==> n == 1 + FirstRefused(cfg.put, t1.work, rs[1..]))
            && (verdict == Skip ==> n == 0)
  {
    StoreIsPut(cfg, engine, t, rs[0]);
  }

  /** One turn: the loop goes on after the first record, or it stops and the records after that one are unread. */
  lemma SkippedTurn(cfg: Config, engine: Engine, concise: bool, rs: seq<Record>, prev: Option<Bytes>, tail: Bytes,
                    f: Feed, t: Txn) returns (goesOn: bool, f': Feed, t': Txn)
    requires AtRecords(cfg.plain, concise, rs, prev, tail, f) && !cfg.resume && rs != []
    ensures AtRecords(cfg.plain, concise, rs[1..], Some(rs[0].0), tail, f')
    ensures var run, n := Run(cfg, engine, f, t), FirstRefused(cfg.put, t.work, rs);
            if goesOn then run == Run(cfg, engine, f', t') && n == 1 + FirstRefused(cfg.put, t'.work, rs[1..])
            else run.1 == f' && (run.0 == Skipped ==> n == 0)
  {
    NextDumped(cfg.plain, concise, rs, prev, tail, f);
    RunTurn(cfg, engine, f, t);
    StoreRefuses(cfg, engine, t, rs);
    f' := PullRecord(cfg.plain, f).feed;
    var (verdict, t1) := Store(cfg, engine, t, rs[0]);
    goesOn, t' := verdict == Go, t1;
  }

  lemma EmptyIsNotSkipped(cfg: Config, engine: Engine, concise: bool, prev: Option<Bytes>, tail: Bytes, f: Feed, t: Txn)
    requires AtRecords(cfg.plain, concise, [], prev, tail, f)
    ensures Run(cfg, engine, f, t).0 != Skipped
  {
    NextDumped(cfg.plain, concise, [], prev, tail, f);
    RunTurn(cfg, engine, f, t);
  }

  /** A loop that stops at a refused record of a dump leaves exactly the records after it, up to the end mark. */
  lemma {:induction false} SkippedLeaves(cfg: Config, engine: Engine, concise: bool, rs: seq<Record>,
                                         prev: Option<Bytes>, tail: Bytes, f: Feed, t: Txn)
    requires AtRecords(cfg.plain, concise, rs, prev, tail, f) && !cfg.resume
    ensures var run := Run(cfg, engine, f, t);
            run.0 == Skipped ==>
              LeftAfter(cfg.plain, concise, rs, FirstRefused(cfg.put, t.work, rs) + 1, tail, run.1.text)
    decreases |rs|
  {
    if rs == [] {
      EmptyIsNotSkipped(cfg, engine, concise, prev, tail, f, t);
    } else {
      var goesOn, f', t' := SkippedTurn(cfg, engine, concise, rs, prev, tail, f, t);
      if goesOn && Run(cfg, engine, f', t').0 == Skipped {
        SkippedLeaves(cfg, engine, concise, rs[1..], Some(rs[0].0), tail, f', t');
        var k := FirstRefused(cfg.put, t'.work, rs[1..]) + 1;
        LeftAfterMore(cfg.plain, concise, rs, k, tail, Run(cfg, engine, f', t').1.text);
      }
    }
  }
}
