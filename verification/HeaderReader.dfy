/** `readhdr` over the input: its loop, and what it makes of the lines of a printed header. */
module HeaderReader {
  import opened Octets
  import opened LineReader
  import opened Header
  import opened HeaderEntries

  // ---------- readhdr ----------

  datatype Outcome = Parsed(g: Globals, rest: Bytes) | AtEnd | Exited

  /** The loop of `readhdr`: a line, or as much of it as the buffer holds, at a time. */
  function ReadLines(g: Globals, s: Bytes, cap: nat): Outcome
    requires cap >= 2
    decreases |s|
  {
    if s == [] then AtEnd
    else
      var chunk := Chunk(s, cap);
      match ReadHeaderLine(g, CString(chunk))
      case Next(g') => ReadLines(g', s[|chunk|..], cap)
      case Done(g') => Parsed(g', s[|chunk|..])
      case Exit => Exited
  }

  function Reset(g: Globals): Globals { g.(name := None, flags := {}, sequence := 0) }

  function ReadHeader(g: Globals, s: Bytes, cap: nat): Outcome
    requires cap >= 2
  {
    ReadLines(Reset(g), s, cap)
  }

  /** The file-level variables of mdbx_load. */
  class LoaderState {
    var globals: Globals

    constructor (g: Globals)
      ensures globals == g
    {
      globals := g;
    }

    method Readhdr(stdin: Stdin, buf: Val) returns (err: Status, exited: bool)
      requires buf.IsBuffer()
      modifies this, stdin, buf.base
      ensures match ReadHeader(old(globals), old(stdin.rest), buf.len)
              case Parsed(g, rest) => err == Success && !exited && globals == g && stdin.rest == rest
              case AtEnd => err == EndOfFile && !exited && stdin.rest == []
              case Exited => exited
    {
      globals := Reset(globals);
      ghost var goal := ReadLines(globals, stdin.rest, buf.len);
      while true
        invariant ReadLines(globals, stdin.rest, buf.len) == goal
        decreases |stdin.rest|
      {
        ghost var chunk := Chunk(stdin.rest, buf.len);
        var ok, len := ReadMore(stdin, buf.base, 0, buf.len);
        if !ok {
          return EndOfFile, false;
        }
        assert buf.base[..len] == CString(chunk) by {
          assert buf.base[..0 + len] == old(buf.base[..0]) + CString(chunk);
        }
        match ReadHeaderLine(globals, buf.base[..len])
        case Next(g) => globals := g;
        case Done(g) =>
          globals := g;
          return Success, false;
        case Exit =>
          return NoData, true;
      }
    }
  }

  // ---------- printed headers ----------

  function EntriesText(es: seq<Entry>): Bytes {
    if es == [] then [] else EntryLine(es[0], "\n") + EntriesText(es[1..])
  }

  function MeaningAll(g: Globals, es: seq<Entry>): Globals
    decreases |es|
  {
    if es == [] then g else MeaningAll(Meaning(g, es[0]), es[1..])
  }

  lemma {:induction false} MeaningAllAppend(g: Globals, es: seq<Entry>, fs: seq<Entry>)
    ensures MeaningAll(g, es + fs) == MeaningAll(MeaningAll(g, es), fs)
    decreases |es|
  {
    if es == [] {
      assert es + fs == fs;
    } else {
      assert (es + fs)[0] == es[0] && (es + fs)[1..] == es[1..] + fs;
      MeaningAllAppend(Meaning(g, es[0]), es[1..], fs);
    }
  }

  /** The line of an entry fits a buffer of `cap` characters; its newline need not. */
  predicate Fits(e: Entry, cap: nat) { |EntryLine(e, [])| < cap }

  lemma ReadLinesStep(g: Globals, s: Bytes, cap: nat, g': Globals, rest: Bytes)
    requires cap >= 2 && s != []
    requires var c := Chunk(s, cap); ReadHeaderLine(g, CString(c)) == Next(g') && rest == s[|c|..]
    ensures ReadLines(g, s, cap) == ReadLines(g', rest, cap)
  {
  }

  /** Reading past a line that the buffer can hold: its newline may be left for the next turn. */
  lemma ReadTextLine(g: Globals, line: Bytes, rest: Bytes, cap: nat, g': Globals)
    requires 3 <= cap && |line| < cap && '\n' !in line && '\0' !in line && line != []
    requires ReadHeaderLine(g, line) == ReadHeaderLine(g, line + "\n") == Next(g')
    ensures ReadLines(g, line + "\n" + rest, cap) == ReadLines(g', rest, cap)
  {
    var s := line + "\n" + rest;
    IndexOfAt('\n', line, rest);
    if |line| + 1 < cap {
      assert Chunk(s, cap) == line + "\n";
      CStringIsWhole(line + "\n");
      assert s[|line| + 1..] == rest;
      ReadLinesStep(g, s, cap, g', rest);
    } else {
      assert Chunk(s, cap) == line;
      CStringIsWhole(line);
      assert s[|line|..] == "\n" + rest;
      ReadLinesStep(g, s, cap, g', "\n" + rest);
      ReadBlank(g', rest, cap);
    }
  }

  lemma EntryIsOneLine(e: Entry)
    requires ValidEntry(e)
    ensures '\n' !in EntryLine(e, []) && '\0' !in EntryLine(e, []) && EntryLine(e, []) != []
  {
    var kw := Name(EntryItem(e));
    EntryIsLine(e);
    NamesAreKeywords(EntryItem(e));
    assert forall c :: c in EntryLine(e, []) ==> c in kw || c == '=' || c in EntryValue(e);
  }

  /** Reading past one printed line. */
  lemma ReadEntry(g: Globals, e: Entry, rest: Bytes, cap: nat)
    requires ValidEntry(e) && cap >= 3 && Fits(e, cap)
    ensures ReadLines(g, EntryLine(e, "\n") + rest, cap) == ReadLines(Meaning(g, e), rest, cap)
  {
    var line := EntryLine(e, []);
    EntryIsOneLine(e);
    ReadEntryLine(g, e, []);
    ReadEntryLine(g, e, "\n");
    assert EntryLine(e, "\n") == line + "\n";
    ReadTextLine(g, line, rest, cap, Meaning(g, e));
  }

  lemma ReadBlank(g: Globals, rest: Bytes, cap: nat)
    requires cap >= 3
    ensures ReadLines(g, "\n" + rest, cap) == ReadLines(g, rest, cap)
  {
    assert [] + "\n" + rest == "\n" + rest;
    IndexOfAt('\n', [], rest);
    assert Chunk("\n" + rest, cap) == "\n";
    CStringIsWhole("\n");
    BlankIsIgnored(g, ITEMS);
    assert ("\n" + rest)[1..] == rest;
  }

  lemma ReadEnd(g: Globals, rest: Bytes, cap: nat)
    requires cap >= 12
    ensures ReadLines(g, END_LINE + rest, cap) == Parsed(g, rest)
  {
    var body: Bytes := "HEADER=END";
    assert END_LINE == body + "\n";
    assert body + "\n" + rest == END_LINE + rest;
    IndexOfAt('\n', body, rest);
    assert Chunk(END_LINE + rest, cap) == END_LINE;
    CStringIsWhole(END_LINE);
    ReadEndLine(g);
    assert (END_LINE + rest)[|END_LINE|..] == rest;
  }

  /** Reading a printed header applies the meaning of its lines in turn and stops right after it. */
  lemma {:induction false} ReadEntries(g: Globals, es: seq<Entry>, rest: Bytes, cap: nat)
    requires cap >= 12 && forall e :: e in es ==> ValidEntry(e) && Fits(e, cap)
    ensures ReadLines(g, EntriesText(es) + (END_LINE + rest), cap) == Parsed(MeaningAll(g, es), rest)
    decreases |es|
  {
    if es == [] {
      assert [] + (END_LINE + rest) == END_LINE + rest;
      ReadEnd(g, rest, cap);
    } else {
      var more := EntriesText(es[1..]);
      assert es[0] in es;
      assert EntriesText(es) + (END_LINE + rest) == EntryLine(es[0], "\n") + (more + (END_LINE + rest));
      ReadEntry(g, es[0], more + (END_LINE + rest), cap);
      ReadEntries(Meaning(g, es[0]), es[1..], rest, cap);
    }
  }
}
