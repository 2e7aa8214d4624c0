/** `getopt` of mdbx-wingetopt.h: a machine whose position inside an argument survives between calls, against the
    option grammar of section 12.2 of POSIX.1-2008 XBD (guidelines 5, 6 and 10). */
module Getopt {
  import opened Octets

  // ---------- option letters ----------

  datatype Letter = Illegal | Plain | TakesArgument

  /** `strchr(opts, c)`, and whether a colon follows the first occurrence. */
  function LetterOf(opts: Bytes, c: Octet): Letter {
    var i := IndexOf(c, opts);
    if c == ':' || i == |opts| then Illegal
    else if i + 1 < |opts| && opts[i + 1] == ':' then TakesArgument
    else Plain
  }

  /** What one call reports: an option and its argument, or `?` for an illegal letter or a missing argument. */
  datatype Event = Opt(c: Octet, arg: Option<Bytes>) | BadLetter(c: Octet) | NoArgument(c: Octet)

  // ---------- the grammar ----------

  /** An argument that starts with '-': letters without arguments, and maybe a last one that takes an argument, which
      is either attached, or is the next argument, or is missing. */
  datatype Tail = NoTail | Attached(c: Octet, arg: Bytes) | Separate(c: Octet, arg: Bytes) | Missing(c: Octet)

  datatype Word = Word(letters: Bytes, tail: Tail)

  /** A command line: option words, maybe the `--` that ends them, and operands. */
  datatype Line = Line(words: seq<Word>, dashes: bool, operands: seq<Bytes>)

  predicate IsOption(a: Bytes) { |a| >= 2 && a[0] == '-' }

  predicate ValidWord(opts: Bytes, w: Word) {
    && (forall i :: 0 <= i < |w.letters| ==> LetterOf(opts, w.letters[i]) != TakesArgument)
    && match w.tail
       case NoTail => w.letters != []
       case Attached(c, a) => LetterOf(opts, c) == TakesArgument && a != []
       case Separate(c, a) => LetterOf(opts, c) == TakesArgument
       case Missing(c) => LetterOf(opts, c) == TakesArgument
  }

  /** `--` is never an option word, and a missing argument can only be at the very end. */
  predicate ValidWords(opts: Bytes, ws: seq<Word>, atEnd: bool) {
    ws == [] ||
    (&& ValidWord(opts, ws[0]) && WordText(ws[0])[0] != "--"
     && (ws[0].tail.Missing? ==> ws[1..] == [] && atEnd)
     && ValidWords(opts, ws[1..], atEnd))
  }

  predicate ValidLine(opts: Bytes, l: Line) {
    && ValidWords(opts, l.words, After(l.dashes, l.operands) == [])
    && (l.dashes || l.operands == [] || !IsOption(l.operands[0]))
  }

  /** What follows the option words. */
  function After(dashes: bool, operands: seq<Bytes>): seq<Bytes> {
    (if dashes then ["--"] else []) + operands
  }

  /** What follows the letters inside the same argument. */
  function TailText(t: Tail): Bytes {
    match t
    case NoTail => []
    case Attached(c, a) => [c] + a
    case Separate(c, _) => [c]
    case Missing(c) => [c]
  }

  function WordText(w: Word): (s: seq<Bytes>)
    ensures s != []
  {
    var first := "-" + w.letters + TailText(w.tail);
    if w.tail.Separate? then [first, w.tail.arg] else [first]
  }

  function WordsText(ws: seq<Word>): seq<Bytes> {
    if ws == [] then [] else WordText(ws[0]) + WordsText(ws[1..])
  }

  /** The arguments that a command line is written as. */
  function LineText(l: Line): seq<Bytes> {
    WordsText(l.words) + After(l.dashes, l.operands)
  }

  function LetterEvents(opts: Bytes, letters: Bytes): seq<Event> {
    if letters == [] then []
    else [if LetterOf(opts, letters[0]) == Illegal then BadLetter(letters[0]) else Opt(letters[0], None)]
         + LetterEvents(opts, letters[1..])
  }

  function TailEvents(t: Tail): seq<Event> {
    match t
    case NoTail => []
    case Attached(c, a) => [Opt(c, Some(a))]
    case Separate(c, a) => [Opt(c, Some(a))]
    case Missing(c) => [NoArgument(c)]
  }

  /** What the words mean: an attached and a separate argument mean the same, and so do grouped and separate letters. */
  function Meaning(opts: Bytes, ws: seq<Word>): seq<Event> {
    if ws == [] then [] else LetterEvents(opts, ws[0].letters) + TailEvents(ws[0].tail) + Meaning(opts, ws[1..])
  }

  // ---------- what is left to parse, at any point ----------

  /** The option words from argument `i` on, and the index of the first operand. */
  function Words(opts: Bytes, argv: seq<Bytes>, i: nat): (seq<Word>, nat)
    requires i <= |argv|
    decreases |argv| - i, 1
  {
    if i == |argv| || !IsOption(argv[i]) then ([], i)
    else if argv[i] == "--" then ([], i + 1)
    else Cluster(opts, argv, i, 1, [])
  }

  /** The word being read, from position `p` of argument `i`, after `seen`. */
  function Cluster(opts: Bytes, argv: seq<Bytes>, i: nat, p: nat, seen: Bytes): (seq<Word>, nat)
    requires i < |argv| && p <= |argv[i]|
    decreases |argv| - i, 0, |argv[i]| - p
  {
    if p == |argv[i]| then
      var (ws, k) := Words(opts, argv, i + 1);
      ([Word(seen, NoTail)] + ws, k)
    else if LetterOf(opts, argv[i][p]) != TakesArgument then
      Cluster(opts, argv, i, p + 1, seen + [argv[i][p]])
    else
      var c, attached := argv[i][p], argv[i][p + 1..];
      if attached != [] then
        var (ws, k) := Words(opts, argv, i + 1);
        ([Word(seen, Attached(c, attached))] + ws, k)
      else if i + 1 == |argv| then
        ([Word(seen, Missing(c))], |argv|)
      else
        var (ws, k) := Words(opts, argv, i + 2);
        ([Word(seen, Separate(c, argv[i + 1]))] + ws, k)
  }

  // ---------- the split is the grammar's ----------

  /** `ws` are option words written from argument `i` on, and `k` is the index of the first operand after them. */
  ghost predicate Splits(opts: Bytes, argv: seq<Bytes>, i: nat, ws: seq<Word>, k: nat)
    requires i <= |argv|
    decreases |ws|
  {
    if ws == [] then
      if i < |argv| && argv[i] == "--" then k == i + 1 else k == i && (i == |argv| || !IsOption(argv[i]))
    else
      var w := ws[0];
      var j := i + |WordText(w)|;
      && ValidWord(opts, w) && WordText(w)[0] != "--"
      && j <= |argv| && argv[i..j] == WordText(w)
      && (w.tail.Missing? ==> j == |argv|)
      && Splits(opts, argv, j, ws[1..], k)
  }

  lemma {:induction false} WordsSplit(opts: Bytes, argv: seq<Bytes>, i: nat)
    requires i <= |argv|
    ensures var (ws, k) := Words(opts, argv, i); Splits(opts, argv, i, ws, k)
    decreases |argv| - i, 1
  {
    if i < |argv| && IsOption(argv[i]) && argv[i] != "--" {
      assert argv[i] == "-" + [] + argv[i][1..];
      ClusterSplits(opts, argv, i, 1, []);
    }
  }

  lemma SeenLetter(a: Bytes, p: nat, seen: Bytes)
    requires p < |a| && a == "-" + seen + a[p..]
    ensures a == "-" + (seen + [a[p]]) + a[p + 1..]
  {
    assert a[p..] == [a[p]] + a[p + 1..];
    ConcatAssociates("-" + seen, [a[p]], a[p + 1..]);
    ConcatAssociates("-", seen, [a[p]]);
  }

  lemma {:induction false} ClusterSplits(opts: Bytes, argv: seq<Bytes>, i: nat, p: nat, seen: Bytes)
    requires i < |argv| && 1 <= p <= |argv[i]| && |argv[i]| >= 2 && argv[i] != "--"
    requires argv[i] == "-" + seen + argv[i][p..]
    requires forall j :: 0 <= j < |seen| ==> LetterOf(opts, seen[j]) != TakesArgument
    ensures var (ws, k) := Cluster(opts, argv, i, p, seen); Splits(opts, argv, i, ws, k)
    decreases |argv| - i, 0, |argv[i]| - p
  {
    var a := argv[i];
    if p < |a| && LetterOf(opts, a[p]) != TakesArgument {
      SeenLetter(a, p, seen);
      ClusterSplits(opts, argv, i, p + 1, seen + [a[p]]);
    } else if p == |a| {
      assert a == "-" + seen + [] == "-" + seen;
      WordsSplit(opts, argv, i + 1);
      LettersSplit(opts, argv, i, seen);
    } else if p + 1 < |a| {
      WordsSplit(opts, argv, i + 1);
      AttachedSplits(opts, argv, i, p, seen);
    } else if i + 1 == |argv| {
      MissingSplits(opts, argv, i, p, seen);
    } else {
      WordsSplit(opts, argv, i + 2);
      SeparateSplits(opts, argv, i, p, seen);
    }
  }

  /** The end of a word whose last letter takes the next argument. */
  lemma SeparateSplits(opts: Bytes, argv: seq<Bytes>, i: nat, p: nat, seen: Bytes)
    requires i + 1 < |argv| && p + 1 == |argv[i]| && argv[i] == "-" + seen + argv[i][p..] && argv[i] != "--"
    requires forall j :: 0 <= j < |seen| ==> LetterOf(opts, seen[j]) != TakesArgument
    requires LetterOf(opts, argv[i][p]) == TakesArgument
    requires Splits(opts, argv, i + 2, Words(opts, argv, i + 2).0, Words(opts, argv, i + 2).1)
    ensures var (ws, k) := Cluster(opts, argv, i, p, seen); Splits(opts, argv, i, ws, k)
  {
    var c := argv[i][p];
    assert argv[i][p..] == [c];
    SplitsCons(opts, argv, i, Word(seen, Separate(c, argv[i + 1])));
  }

  /** The end of a word whose last letter takes an argument that is missing. */
  lemma MissingSplits(opts: Bytes, argv: seq<Bytes>, i: nat, p: nat, seen: Bytes)
    requires i + 1 == |argv| && p + 1 == |argv[i]| && argv[i] == "-" + seen + argv[i][p..] && argv[i] != "--"
    requires forall j :: 0 <= j < |seen| ==> LetterOf(opts, seen[j]) != TakesArgument
    requires LetterOf(opts, argv[i][p]) == TakesArgument
    ensures var (ws, k) := Cluster(opts, argv, i, p, seen); Splits(opts, argv, i, ws, k)
  {
    var w := Word(seen, Missing(argv[i][p]));
    assert argv[i][p..] == [argv[i][p]];
    SplitsCons(opts, argv, i, w);
    assert [w] + [] == [w];
  }

  /** The end of a word with an attached argument. */
  lemma AttachedSplits(opts: Bytes, argv: seq<Bytes>, i: nat, p: nat, seen: Bytes)
    requires i < |argv| && p + 1 < |argv[i]| && argv[i] == "-" + seen + argv[i][p..] && argv[i] != "--"
    requires forall j :: 0 <= j < |seen| ==> LetterOf(opts, seen[j]) != TakesArgument
    requires LetterOf(opts, argv[i][p]) == TakesArgument
    requires Splits(opts, argv, i + 1, Words(opts, argv, i + 1).0, Words(opts, argv, i + 1).1)
    ensures var (ws, k) := Cluster(opts, argv, i, p, seen); Splits(opts, argv, i, ws, k)
  {
    var c, attached := argv[i][p], argv[i][p + 1..];
    assert argv[i][p..] == [c] + attached;
    ClusterAttached(opts, argv, i, p, seen);
    SplitsCons(opts, argv, i, Word(seen, Attached(c, attached)));
  }

  lemma ClusterAttached(opts: Bytes, argv: seq<Bytes>, i: nat, p: nat, seen: Bytes)
    requires i < |argv| && p + 1 < |argv[i]| && LetterOf(opts, argv[i][p]) == TakesArgument
    ensures var (ws, k) := Words(opts, argv, i + 1);
            Cluster(opts, argv, i, p, seen) == ([Word(seen, Attached(argv[i][p], argv[i][p + 1..]))] + ws, k)
  {
  }

  /** The end of a word of letters without arguments. */
  lemma LettersSplit(opts: Bytes, argv: seq<Bytes>, i: nat, seen: Bytes)
    requires i < |argv| && |argv[i]| >= 2 && argv[i] == "-" + seen && argv[i] != "--"
    requires forall j :: 0 <= j < |seen| ==> LetterOf(opts, seen[j]) != TakesArgument
    requires Splits(opts, argv, i + 1, Words(opts, argv, i + 1).0, Words(opts, argv, i + 1).1)
    ensures var (ws, k) := Cluster(opts, argv, i, |argv[i]|, seen); Splits(opts, argv, i, ws, k)
  {
    SplitsCons(opts, argv, i, Word(seen, NoTail));
  }

  lemma SplitsStep(opts: Bytes, argv: seq<Bytes>, i: nat, w: Word, ws: seq<Word>, k: nat)
    requires ValidWord(opts, w) && WordText(w)[0] != "--"
    requires i + |WordText(w)| <= |argv| && argv[i..i + |WordText(w)|] == WordText(w)
    requires w.tail.Missing? ==> i + |WordText(w)| == |argv|
    requires Splits(opts, argv, i + |WordText(w)|, ws, k)
    ensures Splits(opts, argv, i, [w] + ws, k)
  {
    assert ([w] + ws)[1..] == ws;
  }

  lemma SliceIsWord(argv: seq<Bytes>, i: nat, w: Word)
    requires i + |WordText(w)| <= |argv| && WordText(w)[0] == argv[i]
    requires w.tail.Separate? ==> w.tail.arg == argv[i + 1]
    ensures argv[i..i + |WordText(w)|] == WordText(w)
  {
    if w.tail.Separate? {
      assert argv[i..i + 2] == [argv[i], argv[i + 1]];
    } else {
      assert argv[i..i + 1] == [argv[i]];
    }
  }

  lemma SplitsCons(opts: Bytes, argv: seq<Bytes>, i: nat, w: Word)
    requires ValidWord(opts, w) && WordText(w)[0] != "--"
    requires i + |WordText(w)| <= |argv| && WordText(w)[0] == argv[i]
    requires w.tail.Separate? ==> w.tail.arg == argv[i + 1]
    requires w.tail.Missing? ==> i + 1 == |argv|
    requires var (ws, k) := Words(opts, argv, i + |WordText(w)|); Splits(opts, argv, i + |WordText(w)|, ws, k)
    ensures var (ws, k) := Words(opts, argv, i + |WordText(w)|); Splits(opts, argv, i, [w] + ws, k)
  {
    var (ws, k) := Words(opts, argv, i + |WordText(w)|);
    SliceIsWord(argv, i, w);
    SplitsStep(opts, argv, i, w, ws, k);
  }

  /** The letters of a word are read one by one. */
  lemma {:induction false} ClusterLetters(opts: Bytes, argv: seq<Bytes>, i: nat, p: nat, seen: Bytes, letters: Bytes)
    requires i < |argv| && p + |letters| <= |argv[i]| && argv[i][p..p + |letters|] == letters
    requires forall j :: 0 <= j < |letters| ==> LetterOf(opts, letters[j]) != TakesArgument
    ensures Cluster(opts, argv, i, p, seen) == Cluster(opts, argv, i, p + |letters|, seen + letters)
    decreases |letters|
  {
    if letters == [] {
      assert seen + [] == seen;
    } else {
      assert argv[i][p] == letters[0];
      assert argv[i][p + 1..p + |letters|] == letters[1..];
      ClusterLetters(opts, argv, i, p + 1, seen + [letters[0]], letters[1..]);
      assert seen + [letters[0]] + letters[1..] == seen + letters;
    }
  }

  lemma ReadWord(opts: Bytes, argv: seq<Bytes>, i: nat, w: Word)
    requires ValidWord(opts, w) && WordText(w)[0] != "--"
    requires i + |WordText(w)| <= |argv| && argv[i..i + |WordText(w)|] == WordText(w)
    requires w.tail.Missing? ==> i + 1 == |argv|
    ensures var (ws, k) := Words(opts, argv, i + |WordText(w)|);
            Words(opts, argv, i) == ([w] + ws, k)
  {
    var a := argv[i];
    assert a == WordText(w)[0];
    ConcatAssociates("-", w.letters, TailText(w.tail));
    assert a[1..] == w.letters + TailText(w.tail);
    Slices(a, 1, w.letters, TailText(w.tail));
    ClusterLetters(opts, argv, i, 1, [], w.letters);
    assert [] + w.letters == w.letters;
    ReadTail(opts, argv, i, w);
  }

  lemma ReadTail(opts: Bytes, argv: seq<Bytes>, i: nat, w: Word)
    requires ValidWord(opts, w) && i + |WordText(w)| <= |argv| && argv[i..i + |WordText(w)|] == WordText(w)
    requires w.tail.Missing? ==> i + 1 == |argv|
    ensures var (ws, k) := Words(opts, argv, i + |WordText(w)|);
            1 + |w.letters| <= |argv[i]| && Cluster(opts, argv, i, 1 + |w.letters|, w.letters) == ([w] + ws, k)
  {
    var a, p := argv[i], 1 + |w.letters|;
    assert a == WordText(w)[0] && a[p..] == TailText(w.tail);
    match w.tail {
      case NoTail => assert p == |a|;
      case Attached(c, arg) => assert a[p] == c && a[p + 1..] == arg;
      case Separate(c, arg) => assert a[p] == c && a[p + 1..] == [] && argv[i + 1] == WordText(w)[1];
      case Missing(c) =>
        assert a[p] == c && a[p + 1..] == [];
        assert Words(opts, argv, i + 1) == ([], |argv|);
        assert [w] + [] == [w];
    }
  }

  /** There is exactly one way to split a command line, and the machine's is it. */
  lemma {:induction false} SplitIsUnique(opts: Bytes, argv: seq<Bytes>, i: nat, ws: seq<Word>, k: nat)
    requires i <= |argv|
    ensures Splits(opts, argv, i, ws, k) <==> Words(opts, argv, i) == (ws, k)
    decreases |ws|
  {
    WordsSplit(opts, argv, i);
    if Splits(opts, argv, i, ws, k) && ws != [] {
      var j := i + |WordText(ws[0])|;
      ReadWord(opts, argv, i, ws[0]);
      SplitIsUnique(opts, argv, j, ws[1..], k);
      assert [ws[0]] + ws[1..] == ws;
    }
  }

  // ---------- rendering and parsing ----------

  /** `after` can follow option words: `dashes` arguments of it end the options. */
  ghost predicate EndsOptions(after: seq<Bytes>, dashes: nat) {
    if after != [] && after[0] == "--" then dashes == 1
    else dashes == 0 && (after == [] || !IsOption(after[0]))
  }

  lemma FirstWordText(argv: seq<Bytes>, i: nat, ws: seq<Word>, after: seq<Bytes>)
    requires ws != [] && i <= |argv| && argv[i..] == WordsText(ws) + after
    ensures var text, rest := WordText(ws[0]), WordsText(ws[1..]);
            && |WordsText(ws)| == |text| + |rest| && i + |text| <= |argv|
            && argv[i..i + |text|] == text && argv[i + |text|..] == rest + after
            && (ws[1..] == [] && after == [] ==> i + |text| == |argv|)
  {
    ConcatAssociates(WordText(ws[0]), WordsText(ws[1..]), after);
    Slices(argv, i, WordText(ws[0]), WordsText(ws[1..]) + after);
  }

  lemma {:induction false} TextSplits(opts: Bytes, argv: seq<Bytes>, i: nat, ws: seq<Word>, after: seq<Bytes>,
                                      dashes: nat)
    requires EndsOptions(after, dashes) && ValidWords(opts, ws, after == [])
    requires i <= |argv| && argv[i..] == WordsText(ws) + after
    ensures Splits(opts, argv, i, ws, |argv| - |after| + dashes)
    decreases |ws|
  {
    if ws == [] {
      assert argv[i..] == [] + after == after;
      assert after != [] ==> argv[i] == after[0];
    } else {
      FirstWordText(argv, i, ws, after);
      TextSplits(opts, argv, i + |WordText(ws[0])|, ws[1..], after, dashes);
    }
  }

  /** Rendering any command line of the grammar and parsing it gives the command line back. */
  lemma ParseRendered(opts: Bytes, prog: Bytes, l: Line)
    requires ValidLine(opts, l)
    ensures var argv := [prog] + LineText(l);
            var (ws, k) := Words(opts, argv, 1);
            ws == l.words && k <= |argv| && argv[k..] == l.operands
  {
    var argv := [prog] + LineText(l);
    var after := After(l.dashes, l.operands);
    var k := |argv| - |l.operands|;
    assert argv[1..] == LineText(l);
    TextSplits(opts, argv, 1, l.words, after, if l.dashes then 1 else 0);
    SplitIsUnique(opts, argv, 1, l.words, k);
    assert argv[k..] == l.operands;
  }

  /** The other way round: split arguments are what their words, the `--` if any, and the operands are written as. */
  lemma {:induction false} SplitsText(opts: Bytes, argv: seq<Bytes>, i: nat, ws: seq<Word>, k: nat)
    returns (dashes: bool)
    requires i <= |argv| && Splits(opts, argv, i, ws, k)
    ensures i <= k <= |argv| && argv[i..] == WordsText(ws) + After(dashes, argv[k..])
    ensures ValidWords(opts, ws, After(dashes, argv[k..]) == [])
    ensures dashes || argv[k..] == [] || !IsOption(argv[k..][0])
    decreases |ws|
  {
    if ws == [] {
      dashes := k == i + 1;
      assert argv[i..] == After(dashes, argv[k..]) == [] + After(dashes, argv[k..]);
    } else {
      var j := i + |WordText(ws[0])|;
      dashes := SplitsText(opts, argv, j, ws[1..], k);
      SplitsTextCons(opts, argv, i, ws, After(dashes, argv[k..]));
    }
  }

  lemma SplitsTextCons(opts: Bytes, argv: seq<Bytes>, i: nat, ws: seq<Word>, after: seq<Bytes>)
    requires ws != [] && ValidWord(opts, ws[0])
    requires i + |WordText(ws[0])| <= |argv| && argv[i..i + |WordText(ws[0])|] == WordText(ws[0])
    requires argv[i + |WordText(ws[0])|..] == WordsText(ws[1..]) + after && ValidWords(opts, ws[1..], after == [])
    requires WordText(ws[0])[0] != "--" && (ws[0].tail.Missing? ==> i + |WordText(ws[0])| == |argv|)
    ensures argv[i..] == WordsText(ws) + after && ValidWords(opts, ws, after == [])
  {
    var j := i + |WordText(ws[0])|;
    ConcatAssociates(WordText(ws[0]), WordsText(ws[1..]), after);
    assert argv[i..] == argv[i..j] + argv[j..];
    if ws[0].tail.Missing? {
      assert argv[j..] == [];
      NoText(ws[1..]);
    }
  }

  lemma NoText(ws: seq<Word>)
    requires WordsText(ws) == []
    ensures ws == []
  {
  }

  /** Every argument vector is a command line of the grammar, and parsing finds which. */
  lemma RenderParsed(opts: Bytes, argv: seq<Bytes>) returns (l: Line)
    requires argv != []
    ensures ValidLine(opts, l) && LineText(l) == argv[1..]
    ensures var (ws, k) := Words(opts, argv, 1); ws == l.words && k <= |argv| && argv[k..] == l.operands
  {
    var (ws, k) := Words(opts, argv, 1);
    WordsSplit(opts, argv, 1);
    var dashes := SplitsText(opts, argv, 1, ws, k);
    l := Line(ws, dashes, argv[k..]);
  }

  // ---------- the events that are still to come ----------

  lemma {:induction false} LetterEventsAppend(opts: Bytes, a: Bytes, b: Bytes)
    ensures LetterEvents(opts, a + b) == LetterEvents(opts, a) + LetterEvents(opts, b)
  {
    if a == [] {
      assert a + b == b;
    } else {
      assert (a + b)[0] == a[0] && (a + b)[1..] == a[1..] + b;
      LetterEventsAppend(opts, a[1..], b);
    }
  }

  lemma MeaningFirst(opts: Bytes, seen: Bytes, w: Word, ws: seq<Word>)
    ensures Meaning(opts, [Word(seen + w.letters, w.tail)] + ws) == LetterEvents(opts, seen) + Meaning(opts, [w] + ws)
  {
    var rest := TailEvents(w.tail) + Meaning(opts, ws);
    LetterEventsAppend(opts, seen, w.letters);
    assert ([Word(seen + w.letters, w.tail)] + ws)[1..] == ws && ([w] + ws)[1..] == ws;
    ConcatAssociates(LetterEvents(opts, seen), LetterEvents(opts, w.letters), rest);
    ConcatAssociates(LetterEvents(opts, seen + w.letters), TailEvents(w.tail), Meaning(opts, ws));
    ConcatAssociates(LetterEvents(opts, w.letters), TailEvents(w.tail), Meaning(opts, ws));
  }

  /** The letters already read of a word do not change what is to come. */
  lemma {:induction false} SeenEvents(opts: Bytes, argv: seq<Bytes>, i: nat, p: nat, seen: Bytes, more: Bytes)
    requires i < |argv| && p <= |argv[i]|
    ensures var (ws, k) := Cluster(opts, argv, i, p, seen + more);
            var (ws', k') := Cluster(opts, argv, i, p, more);
            k == k' && Meaning(opts, ws) == LetterEvents(opts, seen) + Meaning(opts, ws')
    decreases |argv[i]| - p
  {
    if p < |argv[i]| && LetterOf(opts, argv[i][p]) != TakesArgument {
      ConcatAssociates(seen, more, [argv[i][p]]);
      SeenEvents(opts, argv, i, p + 1, seen, more + [argv[i][p]]);
    } else {
      var (ws, k) := Cluster(opts, argv, i, p, more);
      assert ws == [ws[0]] + ws[1..];
      MeaningFirst(opts, seen, ws[0], ws[1..]);
    }
  }

  /** The option words and the first operand still ahead of the machine at `argv[i]`, position `p`. */
  function Ahead(opts: Bytes, argv: seq<Bytes>, i: nat, p: nat): (seq<Word>, nat)
    requires i <= |argv| && (p == 1 || (i < |argv| && p <= |argv[i]|))
  {
    if p == 1 then Words(opts, argv, i) else Cluster(opts, argv, i, p, [])
  }

  ghost function Pending(opts: Bytes, argv: seq<Bytes>, i: nat, p: nat): (seq<Event>, nat)
    requires i <= |argv| && (p == 1 || (i < |argv| && p <= |argv[i]|))
  {
    (Meaning(opts, Ahead(opts, argv, i, p).0), Ahead(opts, argv, i, p).1)
  }

  /** The machine is inside an option word, before a letter. */
  ghost predicate AtLetter(argv: seq<Bytes>, i: nat, p: nat) {
    i < |argv| && IsOption(argv[i]) && argv[i] != "--" && 1 <= p < |argv[i]|
  }

  /** A letter without argument is the next event, and the position after it is where the machine goes on. */
  lemma PendingLetter(opts: Bytes, argv: seq<Bytes>, i: nat, p: nat)
    requires AtLetter(argv, i, p) && LetterOf(opts, argv[i][p]) != TakesArgument
    ensures var (i', p') := if p + 1 == |argv[i]| then (i + 1, 1) else (i, p + 1);
            var (es, k) := Pending(opts, argv, i', p');
            Pending(opts, argv, i, p) == (LetterEvents(opts, [argv[i][p]]) + es, k)
  {
    var c := argv[i][p];
    assert [] + [c] == [c] && [c] + [] == [c];
    assert Ahead(opts, argv, i, p) == Cluster(opts, argv, i, p, []) == Cluster(opts, argv, i, p + 1, [c]);
    SeenEvents(opts, argv, i, p + 1, [c], []);
    if p + 1 == |argv[i]| {
      var ws := Words(opts, argv, i + 1).0;
      MeaningTail(opts, NoTail, ws);
      assert [] + Meaning(opts, ws) == Meaning(opts, ws);
    }
  }

  lemma MeaningTail(opts: Bytes, t: Tail, ws: seq<Word>)
    ensures Meaning(opts, [Word([], t)] + ws) == TailEvents(t) + Meaning(opts, ws)
  {
    assert ([Word([], t)] + ws)[1..] == ws;
    assert [] + TailEvents(t) == TailEvents(t);
  }

  /** A letter with an argument is the next event too, and ends its word. */
  lemma PendingArgument(opts: Bytes, argv: seq<Bytes>, i: nat, p: nat)
    requires AtLetter(argv, i, p) && LetterOf(opts, argv[i][p]) == TakesArgument
    ensures var c, attached := argv[i][p], argv[i][p + 1..];
            if attached != [] then
              var (es, k) := Pending(opts, argv, i + 1, 1);
              Pending(opts, argv, i, p) == ([Opt(c, Some(attached))] + es, k)
            else if i + 1 == |argv| then
              Pending(opts, argv, i, p) == ([NoArgument(c)], |argv|) && Pending(opts, argv, i + 1, 1) == ([], |argv|)
            else
              var (es, k) := Pending(opts, argv, i + 2, 1);
              Pending(opts, argv, i, p) == ([Opt(c, Some(argv[i + 1]))] + es, k)
  {
    assert Ahead(opts, argv, i, p) == Cluster(opts, argv, i, p, []);
    var c, attached := argv[i][p], argv[i][p + 1..];
    if attached != [] {
      MeaningTail(opts, Attached(c, attached), Words(opts, argv, i + 1).0);
    } else if i + 1 == |argv| {
      MeaningTail(opts, Missing(c), []);
      assert [Word([], Missing(c))] + [] == [Word([], Missing(c))];
      assert [NoArgument(c)] + [] == [NoArgument(c)];
    } else {
      MeaningTail(opts, Separate(c, argv[i + 1]), Words(opts, argv, i + 2).0);
    }
  }

  lemma {:induction false} MeaningAppend(opts: Bytes, ws: seq<Word>, vs: seq<Word>)
    ensures Meaning(opts, ws + vs) == Meaning(opts, ws) + Meaning(opts, vs)
  {
    if ws == [] {
      assert ws + vs == vs && [] + Meaning(opts, vs) == Meaning(opts, vs);
    } else {
      assert (ws + vs)[0] == ws[0] && (ws + vs)[1..] == ws[1..] + vs;
      MeaningAppend(opts, ws[1..], vs);
      ConcatAssociates(LetterEvents(opts, ws[0].letters) + TailEvents(ws[0].tail), Meaning(opts, ws[1..]),
                       Meaning(opts, vs));
    }
  }

  /** Two ways to write the same options: letters in one word or in two, an argument attached or separate. */
  ghost predicate SameStyle(ws: seq<Word>, vs: seq<Word>) {
    || (exists a, b, t :: ws == [Word(a + b, t)] && vs == [Word(a, NoTail), Word(b, t)])
    || (exists a, c, x :: ws == [Word(a, Attached(c, x))] && vs == [Word(a, Separate(c, x))])
  }

  /** Guidelines 5 and 6: however the options are written, the option loop sees the same. */
  lemma StyleIsIrrelevant(opts: Bytes, prog: Bytes, pre: seq<Word>, ws: seq<Word>, vs: seq<Word>, post: seq<Word>,
                          dashes: bool, operands: seq<Bytes>)
    requires SameStyle(ws, vs)
    requires ValidLine(opts, Line(pre + ws + post, dashes, operands))
    requires ValidLine(opts, Line(pre + vs + post, dashes, operands))
    ensures var argv := [prog] + LineText(Line(pre + ws + post, dashes, operands));
            var argv' := [prog] + LineText(Line(pre + vs + post, dashes, operands));
            Pending(opts, argv, 1, 1).0 == Pending(opts, argv', 1, 1).0
  {
    assert Meaning(opts, ws) == Meaning(opts, vs) by {
      if a, b, t :| ws == [Word(a + b, t)] && vs == [Word(a, NoTail), Word(b, t)] {
        MeaningFirst(opts, a, Word(b, t), []);
        assert [Word(a + b, t)] + [] == ws && [Word(b, t)] + [] == vs[1..];
        assert LetterEvents(opts, a) + [] == LetterEvents(opts, a);
      }
    }
    MeaningAppend(opts, pre, ws);
    MeaningAppend(opts, pre, vs);
    MeaningAppend(opts, pre + ws, post);
    MeaningAppend(opts, pre + vs, post);
    ParseRendered(opts, prog, Line(pre + ws + post, dashes, operands));
    ParseRendered(opts, prog, Line(pre + vs + post, dashes, operands));
  }

  // ---------- the machine ----------

  datatype Result = Eof | Char(c: Octet)

  /** The static `sp` and the globals of `getopt`. */
  class Parser {
    const argv: seq<Bytes>
    const opts: Bytes
    var sp: nat
    var optind: nat
    var optopt: Octet
    var optarg: Option<Bytes>

    constructor (argv: seq<Bytes>, opts: Bytes)
      requires argv != []
      ensures this.argv == argv && this.opts == opts && Valid()
      ensures sp == 1 && optind == 1 && optarg == None
    {
      this.argv, this.opts := argv, opts;
      sp, optind, optopt, optarg := 1, 1, '\0', None;
    }

    /** Between calls, either the machine is at the start of an argument, or the argument it is in exists, starts
        with '-' and has a character at `sp`. */
    ghost predicate Valid()
      reads this
    {
      optind <= |argv| && (sp == 1 || AtLetter(argv, optind, sp))
    }

    /** The machine after `e` was reported as `r`, with `before` as the previous `optarg`. */
    ghost predicate Reports(e: Event, r: Result, before: Option<Bytes>)
      reads this
    {
      match e
      case Opt(c, a) => r == Char(c) && optopt == c && optarg == a
      case BadLetter(c) => r == Char('?') && optopt == c && optarg == before
      case NoArgument(c) => r == Char('?') && optopt == c && optarg == before
    }

    /** `getopt`. The string end that C finds as a NUL is the length of the argument here. */
    method Next() returns (r: Result)
      requires Valid()
      modifies this
      ensures Valid()
      ensures var (es, k) := Pending(opts, argv, old(optind), old(sp));
              if es == [] then
                r == Eof && sp == 1 && optind == k && optopt == old(optopt) && optarg == old(optarg)
              else
                && r != Eof && Reports(es[0], r, old(optarg))
                && Pending(opts, argv, optind, sp) == (es[1..], k)
                && (optind > old(optind) || (optind == old(optind) && sp > old(sp)))
    {
      if sp == 1 {
        if optind >= |argv| || |argv[optind]| < 2 || argv[optind][0] != '-' {
          return Eof;
        }
        if argv[optind] == "--" {
          optind := optind + 1;
          return Eof;
        }
      }
      r := ReadLetter();
    }

    method ReadLetter() returns (r: Result)
      requires AtLetter(argv, optind, sp)
      modifies this
      ensures Valid() && r != Eof
      ensures var (es, k) := Pending(opts, argv, old(optind), old(sp));
              && es != [] && Reports(es[0], r, old(optarg))
              && Pending(opts, argv, optind, sp) == (es[1..], k)
      ensures optind > old(optind) || (optind == old(optind) && sp > old(sp))
    {
      var c := argv[optind][sp];
      optopt := c;
      var letter := LetterOf(opts, c);
      if letter == TakesArgument {
        r := ReadArgument(c);
        return;
      }
      PendingLetter(opts, argv, optind, sp);
      sp := sp + 1;
      if sp == |argv[optind]| {
        sp, optind := 1, optind + 1;
      }
      if letter == Illegal {
        return Char('?');
      }
      optarg := None;
      r := Char(c);
    }

    method ReadArgument(c: Octet) returns (r: Result)
      requires AtLetter(argv, optind, sp) && c == argv[optind][sp] == optopt && LetterOf(opts, c) == TakesArgument
      modifies this
      ensures Valid() && r != Eof && optind > old(optind)
      ensures var (es, k) := Pending(opts, argv, old(optind), old(sp));
              && es != [] && Reports(es[0], r, old(optarg))
              && Pending(opts, argv, optind, sp) == (es[1..], k)
    {
      PendingArgument(opts, argv, optind, sp);
      var attached := argv[optind][sp + 1..];
      if attached != [] {
        optarg, optind := Some(attached), optind + 1;
      } else {
        optind := optind + 1;
        if optind >= |argv| {
          sp := 1;
          assert [NoArgument(c)][1..] == [];
          return Char('?');
        }
        optarg, optind := Some(argv[optind]), optind + 1;
      }
      sp := 1;
      r := Char(c);
    }
  }

  /** What the caller of `getopt` acts on: the returned letter, and `optarg` unless the letter is `?`. */
  function Reported(e: Event): (Octet, Option<Bytes>) {
    match e
    case Opt(c, a) => (c, if c == '?' then None else a)
    case _ => ('?', None)
  }

  function AllReported(es: seq<Event>): seq<(Octet, Option<Bytes>)> {
    if es == [] then [] else [Reported(es[0])] + AllReported(es[1..])
  }

  /** An option loop: calls `getopt` until it returns EOF, which it does. It reports exactly the options of the command
      line that the arguments spell, and leaves `optind` at the first operand. */
  method ParseAll(argv: seq<Bytes>, opts: Bytes) returns (seen: seq<(Octet, Option<Bytes>)>, optind: nat)
    requires argv != []
    ensures exists l :: ValidLine(opts, l) && LineText(l) == argv[1..] && seen == AllReported(Meaning(opts, l.words)) &&
                        optind <= |argv| && l.operands == argv[optind..]
  {
    var p := new Parser(argv, opts);
    seen := [];
    ghost var line := RenderParsed(opts, argv);
    ghost var (todo, k) := Pending(opts, argv, 1, 1);
    ghost var goal := AllReported(todo);
    while true
      invariant p.Valid() && p.argv == argv && p.opts == opts
      invariant Pending(opts, argv, p.optind, p.sp) == (todo, k)
      invariant seen + AllReported(todo) == goal
      decreases |argv| - p.optind, if p.optind < |argv| then |argv[p.optind]| - p.sp else 0
    {
      var r := p.Next();
      if r == Eof {
        optind := p.optind;
        assert seen + [] == seen;
        assert LineText(line) == argv[1..];
        return;
      }
      var one := (r.c, if r.c == '?' then None else p.optarg);
      ConcatAssociates(seen, [one], AllReported(todo[1..]));
      seen, todo := seen + [one], todo[1..];
    }
  }
}
