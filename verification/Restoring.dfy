/** Dumping the records of a table and loading them into an empty one: when the table comes back. */
module Restoring {
  import opened Octets
  import opened Codec
  import opened LineReader
  import opened LineFacts
  import opened Tables
  import opened Loading
  import opened Dumping

  // ---------- the text of a print-mode dump never escapes a space ----------

  /** `s` is NUL-free text in which no space is written as an escape. */
  ghost predicate PrintText(s: Bytes) {
    '\0' !in s && NoEscapedSpace(s)
  }

  lemma PrintTextCons(c: Octet, s: Bytes)
    requires PrintText(s) && c != '\\' && c != '\0'
    ensures PrintText([c] + s)
  {
    var t := [c] + s;
    forall i | 0 <= i && i + 2 < |t|
      ensures !(t[i] == '\\' && t[i + 1] == '2' && t[i + 2] == '0')
    {
      if i > 0 {
        assert t[i] == s[i - 1] && t[i + 1] == s[i - 1 + 1] && t[i + 2] == s[i - 1 + 2];
      }
    }
  }

  lemma PrintTextByte(c: Octet, s: Bytes)
    requires PrintText(s)
    ensures PrintText(EncodeByte(true, c) + s)
  {
    var e := EncodeByte(true, c);
    if IsPrint(c) && c != '\\' {
      PrintTextCons(c, s);
    } else {
      var hi, lo := HexDigit(c as int / 16), HexDigit(c as int % 16);
      PrintTextCons(lo, s);
      PrintTextCons(hi, [lo] + s);
      var t := [hi] + ([lo] + s);
      assert e + s == ['\\'] + t;
      assert !(hi == '2' && lo == '0');
      forall i | 0 <= i && i + 2 < |e + s|
        ensures !((e + s)[i] == '\\' && (e + s)[i + 1] == '2' && (e + s)[i + 2] == '0')
      {
        if i > 0 {
          assert (e + s)[i] == t[i - 1] && (e + s)[i + 1] == t[i - 1 + 1] && (e + s)[i + 2] == t[i - 1 + 2];
        }
      }
    }
  }

  lemma {:induction false} PrintTextEncoded(v: Bytes, s: Bytes)
    requires PrintText(s)
    ensures PrintText(Encode(true, v) + s)
  {
    if v == [] {
      assert [] + s == s;
    } else {
      PrintTextEncoded(v[1..], s);
      PrintTextByte(v[0], Encode(true, v[1..]) + s);
      assert EncodeByte(true, v[0]) + (Encode(true, v[1..]) + s) == Encode(true, v) + s;
    }
  }

  lemma PrintTextField(v: Bytes, s: Bytes)
    requires PrintText(s)
    ensures PrintText(FieldText(true, v) + s)
  {
    PrintTextCons('\n', s);
    PrintTextEncoded(v, "\n" + s);
    PrintTextCons(' ', Encode(true, v) + ("\n" + s));
    assert FieldText(true, v) + s == " " + (Encode(true, v) + ("\n" + s));
  }

  lemma {:induction false} PrintTextRecords(concise: bool, rs: seq<Record>, prev: Option<Bytes>, s: Bytes)
    requires PrintText(s)
    ensures PrintText(RecordsText(true, concise, rs, prev) + s)
    decreases |rs|
  {
    if rs == [] {
      assert [] + s == s;
    } else {
      var r, more := rs[0], RecordsText(true, concise, rs[1..], Some(rs[0].0));
      PrintTextRecords(concise, rs[1..], Some(r.0), s);
      PrintTextField(r.1, more + s);
      PrintTextField(r.0, FieldText(true, r.1) + (more + s));
      PrintTextCons(' ', FieldText(true, r.1) + (more + s));
      ConcatNestsLast(KeyText(true, concise, prev, r.0), FieldText(true, r.1), more, s);
    }
  }

  // ---------- so no field read from it starts with a space ----------

  lemma PrintTextSuffix(s: Bytes, k: nat)
    requires PrintText(s) && k <= |s|
    ensures PrintText(s[k..])
  {
    var t := s[k..];
    forall i | 0 <= i && i + 2 < |t|
      ensures !(t[i] == '\\' && t[i + 1] == '2' && t[i + 2] == '0')
    {
      assert t[i] == s[k + i] && t[i + 1] == s[k + i + 1] && t[i + 2] == s[k + i + 2];
    }
  }

  lemma {:induction false} RecordsHaveNoSpace(f: Feed)
    requires Ready(f) && PrintText(f.text) && RestorableRecord(true, (f.key, f.data))
    ensures forall r :: r in Records(true, f).0 ==> RestorableRecord(true, r)
    decreases |f.text|
  {
    var p := PullRecord(true, f);
    if p.Pulled? {
      var i := NoSpaceRead(f.text, f.kcap);
      var rest := ReadLine(true, false, f.text, f.kcap).rest;
      PrintTextSuffix(f.text, i);
      var j := NoSpaceRead(rest, f.dcap);
      PrintTextSuffix(rest, j);
      RecordsHaveNoSpace(p.feed);
    }
  }

  // ---------- the round trip ----------

  function DumpFeed(plain: bool, concise: bool, rs: seq<Record>, tail: Bytes, kcap: nat, dcap: nat): Feed {
    Feed(RecordsText(plain, concise, rs, None) + (DATA_END_LINE + tail), [], [], kcap, dcap)
  }

  /** Any restorable table comes back from its dump, in both encodings, with and without key elision, however
      the load is cut into checkpoints, and the text after the table is left unread. */
  lemma DumpThenLoad(cfg: Config, engine: Engine, concise: bool, rs: seq<Record>, table: Rows, tail: Bytes,
                     kcap: nat, dcap: nat)
    requires kcap >= 9 && dcap >= 3 && Granting(engine)
    requires cfg.put == Upsert(cfg.put.dup) && ValidRows(cfg.put.dup, table) && Lists(rs, table)
    requires RestorableTable(cfg.plain, rs)
    ensures var f := DumpFeed(cfg.plain, concise, rs, tail, kcap, dcap);
            var (stop, f', t) := Run(cfg, engine, f, Begin(map[]));
            stop == Ended && Committed(engine, stop, t) == Some(table) && t.work == table && f'.text == tail
  {
    var f := DumpFeed(cfg.plain, concise, rs, tail, kcap, dcap);
    var t := Begin(map[]);
    RecordsOfDump(cfg.plain, concise, rs, None, tail, f);
    NeverRefused(cfg.put.dup, map[], rs);
    RunOutcome(cfg, engine, f, t);
    EndedPutsAll(cfg, engine, f, t);
    UpsertRestores(cfg.put.dup, rs, table);
  }

  lemma {:induction false} NeverRefused(dup: bool, rows: Rows, rs: seq<Record>)
    ensures FirstRefused(Upsert(dup), rows, rs) == |rs|
    decreases |rs|
  {
    if rs != [] {
      NeverRefused(dup, PutOrSkip(Upsert(dup), rows, rs[0]), rs[1..]);
    }
  }

  // ---------- the loop as written, on small dumps ----------

  lemma DumpedRecords(cfg: Config, concise: bool, rs: seq<Record>, kcap: nat, dcap: nat)
    requires kcap >= 9 && dcap >= 3 && RestorableTable(cfg.plain, rs)
    ensures var f := DumpFeed(cfg.plain, concise, rs, [], kcap, dcap);
            Ready(f) && Records(cfg.plain, f).0 == rs && Records(cfg.plain, f).1
  {
    var f := DumpFeed(cfg.plain, concise, rs, [], kcap, dcap);
    RecordsOfDump(cfg.plain, concise, rs, None, [], f);
  }

  /** Two records of which the first is refused and the second is not. */
  lemma FirstOfTwoRefused(m: PutMode, rows: Rows, r: Record, r': Record)
    requires !Put(m, rows, r).Stored? && !m.bad(r') && r'.0 !in rows
    ensures PutUntilRefused(m, rows, [r, r']) == rows && PutAll(m, rows, [r, r']) == rows[r'.0 := {r'.1}]
  {
    var rs: seq<Record> := [r, r'];
    assert rs[..0] == [] && rs[1..] == [r'] && |rs[1..][1..]| == 0;
    assert {} + {r'.1} == {r'.1};
    assert PutAll(m, rows, [r']) == PutAll(m, rows[r'.0 := {r'.1}], []);
  }

  lemma LiteralExample(cfg: Config, engine: Engine, concise: bool, rows: Rows, rs: seq<Record>,
                       kcap: nat, dcap: nat)
    requires kcap >= 9 && dcap >= 3 && Granting(engine) && |rs| == 2 && RestorableTable(cfg.plain, rs)
    requires forall q :: cfg.put.bad(q) ==> cfg.rescue
    requires !Put(cfg.put, rows, rs[0]).Stored? && !cfg.put.bad(rs[1]) && rs[1].0 !in rows
    ensures var f := DumpFeed(cfg.plain, concise, rs, [], kcap, dcap);
            && LiteralResult(cfg, engine, f, rows) == Some(rows)
            && IntendedResult(cfg, engine, f, rows) == Some(rows[rs[1].0 := {rs[1].1}])
  {
    assert rs == [rs[0], rs[1]];
    DumpedRecords(cfg, concise, rs, kcap, dcap);
    BothResults(cfg, engine, DumpFeed(cfg.plain, concise, rs, [], kcap, dcap), rows);
    FirstOfTwoRefused(cfg.put, rows, rs[0], rs[1]);
  }

  /** With -N, an existing first key and a new second one: the loop as written leaves the table as it was, the loop as
      meant adds the new key. */
  lemma LiteralKeepExample(cfg: Config, engine: Engine, concise: bool, rs: seq<Record>, kcap: nat, dcap: nat)
    requires kcap >= 9 && dcap >= 3 && Granting(engine)
    requires cfg.put == KeepExisting(cfg.put.dup) && rs == [("a", "1"), ("b", "2")]
    ensures var f := DumpFeed(cfg.plain, concise, rs, [], kcap, dcap);
            var rows := map["a" := {"0"}];
            && LiteralResult(cfg, engine, f, rows) == Some(rows)
            && IntendedResult(cfg, engine, f, rows) == Some(rows["b" := {"2"}])
  {
    var rows: Rows := map["a" := {"0"}];
    assert rs[1].0[0] != 'a' && rs[1].0 !in rows && rs[0].0 in rows;
    LiteralExample(cfg, engine, concise, rows, rs, kcap, dcap);
  }

  predicate TooLong(r: Record) { |r.0| > 1 }

  /** With -r, a first key that is too long and a second one that is not: the loop as written loads nothing. */
  lemma LiteralRescueExample(cfg: Config, engine: Engine, concise: bool, rs: seq<Record>, kcap: nat, dcap: nat)
    requires kcap >= 9 && dcap >= 3 && Granting(engine) && cfg.put == PutMode(cfg.put.dup, false, TooLong) && cfg.rescue
    requires rs == [("aa", "1"), ("b", "2")]
    ensures var f := DumpFeed(cfg.plain, concise, rs, [], kcap, dcap);
            && LiteralResult(cfg, engine, f, map[]) == Some(map[])
            && IntendedResult(cfg, engine, f, map[]) == Some(map["b" := {"2"}])
  {
    assert TooLong(rs[0]) && !TooLong(rs[1]);
    LiteralExample(cfg, engine, concise, map[], rs, kcap, dcap);
  }

  // ---------- exactly when a table comes back ----------

  /** A dumped table comes back exactly when it is restorable: a print-mode dump with a key or a value that starts
      with a space never loads into the table it was made from. */
  lemma DumpThenLoadIff(cfg: Config, engine: Engine, concise: bool, rs: seq<Record>, table: Rows,
                        kcap: nat, dcap: nat)
    requires kcap >= 9 && dcap >= 3 && Granting(engine)
    requires cfg.put == Upsert(cfg.put.dup) && ValidRows(cfg.put.dup, table) && Lists(rs, table)
    ensures var f := DumpFeed(cfg.plain, concise, rs, [], kcap, dcap);
            var (stop, _, t) := Run(cfg, engine, f, Begin(map[]));
            Committed(engine, stop, t) == Some(table) <==> RestorableTable(cfg.plain, rs)
  {
    if RestorableTable(cfg.plain, rs) {
      DumpThenLoad(cfg, engine, concise, rs, table, [], kcap, dcap);
    } else {
      var f := DumpFeed(true, concise, rs, [], kcap, dcap);
      assert PrintText(DATA_END_LINE + []);
      PrintTextRecords(concise, rs, None, DATA_END_LINE + []);
      RecordsHaveNoSpace(f);
      var n := CheckpointTransparency(cfg, engine, f, map[]);
      var loaded := Records(true, f).0[..n];
      var r :| r in rs && !RestorableRecord(true, r);
      assert (r.0, r.1) in rs;
      if PutAll(cfg.put, map[], loaded) == table {
        PutAllAddsNothing(cfg.put, map[], loaded, r.0, r.1);
      }
    }
  }
}
