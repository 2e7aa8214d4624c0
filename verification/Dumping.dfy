/** The record loops of `dump_tbl` in mdbx_dump.c, and what the loader makes of their output. */
module Dumping {
  import opened Octets
  import opened Codec
  import opened LineFacts
  import opened Tables
  import opened Loading

  // ---------- the text of a listing ----------

  /** A key, or in concise mode a single space when it is the previous one again. */
  function KeyText(plain: bool, concise: bool, prev: Option<Bytes>, key: Bytes): Bytes {
    if concise && prev == Some(key) then " " else FieldText(plain, key)
  }

  /** The records in cursor order. */
  function RecordsText(plain: bool, concise: bool, rs: seq<Record>, prev: Option<Bytes>): Bytes
    decreases |rs|
  {
    if rs == [] then []
    else
      KeyText(plain, concise, prev, rs[0].0)
      + (FieldText(plain, rs[0].1) + RecordsText(plain, concise, rs[1..], Some(rs[0].0)))
  }

  lemma RecordsTextFresh(plain: bool, concise: bool, rs: seq<Record>, prev: Option<Bytes>)
    requires rs == [] || !concise || prev != Some(rs[0].0)
    ensures RecordsText(plain, concise, rs, prev) == RecordsText(plain, concise, rs, None)
  {
  }

  lemma RecordsTextStep(plain: bool, concise: bool, rs: seq<Record>, i: nat, prev: Option<Bytes>, before: Bytes)
    requires i < |rs|
    ensures before + RecordsText(plain, concise, rs[i..], prev)
         == before + KeyText(plain, concise, prev, rs[i].0) + FieldText(plain, rs[i].1)
            + RecordsText(plain, concise, rs[i + 1..], Some(rs[i].0))
  {
    assert rs[i..][0] == rs[i] && rs[i..][1..] == rs[i + 1..];
    ConcatFlattens(before, KeyText(plain, concise, prev, rs[i].0), FieldText(plain, rs[i].1),
               RecordsText(plain, concise, rs[i + 1..], Some(rs[i].0)));
  }

  /** The text of the records from `i` on, after the one before them. */
  function LeftText(plain: bool, concise: bool, rs: seq<Record>, i: nat): Bytes
    requires 0 < i <= |rs|
  {
    RecordsText(plain, concise, rs[i..], Some(rs[i - 1].0))
  }

  /** One turn of the inner loop: a further value of the key before. */
  method DumpDuplicate(out: Output, plain: bool, rs: seq<Record>, i: nat)
    requires 0 < i < |rs| && rs[i].0 == rs[i - 1].0
    modifies out
    ensures out.text + LeftText(plain, true, rs, i + 1) == old(out.text) + LeftText(plain, true, rs, i)
  {
    RecordsTextStep(plain, true, rs, i, Some(rs[i - 1].0), out.text);
    out.PutChar(' ');
    DumpVal(out, plain, rs[i].1);
  }

  /** The inner loop, over the further values of the current key. */
  method DumpDuplicates(out: Output, plain: bool, rs: seq<Record>, i0: nat) returns (i: nat)
    requires 0 < i0 <= |rs|
    modifies out
    ensures i0 <= i <= |rs| && (i < |rs| ==> rs[i].0 != rs[i - 1].0)
    ensures out.text + LeftText(plain, true, rs, i) == old(out.text) + LeftText(plain, true, rs, i0)
  {
    i := i0;
    ghost var goal := out.text + LeftText(plain, true, rs, i);
    while i < |rs| && rs[i].0 == rs[i - 1].0
      invariant i0 <= i <= |rs|
      invariant out.text + LeftText(plain, true, rs, i) == goal
    {
      DumpDuplicate(out, plain, rs, i);
      i := i + 1;
    }
  }

  method DumpRecord(out: Output, plain: bool, concise: bool, rs: seq<Record>, i: nat)
    requires i < |rs|
    modifies out
    ensures out.text + LeftText(plain, concise, rs, i + 1) == old(out.text) + RecordsText(plain, concise, rs[i..], None)
  {
    RecordsTextStep(plain, concise, rs, i, None, out.text);
    DumpVal(out, plain, rs[i].0);
    DumpVal(out, plain, rs[i].1);
  }

  /** One turn of the outer loop: a record and, in concise mode, the further values of its key. */
  method DumpKey(out: Output, plain: bool, concise: bool, rs: seq<Record>, i0: nat) returns (i: nat)
    requires i0 < |rs|
    modifies out
    ensures i0 < i <= |rs|
    ensures out.text + RecordsText(plain, concise, rs[i..], None)
         == old(out.text) + RecordsText(plain, concise, rs[i0..], None)
  {
    DumpRecord(out, plain, concise, rs, i0);
    i := i0 + 1;
    if concise {
      i := DumpDuplicates(out, plain, rs, i);
    }
    RecordsTextFresh(plain, concise, rs[i..], Some(rs[i - 1].0));
  }

  method DumpRecords(out: Output, plain: bool, concise: bool, rs: seq<Record>)
    modifies out
    ensures out.text == old(out.text) + RecordsText(plain, concise, rs, None)
  {
    var i := 0;
    ghost var goal := out.text + RecordsText(plain, concise, rs, None);
    assert rs[0..] == rs;
    while i < |rs|
      invariant i <= |rs|
      invariant out.text + RecordsText(plain, concise, rs[i..], None) == goal
    {
      i := DumpKey(out, plain, concise, rs, i);
    }
    assert rs[i..] == [];
    assert out.text + [] == out.text;
  }

  // ---------- reading a dump back ----------

  ghost predicate RestorableRecord(plain: bool, r: Record) {
    Restorable(plain, r.0) && Restorable(plain, r.1)
  }

  lemma PullDumped(plain: bool, concise: bool, prev: Option<Bytes>, r: Record, rest: Bytes, f: Feed)
    requires Ready(f) && RestorableRecord(plain, r)
    requires prev.Some? ==> f.key == prev.value
    requires f.text == KeyText(plain, concise, prev, r.0) + (FieldText(plain, r.1) + rest)
    ensures var p := PullRecord(plain, f);
            p.Pulled? && p.record == r && p.feed.text == rest && p.feed.kcap >= f.kcap
  {
    var value := FieldText(plain, r.1) + rest;
    if concise && prev == Some(r.0) {
      assert f.text == "  " + value[1..] && value == " " + value[1..];
      ReadRepeat(plain, value[1..], f.kcap);
    } else {
      ReadField(plain, r.0, value, f.kcap);
    }
    ReadField(plain, r.1, rest, f.dcap);
  }

  ghost predicate RestorableTable(plain: bool, rs: seq<Record>) {
    forall r :: r in rs ==> RestorableRecord(plain, r)
  }

  /** The loader is at the start of the dumped records `rs`, after one with the key `prev` if there was one. */
  ghost predicate AtRecords(plain: bool, concise: bool, rs: seq<Record>, prev: Option<Bytes>, tail: Bytes, f: Feed) {
    && Ready(f) && f.kcap >= 9 && RestorableTable(plain, rs)
    && (prev.Some? ==> f.key == prev.value)
    && f.text == RecordsText(plain, concise, rs, prev) + (DATA_END_LINE + tail)
  }

  lemma EndOfDump(plain: bool, concise: bool, prev: Option<Bytes>, tail: Bytes, f: Feed)
    requires AtRecords(plain, concise, [], prev, tail, f)
    ensures var p := PullRecord(plain, f); p.Exhausted? && p.feed.text == tail
  {
    assert f.text == DATA_END_LINE + tail;
    ReadDataEnd(plain, tail, f.kcap);
  }

  lemma FirstAndRest(plain: bool, concise: bool, rs: seq<Record>, prev: Option<Bytes>, after: Bytes)
    requires rs != [] && RestorableTable(plain, rs)
    ensures RecordsText(plain, concise, rs, prev) + after
         == KeyText(plain, concise, prev, rs[0].0)
            + (FieldText(plain, rs[0].1) + (RecordsText(plain, concise, rs[1..], Some(rs[0].0)) + after))
    ensures RestorableRecord(plain, rs[0]) && RestorableTable(plain, rs[1..])
  {
    assert rs[0] in rs && forall r :: r in rs[1..] ==> r in rs;
    ConcatNestsLast(KeyText(plain, concise, prev, rs[0].0), FieldText(plain, rs[0].1),
                    RecordsText(plain, concise, rs[1..], Some(rs[0].0)), after);
  }

  /** The first turn of the record loop over a dumped table reads its first record, and its end when there is none. */
  lemma NextDumped(plain: bool, concise: bool, rs: seq<Record>, prev: Option<Bytes>, tail: Bytes, f: Feed)
    requires AtRecords(plain, concise, rs, prev, tail, f)
    ensures var p := PullRecord(plain, f);
            if rs == [] then p.Exhausted? && p.feed.text == tail
            else p.Pulled? && p.record == rs[0] && AtRecords(plain, concise, rs[1..], Some(rs[0].0), tail, p.feed)
  {
    if rs == [] {
      EndOfDump(plain, concise, prev, tail, f);
    } else {
      var rest := RecordsText(plain, concise, rs[1..], Some(rs[0].0)) + (DATA_END_LINE + tail);
      FirstAndRest(plain, concise, rs, prev, DATA_END_LINE + tail);
      PullDumped(plain, concise, prev, rs[0], rest, f);
    }
  }

  lemma RecordsStep(plain: bool, f: Feed)
    requires Ready(f)
    ensures var p, all := PullRecord(plain, f), Records(plain, f);
            && (p.Exhausted? ==> all == ([], true, p.feed))
            && (p.Pulled? ==> var (rs, clean, end) := Records(plain, p.feed); all == ([p.record] + rs, clean, end))
  {
  }

  /** The record loop reads back exactly the dumped records, elided keys included, and stops right after DATA=END. */
  lemma {:induction false} RecordsOfDump(plain: bool, concise: bool, rs: seq<Record>, prev: Option<Bytes>,
                                         tail: Bytes, f: Feed)
    requires AtRecords(plain, concise, rs, prev, tail, f)
    ensures var (rs', clean, f') := Records(plain, f);
            rs' == rs && clean && f'.text == tail
    decreases |rs|
  {
    NextDumped(plain, concise, rs, prev, tail, f);
    RecordsStep(plain, f);
    if rs != [] {
      RecordsOfDump(plain, concise, rs[1..], Some(rs[0].0), tail, PullRecord(plain, f).feed);
      assert [rs[0]] + rs[1..] == rs;
    }
  }
}
