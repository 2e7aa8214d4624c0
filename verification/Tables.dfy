/** Tables as the dump and load tools see them through the engine's put and cursor calls. */
module Tables {
  import opened Octets

  type Record = (Bytes, Bytes)

  /** The content of a table: the values stored under each key (one value unless the table is DUPSORT). */
  type Rows = map<Bytes, set<Bytes>>

  datatype PutResult = Stored(rows: Rows) | KeyExist | BadValSize

  /** How records are put: `dup` for a DUPSORT table, `keep` for MDBX_NOOVERWRITE | MDBX_NODUPDATA,
      which refuses a key already present even in a DUPSORT table, and `bad` for a size the table refuses. */
  datatype PutMode = PutMode(dup: bool, keep: bool, bad: Record -> bool)

  function Put(m: PutMode, rows: Rows, r: Record): PutResult {
    if m.bad(r) then BadValSize
    else if m.keep && r.0 in rows then KeyExist
    else Stored(rows[r.0 := (if m.dup && r.0 in rows then rows[r.0] else {}) + {r.1}])
  }

  /** All records in turn, skipping the refused ones. */
  function PutAll(m: PutMode, rows: Rows, rs: seq<Record>): Rows
    decreases |rs|
  {
    if rs == [] then rows else PutAll(m, PutOrSkip(m, rows, rs[0]), rs[1..])
  }

  function PutOrSkip(m: PutMode, rows: Rows, r: Record): Rows {
    match Put(m, rows, r)
    case Stored(rows') => rows'
    case _ => rows
  }

  lemma {:induction false} PutAllAppend(m: PutMode, rows: Rows, rs: seq<Record>, ts: seq<Record>)
    ensures PutAll(m, rows, rs + ts) == PutAll(m, PutAll(m, rows, rs), ts)
    decreases |rs|
  {
    if rs == [] {
      assert rs + ts == ts;
    } else {
      assert (rs + ts)[0] == rs[0] && (rs + ts)[1..] == rs[1..] + ts;
      PutAllAppend(m, PutOrSkip(m, rows, rs[0]), rs[1..], ts);
    }
  }

  lemma PutAllSnoc(m: PutMode, rows: Rows, rs: seq<Record>, r: Record)
    ensures PutAll(m, rows, rs + [r]) == PutOrSkip(m, PutAll(m, rows, rs), r)
  {
    PutAllAppend(m, rows, rs, [r]);
  }

  lemma PutAllHead(m: PutMode, rows: Rows, r: Record, rs: seq<Record>, n: nat)
    requires n <= |rs|
    ensures PutAll(m, rows, ([r] + rs)[..n + 1]) == PutAll(m, PutOrSkip(m, rows, r), rs[..n])
  {
    assert ([r] + rs)[..n + 1] == [r] + rs[..n];
    assert ([r] + rs[..n])[1..] == rs[..n];
  }

  /** No put removes a key, and none changes the values of a key when existing ones are kept. */
  lemma {:induction false} PutAllKeeps(m: PutMode, rows: Rows, rs: seq<Record>)
    ensures var t := PutAll(m, rows, rs); forall k :: k in rows ==> k in t && (m.keep ==> t[k] == rows[k])
    decreases |rs|
  {
    if rs != [] {
      var rows' := PutOrSkip(m, rows, rs[0]);
      assert forall k :: k in rows ==> k in rows' && (m.keep ==> rows'[k] == rows[k]);
      PutAllKeeps(m, rows', rs[1..]);
    }
  }

  /** A table holds nothing but what was put into it. */
  lemma {:induction false} PutAllAddsNothing(m: PutMode, rows: Rows, rs: seq<Record>, k: Bytes, v: Bytes)
    requires var t := PutAll(m, rows, rs); k in t && v in t[k]
    ensures (k in rows && v in rows[k]) || (k, v) in rs
    decreases |rs|
  {
    if rs != [] {
      PutAllAddsNothing(m, PutOrSkip(m, rows, rs[0]), rs[1..], k, v);
      assert (k, v) in rs[1..] ==> (k, v) in rs;
      assert rs[0] in rs;
    }
  }

  predicate Never(r: Record) { false }

  function Upsert(dup: bool): PutMode { PutMode(dup, false, Never) }

  function KeepExisting(dup: bool): PutMode { PutMode(dup, true, Never) }

  // ---------- a table and the listing its cursor walks ----------

  /** Every key has a value, and only DUPSORT tables have keys with several. */
  ghost predicate ValidRows(dup: bool, rows: Rows) {
    forall k :: k in rows ==> rows[k] != {} && (!dup ==> forall v, w :: v in rows[k] && w in rows[k] ==> v == w)
  }

  /** A cursor walk visits every record of the table exactly once. */
  ghost predicate Lists(rs: seq<Record>, rows: Rows) {
    && (forall k, v :: (k, v) in rs <==> k in rows && v in rows[k])
    && (forall i, j :: 0 <= i < j < |rs| ==> rs[i] != rs[j])
  }

  ghost predicate DistinctKeys(rs: seq<Record>) {
    forall i, j :: 0 <= i < j < |rs| ==> rs[i].0 != rs[j].0
  }

  ghost function KeysOf(rs: seq<Record>): set<Bytes> {
    set r | r in rs :: r.0
  }

  ghost function ValuesOf(rs: seq<Record>, k: Bytes): set<Bytes> {
    set r | r in rs && r.0 == k :: r.1
  }

  /** The table with exactly the records of `rs`. */
  ghost function TableOf(rs: seq<Record>): Rows {
    map k | k in KeysOf(rs) :: ValuesOf(rs, k)
  }

  lemma KeysOfSnoc(rs: seq<Record>, r: Record)
    ensures KeysOf(rs + [r]) == KeysOf(rs) + {r.0}
  {
    var all := rs + [r];
    assert r in all && forall q :: q in rs ==> q in all;
  }

  lemma ValuesOfSnoc(rs: seq<Record>, r: Record, k: Bytes)
    ensures ValuesOf(rs + [r], k) == ValuesOf(rs, k) + if k == r.0 then {r.1} else {}
    ensures k !in KeysOf(rs) <==> ValuesOf(rs, k) == {}
  {
    var all := rs + [r];
    assert r in all && forall q :: q in rs ==> q in all;
    if k in KeysOf(rs) {
      var q :| q in rs && q.0 == k;
      assert q.1 in ValuesOf(rs, k);
    }
  }

  lemma TableOfSnoc(rs: seq<Record>, r: Record)
    ensures TableOf(rs + [r]) == TableOf(rs)[r.0 := ValuesOf(rs, r.0) + {r.1}]
  {
    KeysOfSnoc(rs, r);
    var t, t' := TableOf(rs + [r]), TableOf(rs)[r.0 := ValuesOf(rs, r.0) + {r.1}];
    assert t.Keys == t'.Keys;
    forall k | k in t
      ensures t[k] == t'[k]
    {
      ValuesOfSnoc(rs, r, k);
    }
  }

  lemma {:induction false} UpsertBuilds(dup: bool, rs: seq<Record>)
    requires dup || DistinctKeys(rs)
    ensures PutAll(Upsert(dup), map[], rs) == TableOf(rs)
    decreases |rs|
  {
    if rs == [] {
      assert TableOf(rs) == map[];
    } else {
      var n := |rs| - 1;
      var init, r := rs[..n], rs[n];
      assert rs == init + [r];
      UpsertBuilds(dup, init);
      PutAllSnoc(Upsert(dup), map[], init, r);
      TableOfSnoc(init, r);
      ValuesOfSnoc(init, r, r.0);
      assert !dup ==> r.0 !in KeysOf(init);
    }
  }

  lemma ListingIsTable(dup: bool, rs: seq<Record>, rows: Rows)
    requires ValidRows(dup, rows) && Lists(rs, rows)
    ensures TableOf(rs) == rows && (dup || DistinctKeys(rs))
  {
    forall k | k in rows
      ensures k in KeysOf(rs) && ValuesOf(rs, k) == rows[k]
    {
      var v :| v in rows[k];
      assert (k, v) in rs;
      forall w
        ensures w in ValuesOf(rs, k) <==> w in rows[k]
      {
        assert (k, w) in rs <==> w in rows[k];
      }
    }
    forall k | k in KeysOf(rs)
      ensures k in rows
    {
      var r :| r in rs && r.0 == k;
      assert (k, r.1) in rs;
    }
    assert TableOf(rs).Keys == rows.Keys;
    if !dup {
      forall i, j | 0 <= i < j < |rs|
        ensures rs[i].0 != rs[j].0
      {
        assert (rs[i].0, rs[i].1) in rs && (rs[j].0, rs[j].1) in rs;
      }
    }
  }

  /** Putting a whole listing into an empty table rebuilds the table. */
  lemma UpsertRestores(dup: bool, rs: seq<Record>, rows: Rows)
    requires ValidRows(dup, rows) && Lists(rs, rows)
    ensures PutAll(Upsert(dup), map[], rs) == rows
  {
    ListingIsTable(dup, rs, rows);
    UpsertBuilds(dup, rs);
  }

  // ---------- MDBX_NOOVERWRITE ----------

  /** The position of the first record that would be refused. */
  function FirstRefused(m: PutMode, rows: Rows, rs: seq<Record>): (n: nat)
    ensures n <= |rs|
    decreases |rs|
  {
    if rs == [] || !Put(m, rows, rs[0]).Stored? then 0
    else 1 + FirstRefused(m, PutOrSkip(m, rows, rs[0]), rs[1..])
  }

  /** The table when putting stops at the first refused record. */
  function PutUntilRefused(m: PutMode, rows: Rows, rs: seq<Record>): Rows {
    PutAll(m, rows, rs[..FirstRefused(m, rows, rs)])
  }

  lemma PutUntilRefusedHead(m: PutMode, rows: Rows, r: Record, rs: seq<Record>)
    ensures var all, rows' := [r] + rs, PutOrSkip(m, rows, r);
            if Put(m, rows, r).Stored? then
              && FirstRefused(m, rows, all) == 1 + FirstRefused(m, rows', rs)
              && PutUntilRefused(m, rows, all) == PutUntilRefused(m, rows', rs)
            else
              FirstRefused(m, rows, all) == 0 && PutUntilRefused(m, rows, all) == rows
  {
    assert ([r] + rs)[1..] == rs;
    PutAllHead(m, rows, r, rs, FirstRefused(m, PutOrSkip(m, rows, r), rs));
  }

  /** Existing keys keep their values, and among new records with one key the first wins. */
  ghost predicate Merged(rows: Rows, rs: seq<Record>, t: Rows) {
    && t.Keys == rows.Keys + KeysOf(rs)
    && (forall k :: k in rows ==> t[k] == rows[k])
    && (forall i :: 0 <= i < |rs| && rs[i].0 !in rows && rs[i].0 !in KeysOf(rs[..i]) ==>
          rs[i].0 in t && t[rs[i].0] == {rs[i].1})
  }

  lemma MergedSnoc(dup: bool, rows: Rows, rs: seq<Record>, r: Record, t: Rows)
    requires Merged(rows, rs, t)
    ensures Merged(rows, rs + [r], PutOrSkip(KeepExisting(dup), t, r))
  {
    var all := rs + [r];
    KeysOfSnoc(rs, r);
    forall i | 0 <= i < |all| && all[i].0 !in rows && all[i].0 !in KeysOf(all[..i])
      ensures var t' := PutOrSkip(KeepExisting(dup), t, r); all[i].0 in t' && t'[all[i].0] == {all[i].1}
    {
      if i < |rs| {
        assert all[i] == rs[i] && all[..i] == rs[..i];
      } else {
        assert all[..i] == rs;
      }
    }
  }

  lemma {:induction false} KeepMerges(dup: bool, rows: Rows, rs: seq<Record>)
    ensures Merged(rows, rs, PutAll(KeepExisting(dup), rows, rs))
    decreases |rs|
  {
    if rs == [] {
      assert KeysOf(rs) == {};
    } else {
      var n := |rs| - 1;
      var init, r := rs[..n], rs[n];
      assert rs == init + [r];
      KeepMerges(dup, rows, init);
      PutAllSnoc(KeepExisting(dup), rows, init, r);
      MergedSnoc(dup, rows, init, r, PutAll(KeepExisting(dup), rows, init));
    }
  }

  /** Loading a listing of a unique-key table over existing rows: the union, with existing rows winning. */
  lemma KeepIsExistingWins(dup: bool, rows: Rows, rs: seq<Record>)
    requires DistinctKeys(rs)
    ensures PutAll(KeepExisting(dup), rows, rs) == TableOf(rs) + rows
  {
    var t := PutAll(KeepExisting(dup), rows, rs);
    KeepMerges(dup, rows, rs);
    forall k | k in t && k !in rows
      ensures t[k] == ValuesOf(rs, k)
    {
      var i :| 0 <= i < |rs| && rs[i].0 == k;
      SingleValue(rs, i);
    }
  }

  lemma SingleValue(rs: seq<Record>, i: nat)
    requires DistinctKeys(rs) && i < |rs|
    ensures rs[i].0 !in KeysOf(rs[..i]) && ValuesOf(rs, rs[i].0) == {rs[i].1}
  {
  }

  // ---------- stopping at the first refused record ----------

  /** How many of the records are stored, the others being skipped. */
  function StoredCount(m: PutMode, rows: Rows, rs: seq<Record>): nat
    decreases |rs|
  {
    if rs == [] then 0
    else (if Put(m, rows, rs[0]).Stored? then 1 else 0) + StoredCount(m, PutOrSkip(m, rows, rs[0]), rs[1..])
  }

  /** Putting the i-th record decides what its key holds in the end: its size is not refused, and in a table with single
      values that may be overwritten no later such record has the same key. */
  ghost predicate Decides(m: PutMode, rs: seq<Record>, i: nat) {
    && i < |rs| && !m.bad(rs[i])
    && (!m.keep && !m.dup ==> forall j :: i < j < |rs| && !m.bad(rs[j]) ==> rs[j].0 != rs[i].0)
  }

  /** The table already holds what putting the record would leave. */
  ghost predicate Holds(m: PutMode, t: Rows, r: Record) {
    r.0 in t && (m.keep || (if m.dup then r.1 in t[r.0] else t[r.0] == {r.1}))
  }

  /** The table holds everything that the records decide. */
  ghost predicate HoldsAll(m: PutMode, t: Rows, rs: seq<Record>) {
    forall i: nat :: Decides(m, rs, i) ==> Holds(m, t, rs[i])
  }

  lemma DecidesTail(m: PutMode, rs: seq<Record>, i: nat)
    requires 0 < i < |rs|
    ensures Decides(m, rs, i) <==> Decides(m, rs[1..], i - 1)
  {
    var ts := rs[1..];
    if Decides(m, ts, i - 1) {
      forall j | i < j < |rs| && !m.bad(rs[j]) && !m.keep && !m.dup
        ensures rs[j].0 != rs[i].0
      {
        assert ts[j - 1] == rs[j];
      }
    }
    if Decides(m, rs, i) {
      forall j | i - 1 < j < |ts| && !m.bad(ts[j]) && !m.keep && !m.dup
        ensures ts[j].0 != ts[i - 1].0
      {
        assert rs[j + 1] == ts[j];
      }
    }
  }

  /** A key that no further record touches keeps its values. */
  lemma {:induction false} Untouched(m: PutMode, rows: Rows, rs: seq<Record>, k: Bytes)
    requires forall r :: r in rs && !m.bad(r) ==> r.0 != k
    ensures var t := PutAll(m, rows, rs); (k in t <==> k in rows) && (k in rows ==> t[k] == rows[k])
    decreases |rs|
  {
    if rs != [] {
      assert rs[0] in rs && forall r :: r in rs[1..] ==> r in rs;
      Untouched(m, PutOrSkip(m, rows, rs[0]), rs[1..], k);
    }
  }

  /** A table with several values for a key, or one that is not overwritten, goes on holding what it holds. */
  lemma {:induction false} HoldsOn(m: PutMode, rows: Rows, rs: seq<Record>, r: Record)
    requires Holds(m, rows, r) && (m.keep || m.dup)
    ensures Holds(m, PutAll(m, rows, rs), r)
    decreases |rs|
  {
    if rs != [] {
      HoldsOn(m, PutOrSkip(m, rows, rs[0]), rs[1..], r);
    }
  }

  /** In the end the table holds everything that the records decide. */
  lemma {:induction false} PutAllHolds(m: PutMode, rows: Rows, rs: seq<Record>, i: nat)
    requires Decides(m, rs, i)
    ensures Holds(m, PutAll(m, rows, rs), rs[i])
    decreases |rs|
  {
    var rows', ts := PutOrSkip(m, rows, rs[0]), rs[1..];
    if i > 0 {
      DecidesTail(m, rs, i);
      PutAllHolds(m, rows', ts, i - 1);
    } else if m.keep || m.dup {
      HoldsOn(m, rows', ts, rs[0]);
    } else {
      forall r | r in ts && !m.bad(r)
        ensures r.0 != rs[0].0
      {
        var j :| 0 <= j < |ts| && ts[j] == r;
        assert rs[j + 1] == r;
      }
      Untouched(m, rows', ts, rs[0].0);
    }
  }

  /** The last record that decides a key, if a record touches it at all. */
  lemma {:induction false} LastTouch(m: PutMode, rs: seq<Record>, r: Record) returns (i: nat)
    requires r in rs && !m.bad(r)
    ensures Decides(m, rs, i) && rs[i].0 == r.0
    decreases |rs|
  {
    if q :| q in rs[1..] && !m.bad(q) && q.0 == r.0 {
      var j := LastTouch(m, rs[1..], q);
      i := j + 1;
      DecidesTail(m, rs, i);
    } else {
      assert rs == [rs[0]] + rs[1..];
      i := 0;
      forall j | 0 < j < |rs| && !m.bad(rs[j])
        ensures rs[j].0 != r.0
      {
        assert rs[j] == rs[1..][j - 1];
      }
    }
  }

  lemma {:induction false} NothingToPut(m: PutMode, t: Rows, rs: seq<Record>)
    requires m.keep || m.dup
    requires forall r :: r in rs && !m.bad(r) ==> Holds(m, t, r)
    ensures PutAll(m, t, rs) == t
    decreases |rs|
  {
    if rs != [] {
      assert rs[0] in rs && forall r :: r in rs[1..] ==> r in rs;
      PutOfHeld(m, t, rs[0]);
      NothingToPut(m, t, rs[1..]);
    }
  }

  lemma PutOfHeld(m: PutMode, t: Rows, r: Record)
    requires (m.keep || m.dup) && (m.bad(r) || Holds(m, t, r))
    ensures PutOrSkip(m, t, r) == t
  {
    if !m.bad(r) && !m.keep {
      assert t[r.0] + {r.1} == t[r.0];
    }
  }

  lemma HoldsAllDecidesKey(m: PutMode, t: Rows, rs: seq<Record>, k: Bytes)
    requires HoldsAll(m, t, rs) && !m.keep && !m.dup
    ensures var t' := PutAll(m, t, rs); (k in t' <==> k in t) && (k in t ==> t'[k] == t[k])
  {
    if r :| r in rs && !m.bad(r) && r.0 == k {
      var i := LastTouch(m, rs, r);
      PutAllHolds(m, t, rs, i);
      assert Holds(m, t, rs[i]);
    } else {
      Untouched(m, t, rs, k);
    }
  }

  /** Putting records changes nothing exactly when the table already holds everything that they decide. */
  lemma PutAllIsNothingIff(m: PutMode, t: Rows, rs: seq<Record>)
    ensures PutAll(m, t, rs) == t <==> HoldsAll(m, t, rs)
  {
    if PutAll(m, t, rs) == t {
      forall i: nat | Decides(m, rs, i)
        ensures Holds(m, t, rs[i])
      {
        PutAllHolds(m, t, rs, i);
      }
    }
    if HoldsAll(m, t, rs) {
      if m.keep || m.dup {
        forall r | r in rs && !m.bad(r)
          ensures Holds(m, t, r)
        {
          var i :| 0 <= i < |rs| && rs[i] == r;
          assert Decides(m, rs, i);
        }
        NothingToPut(m, t, rs);
      } else {
        forall k
          ensures var t' := PutAll(m, t, rs); (k in t' <==> k in t) && (k in t ==> t'[k] == t[k])
        {
          HoldsAllDecidesKey(m, t, rs, k);
        }
      }
    }
  }

  /** Without the resumption, the records after the first refused one are lost, whatever it was refused for. The outcome
      is the intended one exactly when the table by then holds everything that they decide. */
  lemma StoppingIsHarmlessIff(m: PutMode, rows: Rows, rs: seq<Record>)
    ensures var t, rest := PutUntilRefused(m, rows, rs), rs[FirstRefused(m, rows, rs)..];
            t == PutAll(m, rows, rs) <==> HoldsAll(m, t, rest)
  {
    var j := FirstRefused(m, rows, rs);
    assert rs == rs[..j] + rs[j..];
    PutAllAppend(m, rows, rs[..j], rs[j..]);
    PutAllIsNothingIff(m, PutUntilRefused(m, rows, rs), rs[j..]);
  }

  lemma KeepHoldsAllIff(dup: bool, t: Rows, rs: seq<Record>)
    ensures HoldsAll(KeepExisting(dup), t, rs) <==> KeysOf(rs) <= t.Keys
  {
    var m := KeepExisting(dup);
    if HoldsAll(m, t, rs) {
      forall k | k in KeysOf(rs)
        ensures k in t
      {
        var i: nat :| i < |rs| && rs[i].0 == k;
        assert Decides(m, rs, i);
      }
    }
    if KeysOf(rs) <= t.Keys {
      forall i: nat | Decides(m, rs, i)
        ensures Holds(m, t, rs[i])
      {
        assert rs[i].0 in KeysOf(rs);
      }
    }
  }

  /** For MDBX_NOOVERWRITE that is so exactly when none of them brings a new key. */
  lemma KeepStoppingIsHarmlessIff(dup: bool, rows: Rows, rs: seq<Record>)
    ensures var m, j := KeepExisting(dup), FirstRefused(KeepExisting(dup), rows, rs);
            && Merged(rows, rs[..j], PutUntilRefused(m, rows, rs))
            && (PutUntilRefused(m, rows, rs) == PutAll(m, rows, rs) <==>
                KeysOf(rs[j..]) <= rows.Keys + KeysOf(rs[..j]))
  {
    var m, j := KeepExisting(dup), FirstRefused(KeepExisting(dup), rows, rs);
    KeepMerges(dup, rows, rs[..j]);
    StoppingIsHarmlessIff(m, rows, rs);
    KeepHoldsAllIff(dup, PutUntilRefused(m, rows, rs), rs[j..]);
  }

  /** No record is repeated: no key in a table with single values, no pair in a DUPSORT one. */
  ghost predicate NoRepeats(dup: bool, rs: seq<Record>) {
    forall i, j :: 0 <= i < j < |rs| ==> if dup then rs[i] != rs[j] else rs[i].0 != rs[j].0
  }

  lemma NotBefore(dup: bool, rs: seq<Record>, j: nat, i: nat)
    requires NoRepeats(dup, rs) && j + i < |rs|
    ensures rs[j + i] !in rs[..j]
  {
  }

  lemma FreshIsNotHeld(m: PutMode, rs: seq<Record>, j: nat, i: nat)
    requires !m.keep && NoRepeats(m.dup, rs) && j + i < |rs| && !m.bad(rs[j + i])
    ensures Decides(m, rs[j..], i) && !Holds(m, PutAll(m, map[], rs[..j]), rs[j..][i])
  {
    var rest, t := rs[j..], PutAll(m, map[], rs[..j]);
    assert forall l :: 0 <= l < |rest| ==> rest[l] == rs[j + l];
    NotBefore(m.dup, rs, j, i);
    if Holds(m, t, rest[i]) {
      PutAllAddsNothing(m, map[], rs[..j], rest[i].0, rest[i].1);
    }
  }

  lemma FreshRestIsHeldIff(m: PutMode, rs: seq<Record>, j: nat)
    requires !m.keep && NoRepeats(m.dup, rs) && j <= |rs|
    ensures HoldsAll(m, PutAll(m, map[], rs[..j]), rs[j..]) <==> forall r :: r in rs[j..] ==> m.bad(r)
  {
    var rest, t := rs[j..], PutAll(m, map[], rs[..j]);
    if r :| r in rest && !m.bad(r) {
      var i: nat :| i < |rest| && rest[i] == r;
      FreshIsNotHeld(m, rs, j, i);
    } else {
      assert forall i: nat :: Decides(m, rest, i) ==> rest[i] in rest;
    }
  }

  /** Loading a listing into an empty table with overwriting, only a size can be refused, and stopping there is harmless
      exactly when all later records are refused for their size as well. */
  lemma RescueStoppingIsHarmlessIff(m: PutMode, rs: seq<Record>)
    requires !m.keep && NoRepeats(m.dup, rs)
    ensures PutUntilRefused(m, map[], rs) == PutAll(m, map[], rs) <==>
            forall r :: r in rs[FirstRefused(m, map[], rs)..] ==> m.bad(r)
  {
    StoppingIsHarmlessIff(m, map[], rs);
    FreshRestIsHeldIff(m, rs, FirstRefused(m, map[], rs));
  }

  /** MDBX_NOOVERWRITE refuses a second value of a key even in a DUPSORT table, so a listing is restored in full
      exactly when every key has a single value. */
  lemma KeepRestoresIff(dup: bool, rs: seq<Record>, table: Rows)
    requires ValidRows(dup, table) && Lists(rs, table)
    ensures PutAll(KeepExisting(dup), map[], rs) == table <==> ValidRows(false, table)
  {
    var t := PutAll(KeepExisting(dup), map[], rs);
    if ValidRows(false, table) {
      ListingIsTable(false, rs, table);
      KeepIsExistingWins(dup, map[], rs);
      assert TableOf(rs) + map[] == TableOf(rs);
    }
    if t == table {
      KeepMerges(dup, map[], rs);
      forall k | k in table
        ensures forall v, w :: v in table[k] && w in table[k] ==> v == w
      {
        var v :| v in table[k];
        assert (k, v) in rs;
        var i := FirstWithKey(rs, k);
        assert t[k] == {rs[i].1};
      }
    }
  }

  lemma FirstWithKey(rs: seq<Record>, k: Bytes) returns (i: nat)
    requires exists r :: r in rs && r.0 == k
    ensures i < |rs| && rs[i].0 == k && k !in KeysOf(rs[..i])
  {
    i := 0;
    while rs[i].0 != k
      invariant i < |rs| && k !in KeysOf(rs[..i])
      invariant exists j :: i <= j < |rs| && rs[j].0 == k
      decreases |rs| - i
    {
      assert rs[..i + 1] == rs[..i] + [rs[i]];
      KeysOfSnoc(rs[..i], rs[i]);
      i := i + 1;
    }
  }
}
