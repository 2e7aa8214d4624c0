/** The record loop of mdbx_load.c: reading pairs, putting them, and checkpointing along the way. */
module Loading {
  import opened Octets
  import opened LineReader
  import opened LineFacts
  import opened Tables

  // ---------- reading pairs ----------

  /** The unread text, the last key and value read, and the capacities of the two line buffers. */
  datatype Feed = Feed(text: Bytes, key: Bytes, data: Bytes, kcap: nat, dcap: nat)

  datatype Pull = Pulled(record: Record, feed: Feed) | Exhausted(feed: Feed) | Broken(feed: Feed)

  function Kept(out: Option<Bytes>, before: Bytes): Bytes {
    match out
    case None => before
    case Some(v) => v
  }

  predicate Ready(f: Feed) { f.kcap >= 3 && f.dcap >= 3 }

  function PullRecord(plain: bool, f: Feed): (p: Pull)
    requires Ready(f)
    ensures Ready(p.feed) && p.feed.kcap >= f.kcap && p.feed.dcap >= f.dcap && |p.feed.text| <= |f.text|
    ensures p.Pulled? ==> |p.feed.text| < |f.text| && p.feed.key == p.record.0
  {
    var k := ReadLine(plain, false, f.text, f.kcap);
    ReadLineProgress(plain, f.text, f.kcap);
    if k.status == EndOfFile then Exhausted(f.(text := k.rest, kcap := k.cap))
    else if k.status == NoData then Broken(f.(text := k.rest, kcap := k.cap))
    else
      var d := ReadLine(plain, false, k.rest, f.dcap);
      ReadLineProgress(plain, k.rest, f.dcap);
      var key, data := Kept(k.out, f.key), Kept(d.out, f.data);
      if d.status == Success then Pulled((key, data), Feed(d.rest, key, data, k.cap, d.cap))
      else Broken(Feed(d.rest, key, f.data, k.cap, d.cap))
  }

  /** All pairs up to the end of the table, or up to a malformed line. */
  function Records(plain: bool, f: Feed): (seq<Record>, bool, Feed)
    requires Ready(f)
    decreases |f.text|
  {
    match PullRecord(plain, f)
    case Exhausted(f') => ([], true, f')
    case Broken(f') => ([], false, f')
    case Pulled(r, f') =>
      var (rs, clean, end) := Records(plain, f');
      ([r] + rs, clean, end)
  }

  // ---------- putting pairs ----------

  /** `resume` tells the loop that goes on after a skipped record from the loop as it is written, whose
      `continue` tests the error code of the skipped record again and so leaves the loop. */
  datatype Config = Config(plain: bool, put: PutMode, rescue: bool, resume: bool, batchItems: nat, dirtyLimit: nat)

  /** What the engine answers to the calls made for one record, and whether it commits if there is no further one. */
  datatype Answer = Answer(putOk: bool, infoOk: bool, dirty: nat, leftover: nat, checkpointOk: bool, bindOk: bool,
                           commitOk: bool)

  type Engine = nat -> Answer

  const MEGABYTE: nat := 0x10_0000

  /** A write transaction: the rows it sees, those its last checkpoint saved, if any, the puts since then and the puts
      in all. */
  datatype Txn = Txn(work: Rows, saved: Option<Rows>, count: nat, puts: nat)

  function Begin(rows: Rows): Txn { Txn(rows, None, 0, 0) }

  datatype Verdict = Go | Skip | Fail

  function Store(cfg: Config, engine: Engine, t: Txn, r: Record): (Verdict, Txn) {
    match Put(cfg.put, t.work, r)
    case KeyExist => (Skip, t)
    case BadValSize => (if cfg.rescue then Skip else Fail, t)
    case Stored(rows) =>
      var a := engine(t.puts);
      if !a.putOk then (Fail, t)
      else
        var t' := Txn(rows, t.saved, t.count + 1, t.puts + 1);
        var full := cfg.batchItems > 0 && t'.count >= cfg.batchItems;
        var asks := !full && (cfg.dirtyLimit > 0 || t'.count % 256 == 0);
        if asks && !a.infoOk then (Fail, t')
        else if full || (asks && ((cfg.dirtyLimit > 0 && a.dirty >= cfg.dirtyLimit) || a.leftover < 42 * MEGABYTE)) then
          if a.checkpointOk then (if a.bindOk then Go else Fail, t'.(saved := Some(rows), count := 0))
          else (Fail, t')
        else (Go, t')
  }

  datatype Stop = Ended | Skipped | Failed

  function Run(cfg: Config, engine: Engine, f: Feed, t: Txn): (r: (Stop, Feed, Txn))
    requires Ready(f)
    ensures r.1.kcap >= f.kcap && r.1.dcap >= f.dcap && |r.1.text| <= |f.text|
    decreases |f.text|
  {
    match PullRecord(cfg.plain, f)
    case Exhausted(f') => (Ended, f', t)
    case Broken(f') => (Failed, f', t)
    case Pulled(r, f') =>
      var (verdict, t') := Store(cfg, engine, t, r);
      match verdict
      case Go => Run(cfg, engine, f', t')
      case Skip => if cfg.resume then Run(cfg, engine, f', t') else (Skipped, f', t')
      case Fail => (Failed, f', t')
  }

  /** The loop was left without an error and the final commit succeeded. */
  predicate Commits(engine: Engine, stop: Stop, t: Txn) { stop != Failed && engine(t.puts).commitOk }

  /** The rows of the table that reach the disk: all of them, or those of the last checkpoint. There are none when the
      transaction is given up before any. */
  function Committed(engine: Engine, stop: Stop, t: Txn): Option<Rows> {
    if Commits(engine, stop, t) then Some(t.work) else t.saved
  }

  // ---------- checkpoints are transparent ----------

  lemma StoreIsPut(cfg: Config, engine: Engine, t: Txn, r: Record)
    ensures var (verdict, t') := Store(cfg, engine, t, r);
            && (verdict == Go ==> Put(cfg.put, t.work, r) == Stored(t'.work))
            && (verdict == Skip ==> !Put(cfg.put, t.work, r).Stored? && t' == t)
            && (t'.saved == t.saved || t'.saved == Some(PutOrSkip(cfg.put, t.work, r)))
  {
  }

  /** One record more in front of the prefix that is saved later. */
  lemma SavedOneMore(m: PutMode, t: Txn, t1: Txn, r: Record, rs: seq<Record>, saved: Option<Rows>, n1: nat)
    returns (n: nat)
    requires t1.saved == t.saved || t1.saved == Some(PutOrSkip(m, t.work, r))
    requires saved != t1.saved ==> t1.work == PutOrSkip(m, t.work, r)
    requires n1 <= |rs| && (saved == t1.saved || saved == Some(PutAll(m, t1.work, rs[..n1])))
    ensures n <= |[r] + rs| && (saved == t.saved || saved == Some(PutAll(m, t.work, ([r] + rs)[..n])))
  {
    n := if saved == t1.saved then 1 else n1 + 1;
    PutAllHead(m, t.work, r, rs, n - 1);
    assert rs[..0] == [];
  }

  predicate Continues(cfg: Config, verdict: Verdict) { verdict == Go || (verdict == Skip && cfg.resume) }

  lemma RunStep(cfg: Config, engine: Engine, f: Feed, t: Txn)
    requires Ready(f)
    ensures var p := PullRecord(cfg.plain, f);
            if p.Pulled? then
              var (verdict, t1) := Store(cfg, engine, t, p.record);
              && Records(cfg.plain, f).0 == [p.record] + Records(cfg.plain, p.feed).0
              && Run(cfg, engine, f, t).2 == if Continues(cfg, verdict) then Run(cfg, engine, p.feed, t1).2 else t1
            else Run(cfg, engine, f, t).2 == t
  {
  }

  /** However the input is cut into checkpoints and wherever the engine fails, what is saved along the way is
      the result of putting a prefix of the input's records in one go. */
  lemma {:induction false} SavedIsPrefix(cfg: Config, engine: Engine, f: Feed, t: Txn) returns (n: nat)
    requires Ready(f)
    ensures var t', rs := Run(cfg, engine, f, t).2, Records(cfg.plain, f).0;
            n <= |rs| && (t'.saved == t.saved || t'.saved == Some(PutAll(cfg.put, t.work, rs[..n])))
    decreases |f.text|
  {
    var p := PullRecord(cfg.plain, f);
    RunStep(cfg, engine, f, t);
    n := 0;
    if p.Pulled? {
      var (verdict, t1) := Store(cfg, engine, t, p.record);
      StoreIsPut(cfg, engine, t, p.record);
      var m, saved := 0, t1.saved;
      if Continues(cfg, verdict) {
        m := SavedIsPrefix(cfg, engine, p.feed, t1);
        saved := Run(cfg, engine, p.feed, t1).2.saved;
      }
      n := SavedOneMore(cfg.put, t, t1, p.record, Records(cfg.plain, p.feed).0, saved, m);
    }
  }

  /** A loop that reaches the end of the table has put every record, whatever the checkpoints were. */
  lemma {:induction false} EndedPutsAll(cfg: Config, engine: Engine, f: Feed, t: Txn)
    requires Ready(f) && Run(cfg, engine, f, t).0 == Ended
    ensures var (_, f', t') := Run(cfg, engine, f, t);
            var (rs, clean, end) := Records(cfg.plain, f);
            clean && f' == end && t'.work == PutAll(cfg.put, t.work, rs)
    decreases |f.text|
  {
    var p := PullRecord(cfg.plain, f);
    if p.Pulled? {
      var t1 := Store(cfg, engine, t, p.record).1;
      StoreIsPut(cfg, engine, t, p.record);
      EndedPutsAll(cfg, engine, p.feed, t1);
      var rs := Records(cfg.plain, p.feed).0;
      PutAllHead(cfg.put, t.work, p.record, rs, |rs|);
      assert rs[..|rs|] == rs && ([p.record] + rs)[..|rs| + 1] == [p.record] + rs;
    }
  }

  /** A loop left by its `continue` has put the records before the first refused one, and no more. */
  lemma {:induction false} SkippedPutsPrefix(cfg: Config, engine: Engine, f: Feed, t: Txn)
    requires Ready(f)
    ensures var (stop, _, t') := Run(cfg, engine, f, t);
            var rs := Records(cfg.plain, f).0;
            stop == Skipped ==>
              && !cfg.resume && FirstRefused(cfg.put, t.work, rs) < |rs|
              && t'.work == PutUntilRefused(cfg.put, t.work, rs)
    decreases |f.text|
  {
    var p := PullRecord(cfg.plain, f);
    if p.Pulled? {
      var (verdict, t1) := Store(cfg, engine, t, p.record);
      StoreIsPut(cfg, engine, t, p.record);
      PutUntilRefusedHead(cfg.put, t.work, p.record, Records(cfg.plain, p.feed).0);
      if verdict == Go || (verdict == Skip && cfg.resume) {
        SkippedPutsPrefix(cfg, engine, p.feed, t1);
      }
    }
  }

  /** An engine that grants every call; how full the transaction is stays arbitrary. */
  ghost predicate Granting(engine: Engine) {
    forall i :: engine(i).putOk && engine(i).infoOk && engine(i).checkpointOk && engine(i).bindOk && engine(i).commitOk
  }

  /** Well-formed input and a granting engine bring the loop to the end of the table, unless a record is refused
      and the loop does not go on after it. */
  lemma {:induction false} RunOutcome(cfg: Config, engine: Engine, f: Feed, t: Txn)
    requires Ready(f) && Granting(engine) && Records(cfg.plain, f).1
    requires forall r :: cfg.put.bad(r) ==> cfg.rescue
    ensures var rs := Records(cfg.plain, f).0;
            var goesOn := cfg.resume || FirstRefused(cfg.put, t.work, rs) == |rs|;
            Run(cfg, engine, f, t).0 == if goesOn then Ended else Skipped
    decreases |f.text|
  {
    var p := PullRecord(cfg.plain, f);
    if p.Pulled? {
      var (verdict, t1) := Store(cfg, engine, t, p.record);
      assert engine(t.puts).putOk;
      StoreIsPut(cfg, engine, t, p.record);
      PutUntilRefusedHead(cfg.put, t.work, p.record, Records(cfg.plain, p.feed).0);
      if verdict == Go || cfg.resume {
        RunOutcome(cfg, engine, p.feed, t1);
      }
    }
  }

  /** Without the rescue mode, a record of a size that the table refuses makes the load fail, and nothing else does. */
  lemma {:induction false} RefusedSizeFailsIff(cfg: Config, engine: Engine, f: Feed, t: Txn)
    requires Ready(f) && Granting(engine) && Records(cfg.plain, f).1 && !cfg.put.keep && !cfg.rescue
    ensures Run(cfg, engine, f, t).0 ==
              if exists r :: r in Records(cfg.plain, f).0 && cfg.put.bad(r) then Failed else Ended
    decreases |f.text|
  {
    var p := PullRecord(cfg.plain, f);
    if p.Pulled? {
      var (verdict, t1) := Store(cfg, engine, t, p.record);
      var rs := Records(cfg.plain, p.feed).0;
      assert engine(t.puts).putOk;
      assert forall r :: r in [p.record] + rs <==> r == p.record || r in rs;
      if verdict == Go {
        RefusedSizeFailsIff(cfg, engine, p.feed, t1);
      }
    }
  }

  /** The main result about checkpoints: for every batch size, dirty limit and engine, what a load commits is the one-go
      result of some prefix of the records, if it commits anything, and of all of them when the loop ends the table and
      the final commit succeeds. */
  lemma CheckpointTransparency(cfg: Config, engine: Engine, f: Feed, rows: Rows) returns (n: nat)
    requires Ready(f)
    ensures var (stop, _, t') := Run(cfg, engine, f, Begin(rows));
            var rs, committed := Records(cfg.plain, f).0, Committed(engine, stop, t');
            && n <= |rs|
            && (committed.Some? ==> committed.value == PutAll(cfg.put, rows, rs[..n]))
            && (Commits(engine, stop, t') ==> committed.Some? && (stop == Ended ==> n == |rs|))
  {
    var t := Begin(rows);
    var (stop, _, t') := Run(cfg, engine, f, t);
    var rs := Records(cfg.plain, f).0;
    if !Commits(engine, stop, t') {
      n := SavedIsPrefix(cfg, engine, f, t);
    } else if stop == Ended {
      EndedPutsAll(cfg, engine, f, t);
      n := |rs|;
      assert rs[..n] == rs;
    } else {
      SkippedPutsPrefix(cfg, engine, f, t);
      n := FirstRefused(cfg.put, rows, rs);
    }
  }

  // ---------- what a failure loses ----------

  /** The rows seen are those of `n` records put; those saved in between are those of the first `k`, and the records
      stored since are counted. */
  ghost predicate Lags(m: PutMode, t: Txn, t': Txn, rs: seq<Record>, n: nat, k: nat) {
    && k <= n <= |rs|
    && t'.work == PutAll(m, t.work, rs[..n])
    && (|| (k == 0 && t'.saved == t.saved && t'.count == t.count + StoredCount(m, t.work, rs[..n]))
        || (t'.saved == Some(PutAll(m, t.work, rs[..k])) &&
            t'.count == StoredCount(m, PutAll(m, t.work, rs[..k]), rs[k..n])))
  }

  lemma LagsNothing(m: PutMode, t: Txn, rs: seq<Record>)
    ensures Lags(m, t, t, rs, 0, 0)
  {
    assert rs[..0] == [];
  }

  /** What one record does to the transaction when the loop goes on, or fails after storing it. */
  ghost predicate OnePut(m: PutMode, t: Txn, t1: Txn, r: Record) {
    && t1.work == PutOrSkip(m, t.work, r)
    && (|| (t1.saved == t.saved && t1.count == t.count + if Put(m, t.work, r).Stored? then 1 else 0)
        || (t1.saved == Some(t1.work) && t1.count == 0))
  }

  lemma StoreIsOnePut(cfg: Config, engine: Engine, t: Txn, r: Record)
    ensures var (verdict, t1) := Store(cfg, engine, t, r);
            OnePut(cfg.put, t, t1, r) || (!Continues(cfg, verdict) && t1 == t)
  {
  }

  lemma CountHead(m: PutMode, rows: Rows, r: Record, rs: seq<Record>, n: nat)
    requires n <= |rs|
    ensures StoredCount(m, rows, ([r] + rs)[..n + 1])
         == (if Put(m, rows, r).Stored? then 1 else 0) + StoredCount(m, PutOrSkip(m, rows, r), rs[..n])
  {
    assert ([r] + rs)[..n + 1] == [r] + rs[..n];
    assert ([r] + rs[..n])[1..] == rs[..n];
  }

  lemma LagsCons(m: PutMode, t: Txn, t1: Txn, t': Txn, r: Record, rs: seq<Record>, n: nat, k: nat) returns (k': nat)
    requires OnePut(m, t, t1, r) && Lags(m, t1, t', rs, n, k)
    ensures Lags(m, t, t', [r] + rs, n + 1, k')
  {
    var all := [r] + rs;
    PutAllHead(m, t.work, r, rs, 0);
    PutAllHead(m, t.work, r, rs, n);
    PutAllHead(m, t.work, r, rs, k);
    CountHead(m, t.work, r, rs, n);
    assert rs[..0] == [] && all[k + 1..n + 1] == rs[k..n] && all[1..n + 1] == rs[..n];
    if k == 0 && t'.saved == t1.saved && t'.count == t1.count + StoredCount(m, t1.work, rs[..n]) {
      k' := if t1.saved == t.saved && t1.count == t.count + (if Put(m, t.work, r).Stored? then 1 else 0) then 0 else 1;
    } else {
      k' := k + 1;
    }
  }

  lemma LagsStep(m: PutMode, t: Txn, t1: Txn, t': Txn, r: Record, rs: seq<Record>, n1: nat, k1: nat)
    returns (n: nat, k: nat)
    requires OnePut(m, t, t1, r) || t' == t1 == t
    requires Lags(m, t1, t', rs, n1, k1)
    ensures Lags(m, t, t', [r] + rs, n, k)
  {
    if OnePut(m, t, t1, r) {
      k := LagsCons(m, t, t1, t', r, rs, n1, k1);
      n := n1 + 1;
    } else {
      n, k := 0, 0;
      LagsNothing(m, t, [r] + rs);
    }
  }

  lemma {:induction false} RunLags(cfg: Config, engine: Engine, f: Feed, t: Txn) returns (n: nat, k: nat)
    requires Ready(f)
    ensures Lags(cfg.put, t, Run(cfg, engine, f, t).2, Records(cfg.plain, f).0, n, k)
    decreases |f.text|
  {
    var p := PullRecord(cfg.plain, f);
    RunStep(cfg, engine, f, t);
    if p.Pulled? {
      var (verdict, t1) := Store(cfg, engine, t, p.record);
      var rs := Records(cfg.plain, p.feed).0;
      var t', n1, k1 := t1, 0, 0;
      if Continues(cfg, verdict) {
        t' := Run(cfg, engine, p.feed, t1).2;
        n1, k1 := RunLags(cfg, engine, p.feed, t1);
      } else {
        LagsNothing(cfg.put, t1, rs);
      }
      StoreIsOnePut(cfg, engine, t, p.record);
      n, k := LagsStep(cfg.put, t, t1, t', p.record, rs, n1, k1);
    } else {
      n, k := 0, 0;
      LagsNothing(cfg.put, t, Records(cfg.plain, f).0);
    }
  }

  /** No checkpoint was due when the loop went on: the batch is not full, and the dirty and the remaining space, where
      they were asked for at the last put, are within their limits. */
  ghost predicate HasRoom(cfg: Config, engine: Engine, t: Txn) {
    t.count != 0 ==>
      && t.puts > 0
      && (cfg.batchItems > 0 ==> t.count < cfg.batchItems)
      && (cfg.dirtyLimit > 0 ==> engine(t.puts - 1).dirty < cfg.dirtyLimit)
      && (cfg.dirtyLimit > 0 || t.count % 256 == 0 ==> engine(t.puts - 1).leftover >= 42 * MEGABYTE)
  }

  lemma StoreKeepsRoom(cfg: Config, engine: Engine, t: Txn, r: Record)
    requires HasRoom(cfg, engine, t)
    ensures var (verdict, t1) := Store(cfg, engine, t, r);
            (verdict != Fail ==> HasRoom(cfg, engine, t1)) && (cfg.batchItems > 0 ==> t1.count <= cfg.batchItems)
  {
  }

  /** A run never goes on with a checkpoint overdue, and even where it fails at most one batch is not saved. */
  lemma {:induction false} RunKeepsRoom(cfg: Config, engine: Engine, f: Feed, t: Txn)
    requires Ready(f) && HasRoom(cfg, engine, t)
    ensures var (stop, _, t') := Run(cfg, engine, f, t);
            (stop != Failed ==> HasRoom(cfg, engine, t')) && (cfg.batchItems > 0 ==> t'.count <= cfg.batchItems)
    decreases |f.text|
  {
    var p := PullRecord(cfg.plain, f);
    if p.Pulled? {
      var (verdict, t1) := Store(cfg, engine, t, p.record);
      StoreKeepsRoom(cfg, engine, t, p.record);
      if Continues(cfg, verdict) {
        RunKeepsRoom(cfg, engine, p.feed, t1);
      }
    }
  }

  /** What a transaction that started with `rows` has done after `n` records: it sees them all put, its last checkpoint
      holds the first `k`, and the records stored since are those counted, at most one batch when there is a limit. */
  ghost predicate LosesAtMostABatch(cfg: Config, rows: Rows, t: Txn, rs: seq<Record>, n: nat, k: nat) {
    && k <= n <= |rs|
    && t.work == PutAll(cfg.put, rows, rs[..n])
    && (if t.saved.Some? then t.saved.value == PutAll(cfg.put, rows, rs[..k]) else k == 0)
    && t.count == StoredCount(cfg.put, PutAll(cfg.put, rows, rs[..k]), rs[k..n])
    && (cfg.batchItems > 0 ==> t.count <= cfg.batchItems)
  }

  lemma LagsFromStart(cfg: Config, rows: Rows, t: Txn, rs: seq<Record>, n: nat, k: nat)
    requires Lags(cfg.put, Begin(rows), t, rs, n, k) && (cfg.batchItems > 0 ==> t.count <= cfg.batchItems)
    ensures LosesAtMostABatch(cfg, rows, t, rs, n, k)
  {
    assert rs[..0] == [] && rs[0..n] == rs[..n];
  }

  /** A load that fails, for whatever reason and with whatever options, loses exactly the records stored since its last
      checkpoint, and never more than one batch of them. */
  lemma LossIsBounded(cfg: Config, engine: Engine, f: Feed, rows: Rows) returns (n: nat, k: nat)
    requires Ready(f)
    ensures LosesAtMostABatch(cfg, rows, Run(cfg, engine, f, Begin(rows)).2, Records(cfg.plain, f).0, n, k)
  {
    var start := Begin(rows);
    n, k := RunLags(cfg, engine, f, start);
    RunKeepsRoom(cfg, engine, f, start);
    LagsFromStart(cfg, rows, Run(cfg, engine, f, start).2, Records(cfg.plain, f).0, n, k);
  }

  // ---------- skipping refused records: the loop as meant and as written ----------

  /** With well-formed input and a granting engine, a loop that goes on after every refused record commits the one-go
      result of all records. */
  lemma ResumingLoopCommits(cfg: Config, engine: Engine, f: Feed, rows: Rows)
    requires Ready(f) && Granting(engine) && Records(cfg.plain, f).1
    requires (forall r :: cfg.put.bad(r) ==> cfg.rescue) && cfg.resume
    ensures var (stop, _, t) := Run(cfg, engine, f, Begin(rows));
            stop == Ended && Committed(engine, stop, t) == Some(PutAll(cfg.put, rows, Records(cfg.plain, f).0))
  {
    RunOutcome(cfg, engine, f, Begin(rows));
    EndedPutsAll(cfg, engine, f, Begin(rows));
  }

  /** For -N that is the existing-wins merge of the table with all records. */
  lemma ResumingLoopMerges(cfg: Config, engine: Engine, f: Feed, rows: Rows)
    requires Ready(f) && Granting(engine) && Records(cfg.plain, f).1
    requires cfg.put == KeepExisting(cfg.put.dup) && cfg.resume
    ensures var (stop, _, t) := Run(cfg, engine, f, Begin(rows));
            var committed := Committed(engine, stop, t);
            stop == Ended && committed.Some? && Merged(rows, Records(cfg.plain, f).0, committed.value)
  {
    ResumingLoopCommits(cfg, engine, f, rows);
    KeepMerges(cfg.put.dup, rows, Records(cfg.plain, f).0);
  }

  /** Whether it meets an existing key, a refused size, or neither, the loop as written commits what comes before it. */
  lemma LiteralLoopCommits(cfg: Config, engine: Engine, f: Feed, rows: Rows)
    requires Ready(f) && Granting(engine) && Records(cfg.plain, f).1
    requires (forall r :: cfg.put.bad(r) ==> cfg.rescue) && !cfg.resume
    ensures var (stop, _, t) := Run(cfg, engine, f, Begin(rows));
            && stop != Failed
            && Committed(engine, stop, t) == Some(PutUntilRefused(cfg.put, rows, Records(cfg.plain, f).0))
  {
    var t := Begin(rows);
    var rs := Records(cfg.plain, f).0;
    RunOutcome(cfg, engine, f, t);
    if FirstRefused(cfg.put, rows, rs) == |rs| {
      EndedPutsAll(cfg, engine, f, t);
      assert rs[..|rs|] == rs;
    } else {
      SkippedPutsPrefix(cfg, engine, f, t);
    }
  }

  /** What the loop as written commits. */
  ghost function LiteralResult(cfg: Config, engine: Engine, f: Feed, rows: Rows): Option<Rows>
    requires Ready(f)
  {
    var (stop, _, t) := Run(cfg.(resume := false), engine, f, Begin(rows));
    Committed(engine, stop, t)
  }

  /** What it is meant to commit: the result of the loop that goes on. */
  ghost function IntendedResult(cfg: Config, engine: Engine, f: Feed, rows: Rows): Option<Rows>
    requires Ready(f)
  {
    var (stop, _, t) := Run(cfg.(resume := true), engine, f, Begin(rows));
    Committed(engine, stop, t)
  }

  lemma BothResults(cfg: Config, engine: Engine, f: Feed, rows: Rows)
    requires Ready(f) && Granting(engine) && Records(cfg.plain, f).1
    requires forall r :: cfg.put.bad(r) ==> cfg.rescue
    ensures LiteralResult(cfg, engine, f, rows) == Some(PutUntilRefused(cfg.put, rows, Records(cfg.plain, f).0))
    ensures IntendedResult(cfg, engine, f, rows) == Some(PutAll(cfg.put, rows, Records(cfg.plain, f).0))
  {
    LiteralLoopCommits(cfg.(resume := false), engine, f, rows);
    ResumingLoopCommits(cfg.(resume := true), engine, f, rows);
  }

  /** With -N, with -r and with both, the loop as written commits what it is meant to exactly when the table, once the
      records before the first refused one are put, holds everything that the later ones decide. */
  lemma LiteralLoopIsRightIff(cfg: Config, engine: Engine, f: Feed, rows: Rows)
    requires Ready(f) && Granting(engine) && Records(cfg.plain, f).1
    requires forall r :: cfg.put.bad(r) ==> cfg.rescue
    ensures var rs := Records(cfg.plain, f).0;
            LiteralResult(cfg, engine, f, rows) == IntendedResult(cfg, engine, f, rows) <==>
            HoldsAll(cfg.put, PutUntilRefused(cfg.put, rows, rs), rs[FirstRefused(cfg.put, rows, rs)..])
  {
    BothResults(cfg, engine, f, rows);
    StoppingIsHarmlessIff(cfg.put, rows, Records(cfg.plain, f).0);
  }

  /** With -N the loop as written commits the merge with the records before the first existing key only; that is the
      intended merge exactly when no later record brings a new key. */
  lemma LiteralLoopStops(cfg: Config, engine: Engine, f: Feed, rows: Rows)
    requires Ready(f) && Granting(engine) && Records(cfg.plain, f).1
    requires cfg.put == KeepExisting(cfg.put.dup)
    ensures var rs, j := Records(cfg.plain, f).0, FirstRefused(cfg.put, rows, Records(cfg.plain, f).0);
            && LiteralResult(cfg, engine, f, rows).Some?
            && Merged(rows, rs[..j], LiteralResult(cfg, engine, f, rows).value)
            && (LiteralResult(cfg, engine, f, rows) == IntendedResult(cfg, engine, f, rows) <==>
                KeysOf(rs[j..]) <= rows.Keys + KeysOf(rs[..j]))
  {
    BothResults(cfg, engine, f, rows);
    KeepStoppingIsHarmlessIff(cfg.put.dup, rows, Records(cfg.plain, f).0);
  }

  /** With -r, loading records without repetition into an empty table, the loop as written commits the records before
      the first of a refused size; that is what is meant exactly when all later ones are of a refused size too. */
  lemma LiteralRescueStops(cfg: Config, engine: Engine, f: Feed)
    requires Ready(f) && Granting(engine) && Records(cfg.plain, f).1
    requires cfg.rescue && !cfg.put.keep && NoRepeats(cfg.put.dup, Records(cfg.plain, f).0)
    ensures var rs, j := Records(cfg.plain, f).0, FirstRefused(cfg.put, map[], Records(cfg.plain, f).0);
            && LiteralResult(cfg, engine, f, map[]) == Some(PutAll(cfg.put, map[], rs[..j]))
            && (LiteralResult(cfg, engine, f, map[]) == IntendedResult(cfg, engine, f, map[]) <==>
                forall r :: r in rs[j..] ==> cfg.put.bad(r))
  {
    BothResults(cfg, engine, f, map[]);
    RescueStoppingIsHarmlessIff(cfg.put, Records(cfg.plain, f).0);
  }

  // ---------- the loop itself ----------

  /** The open write transaction on the target table. */
  class Transaction {
    var work: Rows
    var saved: Option<Rows>

    constructor (rows: Rows)
      ensures work == rows && saved == None
    {
      work, saved := rows, None;
    }
  }

  /** The engine's part of one turn: `mdbx_cursor_put` and, when due, `mdbx_txn_checkpoint`. */
  method StoreRecord(cfg: Config, engine: Engine, txn: Transaction, count0: nat, puts0: nat, r: Record)
    returns (verdict: Verdict, count: nat, puts: nat)
    modifies txn
    ensures (verdict, Txn(txn.work, txn.saved, count, puts))
         == Store(cfg, engine, Txn(old(txn.work), old(txn.saved), count0, puts0), r)
  {
    count, puts := count0, puts0;
    var put := Put(cfg.put, txn.work, r);
    if put == KeyExist {
      return Skip, count, puts;
    }
    if put == BadValSize {
      return if cfg.rescue then Skip else Fail, count, puts;
    }
    var a := engine(puts);
    if !a.putOk {
      return Fail, count, puts;
    }
    txn.work := put.rows;
    count, puts := count + 1, puts + 1;
    var shouldCheckpoint := cfg.batchItems > 0 && count >= cfg.batchItems;
    if !shouldCheckpoint && (cfg.dirtyLimit > 0 || count % 256 == 0) {
      if !a.infoOk {
        return Fail, count, puts;
      }
      shouldCheckpoint := (cfg.dirtyLimit > 0 && a.dirty >= cfg.dirtyLimit) || a.leftover < 42 * MEGABYTE;
    }
    if shouldCheckpoint {
      if !a.checkpointOk {
        return Fail, count, puts;
      }
      txn.saved := Some(txn.work);
      count := 0;
      if !a.bindOk {
        return Fail, count, puts;
      }
    }
    verdict := Go;
  }

  ghost predicate Buffers(key: Val, data: Val, keyBuf: Val, dataBuf: Val)
    reads key, data, keyBuf, dataBuf
  {
    && keyBuf.IsBuffer() && dataBuf.IsBuffer()
    && key.len <= key.base.Length && data.len <= data.base.Length
    && key.base != dataBuf.base && data.base != keyBuf.base && keyBuf.base != dataBuf.base
    && key != data && key != keyBuf && key != dataBuf && data != keyBuf && data != dataBuf && keyBuf != dataBuf
  }

  ghost function FeedOf(stdin: Stdin, key: Val, data: Val, keyBuf: Val, dataBuf: Val): Feed
    reads stdin, key, data, keyBuf, dataBuf, key.base, data.base
    requires Buffers(key, data, keyBuf, dataBuf)
  {
    Feed(stdin.rest, key.Contents(), data.Contents(), keyBuf.len, dataBuf.len)
  }

  /** The two `readline` calls of one turn. */
  method ReadPair(stdin: Stdin, plain: bool, key: Val, data: Val, keyBuf: Val, dataBuf: Val)
    returns (err: Status, inValue: bool)
    requires Buffers(key, data, keyBuf, dataBuf)
    modifies stdin, key, data, keyBuf, dataBuf, keyBuf.base, dataBuf.base
    ensures Buffers(key, data, keyBuf, dataBuf)
    ensures keyBuf.base == old(keyBuf.base) || fresh(keyBuf.base)
    ensures dataBuf.base == old(dataBuf.base) || fresh(dataBuf.base)
    ensures var p := PullRecord(plain, old(FeedOf(stdin, key, data, keyBuf, dataBuf)));
            match p
            case Pulled(r, f) => err == Success && r == (key.Contents(), data.Contents()) &&
                                 f == FeedOf(stdin, key, data, keyBuf, dataBuf)
            case Exhausted(f) => err == EndOfFile && !inValue && stdin.rest == f.text && keyBuf.len == f.kcap
                                 && dataBuf.len == f.dcap
            case Broken(_) => err != Success && (err == EndOfFile ==> inValue)
  {
    inValue := false;
    err := Readline(stdin, plain, false, key, keyBuf);
    if err != Success {
      return;
    }
    inValue := true;
    err := Readline(stdin, plain, false, data, dataBuf);
  }

  /** One turn of the record loop; `stop` says whether and how the loop is left. */
  method LoadOne(stdin: Stdin, cfg: Config, engine: Engine, key: Val, data: Val, keyBuf: Val, dataBuf: Val,
                 txn: Transaction, count0: nat, puts0: nat) returns (stop: Option<Stop>, count: nat, puts: nat)
    requires Buffers(key, data, keyBuf, dataBuf)
    modifies stdin, key, data, keyBuf, dataBuf, keyBuf.base, dataBuf.base, txn
    ensures Buffers(key, data, keyBuf, dataBuf)
    ensures keyBuf.base == old(keyBuf.base) || fresh(keyBuf.base)
    ensures dataBuf.base == old(dataBuf.base) || fresh(dataBuf.base)
    ensures var run := Run(cfg, engine, old(FeedOf(stdin, key, data, keyBuf, dataBuf)),
                           Txn(old(txn.work), old(txn.saved), count0, puts0));
            match stop
            case None =>
              |stdin.rest| < |old(stdin.rest)| &&
              run == Run(cfg, engine, FeedOf(stdin, key, data, keyBuf, dataBuf), Txn(txn.work, txn.saved, count, puts))
            case Some(how) =>
              how == run.0 && txn.work == run.2.work && txn.saved == run.2.saved && puts == run.2.puts &&
              (how != Failed ==> stdin.rest == run.1.text && keyBuf.len == run.1.kcap && dataBuf.len == run.1.dcap)
  {
    count, puts := count0, puts0;
    var err, inValue := ReadPair(stdin, cfg.plain, key, data, keyBuf, dataBuf);
    if err != Success {
      return Some(if err == EndOfFile && !inValue then Ended else Failed), count, puts;
    }
    var verdict;
    verdict, count, puts :=
      StoreRecord(cfg, engine, txn, count, puts, (key.base[..key.len], data.base[..data.len]));
    if verdict == Fail {
      return Some(Failed), count, puts;
    }
    if verdict == Skip && !cfg.resume {
      return Some(Skipped), count, puts;
    }
    stop := None;
  }

  /** The record loop of `main`. */
  method LoadRecords(stdin: Stdin, cfg: Config, engine: Engine, keyBuf: Val, dataBuf: Val, txn: Transaction)
    returns (stop: Stop, puts: nat)
    requires keyBuf.IsBuffer() && dataBuf.IsBuffer() && keyBuf != dataBuf && keyBuf.base != dataBuf.base
    modifies stdin, keyBuf, dataBuf, keyBuf.base, dataBuf.base, txn
    ensures keyBuf.IsBuffer() && dataBuf.IsBuffer() && keyBuf.base != dataBuf.base
    ensures keyBuf.base == old(keyBuf.base) || fresh(keyBuf.base)
    ensures dataBuf.base == old(dataBuf.base) || fresh(dataBuf.base)
    ensures var (stop', f, t) := Run(cfg, engine, Feed(old(stdin.rest), [], [], old(keyBuf.len), old(dataBuf.len)),
                                     Txn(old(txn.work), old(txn.saved), 0, 0));
            stop == stop' && txn.work == t.work && txn.saved == t.saved && puts == t.puts &&
            (stop != Failed ==> stdin.rest == f.text && keyBuf.len == f.kcap && dataBuf.len == f.dcap)
  {
    var key := new Val(0);
    var data := new Val(0);
    var count := 0;
    puts := 0;
    ghost var goal := Run(cfg, engine, FeedOf(stdin, key, data, keyBuf, dataBuf), Txn(txn.work, txn.saved, 0, 0));
    assert key.Contents() == [] && data.Contents() == [];
    while true
      invariant Buffers(key, data, keyBuf, dataBuf)
      invariant keyBuf.base == old(keyBuf.base) || fresh(keyBuf.base)
      invariant dataBuf.base == old(dataBuf.base) || fresh(dataBuf.base)
      invariant Run(cfg, engine, FeedOf(stdin, key, data, keyBuf, dataBuf), Txn(txn.work, txn.saved, count, puts))
             == goal
      decreases |stdin.rest|
    {
      var done;
      done, count, puts := LoadOne(stdin, cfg, engine, key, data, keyBuf, dataBuf, txn, count, puts);
      if done.Some? {
        stop := done.value;
        return;
      }
    }
  }
}
