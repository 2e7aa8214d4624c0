/** Page-number lists of mdbx-internals.h: an array whose slot 0 holds the number of pages, followed by the pages in
    strictly descending order. */
module PageLists {
  import opened Words

  /** Subtraction of `pgno_t` values. */
  function Sub32(a: nat, b: nat): nat { (a - b) % U32 }

  /** The memory of a list as seen through its pointer, one slot past the pages included. */
  ghost predicate IsList(pl: seq<nat>) {
    && |pl| >= 1 && pl[0] + 1 < |pl|
    && (forall i :: 0 <= i < |pl| ==> pl[i] < U32)
    && (forall i, j :: 1 <= i < j <= pl[0] ==> pl[i] > pl[j])
  }

  ghost predicate Holds(pl: seq<nat>, page: int)
    requires IsList(pl)
  {
    exists i :: 1 <= i <= pl[0] && pl[i] == page
  }

  /** All pages of the span are in the list. */
  ghost predicate HoldsSpan(pl: seq<nat>, pgno: nat, span: nat)
    requires IsList(pl)
  {
    forall p :: pgno <= p < pgno + span ==> Holds(pl, p)
  }

  // ---------- searching ----------

  /** What `pnl_search_nochk` looks for: the first index from `i` whose page is not above `pgno`, or the slot past the
      end. */
  function Search(pl: seq<nat>, pgno: nat, i: nat): (n: nat)
    requires IsList(pl) && 1 <= i <= pl[0] + 1
    ensures i <= n <= pl[0] + 1
    ensures n <= pl[0] ==> pl[n] <= pgno
    ensures forall j :: i <= j < n ==> pl[j] > pgno
    decreases pl[0] + 1 - i
  {
    if i > pl[0] || pl[i] <= pgno then i else Search(pl, pgno, i + 1)
  }

  /** Everything before the window is above the page, and nothing behind it. */
  ghost predicate Window(pl: seq<nat>, pgno: nat, it: nat, length: nat)
    requires IsList(pl)
  {
    && 1 <= it && it + length <= pl[0] + 1
    && (forall j :: 1 <= j < it ==> pl[j] > pgno)
    && (forall j :: it + length <= j <= pl[0] ==> pl[j] <= pgno)
  }

  /** A step of the search without a jump: the window keeps the middle element. For an empty window the element read is
      the slot past the end. */
  method HalveByMove(pl: seq<nat>, pgno: nat, it0: nat, length0: nat) returns (it: nat, length: nat)
    requires IsList(pl) && Window(pl, pgno, it0, length0)
    ensures Window(pl, pgno, it, length) && length == (length0 + 1) / 2
  {
    var middle := it0 + length0 / 2;
    length := (length0 + 1) / 2;
    it := if pl[middle] > pgno then middle else it0;
  }

  /** A step with a jump: a middle element above the page is left behind. */
  method HalveByJump(pl: seq<nat>, pgno: nat, it0: nat, length0: nat) returns (it: nat, length: nat)
    requires IsList(pl) && Window(pl, pgno, it0, length0) && length0 > 2
    ensures Window(pl, pgno, it, length) && length < length0
  {
    var middle := it0 + length0 / 2;
    it, length := it0, (length0 + 1) / 2;
    if pl[middle] > pgno {
      it, length := middle + 1, length - 1;
    }
  }

  lemma NotBefore(pl: seq<nat>, pgno: nat, m: nat, n: nat)
    requires IsList(pl) && 1 <= m && n <= pl[0] + 1
    requires (m <= pl[0] ==> pl[m] <= pgno) && forall j :: 1 <= j < n ==> pl[j] > pgno
    ensures n <= m
  {
  }

  lemma SearchIsUnique(pl: seq<nat>, pgno: nat, n: nat)
    requires IsList(pl) && Window(pl, pgno, n, 0)
    ensures Search(pl, pgno, 1) == n
  {
    NotBefore(pl, pgno, Search(pl, pgno, 1), n);
    NotBefore(pl, pgno, n, Search(pl, pgno, 1));
  }

  /** `pnl_search_nochk`, built with conditional moves or without: a halving search that stops at two elements. */
  method SearchNochk(pl: seq<nat>, pgno: nat, cmov: bool) returns (n: nat)
    requires IsList(pl)
    ensures n == Search(pl, pgno, 1)
  {
    var it, length := 1, pl[0];
    if cmov {
      it, length := HalveByMove(pl, pgno, it, length);
      while length > 2
        invariant Window(pl, pgno, it, length)
      {
        it, length := HalveByMove(pl, pgno, it, length);
      }
    } else {
      while length > 2
        invariant Window(pl, pgno, it, length)
      {
        it, length := HalveByJump(pl, pgno, it, length);
      }
    }
    ghost var end := it + length;
    if length > 1 && pl[it] > pgno {
      it := it + 1;
    }
    if length > 0 && pl[it] > pgno {
      it := it + 1;
    }
    assert Window(pl, pgno, it, 0);
    SearchIsUnique(pl, pgno, it);
    n := it;
  }

  function SearchExact(pl: seq<nat>, pgno: nat): nat
    requires IsList(pl)
  {
    var n := Search(pl, pgno, 1);
    if n <= pl[0] && pl[n] == pgno then n else 0
  }

  predicate Contains(pl: seq<nat>, pgno: nat)
    requires IsList(pl)
  {
    var n := Search(pl, pgno, 1);
    n <= pl[0] && pl[n] == pgno
  }

  /** `MDBX_PNL_CONTIGUOUS` for descending lists. */
  predicate Contiguous(prev: nat, next: nat, span: nat) { Sub32(prev, next) == span }

  /** `pnl_contains_span`: two elements are looked at, and the slot past the end may be one of them. */
  predicate ContainsSpan(pl: seq<nat>, pgno: nat, span: nat)
    requires IsList(pl) && 1 <= span < U32
  {
    var n := Search(pl, pgno, 1);
    n >= span && pl[n] == pgno && Contiguous(pl[n - span + 1], pl[n], Sub32(span, 1))
  }

  /** A higher page is at an earlier position. */
  lemma Order(pl: seq<nat>, i: nat, j: nat)
    requires IsList(pl) && 1 <= i <= pl[0] && 1 <= j <= pl[0]
    ensures i < j <==> pl[i] > pl[j]
  {
  }

  lemma SearchFinds(pl: seq<nat>, pgno: nat)
    requires IsList(pl)
    ensures var n := Search(pl, pgno, 1);
            (Holds(pl, pgno) <==> n <= pl[0] && pl[n] == pgno) &&
            (forall i :: 1 <= i <= pl[0] && pl[i] == pgno ==> i == n)
  {
    var n := Search(pl, pgno, 1);
    forall i | 1 <= i <= pl[0] && pl[i] == pgno
      ensures i == n
    {
      assert !(1 <= i < n);
      Order(pl, n, i);
    }
  }

  /** The exact search answers membership with the position, and 0 otherwise. */
  lemma SearchExactIff(pl: seq<nat>, pgno: nat)
    requires IsList(pl)
    ensures var n := SearchExact(pl, pgno);
            (n != 0 <==> Holds(pl, pgno)) && (n != 0 ==> 1 <= n <= pl[0] && pl[n] == pgno) &&
            (Contains(pl, pgno) <==> Holds(pl, pgno))
  {
    SearchFinds(pl, pgno);
  }

  // ---------- the two-element span test ----------

  lemma {:induction false} Gap(pl: seq<nat>, i: nat, j: nat)
    requires IsList(pl) && 1 <= i <= j <= pl[0]
    ensures pl[i] - pl[j] >= j - i
    decreases j - i
  {
    if i < j {
      Gap(pl, i + 1, j);
    }
  }

  /** Consecutive pages upwards from position `n` are at consecutive positions downwards. */
  lemma {:induction false} SpanPosition(pl: seq<nat>, n: nat, k: nat)
    requires IsList(pl) && 1 <= n <= pl[0] && HoldsSpan(pl, pl[n], k + 1)
    ensures n > k && pl[n - k] == pl[n] + k
    decreases k
  {
    if k > 0 {
      SpanPosition(pl, n, k - 1);
      var m := n - (k - 1);
      assert Holds(pl, pl[n] + k);
      var i :| 1 <= i <= pl[0] && pl[i] == pl[n] + k;
      Order(pl, i, m);
      Order(pl, i, m - 1);
    }
  }

  lemma BetweenIsExact(pl: seq<nat>, first: nat, n: nat, i: nat)
    requires IsList(pl) && 1 <= first <= i <= n <= pl[0] && pl[first] - pl[n] == n - first
    ensures pl[i] == pl[n] + (n - i)
  {
    Gap(pl, first, i);
    Gap(pl, i, n);
  }

  lemma ContainsSpanIsSound(pl: seq<nat>, pgno: nat, span: nat)
    requires IsList(pl) && 1 <= span < U32
    requires Search(pl, pgno, 1) <= pl[0] && ContainsSpan(pl, pgno, span)
    ensures HoldsSpan(pl, pgno, span)
  {
    var n := Search(pl, pgno, 1);
    var first := n - span + 1;
    Gap(pl, first, n);
    forall p | pgno <= p < pgno + span
      ensures Holds(pl, p)
    {
      BetweenIsExact(pl, first, n, n - (p - pgno));
    }
  }

  lemma ContainsSpanIsComplete(pl: seq<nat>, pgno: nat, span: nat)
    requires IsList(pl) && 1 <= span < U32 && HoldsSpan(pl, pgno, span)
    ensures ContainsSpan(pl, pgno, span)
  {
    var n := Search(pl, pgno, 1);
    assert Holds(pl, pgno);
    SearchFinds(pl, pgno);
    SpanPosition(pl, n, span - 1);
  }

  /** Looking at two elements is enough: when the search stays inside the list or the slot past it holds another value,
      the test is true exactly when every page of the span is in the list. */
  lemma ContainsSpanIff(pl: seq<nat>, pgno: nat, span: nat)
    requires IsList(pl) && 1 <= span < U32
    requires Search(pl, pgno, 1) <= pl[0] || pl[Search(pl, pgno, 1)] != pgno
    ensures ContainsSpan(pl, pgno, span) <==> HoldsSpan(pl, pgno, span)
  {
    if ContainsSpan(pl, pgno, span) {
      ContainsSpanIsSound(pl, pgno, span);
    }
    if HoldsSpan(pl, pgno, span) {
      ContainsSpanIsComplete(pl, pgno, span);
    }
  }

  /** Unlike `pnl_contains`, the span test has no bound check, so it is right for every span exactly when the slot past
      the end does not happen to hold the page searched for. */
  lemma ContainsSpanGuardIff(pl: seq<nat>, pgno: nat)
    requires IsList(pl)
    ensures (forall span: nat :: 1 <= span < U32 ==> (ContainsSpan(pl, pgno, span) <==> HoldsSpan(pl, pgno, span)))
       <==> (Search(pl, pgno, 1) <= pl[0] || pl[Search(pl, pgno, 1)] != pgno)
  {
    var n := Search(pl, pgno, 1);
    if n <= pl[0] || pl[n] != pgno {
      forall span: nat | 1 <= span < U32
        ensures ContainsSpan(pl, pgno, span) <==> HoldsSpan(pl, pgno, span)
      {
        ContainsSpanIff(pl, pgno, span);
      }
    } else {
      SearchFinds(pl, pgno);
      assert ContainsSpan(pl, pgno, 1);
      assert !Holds(pl, pgno);
      assert !HoldsSpan(pl, pgno, 1);
    }
  }

  /** An example: the slot past the end of an empty list holds page 5, and the test finds that page. */
  lemma SlotPastTheEndExample()
    ensures var pl: seq<nat> := [0, 5];
            IsList(pl) && ContainsSpan(pl, 5, 1) && !Contains(pl, 5) && !HoldsSpan(pl, 5, 1)
  {
    var pl: seq<nat> := [0, 5];
    SearchExactIff(pl, 5);
    assert !Holds(pl, 5);
  }

  // ---------- runs ----------

  /** The pages from `from` on are consecutive for `span` positions. */
  ghost predicate Run(pl: seq<nat>, from: nat, span: nat)
    requires IsList(pl)
  {
    1 <= from && from + span <= pl[0] + 1 && forall i :: from <= i < from + span ==> pl[i] == pl[from] - (i - from)
  }

  ghost predicate MaximalRun(pl: seq<nat>, from: nat, span: nat)
    requires IsList(pl)
  {
    Run(pl, from, span) && !Run(pl, from, span + 1)
  }

  lemma RunEnds(pl: seq<nat>, from: nat, span: nat)
    requires IsList(pl) && 1 <= span && 1 <= from
    requires from + span <= pl[0] ==> !Contiguous(pl[from], pl[from + span], span)
    ensures !Run(pl, from, span + 1)
  {
  }

  /** `pnl_scan_span`. */
  method ScanSpan(pl: seq<nat>, from: nat) returns (span: nat)
    requires IsList(pl) && 1 <= from <= pl[0]
    ensures span >= 1 && MaximalRun(pl, from, span)
  {
    span := 1;
    while from + span <= pl[0] && Contiguous(pl[from], pl[from + span], span)
      invariant 1 <= span && Run(pl, from, span)
      decreases pl[0] + 1 - from - span
    {
      assert pl[from] > pl[from + span];
      span := span + 1;
    }
    RunEnds(pl, from, span);
  }

  lemma RunShortens(pl: seq<nat>, from: nat, span: nat, span': nat)
    requires IsList(pl) && Run(pl, from, span)
    ensures span' <= span ==> Run(pl, from, span')
  {
  }

  lemma MaximalRunIsUnique(pl: seq<nat>, from: nat, span: nat, span': nat)
    requires IsList(pl) && MaximalRun(pl, from, span) && MaximalRun(pl, from, span')
    ensures span == span'
  {
    RunShortens(pl, from, span, span' + 1);
    RunShortens(pl, from, span', span + 1);
  }

  /** `runs` are the results of stepping through the list with `ScanSpan` from position `from` on. */
  ghost predicate Steps(pl: seq<nat>, from: nat, runs: seq<nat>)
    requires IsList(pl) && 1 <= from <= pl[0] + 1
    decreases |runs|
  {
    if runs == [] then from == pl[0] + 1
    else runs[0] >= 1 && MaximalRun(pl, from, runs[0]) && Steps(pl, from + runs[0], runs[1..])
  }

  /** A scan of the whole list, the way its callers use `pnl_scan_span`. */
  method ScanAll(pl: seq<nat>) returns (runs: seq<nat>)
    requires IsList(pl)
    ensures Steps(pl, 1, runs)
  {
    runs := ScanFrom(pl, 1);
  }

  method ScanFrom(pl: seq<nat>, from: nat) returns (runs: seq<nat>)
    requires IsList(pl) && 1 <= from <= pl[0] + 1
    ensures Steps(pl, from, runs)
    decreases pl[0] + 1 - from
  {
    if from == pl[0] + 1 {
      return [];
    }
    var span := ScanSpan(pl, from);
    var rest := ScanFrom(pl, from + span);
    runs := [span] + rest;
  }

  function Sum(ns: seq<nat>): nat {
    if ns == [] then 0 else ns[0] + Sum(ns[1..])
  }

  /** Where the i-th run starts. */
  function StartOf(from: nat, runs: seq<nat>, i: nat): nat
    requires i <= |runs|
  {
    from + Sum(runs[..i])
  }

  lemma StartOfTail(from: nat, runs: seq<nat>, i: nat)
    requires 0 < i <= |runs|
    ensures StartOf(from, runs, i) == StartOf(from + runs[0], runs[1..], i - 1)
  {
    assert runs[..i][0] == runs[0] && runs[..i][1..] == runs[1..][..i - 1];
  }

  /** A maximal run that also cannot be extended upwards. */
  ghost predicate IsolatedRun(pl: seq<nat>, from: nat, span: nat)
    requires IsList(pl)
  {
    span >= 1 && MaximalRun(pl, from, span) && (from > 1 ==> pl[from - 1] != pl[from] + 1)
  }

  lemma BoundaryAfter(pl: seq<nat>, from: nat, span: nat)
    requires IsList(pl) && span >= 1 && MaximalRun(pl, from, span) && from + span <= pl[0]
    ensures pl[from + span - 1] != pl[from + span] + 1
  {
    assert pl[from + span - 1] == pl[from] - (span - 1);
    if pl[from + span - 1] == pl[from + span] + 1 {
      assert Run(pl, from, span + 1);
    }
  }

  /** The lengths of the runs sum to the size of the list. */
  lemma {:induction false} RunsSumToSize(pl: seq<nat>, from: nat, runs: seq<nat>)
    requires IsList(pl) && 1 <= from <= pl[0] + 1 && Steps(pl, from, runs)
    ensures Sum(runs) == pl[0] + 1 - from
    decreases |runs|
  {
    if runs != [] {
      RunsSumToSize(pl, from + runs[0], runs[1..]);
    }
  }

  /** Stepping through the list cuts it into disjoint runs, none of which can be extended at either end. */
  lemma {:induction false} StepsAreIsolatedRuns(pl: seq<nat>, from: nat, runs: seq<nat>, i: nat)
    requires IsList(pl) && 1 <= from <= pl[0] + 1 && Steps(pl, from, runs) && i < |runs|
    requires 1 < from <= pl[0] ==> pl[from - 1] != pl[from] + 1
    ensures IsolatedRun(pl, StartOf(from, runs, i), runs[i])
    decreases i
  {
    if i == 0 {
      assert runs[..0] == [];
    } else {
      var from' := from + runs[0];
      if from' <= pl[0] {
        BoundaryAfter(pl, from, runs[0]);
      }
      StepsAreIsolatedRuns(pl, from', runs[1..], i - 1);
      StartOfTail(from, runs, i);
    }
  }

  lemma RunHolds(pl: seq<nat>, from: nat, span: nat)
    requires IsList(pl) && span >= 1 && Run(pl, from, span)
    ensures var last := pl[from + span - 1];
            HoldsSpan(pl, last, span) && Search(pl, last, 1) == from + span - 1
  {
    var n := from + span - 1;
    SearchFinds(pl, pl[n]);
    assert Holds(pl, pl[n]);
    forall p | pl[n] <= p < pl[n] + span
      ensures Holds(pl, p)
    {
      assert pl[n - (p - pl[n])] == p;
    }
  }

  /** Neither the page above a run nor the page below it is in the list. */
  lemma RunNeighbours(pl: seq<nat>, from: nat, span: nat)
    requires IsList(pl) && IsolatedRun(pl, from, span)
    ensures !Holds(pl, pl[from] + 1) && !Holds(pl, pl[from + span - 1] as int - 1)
  {
    var n := from + span - 1;
    if i :| 1 <= i <= pl[0] && pl[i] == pl[from] + 1 {
      Order(pl, i, from);
    }
    if i :| 1 <= i <= pl[0] && pl[i] + 1 == pl[n] {
      Order(pl, n, i);
      Order(pl, n + 1, i);
      BoundaryAfter(pl, from, span);
    }
  }

  /** The span test accepts every run in full and rejects it extended by one page at either end, as long as the slot
      past the end does not hold the page below it. */
  lemma RunAccepted(pl: seq<nat>, from: nat, span: nat)
    requires IsList(pl) && IsolatedRun(pl, from, span) && span < U32 - 1
    ensures var last := pl[from + span - 1];
            && ContainsSpan(pl, last, span)
            && !ContainsSpan(pl, last, span + 1)
            && (last > 0 && (Search(pl, last - 1, 1) <= pl[0] || pl[Search(pl, last - 1, 1)] != last - 1) ==>
                  !ContainsSpan(pl, last - 1, span + 1))
  {
    var last := pl[from + span - 1];
    assert last == pl[from] - (span - 1);
    RunHolds(pl, from, span);
    RunNeighbours(pl, from, span);
    ContainsSpanIff(pl, last, span);
    ContainsSpanIff(pl, last, span + 1);
    assert !HoldsSpan(pl, last, span + 1) by {
      assert !Holds(pl, last + span);
    }
    if last > 0 && (Search(pl, last - 1, 1) <= pl[0] || pl[Search(pl, last - 1, 1)] != last - 1) {
      ContainsSpanIff(pl, last - 1, span + 1);
      assert !Holds(pl, last - 1);
    }
  }

  // ---------- changing a list ----------

  const INT_MAX: nat := 0x7fff_ffff

  /** The memory of a list after one page is written behind its last one. */
  function Appended(pl: seq<nat>, pgno: nat): seq<nat>
    requires |pl| >= 1 && pl[0] + 1 < |pl|
  {
    pl[0 := pl[0] + 1][pl[0] + 1 := pgno]
  }

  /** Appending to a list with room behind its spare slot gives a list exactly when the page is below the last one, and
      then the list holds that page and what it held before. */
  lemma AppendedIsListIff(pl: seq<nat>, pgno: nat)
    requires IsList(pl) && pl[0] + 2 < |pl| && pl[0] + 1 < U32 && pgno < U32
    ensures IsList(Appended(pl, pgno)) <==> (pl[0] == 0 || pgno < pl[pl[0]])
    ensures IsList(Appended(pl, pgno)) ==>
              forall page: nat :: Holds(Appended(pl, pgno), page) <==> Holds(pl, page) || page == pgno
  {
    var pl' := Appended(pl, pgno);
    var n := pl[0];
    assert forall i :: 1 <= i <= n ==> pl'[i] == pl[i];
    if IsList(pl') {
      assert n > 0 ==> pl'[n] > pl'[n + 1];
      forall page: nat
        ensures Holds(pl', page) <==> Holds(pl, page) || page == pgno
      {
        if Holds(pl, page) {
          var i :| 1 <= i <= n && pl[i] == page;
          assert pl'[i] == page;
        }
        assert pl'[n + 1] == pgno;
      }
    }
    if n == 0 || pgno < pl[n] {
      forall i, j | 1 <= i < j <= n + 1
        ensures pl'[i] > pl'[j]
      {
        assert i < n ==> pl[i] > pl[n];
      }
    }
  }

  /** The array behind a list: the allocated length, the size, the pages and spare slots. */
  class PageList {
    var mem: array<nat>

    /** One slot for the allocated length, one for the size, and one past the end. */
    ghost predicate Valid()
      reads this, mem
    {
      mem.Length >= 3 && mem[1] <= mem[0] && mem[0] + 3 <= mem.Length
    }

    ghost function Pages(): seq<nat>
      reads this, mem
      requires Valid()
    {
      mem[2..2 + mem[1]]
    }

    constructor (alloclen: nat)
      ensures Valid() && fresh(mem) && mem[0] == alloclen && Pages() == []
    {
      mem := new nat[alloclen + 3](_ => 0);
      new;
      mem[0] := alloclen;
    }

    /** The list as its users see it: from the size on. */
    ghost function View(): seq<nat>
      reads this, mem
      requires Valid()
    {
      mem[1..]
    }

    /** `pnl_setsize`: only the size is written, so the pages are the ones the memory holds up to the new size. A size
        above the allocated one is not refused; it leaves what is no list. */
    method SetSize(len: nat)
      requires Valid() && len < INT_MAX
      modifies mem
      ensures mem[..] == old(mem[..])[1 := len]
      ensures Valid() <==> len <= mem[0]
      ensures Valid() ==> Pages() == old(mem[..])[2..2 + len]
    {
      mem[1] := len;
    }

    /** `pnl_append_prereserved`: the list stays descending exactly when the page is below all pages in it. */
    method AppendPrereserved(pgno: nat)
      requires Valid() && mem[1] < mem[0] && pgno < U32
      modifies mem
      ensures Valid() && mem[0] == old(mem[0]) && Pages() == old(Pages()) + [pgno]
      ensures View() == Appended(old(View()), pgno)
    {
      mem[1] := mem[1] + 1;
      mem[1 + mem[1]] := pgno;
    }
  }
}
