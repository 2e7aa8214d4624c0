/** How many bytes are allocated for a page-number list and how many pages such an allocation holds, from
    mdbx-internals.h. */
module ListSizes {
  import opened PowerOfTwo
  import opened Words

  const PAGELIST_LIMIT: nat := 0x7fff_ffff
  const GRANULE: nat := 4096    // MDBX_PNL_GRANULATE * sizeof(pgno_t)
  const ALIGNMENT_GAP: nat := 65536

  /** The two build options the sizes depend on. */
  datatype Build = Build(radix: bool, overhead: nat)

  predicate ValidBuild(b: Build) { b.overhead <= 64 && b.overhead % 4 == 0 }

  function Mul4(x: nat): nat { 4 * x % U64 }

  /** `pnl_bytes2size` in a build whose assertions are off. */
  function BytesToSize(b: Build, bytes: nat): nat {
    var size := Sub(bytes / 4, 3);
    (if b.radix then size / 2 else size) % U32
  }

  /** What `pnl_bytes2size` asserts before halving. */
  predicate BytesToSizeAsserts(bytes: nat) {
    3 < bytes / 4 <= PAGELIST_LIMIT + ALIGNMENT_GAP
  }

  /** `pnl_size2bytes`. */
  function SizeToBytes(b: Build, n: nat): nat {
    var size := if b.radix then Add(n, n) else n;
    Sub(Ceil(Add(b.overhead, Mul4(Add(size, 3))), GRANULE), b.overhead)
  }

  // ---------- in unbounded integers ----------

  /** The array slots needed: the pages, twice with room for sorting, and three more. */
  function Slots(b: Build, n: nat): nat { (if b.radix then 2 * n else n) + 3 }

  /** The bytes that the slots and the allocator's own overhead take. */
  function Need(b: Build, n: nat): nat { b.overhead + 4 * Slots(b, n) }

  lemma NoWrap(x: nat)
    requires x < U64
    ensures x % U64 == x
  {
  }

  lemma NeedIsExact(b: Build, n: nat)
    requires ValidBuild(b) && n <= PAGELIST_LIMIT
    ensures Add(b.overhead, Mul4(Add(if b.radix then Add(n, n) else n, 3))) == Need(b, n) < 0x8_0000_0000
  {
    NoWrap(n + n);
    NoWrap(Slots(b, n));
    NoWrap(4 * Slots(b, n));
    NoWrap(Need(b, n));
  }

  lemma GranuleIsPower()
    ensures PowerOf2(GRANULE)
  {
    Pow2Of64();
  }

  lemma OverheadIsTakenOff(total: nat, overhead: nat)
    requires overhead <= total < U64
    ensures Sub(total, overhead) == total - overhead
  {
  }

  /** No 64-bit operation of the computation wraps. */
  lemma SizeToBytesIsExact(b: Build, n: nat)
    requires ValidBuild(b) && n <= PAGELIST_LIMIT
    ensures SizeToBytes(b, n) + b.overhead == RoundUp(Need(b, n), GRANULE) < U64
  {
    NeedIsExact(b, n);
    GranuleIsPower();
    CeilIsRoundingUp(Need(b, n), GRANULE);
    OverheadIsTakenOff(RoundUp(Need(b, n), GRANULE), b.overhead);
  }

  /** The allocation with its overhead fills whole granules, holds all slots, and wastes less than one granule. */
  lemma SizeToBytesIsTight(b: Build, n: nat)
    requires ValidBuild(b) && n <= PAGELIST_LIMIT
    ensures (SizeToBytes(b, n) + b.overhead) % GRANULE == 0
    ensures 4 * Slots(b, n) <= SizeToBytes(b, n) < 4 * Slots(b, n) + GRANULE
  {
    SizeToBytesIsExact(b, n);
  }

  lemma BytesToSizeOf(b: Build, n: nat, bytes: nat)
    requires n <= PAGELIST_LIMIT && 4 * Slots(b, n) <= bytes < 4 * Slots(b, n) + GRANULE
    ensures var size := BytesToSize(b, bytes);
            size == (if b.radix then (bytes / 4 - 3) / 2 else bytes / 4 - 3) && n <= size < n + GRANULE / 4
  {
    var words := bytes / 4;
    assert Slots(b, n) <= words < Slots(b, n) + GRANULE / 4;
    assert Sub(words, 3) == words - 3;
  }

  /** An allocation made for `n` pages holds them, and less than a granule's worth of pages more. */
  lemma SizeRoundTrip(b: Build, n: nat)
    requires ValidBuild(b) && n <= PAGELIST_LIMIT
    ensures n <= BytesToSize(b, SizeToBytes(b, n)) < n + GRANULE / 4
  {
    SizeToBytesIsTight(b, n);
    BytesToSizeOf(b, n, SizeToBytes(b, n));
  }

  /** The size found for an allocation asks for the same allocation again. */
  lemma SizeRoundTripIsStable(b: Build, n: nat)
    requires ValidBuild(b) && n <= PAGELIST_LIMIT
    ensures var m := BytesToSize(b, SizeToBytes(b, n)); m <= PAGELIST_LIMIT ==> SizeToBytes(b, m) == SizeToBytes(b, n)
  {
    var bytes := SizeToBytes(b, n);
    SizeToBytesIsTight(b, n);
    BytesToSizeOf(b, n, bytes);
    var m := BytesToSize(b, bytes);
    if m <= PAGELIST_LIMIT {
      FullSizeFits(b, m, bytes);
      SizeToBytesIsExact(b, n);
      SizeToBytesIsExact(b, m);
      MultiplesMeet(RoundUp(Need(b, m), GRANULE), RoundUp(Need(b, n), GRANULE), GRANULE);
    }
  }

  lemma FullSizeFits(b: Build, m: nat, bytes: nat)
    requires bytes / 4 >= 3 && m == (if b.radix then (bytes / 4 - 3) / 2 else bytes / 4 - 3)
    ensures Need(b, m) <= bytes + b.overhead
  {
  }

  // ---------- the asserted range ----------

  lemma AssertedTotal(overhead: nat, total: nat)
    requires overhead <= 64 && overhead % 4 == 0 && total % GRANULE == 0 && total >= overhead + 16
    ensures BytesToSizeAsserts(total - overhead) <==> total <= if overhead == 0 then 0x2_0003_f000 else 0x2_0004_0000
  {
  }

  /** The range asserted before halving covers every admitted size without the radix reserve, but with it only about
      half of them. */
  lemma AssertedRangeIff(b: Build, n: nat)
    requires ValidBuild(b) && 1 <= n <= PAGELIST_LIMIT
    ensures BytesToSizeAsserts(SizeToBytes(b, n)) <==>
            Need(b, n) <= if b.overhead == 0 then 0x2_0003_f000 else 0x2_0004_0000
    ensures !b.radix ==> BytesToSizeAsserts(SizeToBytes(b, n))
  {
    SizeToBytesIsExact(b, n);
    AssertedTotal(b.overhead, RoundUp(Need(b, n), GRANULE));
    RoundUpIsLeast(Need(b, n), GRANULE, if b.overhead == 0 then 0x2_0003_f000 else 0x2_0004_0000);
  }

  /** In a 64-bit build with the default options the upper half of the admitted sizes makes the assertion fail. */
  lemma AssertedRangeByDefault(n: nat)
    requires 1 <= n <= PAGELIST_LIMIT
    ensures BytesToSizeAsserts(SizeToBytes(Build(true, 16), n)) <==> n <= 0x4000_7ffc
  {
    AssertedRangeIff(Build(true, 16), n);
  }
}
