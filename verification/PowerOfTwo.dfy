/** Rounding by powers of two, from mdbx-internals.h. A `size_t` is a natural number below 2 to the 64th, and every
    operation wraps as the C operator does. */
module PowerOfTwo {
  import opened Words

  function Add(a: nat, b: nat): nat { (a + b) % U64 }

  function Sub(a: nat, b: nat): nat { (a - b) % U64 }

  function Not(a: nat): nat { Sub(U64 - 1, a) }

  /** The `&` operator. */
  function And(x: nat, y: nat): nat {
    if x == 0 || y == 0 then 0
    else 2 * And(x / 2, y / 2) + if x % 2 == 1 && y % 2 == 1 then 1 else 0
  }

  predicate IsPowerOf2(x: nat) { And(x, Sub(x, 1)) == 0 }

  /** The source asserts `IsPowerOf2(granularity)`. */
  function Floor(value: nat, granularity: nat): nat {
    And(value, Not(Sub(granularity, 1)))
  }

  function Ceil(value: nat, granularity: nat): nat {
    Floor(Sub(Add(value, granularity), 1), granularity)
  }

  function Pow2(k: nat): (p: nat)
    ensures p >= 1
  {
    if k == 0 then 1 else 2 * Pow2(k - 1)
  }

  // ---------- arithmetic ----------

  lemma MultipleIsLarge(z: int, d: int)
    requires d > 0
    ensures z >= 1 ==> z * d >= d
    ensures z <= -1 ==> z * d <= -d
  {
    if z >= 1 {
      assert (z - 1) * d >= 0;
    } else if z <= -1 {
      assert (-z - 1) * d >= 0;
    }
  }

  lemma DivModUnique(v: int, d: int, q: int, r: int)
    requires d > 0 && 0 <= r < d && v == q * d + r
    ensures v / d == q && v % d == r
  {
    var q', r' := v / d, v % d;
    assert v == q' * d + r';
    assert (q - q') * d == q * d - q' * d;
    MultipleIsLarge(q - q', d);
  }

  lemma ModDouble(v: nat, m: nat)
    requires m > 0
    ensures v % (2 * m) == 2 * ((v / 2) % m) + v % 2
  {
    var q, r, b := (v / 2) / m, (v / 2) % m, v % 2;
    assert v / 2 == q * m + r;
    assert v == q * (2 * m) + (2 * r + b);
    DivModUnique(v, 2 * m, q, 2 * r + b);
  }

  lemma {:induction false} Pow2Grows(k: nat, n: nat)
    requires k <= n
    ensures Pow2(k) <= Pow2(n)
    decreases n - k
  {
    if k < n {
      Pow2Grows(k, n - 1);
    }
  }

  lemma Pow2Of64()
    ensures Pow2(64) == U64 && Pow2(12) == 4096
  {
    assert Pow2(8) == 256;
    assert Pow2(12) == 4096;
    assert Pow2(16) == 65536;
    assert Pow2(24) == 0x100_0000;
    assert Pow2(32) == 0x1_0000_0000;
    assert Pow2(40) == 0x100_0000_0000;
    assert Pow2(48) == 0x1_0000_0000_0000;
    assert Pow2(56) == 0x100_0000_0000_0000;
  }

  // ---------- masking ----------

  predicate Bit(x: nat, i: nat) {
    if i == 0 then x % 2 == 1 else Bit(x / 2, i - 1)
  }

  lemma {:induction false} ZeroHasNoBits(i: nat)
    ensures !Bit(0, i)
  {
    if i > 0 {
      ZeroHasNoBits(i - 1);
    }
  }

  /** The recursive definition is the bitwise operator. */
  lemma {:induction false} AndIsBitwise(x: nat, y: nat, i: nat)
    ensures Bit(And(x, y), i) <==> Bit(x, i) && Bit(y, i)
  {
    if x == 0 || y == 0 {
      ZeroHasNoBits(i);
    } else if i > 0 {
      AndIsBitwise(x / 2, y / 2, i - 1);
      assert And(x, y) / 2 == And(x / 2, y / 2);
    }
  }

  lemma AndEven(v: nat, mask: nat)
    ensures And(v, 2 * mask) == 2 * And(v / 2, mask)
  {
    assert 2 * mask / 2 == mask && 2 * mask % 2 == 0;
  }

  lemma AndOdd(v: nat, mask: nat)
    ensures And(v, 2 * mask + 1) == 2 * And(v / 2, mask) + v % 2
  {
  }

  lemma {:induction false} AndAllOnes(v: nat, n: nat)
    requires v < Pow2(n)
    ensures And(v, Pow2(n) - 1) == v
  {
    if n > 0 {
      AndAllOnes(v / 2, n - 1);
      AndOdd(v, Pow2(n - 1) - 1);
    }
  }

  lemma AndMaskStep(v: nat, mask: nat, r: nat, r': nat)
    requires And(v / 2, mask) == v / 2 - r && r' == 2 * r + v % 2
    ensures And(v, 2 * mask) == v - r'
  {
    AndEven(v, mask);
  }

  /** Clearing the low bits with a mask is subtracting the remainder. */
  lemma {:induction false} AndMask(v: nat, n: nat, k: nat)
    requires v < Pow2(n) && k <= n
    ensures Pow2(k) <= Pow2(n) && And(v, Pow2(n) - Pow2(k)) == v - v % Pow2(k)
    decreases k
  {
    Pow2Grows(k, n);
    if k == 0 {
      AndAllOnes(v, n);
    } else {
      AndMask(v / 2, n - 1, k - 1);
      var mask, low := Pow2(n - 1) - Pow2(k - 1), Pow2(k - 1);
      ModDouble(v, low);
      AndMaskStep(v, mask, v / 2 % low, v % (2 * low));
    }
  }

  lemma {:induction false} AndSelf(v: nat)
    ensures And(v, v) == v
  {
    if v != 0 {
      AndSelf(v / 2);
    }
  }

  ghost predicate PowerOf2(x: nat) {
    exists k: nat :: x == Pow2(k)
  }

  lemma HalfOfPower(y: nat)
    requires y > 0
    ensures PowerOf2(2 * y) <==> PowerOf2(y)
  {
    if k: nat :| y == Pow2(k) {
      assert 2 * y == Pow2(k + 1);
    }
    if k: nat :| 2 * y == Pow2(k) {
      assert k > 0 && y == Pow2(k - 1);
    }
  }

  lemma Pow2Parity(k: nat)
    ensures Pow2(k) % 2 == (if k == 0 then 1 else 0)
  {
  }

  lemma OddPower(x: nat)
    requires x % 2 == 1
    ensures PowerOf2(x) <==> x == 1
  {
    if k: nat :| x == Pow2(k) {
      Pow2Parity(k);
    }
    assert Pow2(0) == 1;
  }

  lemma {:induction false} AndBelow(x: nat)
    requires x > 0
    ensures And(x, x - 1) == 0 <==> PowerOf2(x)
  {
    if x % 2 == 1 {
      AndSelf(x / 2);
      assert (x - 1) / 2 == x / 2;
      OddPower(x);
    } else {
      AndBelow(x / 2);
      assert (x - 1) / 2 == x / 2 - 1;
      HalfOfPower(x / 2);
    }
  }

  /** The test is true of zero and of the powers of two, and of nothing else. */
  lemma IsPowerOf2Iff(x: nat)
    requires x < U64
    ensures IsPowerOf2(x) <==> x == 0 || PowerOf2(x)
  {
    if x > 0 {
      assert Sub(x, 1) == x - 1;
      AndBelow(x);
    }
  }

  // ---------- rounding ----------

  lemma MaskOf(g: nat)
    requires 0 < g < U64
    ensures Not(Sub(g, 1)) == U64 - g
  {
  }

  /** For a power of two, rounding down gives the greatest multiple that is not above the value. */
  lemma FloorIsRoundingDown(v: nat, g: nat)
    requires v < U64 && g < U64 && PowerOf2(g)
    ensures Floor(v, g) == v - v % g
  {
    var k: nat :| g == Pow2(k);
    Pow2Of64();
    if k >= 64 {
      Pow2Grows(64, k);
    }
    AndMask(v, 64, k);
    MaskOf(g);
  }

  lemma {:induction false} AndCommutes(x: nat, y: nat)
    ensures And(x, y) == And(y, x)
  {
    if x != 0 && y != 0 {
      AndCommutes(x / 2, y / 2);
    }
  }

  lemma {:induction false} DivisorOfPower(g: nat, q: nat, n: nat)
    requires g * q == Pow2(n)
    ensures PowerOf2(g)
  {
    if n == 0 {
      MultipleIsLarge(q, if g == 0 then 1 else g);
      assert Pow2(0) == 1;
    } else if g % 2 == 0 {
      assert g == 2 * (g / 2);
      assert g / 2 * q == Pow2(n - 1);
      DivisorOfPower(g / 2, q, n - 1);
      HalfOfPower(g / 2);
    } else {
      OddProduct(g, q);
      assert g * (q / 2) == Pow2(n - 1);
      DivisorOfPower(g, q / 2, n - 1);
    }
  }

  lemma OddProduct(x: nat, y: nat)
    requires x % 2 == 1 && (x * y) % 2 == 0
    ensures y % 2 == 0 && x * y == 2 * (x * (y / 2))
  {
    assert x * y == 2 * (x / 2 * y) + y;
    assert y == 2 * (y / 2);
    assert x * y == x * (2 * (y / 2)) == 2 * (x * (y / 2));
  }

  lemma FloorOfLargest(g: nat)
    requires 0 < g < U64
    ensures Floor(U64 - 1, g) == U64 - g
  {
    Pow2Of64();
    MaskOf(g);
    AndCommutes(U64 - 1, U64 - g);
    AndAllOnes(U64 - g, 64);
  }

  lemma LargestRoundsToDivisor(g: nat)
    requires 0 < g < U64 && (U64 - 1) - (U64 - 1) % g == U64 - g
    ensures PowerOf2(g)
  {
    var q: nat := (U64 - 1) / g;
    assert g * q + (U64 - 1) % g == U64 - 1;
    assert g * (q + 1) == g * q + g;
    Pow2Of64();
    DivisorOfPower(g, q + 1, 64);
  }

  /** Masking is rounding down for all values exactly when the granularity is a power of two: the largest `size_t`
      shows the difference for every other one. */
  lemma FloorIsRoundingDownIff(g: nat)
    requires 0 < g < U64
    ensures (forall v: nat :: v < U64 ==> Floor(v, g) == v - v % g) <==> PowerOf2(g)
  {
    if PowerOf2(g) {
      forall v: nat | v < U64
        ensures Floor(v, g) == v - v % g
      {
        FloorIsRoundingDown(v, g);
      }
    } else {
      var v: nat := U64 - 1;
      FloorOfLargest(g);
      if Floor(v, g) == v - v % g {
        LargestRoundsToDivisor(g);
      }
    }
  }

  /** The least multiple of `g` that is not below `v`. */
  function RoundUp(v: nat, g: nat): (m: nat)
    requires g > 0
    ensures v <= m < v + g && m % g == 0
  {
    var q, r := v / g, v % g;
    assert v - r == q * g;
    DivModUnique(v - r, g, q, 0);
    DivModUnique(v - r + g, g, q + 1, 0);
    if r == 0 then v else v - r + g
  }

  /** Two multiples less than one granularity apart are the same. */
  lemma MultiplesMeet(x: nat, y: nat, g: nat)
    requires g > 0 && x % g == 0 && y % g == 0 && x < y + g && y < x + g
    ensures x == y
  {
    assert x == x / g * g && y == y / g * g;
    assert x / g * g - y / g * g == (x / g - y / g) * g;
    MultipleIsLarge(x / g - y / g, g);
  }

  /** What makes the multiple the least one. */
  lemma RoundUpIsLeast(v: nat, g: nat, m: nat)
    requires g > 0 && m % g == 0
    ensures RoundUp(v, g) <= m <==> v <= m
  {
    if v <= m < RoundUp(v, g) {
      MultiplesMeet(m, RoundUp(v, g), g);
    }
  }

  lemma RoundUpByFloor(v: nat, g: nat)
    requires g > 0
    ensures (v + g - 1) - (v + g - 1) % g == RoundUp(v, g)
  {
    var q, r := v / g, v % g;
    assert v == q * g + r;
    if r == 0 {
      DivModUnique(v + g - 1, g, q, g - 1);
    } else {
      assert (q + 1) * g == q * g + g;
      DivModUnique(v + g - 1, g, q + 1, r - 1);
    }
  }

  lemma {:induction false} Pow2Product(k: nat, n: nat)
    requires k <= n
    ensures Pow2(n) == Pow2(n - k) * Pow2(k)
    decreases k
  {
    if k > 0 {
      Pow2Product(k - 1, n - 1);
      DoubleProduct(Pow2(n - k), Pow2(k - 1));
    }
  }

  lemma DoubleProduct(x: nat, y: nat)
    ensures x * (2 * y) == 2 * (x * y)
  {
  }

  lemma MultipleOfPower(g: nat)
    requires g < U64 && PowerOf2(g)
    ensures exists q: nat :: U64 == q * g
  {
    var k: nat :| g == Pow2(k);
    Pow2Of64();
    if k >= 64 {
      Pow2Grows(64, k);
    }
    Pow2Product(k, 64);
  }

  lemma RoundUpPastTheEnd(v: nat, g: nat)
    requires v < U64 && 0 < g < U64 && PowerOf2(g) && v > U64 - g
    ensures RoundUp(v, g) == U64
  {
    MultipleOfPower(g);
    var q: nat :| U64 == q * g;
    assert (q - 1) * g == U64 - g;
    DivModUnique(v, g, q - 1, v - (U64 - g));
  }

  lemma RoundUpBeforeTheEnd(v: nat, g: nat)
    requires v < U64 && 0 < g < U64 && PowerOf2(g) && v <= U64 - g
    ensures RoundUp(v, g) < U64
  {
  }

  lemma SumBeforeMasking(v: nat, g: nat)
    requires v < U64 && 0 < g < U64
    ensures Sub(Add(v, g), 1) == if v <= U64 - g then v + g - 1 else v + g - 1 - U64
  {
  }

  lemma FloorBelowGranularity(v: nat, g: nat)
    requires v < g < U64 && PowerOf2(g)
    ensures Floor(v, g) == 0
  {
    FloorIsRoundingDown(v, g);
    DivModUnique(v, g, 0, v);
  }

  /** Rounding up gives the least multiple that is not below the value as long as it fits, and 0 otherwise. */
  lemma CeilIsRoundingUp(v: nat, g: nat)
    requires v < U64 && 0 < g < U64 && PowerOf2(g)
    ensures Ceil(v, g) == if v <= U64 - g then RoundUp(v, g) else 0
    ensures v <= U64 - g <==> RoundUp(v, g) < U64
  {
    SumBeforeMasking(v, g);
    if v <= U64 - g {
      FloorIsRoundingDown(v + g - 1, g);
      RoundUpByFloor(v, g);
      RoundUpBeforeTheEnd(v, g);
    } else {
      FloorBelowGranularity(v + g - 1 - U64, g);
      RoundUpPastTheEnd(v, g);
    }
  }
}
