/** 128-bit integers as pairs of 64-bit halves, in the portable forms of mdbx-internals.h. */
module WideIntegers {
  import opened Words

  const B: int := U64
  const B2: int := U128

  datatype Bin128 = Bin128(l: int, h: int)

  /** The halves are 64-bit words. */
  predicate Word(x: Bin128) { 0 <= x.l < B && 0 <= x.h < B }

  function Value(x: Bin128): int { x.h * B + x.l }

  /** `u128_add`: the low words' sum has wrapped when it is below an operand. */
  function Add(x: Bin128, y: Bin128): Bin128 {
    var l := (x.l + y.l) % B;
    Bin128(l, ((x.h + y.h) % B + if l < x.l then 1 else 0) % B)
  }

  /** `CMP2INT`. */
  function Cmp2Int(a: int, b: int): int { if a != b then if a < b then -1 else 1 else 0 }

  function Cmp(x: Bin128, y: Bin128): int {
    var a := if x.h != y.h then x.h else x.l;
    var b := if x.h != y.h then y.h else y.l;
    Cmp2Int(a, b)
  }

  predicate Eq(x: Bin128, y: Bin128) { x.l == y.l && x.h == y.h }

  predicate Gt(x: Bin128, y: Bin128) { x.h > y.h || (x.h == y.h && x.l > y.l) }

  predicate Lt(x: Bin128, y: Bin128) { x.h < y.h || (x.h == y.h && x.l < y.l) }

  /** `mul64x64_128_fallback`: the product from the four products of 32-bit halves. */
  function Mul(x: int, y: int): Bin128 {
    var xl, xh, yl, yh := x % U32, x / U32, y % U32, y / U32;
    FromPartialProducts(xl * yl % B, xh * yh % B, xh * yl, xl * yh)
  }

  /** The partial products added up with their carries. The lower half of `lh << 32` is zero, so that `|` puts halves
      side by side. */
  function FromPartialProducts(ll: int, hh: int, m: int, n: int): Bin128 {
    var hl := (m + ll / U32) % B;
    var lh := (n + hl % U32) % B;
    Bin128(lh * U32 % B + ll % U32, (hh + hl / U32 + lh / U32) % B)
  }

  function OfU64(v: int): Bin128 { Bin128(v, 0) }

  const MAX: Bin128 := Bin128(B - 1, B - 1)

  // ---------- the integers represented ----------

  lemma ValueBounds(x: Bin128)
    requires Word(x)
    ensures 0 <= Value(x) < B2
  {
  }

  /** No two words represent the same integer. */
  lemma ValueIsInjective(x: Bin128, y: Bin128)
    requires Word(x) && Word(y) && Value(x) == Value(y)
    ensures x == y
  {
  }

  /** One wrapped 64-bit addition, with the carry read off the way the source does. */
  lemma Carry(a: int, b: int)
    requires 0 <= a < B && 0 <= b < B
    ensures (a + b) % B == a + b - if (a + b) % B < a then B else 0
  {
  }

  /** The high words' sum, wrapped once at most although the source wraps it twice. */
  lemma CarriedSum(a: int, b: int, carry: int)
    requires 0 <= a < B && 0 <= b < B && 0 <= carry <= 1
    ensures ((a + b) % B + carry) % B == a + b + carry - if a + b + carry < B then 0 else B
  {
  }

  /** The sum is the integers' sum, less 2 to the 128th when that does not fit. */
  lemma AddIsExact(x: Bin128, y: Bin128)
    requires Word(x) && Word(y)
    ensures Word(Add(x, y))
    ensures Value(Add(x, y)) == Value(x) + Value(y) - if Value(x) + Value(y) < B2 then 0 else B2
  {
    Carry(x.l, y.l);
    CarriedSum(x.h, y.h, if (x.l + y.l) % B < x.l then 1 else 0);
  }

  /** Addition is addition modulo 2 to the 128th. */
  lemma AddIsModular(x: Bin128, y: Bin128)
    requires Word(x) && Word(y)
    ensures Word(Add(x, y)) && Value(Add(x, y)) == (Value(x) + Value(y)) % B2
  {
    AddIsExact(x, y);
    ValueBounds(x);
    ValueBounds(y);
  }

  lemma WrappedSumsAssociate(a: int, b: int, c: int, ab: int, bc: int, left: int, right: int)
    requires 0 <= a < B2 && 0 <= b < B2 && 0 <= c < B2
    requires ab == a + b - (if a + b < B2 then 0 else B2) && left == ab + c - if ab + c < B2 then 0 else B2
    requires bc == b + c - (if b + c < B2 then 0 else B2) && right == a + bc - if a + bc < B2 then 0 else B2
    ensures left == right
  {
  }

  lemma AddAssociates(x: Bin128, y: Bin128, z: Bin128)
    requires Word(x) && Word(y) && Word(z)
    ensures Add(Add(x, y), z) == Add(x, Add(y, z))
  {
    var xy, yz := Add(x, y), Add(y, z);
    AddIsExact(x, y);
    AddIsExact(y, z);
    AddIsExact(xy, z);
    AddIsExact(x, yz);
    ValueBounds(x);
    ValueBounds(y);
    ValueBounds(z);
    WrappedSumsAssociate(Value(x), Value(y), Value(z), Value(xy), Value(yz), Value(Add(xy, z)), Value(Add(x, yz)));
    EqualSums(xy, z, x, yz);
  }

  lemma EqualSums(x: Bin128, y: Bin128, x': Bin128, y': Bin128)
    requires Word(x) && Word(y) && Word(x') && Word(y')
    ensures Value(Add(x, y)) == Value(Add(x', y')) ==> Add(x, y) == Add(x', y')
  {
    AddIsExact(x, y);
    AddIsExact(x', y');
    if Value(Add(x, y)) == Value(Add(x', y')) {
      ValueIsInjective(Add(x, y), Add(x', y'));
    }
  }

  lemma AddCommutes(x: Bin128, y: Bin128)
    requires Word(x) && Word(y)
    ensures Add(x, y) == Add(y, x)
  {
    AddIsExact(x, y);
    AddIsExact(y, x);
    EqualSums(x, y, y, x);
  }

  /** Every number has a negative: adding all ones and then one takes it back. */
  lemma AddHasInverses(x: Bin128)
    requires Word(x)
    ensures var minus := Add(Bin128(B - 1 - x.l, B - 1 - x.h), OfU64(1));
            Add(x, minus) == OfU64(0) && Add(x, OfU64(0)) == x
  {
    var flipped := Bin128(B - 1 - x.l, B - 1 - x.h);
    AddIsExact(flipped, OfU64(1));
    NegativesCancel(x, Add(flipped, OfU64(1)));
    AddIsExact(x, OfU64(0));
  }

  lemma NegativesCancel(x: Bin128, y: Bin128)
    requires Word(x) && Word(y) && (Value(x) + Value(y) == B2 || Value(x) == Value(y) == 0)
    ensures Add(x, y) == OfU64(0)
  {
    AddIsExact(x, y);
    ValueIsInjective(Add(x, y), OfU64(0));
  }

  // ---------- order ----------

  /** The three-way comparison is the sign of the integers' difference, and the three tests agree with it. */
  lemma ComparisonsAgree(x: Bin128, y: Bin128)
    requires Word(x) && Word(y)
    ensures Cmp(x, y) == Cmp2Int(Value(x), Value(y)) == -Cmp(y, x)
    ensures Lt(x, y) <==> Cmp(x, y) < 0
    ensures Gt(x, y) <==> Cmp(x, y) > 0
    ensures Eq(x, y) <==> Cmp(x, y) == 0
  {
  }

  lemma LtIsOrder(x: Bin128, y: Bin128)
    requires Word(x) && Word(y)
    ensures (Lt(x, y) <==> Value(x) < Value(y)) && (Gt(x, y) <==> Value(x) > Value(y))
    ensures (Eq(x, y) <==> x == y) && !Gt(x, MAX)
  {
    ComparisonsAgree(x, y);
  }

  /** A sum is below an operand exactly when it does not fit, so the comparison detects overflow. */
  lemma SumIsMonotoneIff(x: Bin128, y: Bin128)
    requires Word(x) && Word(y)
    ensures Lt(Add(x, y), x) <==> Value(x) + Value(y) >= B2
    ensures Lt(Add(x, y), x) <==> Lt(Add(x, y), y)
  {
    AddIsExact(x, y);
    ValueBounds(x);
    ValueBounds(y);
    LtIsOrder(Add(x, y), x);
    LtIsOrder(Add(x, y), y);
  }

  /** Adding the same number keeps the order of two numbers exactly when both sums fit or neither does. */
  lemma AddKeepsOrderIff(x: Bin128, y: Bin128, z: Bin128)
    requires Word(x) && Word(y) && Word(z) && Lt(x, y)
    ensures Lt(Add(x, z), Add(y, z)) <==> (Value(x) + Value(z) < B2 <==> Value(y) + Value(z) < B2)
  {
    LtIsOrder(x, y);
    AddIsExact(x, z);
    AddIsExact(y, z);
    ValueBounds(x);
    ValueBounds(y);
    LtIsOrder(Add(x, z), Add(y, z));
  }

  // ---------- multiplication ----------

  lemma ProductBound(a: int, b: int, top: int)
    requires 0 <= a <= top && 0 <= b <= top
    ensures 0 <= a * b <= top * top
  {
    assert a * b <= top * b;
    assert b * top <= top * top;
  }

  predicate Partial(p: int) { 0 <= p <= 0xFFFF_FFFE_0000_0001 }

  /** A product of two halves leaves room for a carry. */
  lemma HalfProduct(a: int, b: int)
    requires 0 <= a < U32 && 0 <= b < U32
    ensures Partial(a * b)
  {
    ProductBound(a, b, U32 - 1);
  }

  lemma Expand(xh: int, xl: int, yh: int, yl: int, base: int)
    ensures (xh * base + xl) * (yh * base + yl) == xh * yh * (base * base) + (xh * yl + xl * yh) * base + xl * yl
  {
  }

  /** A number moved up by half a word, and the part of it that stays in the word. */
  lemma ShiftedHalf(lh: int)
    ensures lh * U32 % B == lh % U32 * U32 && lh * U32 == lh / U32 * B + lh % U32 * U32
  {
  }

  /** The two middle products do not wrap. */
  lemma MiddleFits(p: int, half: int)
    requires Partial(p) && 0 <= half < U32
    ensures (p + half) % B == p + half
  {
  }

  lemma TopFits(top: int, low: int, total: int)
    requires 0 <= top && 0 <= low < B && top * B + low == total < B2
    ensures top % B == top
  {
  }

  /** No sum of partial products wraps when the product fits. */
  lemma PartialProductsAddUp(ll: int, hh: int, m: int, n: int)
    requires Partial(ll) && Partial(hh) && Partial(m) && Partial(n)
    requires hh * B + (m + n) * U32 + ll < B2
    ensures var z := FromPartialProducts(ll, hh, m, n);
            Word(z) && Value(z) == hh * B + (m + n) * U32 + ll
  {
    var hl := m + ll / U32;
    var lh := n + hl % U32;
    MiddleFits(m, ll / U32);
    MiddleFits(n, hl % U32);
    ShiftedHalf(lh);
    var low := lh % U32 * U32 + ll % U32;
    TopFits(hh + hl / U32 + lh / U32, low, hh * B + (m + n) * U32 + ll);
  }

  lemma ProductFits(x: int, y: int)
    requires 0 <= x < B && 0 <= y < B
    ensures x * y < B2
  {
    ProductBound(x, y, B - 1);
  }

  /** Both factors cut in halves. */
  lemma Halves(x: int, y: int)
    requires 0 <= x < B && 0 <= y < B
    ensures var xl, xh, yl, yh := x % U32, x / U32, y % U32, y / U32;
            && Partial(xl * yl) && Partial(xh * yh) && Partial(xh * yl) && Partial(xl * yh)
            && x * y == xh * yh * B + (xh * yl + xl * yh) * U32 + xl * yl < B2
  {
    HalfProduct(x % U32, y % U32);
    HalfProduct(x / U32, y / U32);
    HalfProduct(x / U32, y % U32);
    HalfProduct(x % U32, y / U32);
    ExpandHalves(x, y);
    ProductFits(x, y);
  }

  lemma PartialsDoNotWrap(ll: int, hh: int)
    requires Partial(ll) && Partial(hh)
    ensures ll % B == ll && hh % B == hh
  {
  }

  /** The fallback is the product of the integers, for all 64-bit factors. */
  lemma MulIsExact(x: int, y: int)
    requires 0 <= x < B && 0 <= y < B
    ensures Word(Mul(x, y)) && Value(Mul(x, y)) == x * y
  {
    Halves(x, y);
    MulOfParts(x, y, x % U32 * (y % U32), x / U32 * (y / U32), x / U32 * (y % U32), x % U32 * (y / U32));
  }

  lemma MulOfParts(x: int, y: int, ll: int, hh: int, m: int, n: int)
    requires ll == x % U32 * (y % U32) && hh == x / U32 * (y / U32)
    requires m == x / U32 * (y % U32) && n == x % U32 * (y / U32)
    requires Partial(ll) && Partial(hh) && Partial(m) && Partial(n) && hh * B + (m + n) * U32 + ll < B2
    ensures Word(Mul(x, y)) && Value(Mul(x, y)) == hh * B + (m + n) * U32 + ll
  {
    PartialsDoNotWrap(ll, hh);
    assert Mul(x, y) == FromPartialProducts(ll, hh, m, n);
    PartialProductsAddUp(ll, hh, m, n);
  }

  lemma ExpandHalves(x: int, y: int)
    requires 0 <= x < B && 0 <= y < B
    ensures var xl, xh, yl, yh := x % U32, x / U32, y % U32, y / U32;
            x * y == xh * yh * B + (xh * yl + xl * yh) * U32 + xl * yl
  {
    Expand(x / U32, x % U32, y / U32, y % U32, U32);
  }

  /** What the source asserts of its multiplication. */
  lemma MulCommutes(x: int, y: int)
    requires 0 <= x < B && 0 <= y < B
    ensures Mul(x, y) == Mul(y, x)
  {
    MulIsExact(x, y);
    MulIsExact(y, x);
    ValueIsInjective(Mul(x, y), Mul(y, x));
  }
}
