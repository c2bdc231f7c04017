/**
 The arithmetic all modules use, over explicit machine ranges: saturation,
 rounding, split quotients and ratios per million.
 */
module Arith {

  const U64_MAX: int := 0xFFFF_FFFF_FFFF_FFFF
  const U32_MAX: int := 0xFFFF_FFFF
  const I64_MAX: int := 0x7FFF_FFFF_FFFF_FFFF
  const I64_MIN: int := -0x8000_0000_0000_0000
  const RATIO_ONE_E6: int := 1_000_000

  type u64 = x: int | 0 <= x <= 0xFFFF_FFFF_FFFF_FFFF
  type u32 = x: int | 0 <= x <= 0xFFFF_FFFF
  type u16 = x: int | 0 <= x <= 0xFFFF
  type byte = x: int | 0 <= x <= 0xFF
  type i64 = x: int | -0x8000_0000_0000_0000 <= x <= 0x7FFF_FFFF_FFFF_FFFF

  function Min(a: int, b: int): int { if a < b then a else b }
  function Max(a: int, b: int): int { if a > b then a else b }
  function Abs(a: int): int { if a < 0 then -a else a }

  /** C's unsigned 64-bit wrap-around. */
  function Wrap64(x: int): u64 { x % 0x1_0000_0000_0000_0000 }

  /** C division truncates toward zero; Dafny's is Euclidean. */
  function TruncDiv(a: int, b: int): int
    requires b > 0
  {
    if a >= 0 then a / b else -((-a) / b)
  }

  function TruncMod(a: int, b: int): int
    requires b > 0
  {
    a - b * TruncDiv(a, b)
  }

  function SaturatingAdd(value: u64, addend: u64): u64 { Min(value + addend, U64_MAX) }

  function SaturatingMul(value: u64, factor: u64): u64
  {
    var product := value * factor;
    MulNonNegative(value, factor);
    Min(product, U64_MAX)
  }

  function SaturatingSub(value: u64, subtrahend: u64): u64
  {
    if value > subtrahend then value - subtrahend else 0
  }

  function AbsoluteDifference(first: i64, second: i64): u64
  {
    if first >= second then first - second else second - first
  }

  /** first - second, clamped to the signed range through the unsigned difference. */
  function SignedDifference(first: i64, second: i64): i64
  {
    var difference := AbsoluteDifference(first, second);
    if first >= second then
      if difference > I64_MAX then I64_MAX else difference
    else if difference > I64_MAX then I64_MIN else 0 - difference
  }

  /** value * numerator / denominator in split form; every step wraps as uint64_t does. */
  function MulDiv(value: u64, numerator: u64, denominator: u64): u64
    requires denominator > 0
  {
    Wrap64(Wrap64(value / denominator * numerator) + Wrap64(value % denominator * numerator) / denominator)
  }

  function RoundedDivide(value: u64, divisor: u64): (r: u64)
    requires divisor > 0
  {
    QuotientAtMost(value, divisor);
    value / divisor + (if value % divisor >= divisor / 2 + divisor % 2 then 1 else 0)
  }

  function SignedRoundedDivide(value: i64, divisor: i64): (r: i64)
    requires divisor > 0
  {
    var quotient := TruncDiv(value, divisor);
    var remainder := TruncMod(value, divisor);
    TruncatedParts(value, divisor);
    if remainder > 0 && remainder >= divisor - remainder then quotient + 1
    else if remainder < 0 && -remainder >= divisor + remainder then quotient - 1
    else quotient
  }

  /** More than an interval has passed since a time before. */
  predicate IntervalElapsed(current: u64, previous: u64, interval: u64)
  {
    current > previous && current - previous > interval
  }

  /** A ratio so small that the product with the split remainder, which is under a million, fits. */
  predicate FactorValid(ratio: u64) { ratio <= U64_MAX / RATIO_ONE_E6 }

  function RatioOf(value: u64, ratio: u64): u64
  {
    MulNonNegative(value % RATIO_ONE_E6, ratio);
    SaturatingAdd(SaturatingMul(value / RATIO_ONE_E6, ratio),
                  Wrap64(value % RATIO_ONE_E6 * ratio) / RATIO_ONE_E6)
  }

  function RatioOfRoundedUp(value: u64, ratio: u64): u64
  {
    MulNonNegative(value % RATIO_ONE_E6, ratio);
    SaturatingAdd(SaturatingMul(value / RATIO_ONE_E6, ratio),
                  Wrap64(value % RATIO_ONE_E6 * ratio + RATIO_ONE_E6 - 1) / RATIO_ONE_E6)
  }

  // ----- elementary facts about products and quotients

  lemma MulNonNegative(a: int, b: int)
    requires a >= 0 && b >= 0
    ensures a * b >= 0
  {}

  lemma MulMonotone(a: int, b: int, c: int)
    requires a <= b && c >= 0
    ensures a * c <= b * c
  {}

  /** A quotient is pinned by the interval its product leaves. */
  lemma QuotientIs(a: int, d: int, q: int)
    requires d > 0 && q * d <= a < q * d + d
    ensures a / d == q
  {
    var r := a / d;
    assert a == r * d + a % d;
    if r < q { MulMonotone(r + 1, q, d); }
    if r > q { MulMonotone(q + 1, r, d); }
  }

  lemma DivisionParts(a: int, d: int)
    requires d > 0
    ensures a == a / d * d + a % d && 0 <= a % d < d
  {}

  lemma QuotientAtMost(a: int, d: int)
    requires a >= 0 && d > 0
    ensures 0 <= a / d <= a
    ensures d > 1 && a > 0 ==> a / d < a
    ensures a % d >= d / 2 + d % 2 ==> d > 1
  {
    DivisionParts(a, d);
    if a / d > a { MulMonotone(a + 1, a / d, d); MulMonotone(1, d, a + 1); }
    if d > 1 && a > 0 && a / d >= a { MulMonotone(a, a / d, d); MulMonotone(2, d, a); }
  }

  lemma TruncatedParts(value: i64, divisor: i64)
    requires divisor > 0
    ensures value == TruncDiv(value, divisor) * divisor + TruncMod(value, divisor)
    ensures Abs(TruncMod(value, divisor)) < divisor
    ensures value >= 0 ==> TruncMod(value, divisor) >= 0
    ensures value <= 0 ==> TruncMod(value, divisor) <= 0
    ensures Abs(TruncDiv(value, divisor)) <= Abs(value)
    ensures divisor > 1 && value != 0 ==> Abs(TruncDiv(value, divisor)) < Abs(value)
    ensures divisor == 1 ==> TruncMod(value, divisor) == 0
  {
    DivisionParts(Abs(value), divisor);
    QuotientAtMost(Abs(value), divisor);
  }

  /** Splitting a dividend at a multiple of the divisor splits the quotient. */
  lemma QuotientSplits(q: int, extra: int, d: int)
    requires d > 0
    ensures (q * d + extra) / d == q + extra / d
  {
    DivisionParts(extra, d);
    assert (q + extra / d) * d == q * d + extra / d * d;
    QuotientIs(q * d + extra, d, q + extra / d);
  }

  lemma QuotientMonotone(a: int, b: int, d: int)
    requires d > 0 && a <= b
    ensures a / d <= b / d
  {
    DivisionParts(a, d);
    DivisionParts(b, d);
    if a / d > b / d { MulMonotone(b / d + 1, a / d, d); }
  }

  /** value = q * d + r makes value * n / d = q * n + r * n / d. */
  lemma ProductSplits(value: int, n: int, d: int)
    requires d > 0
    ensures value * n / d == value / d * n + value % d * n / d
  {
    DivisionParts(value, d);
    assert value * n == (value / d * d + value % d) * n == value / d * n * d + value % d * n;
    QuotientSplits(value / d * n, value % d * n, d);
  }

  // ----- what the operations mean

  /**
   The split form is exact precisely when the partial product of the remainder
   fits in 64 bits, for every share (numerator at most denominator).
   */
  lemma MulDivExactIff(value: u64, numerator: u64, denominator: u64)
    requires 0 < denominator && numerator <= denominator
    ensures MulDiv(value, numerator, denominator) == value * numerator / denominator
       <==> value % denominator * numerator <= U64_MAX
  {
    var q, r := value / denominator, value % denominator;
    DivisionParts(value, denominator);
    ProductSplits(value, numerator, denominator);
    MulNonNegative(q, numerator);
    MulMonotone(numerator, denominator, q);
    MulNonNegative(r, numerator);
    MulMonotone(numerator, denominator, r);
    WrappedQuotient(r * numerator, r, denominator, q * numerator, value);
  }

  /** Wrapping a product loses at least one whole divisor from its quotient. */
  lemma WrappedQuotient(partial: int, r: int, denominator: u64, head: int, value: u64)
    requires 0 < denominator && 0 <= r < denominator && 0 <= partial <= r * denominator
    requires 0 <= head && head + r <= value
    ensures Wrap64(Wrap64(head) + Wrap64(partial) / denominator) == head + partial / denominator
       <==> partial <= U64_MAX
  {
    var wrapped, whole := Wrap64(partial) / denominator, partial / denominator;
    QuotientMonotone(0, Wrap64(partial), denominator);
    QuotientBelow(partial, r, denominator);
    if partial > U64_MAX {
      WrapDrops(partial);
      QuotientDrops(partial, Wrap64(partial), denominator);
    }
    SumDoesNotWrap(head, wrapped, whole, value);
  }

  lemma QuotientBelow(a: int, r: int, d: int)
    requires d > 0 && a <= r * d
    ensures a / d <= r
  {
    DivisionParts(a, d);
    if a / d > r { MulMonotone(r + 1, a / d, d); }
  }

  lemma QuotientDrops(a: int, b: int, d: int)
    requires d > 0 && b <= a - d
    ensures b / d < a / d
  {
    QuotientMonotone(b, a - d, d);
    QuotientSplits(-1, a, d);
  }

  lemma WrapDrops(a: int)
    requires a > U64_MAX
    ensures Wrap64(a) <= a - (U64_MAX + 1)
  {}

  lemma SumDoesNotWrap(head: int, wrapped: int, whole: int, value: u64)
    requires 0 <= head && 0 <= wrapped <= whole && head + whole <= value
    ensures Wrap64(Wrap64(head) + wrapped) == head + whole <==> wrapped == whole
  {}

  /** Nearest integer, ties upward. */
  lemma RoundedDivideNearest(value: u64, divisor: u64)
    requires divisor > 0
    ensures RoundedDivide(value, divisor) == (2 * value + divisor) / (2 * divisor)
    ensures 0 - divisor <= 2 * (value - RoundedDivide(value, divisor) * divisor) < divisor
  {
    var r := RoundedDivide(value, divisor);
    DivisionParts(value, divisor);
    assert r * divisor == value / divisor * divisor + (if r == value / divisor then 0 else divisor);
    assert r * (2 * divisor) == 2 * (r * divisor);
    QuotientIs(2 * value + divisor, 2 * divisor, r);
  }

  /** The quotient rounded half away from zero: it changes sign with its argument, and above zero is the nearest. */
  lemma SignedRoundedDivideNearest(value: i64, divisor: i64)
    requires divisor > 0
    ensures var r := SignedRoundedDivide(value, divisor);
      && Abs(2 * (value - r * divisor)) <= divisor
      && (value >= 0 ==> r == (2 * value + divisor) / (2 * divisor))
      && (value <= 0 ==> r == -((-2 * value + divisor) / (2 * divisor)))
  {
    TruncatedParts(value, divisor);
    NearestFromParts(value, divisor, TruncDiv(value, divisor), TruncMod(value, divisor),
                     SignedRoundedDivide(value, divisor));
  }

  lemma NearestFromParts(value: int, divisor: int, q: int, m: int, r: int)
    requires divisor > 0 && value == q * divisor + m && Abs(m) < divisor
    requires value >= 0 ==> m >= 0
    requires value <= 0 ==> m <= 0
    requires r == if m > 0 && m >= divisor - m then q + 1 else if m < 0 && -m >= divisor + m then q - 1 else q
    ensures Abs(2 * (value - r * divisor)) <= divisor
    ensures value >= 0 ==> r == (2 * value + divisor) / (2 * divisor)
    ensures value <= 0 ==> r == -((-2 * value + divisor) / (2 * divisor))
  {
    var product := r * divisor;
    NextMultiple(q, r, divisor);
    DoubledMultiple(r, divisor);
    if value >= 0 { QuotientIs(2 * value + divisor, 2 * divisor, r); }
    if value <= 0 { QuotientIs(-2 * value + divisor, 2 * divisor, -r); }
  }

  lemma NextMultiple(q: int, r: int, d: int)
    requires q - 1 <= r <= q + 1
    ensures r * d == q * d + (if r == q then 0 else if r == q + 1 then d else -d)
  {}

  lemma DoubledMultiple(r: int, d: int)
    ensures r * (2 * d) == 2 * (r * d)
    ensures (-r) * (2 * d) == -2 * (r * d)
  {}

  /** Rounding never leaves an interval whose ends are whole. */
  lemma RoundingStaysBetween(value: i64, divisor: i64, low: int, high: int)
    requires divisor > 0 && low * divisor <= value <= high * divisor
    ensures low <= SignedRoundedDivide(value, divisor) <= high
  {
    SignedRoundedDivideNearest(value, divisor);
    NearestStaysBetween(value, divisor, SignedRoundedDivide(value, divisor), low, high);
  }

  lemma NearestStaysBetween(value: int, divisor: int, r: int, low: int, high: int)
    requires divisor > 0 && low * divisor <= value <= high * divisor
    requires Abs(2 * (value - r * divisor)) <= divisor
    ensures low <= r <= high
  {
    if r < low { NextMultipleBelow(r, low, divisor); }
    if r > high { NextMultipleBelow(high, r, divisor); }
  }

  lemma NextMultipleBelow(a: int, b: int, d: int)
    requires a < b && d > 0
    ensures a * d + d <= b * d
  {
    MulMonotone(a + 1, b, d);
  }

  /** A valid ratio of a value is the exact truncated product, saturated. */
  lemma RatioOfExact(value: u64, ratio: u64)
    requires FactorValid(ratio)
    ensures RatioOf(value, ratio) == Min(value * ratio / RATIO_ONE_E6, U64_MAX)
  {
    var q, r := value / RATIO_ONE_E6, value % RATIO_ONE_E6;
    MulNonNegative(q, ratio);
    MulNonNegative(r, ratio);
    MulMonotone(r, RATIO_ONE_E6 - 1, ratio);
    ProductSplits(value, ratio, RATIO_ONE_E6);
  }

  /** Rounded up instead of truncated, under the same bound. */
  lemma RatioOfRoundedUpExact(value: u64, ratio: u64)
    requires FactorValid(ratio)
    ensures RatioOfRoundedUp(value, ratio) ==
            Min((value * ratio + RATIO_ONE_E6 - 1) / RATIO_ONE_E6, U64_MAX)
  {
    var q, r := value / RATIO_ONE_E6, value % RATIO_ONE_E6;
    RoundedUpParts(value, ratio);
    ProductParts(value, q, r, ratio);
    QuotientSplits(q * ratio, r * ratio + RATIO_ONE_E6 - 1, RATIO_ONE_E6);
  }

  lemma RoundedUpParts(value: u64, ratio: u64)
    requires FactorValid(ratio)
    ensures RatioOfRoundedUp(value, ratio) ==
            Min(value / RATIO_ONE_E6 * ratio + (value % RATIO_ONE_E6 * ratio + RATIO_ONE_E6 - 1) / RATIO_ONE_E6,
                U64_MAX)
  {
    var r := value % RATIO_ONE_E6;
    MulNonNegative(value / RATIO_ONE_E6, ratio);
    RestFits(r, ratio);
    QuotientMonotone(0, r * ratio + RATIO_ONE_E6 - 1, RATIO_ONE_E6);
  }

  lemma RestFits(r: int, ratio: u64)
    requires FactorValid(ratio) && 0 <= r < RATIO_ONE_E6
    ensures 0 <= r * ratio && r * ratio + RATIO_ONE_E6 - 1 <= U64_MAX
  {
    MulNonNegative(r, ratio);
    MulMonotone(r, RATIO_ONE_E6 - 1, ratio);
  }

  lemma ProductParts(value: int, q: int, r: int, n: int)
    requires value == q * RATIO_ONE_E6 + r
    ensures value * n == q * n * RATIO_ONE_E6 + r * n
  {}

  /** A signed difference is the true one, clamped; and it keeps the sign. */
  lemma SignedDifferenceClamps(first: i64, second: i64)
    ensures SignedDifference(first, second) == Max(I64_MIN, Min(I64_MAX, first - second))
  {}
}
