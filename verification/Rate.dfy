/** Serialization times, ratios per million and rates from counters. */
module Rate {
  import opened Arith

  const MICROSECONDS_PER_SECOND: int := 1_000_000
  const BYTE_PER_US_TO_BPS: int := 8_000_000

  function SerializationUs(wirePacketBits: u64, rateBps: u64): u64
  {
    if rateBps == 0 then 0 else
    QuotientAtMost(wirePacketBits, rateBps);
    var whole: u64 := wirePacketBits / rateBps;
    var remainder: u64 := wirePacketBits % rateBps;
    if whole > U64_MAX / MICROSECONDS_PER_SECOND
       || remainder * MICROSECONDS_PER_SECOND > U64_MAX then U64_MAX
    else
      SaturatingAdd(whole * MICROSECONDS_PER_SECOND,
                    RoundedDivide(remainder * MICROSECONDS_PER_SECOND, rateBps))
  }

  /** Whole parts and the remaining fraction scale separately, so neither product has to hold the other. */
  function SplitRatio(part: u64, whole: u64): u64
    requires whole > 0
  {
    QuotientAtMost(part, whole);
    var scaled: u64 := Wrap64(part % whole * RATIO_ONE_E6);
    QuotientAtMost(scaled, whole);
    SaturatingAdd(SaturatingMul(part / whole, RATIO_ONE_E6), scaled / whole)
  }

  function FractionToRatioE6(part: u64, whole: u64): u64
  {
    if whole > U64_MAX / RATIO_ONE_E6 then SplitRatio(part / RATIO_ONE_E6, whole / RATIO_ONE_E6)
    else if whole == 0 then 0
    else SplitRatio(part, whole)
  }

  function LoadRatioE6(trafficBps: u64, shaperBps: u64): u64 { FractionToRatioE6(trafficBps, shaperBps) }

  function Bps(byteDelta: u64, elapsedUs: u64): u64
  {
    if elapsedUs == 0 then U64_MAX
    else
      QuotientAtMost(byteDelta, elapsedUs);
      var tail: u64 := SaturatingMul(byteDelta % elapsedUs, BYTE_PER_US_TO_BPS);
      QuotientAtMost(tail, elapsedUs);
      SaturatingAdd(SaturatingMul(byteDelta / elapsedUs, BYTE_PER_US_TO_BPS), tail / elapsedUs)
  }

  /**
   The rounded serialization time, saturated. The guard that gives up on a
   remainder too large to scale is exactly where the result may differ.
   */
  lemma SerializationExactIff(wirePacketBits: u64, rateBps: u64)
    requires rateBps > 0
    ensures var exact := Min((2 * (wirePacketBits * MICROSECONDS_PER_SECOND) + rateBps) / (2 * rateBps), U64_MAX);
      SerializationUs(wirePacketBits, rateBps) == exact <==>
      (wirePacketBits % rateBps * MICROSECONDS_PER_SECOND <= U64_MAX || exact == U64_MAX)
  {
    var million := MICROSECONDS_PER_SECOND;
    var whole, remainder := wirePacketBits / rateBps, wirePacketBits % rateBps;
    DivisionParts(wirePacketBits, rateBps);
    QuotientAtMost(wirePacketBits, rateBps);
    var doubled := 2 * (remainder * million) + rateBps;
    assert 2 * (wirePacketBits * million) + rateBps == whole * million * (2 * rateBps) + doubled;
    QuotientSplits(whole * million, doubled, 2 * rateBps);
    QuotientMonotone(0, doubled, 2 * rateBps);
    if remainder * million <= U64_MAX {
      RoundedDivideNearest(remainder * million, rateBps);
    }
  }

  /** Exact truncated ratio, saturated, for every whole the remainder's scaling admits. */
  lemma FractionExact(part: u64, whole: u64)
    requires 0 < whole <= U64_MAX / RATIO_ONE_E6
    ensures FractionToRatioE6(part, whole) == Min(part * RATIO_ONE_E6 / whole, U64_MAX)
  {
    SplitRatioExact(part, whole);
  }

  lemma SplitRatioExact(part: u64, whole: u64)
    requires 0 < whole <= U64_MAX / RATIO_ONE_E6
    ensures SplitRatio(part, whole) == Min(part * RATIO_ONE_E6 / whole, U64_MAX)
  {
    DivisionParts(part, whole);
    QuotientAtMost(part, whole);
    QuotientMonotone(0, part % whole * RATIO_ONE_E6, whole);
    assert Wrap64(part % whole * RATIO_ONE_E6) == part % whole * RATIO_ONE_E6;
    ProductSplits(part, RATIO_ONE_E6, whole);
  }

  /** When the whole is too large to scale, six decimal digits of both are given up. */
  lemma FractionOfLargeWhole(part: u64, whole: u64)
    requires whole > U64_MAX / RATIO_ONE_E6
    ensures FractionToRatioE6(part, whole) ==
            Min(part / RATIO_ONE_E6 * RATIO_ONE_E6 / (whole / RATIO_ONE_E6), U64_MAX)
  {
    SplitRatioExact(part / RATIO_ONE_E6, whole / RATIO_ONE_E6);
  }

  /** Truncated bit/s, saturated: exact for intervals that scale (under 26 days), and else never too high. */
  lemma BpsExact(byteDelta: u64, elapsedUs: u64)
    requires elapsedUs > 0
    ensures var exact := Min(byteDelta * BYTE_PER_US_TO_BPS / elapsedUs, U64_MAX);
      && Bps(byteDelta, elapsedUs) <= exact
      && (elapsedUs <= U64_MAX / BYTE_PER_US_TO_BPS ==> Bps(byteDelta, elapsedUs) == exact)
  {
    DivisionParts(byteDelta, elapsedUs);
    QuotientAtMost(byteDelta, elapsedUs);
    ProductSplits(byteDelta, BYTE_PER_US_TO_BPS, elapsedUs);
    var product := byteDelta % elapsedUs * BYTE_PER_US_TO_BPS;
    QuotientMonotone(0, Min(product, U64_MAX), elapsedUs);
    QuotientMonotone(Min(product, U64_MAX), product, elapsedUs);
  }

  /**
   The rate is understated exactly when the remainder's bits reach the first multiple of
   the interval past 64 bits: their product saturates, and a whole bit/s is lost with it.
   */
  lemma BpsUnderstatesIff(byteDelta: u64, elapsedUs: u64)
    requires elapsedUs > 0
    ensures Bps(byteDelta, elapsedUs) < Min(byteDelta * BYTE_PER_US_TO_BPS / elapsedUs, U64_MAX)
       <==> (U64_MAX / elapsedUs + 1) * elapsedUs <= byteDelta % elapsedUs * BYTE_PER_US_TO_BPS
  {
    var product, most := byteDelta % elapsedUs * BYTE_PER_US_TO_BPS, U64_MAX / elapsedUs;
    DivisionParts(U64_MAX, elapsedUs);
    NextMultipleExceeds(most, elapsedUs, U64_MAX % elapsedUs, U64_MAX);
    if product <= U64_MAX {
      QuotientAtMost(byteDelta, elapsedUs);
      ProductSplits(byteDelta, BYTE_PER_US_TO_BPS, elapsedUs);
      QuotientMonotone(0, product, elapsedUs);
    } else {
      LongInterval(byteDelta, elapsedUs);
      QuotientReaches(product, elapsedUs, most + 1);
    }
  }

  lemma NextMultipleExceeds(q: int, d: int, r: int, a: int)
    requires a == q * d + r && r < d
    ensures (q + 1) * d > a
  {}

  lemma QuotientReaches(a: int, d: int, q: int)
    requires d > 0
    ensures a / d >= q <==> a >= q * d
  {
    DivisionParts(a, d);
    if a / d >= q { MulMonotone(q, a / d, d); }
    if a / d < q { MulMonotone(a / d + 1, q, d); }
  }

  /** A remainder too large to scale means an interval so long that nothing else saturates. */
  lemma LongInterval(byteDelta: u64, elapsedUs: u64)
    requires elapsedUs > 0 && byteDelta % elapsedUs * BYTE_PER_US_TO_BPS > U64_MAX
    ensures var head := byteDelta / elapsedUs * BYTE_PER_US_TO_BPS;
      && Bps(byteDelta, elapsedUs) == head + U64_MAX / elapsedUs
      && byteDelta * BYTE_PER_US_TO_BPS / elapsedUs
         == head + byteDelta % elapsedUs * BYTE_PER_US_TO_BPS / elapsedUs < U64_MAX
  {
    var limit := U64_MAX / BYTE_PER_US_TO_BPS;
    DivisionParts(byteDelta, elapsedUs);
    ProductSplits(byteDelta, BYTE_PER_US_TO_BPS, elapsedUs);
    assert elapsedUs > limit;
    QuotientSmall(U64_MAX, elapsedUs, limit + 1, BYTE_PER_US_TO_BPS);
    QuotientMonotone(byteDelta, U64_MAX, elapsedUs);
    QuotientAtMost(byteDelta, elapsedUs);
    QuotientBelow(byteDelta % elapsedUs * BYTE_PER_US_TO_BPS, BYTE_PER_US_TO_BPS, elapsedUs);
    QuotientMonotone(0, U64_MAX, elapsedUs);
  }

  lemma QuotientSmall(a: int, d: int, least: int, q: int)
    requires 0 < least <= d && 0 <= a <= q * least && 0 <= q
    ensures a / d <= q
  {
    MulMonotone(least, d, q);
    QuotientBelow(a, q, d);
  }

  /** For instance after the longest interval the counters can show. */
  lemma BpsUnderstatesLongIntervals()
    ensures Bps(U64_MAX - 1, U64_MAX) == 1 < Min((U64_MAX - 1) * BYTE_PER_US_TO_BPS / U64_MAX, U64_MAX)
  {}
}
