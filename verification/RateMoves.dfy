/**
 What one adjustment makes of a rate, in products of the rate and the configured factors:
 when it moves, which way, by how much, and why.
 */
module RateMoves {
  import opened Arith
  import opened Rate
  import opened RateControl

  const LARGEST_HELD_BPS: int := U64_MAX / RATE_STEP_BPS * RATE_STEP_BPS

  /** The largest whole number of rate steps in a rate times a factor per million, as far as 64 bits go. */
  function HeldOf(rateBps: int, factorE6: int): int
  {
    Min(rateBps * factorE6 / (RATIO_ONE_E6 * RATE_STEP_BPS) * RATE_STEP_BPS, LARGEST_HELD_BPS)
  }

  function Within(limits: Limits, rateBps: int): int { Max(limits.minimumBps, Min(rateBps, limits.maximumBps)) }

  /** A share taken of a span that a part takes of a whole, in whole millionths: never more, and less by under two. */
  ghost predicate InProportion(taken: int, span: int, part: int, whole: int)
  {
    0 <= RATIO_ONE_E6 * (span * part - taken * whole) < whole * (span + RATIO_ONE_E6)
  }

  /** A whole that a ratio per million is exact for. */
  predicate RatioExact(whole: int) { whole <= U64_MAX / RATIO_ONE_E6 }

  /**
   A factor that goes from one to another as a part grows to a whole: at its first when there
   is no part, at its last when the part is the whole or there is no whole, and between them
   in proportion.
   */
  ghost predicate Ramp(factorE6: int, firstE6: int, lastE6: int, part: int, whole: int)
  {
    && Min(firstE6, lastE6) <= factorE6 <= Max(firstE6, lastE6)
    && (whole <= 0 || part >= whole ==> factorE6 == lastE6)
    && (part <= 0 < whole ==> factorE6 == firstE6)
    && (0 < part < whole && RatioExact(whole) ==>
          InProportion(Abs(factorE6 - firstE6), Abs(lastE6 - firstE6), part, whole))
  }

  /** Traffic over a rate by more than a ratio per million; where the rate is large, six digits of both are given up. */
  predicate Exceeds(trafficBps: u64, rateBps: u64, ratioE6: u64)
  {
    && rateBps > 0 && ratioE6 < U64_MAX
    && if RatioExact(rateBps) then RATIO_ONE_E6 * trafficBps >= (ratioE6 + 1) * rateBps
       else RATIO_ONE_E6 * (trafficBps / RATIO_ONE_E6) >= (ratioE6 + 1) * (rateBps / RATIO_ONE_E6)
  }

  /** An adjustable direction that is past its first adjustment sees both its load and its delay. */
  predicate Sees(shaper: Shaper, update: Update, limits: Limits)
  {
    limits.adjust && !shaper.initialPending && update.traffic.valid && update.latencyValid
  }

  /** What a direction has to wait out before another cut, and before another decay. */
  predicate Waited(shaper: Shaper, update: Update, config: Config)
  {
    update.timestampUs > shaper.lastCongestionUs + config.refractoryUs
  }

  predicate Loaded(shaper: Shaper, update: Update, config: Config)
  {
    Exceeds(update.traffic.trafficBps, shaper.rateBps, config.highLoadE6)
  }

  ghost predicate Ready(shaper: Shaper, limits: Limits, config: Config)
  {
    LimitsValid(limits) && FactorsValid(config) && Held(shaper.rateBps, limits)
  }

  /** A wanted rate put under the ceiling and within the limits, and the reason given if that is a change. */
  ghost predicate Settles(shaper: Shaper, update: Update, limits: Limits, config: Config, wantedBps: int,
                          moving: Reason)
  {
    var after := Adjusted(shaper, update, limits, config).rateBps;
    && after == Within(limits, Min(wantedBps, update.ceilingBps))
    && AdjustReason(shaper, update, limits, config)
       == if after == shaper.rateBps then Unchanged else if wantedBps > update.ceilingBps then AckShare else moving
  }

  // ----- scaling

  lemma StepsInProduct(product: nat)
    ensures product / RATIO_ONE_E6 / RATE_STEP_BPS == product / (RATIO_ONE_E6 * RATE_STEP_BPS)
  {}

  lemma ScaledIs(rateBps: u64, factorE6: u64)
    requires FactorValid(factorE6)
    ensures ScaleRate(rateBps, factorE6) == HeldOf(rateBps, factorE6)
  {
    var product := rateBps * factorE6;
    MulNonNegative(rateBps, factorE6);
    RatioOfExact(rateBps, factorE6);
    StepsInProduct(product);
    StepsSaturate(product / RATIO_ONE_E6);
  }

  lemma StepsSaturate(value: nat)
    ensures Min(value, U64_MAX) / RATE_STEP_BPS * RATE_STEP_BPS
         == Min(value / RATE_STEP_BPS * RATE_STEP_BPS, LARGEST_HELD_BPS)
  {}

  /** What is held is a whole number of steps in the product, and, unless 64 bits end there, the most. */
  lemma HeldIsMost(rateBps: u64, factorE6: u64)
    ensures var held := HeldOf(rateBps, factorE6);
      && held % RATE_STEP_BPS == 0 && held * RATIO_ONE_E6 <= rateBps * factorE6
      && (held < LARGEST_HELD_BPS ==> rateBps * factorE6 < (held + RATE_STEP_BPS) * RATIO_ONE_E6)
  {
    MulNonNegative(rateBps, factorE6);
    MostSteps(rateBps * factorE6);
  }

  lemma MostSteps(product: nat)
    ensures var held := Min(product / (RATIO_ONE_E6 * RATE_STEP_BPS) * RATE_STEP_BPS, LARGEST_HELD_BPS);
      && held % RATE_STEP_BPS == 0 && held * RATIO_ONE_E6 <= product
      && (held < LARGEST_HELD_BPS ==> product < (held + RATE_STEP_BPS) * RATIO_ONE_E6)
  {}

  lemma HeldGrows(rateBps: u64, factorE6: int, otherE6: int)
    requires factorE6 <= otherE6
    ensures HeldOf(rateBps, factorE6) <= HeldOf(rateBps, otherE6)
  {
    MulMonotone(factorE6, otherE6, rateBps);
    QuotientMonotone(rateBps * factorE6, rateBps * otherE6, RATIO_ONE_E6 * RATE_STEP_BPS);
  }

  lemma HeldOfOne(rateBps: u64)
    requires rateBps % RATE_STEP_BPS == 0
    ensures HeldOf(rateBps, RATIO_ONE_E6) == rateBps
  {
    QuotientIs(rateBps * RATIO_ONE_E6, RATIO_ONE_E6 * RATE_STEP_BPS, rateBps / RATE_STEP_BPS);
  }

  // ----- the factor in force

  /** A ratio of a span, then of a part to its whole, is in proportion. */
  lemma RatioOfRatio(span: nat, part: nat, whole: nat, ratio: nat, taken: nat)
    requires whole > 0 && ratio == part * RATIO_ONE_E6 / whole && taken == span * ratio / RATIO_ONE_E6
    ensures InProportion(taken, span, part, whole)
  {
    DivisionParts(part * RATIO_ONE_E6, whole);
    DivisionParts(span * ratio, RATIO_ONE_E6);
    ProportionBounds(span, part, whole, ratio, taken, part * RATIO_ONE_E6 % whole, span * ratio % RATIO_ONE_E6);
  }

  lemma ProportionBounds(span: nat, part: nat, whole: nat, ratio: nat, taken: nat, r1: nat, r2: nat)
    requires part * RATIO_ONE_E6 == ratio * whole + r1 && r1 < whole
    requires span * ratio == taken * RATIO_ONE_E6 + r2 && r2 < RATIO_ONE_E6
    ensures InProportion(taken, span, part, whole)
  {
    ProportionIs(span, part, whole, ratio, taken, r1, r2);
    MulNonNegative(span, r1);
    MulNonNegative(whole, r2);
    MulMonotone(r1, whole, span);
    MulMonotone(r2 + 1, RATIO_ONE_E6, whole);
  }

  lemma ProportionIs(span: int, part: int, whole: int, ratio: int, taken: int, r1: int, r2: int)
    requires part * RATIO_ONE_E6 == ratio * whole + r1 && span * ratio == taken * RATIO_ONE_E6 + r2
    ensures RATIO_ONE_E6 * (span * part - taken * whole) == span * r1 + whole * r2
  {
    assert span * (part * RATIO_ONE_E6) == span * (ratio * whole) + span * r1;
    assert span * (ratio * whole) == (span * ratio) * whole;
    assert (taken * RATIO_ONE_E6 + r2) * whole == taken * whole * RATIO_ONE_E6 + r2 * whole;
  }

  lemma InterpolatedTakes(firstE6: u64, lastE6: u64, ratioE6: u64)
    requires ratioE6 <= RATIO_ONE_E6
    ensures Abs(Interpolated(firstE6, lastE6, ratioE6) - firstE6) == Abs(lastE6 - firstE6) * ratioE6 / RATIO_ONE_E6
  {
    var span := Abs(lastE6 - firstE6);
    ShareOf(span, ratioE6);
    RatioOfExact(span, ratioE6);
    MulNonNegative(span, ratioE6);
    InterpolationStaysBetween(firstE6, lastE6, ratioE6);
  }

  /** A part of a whole, or none of it or all of it, makes the ratio of a ramp. */
  lemma RatioRamps(firstE6: u64, lastE6: u64, part: int, whole: int, ratioE6: u64)
    requires ratioE6 <= RATIO_ONE_E6
    requires whole <= 0 || part >= whole ==> ratioE6 == RATIO_ONE_E6
    requires part <= 0 < whole ==> ratioE6 == 0
    requires 0 < part < whole && RatioExact(whole) ==> ratioE6 == part * RATIO_ONE_E6 / whole
    ensures Ramp(Interpolated(firstE6, lastE6, ratioE6), firstE6, lastE6, part, whole)
  {
    InterpolationStaysBetween(firstE6, lastE6, ratioE6);
    InterpolatedTakes(firstE6, lastE6, ratioE6);
    if 0 < part < whole && RatioExact(whole) {
      RatioOfRatio(Abs(lastE6 - firstE6), part, whole, ratioE6, Abs(Interpolated(firstE6, lastE6, ratioE6) - firstE6));
    }
  }

  lemma PartExact(part: u64, whole: u64)
    requires 0 < part < whole && RatioExact(whole)
    ensures FractionToRatioE6(part, whole) == part * RATIO_ONE_E6 / whole
  {
    FractionExact(part, whole);
    PartBelowWhole(part, whole);
  }

  /** A cut's factor goes from its minimum at the threshold to its maximum at the adjust-down delay. */
  lemma DownwardRamps(delayUs: i64, limits: Limits, config: Config)
    ensures Ramp(DownwardFactor(delayUs, limits, config), config.minimumDownE6, config.maximumDownE6,
                 delayUs - limits.thresholdUs, limits.adjustDownUs - limits.thresholdUs)
  {
    var part, whole := delayUs - limits.thresholdUs, limits.adjustDownUs - limits.thresholdUs;
    if 0 < part < whole && RatioExact(whole) { PartExact(part, whole); }
    RatioRamps(config.minimumDownE6, config.maximumDownE6, part, whole,
               DelayAdjustment(delayUs, limits.thresholdUs, limits.adjustDownUs));
  }

  /** An increase's factor goes from its minimum at the threshold to its maximum at the adjust-up delay. */
  lemma UpwardRamps(delayUs: i64, limits: Limits, config: Config)
    ensures Ramp(UpwardFactor(delayUs, limits, config), config.minimumUpE6, config.maximumUpE6,
                 limits.thresholdUs - delayUs, limits.thresholdUs - limits.adjustUpUs)
  {
    var part, whole := limits.thresholdUs - delayUs, limits.thresholdUs - limits.adjustUpUs;
    if 0 < part < whole && RatioExact(whole) { PartExact(part, whole); }
    RatioRamps(config.minimumUpE6, config.maximumUpE6, part, whole,
               UpAdjustment(delayUs, limits.thresholdUs, limits.adjustUpUs));
  }

  // ----- load

  lemma LoadExceeds(trafficBps: u64, rateBps: u64, ratioE6: u64)
    ensures LoadRatioE6(trafficBps, rateBps) > ratioE6 <==> Exceeds(trafficBps, rateBps, ratioE6)
  {
    if rateBps == 0 {
    } else if RatioExact(rateBps) {
      FractionExact(trafficBps, rateBps);
      QuotientReaches(trafficBps * RATIO_ONE_E6, rateBps, ratioE6 + 1);
    } else {
      FractionOfLargeWhole(trafficBps, rateBps);
      QuotientReaches(trafficBps / RATIO_ONE_E6 * RATIO_ONE_E6, rateBps / RATIO_ONE_E6, ratioE6 + 1);
    }
  }

  // ----- one adjustment

  /**
   Congestion blamed on a direction, the refractory period waited out, cuts its rate by a factor
   from the minimum one at the delay threshold to the maximum one at the adjust-down delay.
   */
  lemma CutIs(shaper: Shaper, update: Update, limits: Limits, config: Config) returns (factorE6: u64)
    requires Ready(shaper, limits, config) && Sees(shaper, update, limits)
    requires update.congested && update.attributed && Waited(shaper, update, config)
    ensures Ramp(factorE6, config.minimumDownE6, config.maximumDownE6,
                 update.averageDelayUs - limits.thresholdUs, limits.adjustDownUs - limits.thresholdUs)
    ensures Settles(shaper, update, limits, config, HeldOf(shaper.rateBps, factorE6), Congestion)
    ensures var after := Adjusted(shaper, update, limits, config);
      after == Shaper(after.rateBps, update.timestampUs, update.timestampUs, shaper.lastIncreaseId, false)
  {
    factorE6 := DownwardFactor(update.averageDelayUs, limits, config);
    DownwardRamps(update.averageDelayUs, limits, config);
    ScaledIs(shaper.rateBps, factorE6);
  }

  /**
   Load without congestion, the refractory period waited out and the sample not used before,
   raises the rate by a factor from the minimum one at the threshold to the maximum one at the
   adjust-up delay.
   */
  lemma IncreaseIs(shaper: Shaper, update: Update, limits: Limits, config: Config) returns (factorE6: u64)
    requires Ready(shaper, limits, config) && Sees(shaper, update, limits)
    requires !update.congested && Loaded(shaper, update, config) && Waited(shaper, update, config)
    requires update.traffic.sampleId != shaper.lastIncreaseId
    ensures Ramp(factorE6, config.minimumUpE6, config.maximumUpE6,
                 limits.thresholdUs - update.averageDelayUs, limits.thresholdUs - limits.adjustUpUs)
    ensures Settles(shaper, update, limits, config, HeldOf(shaper.rateBps, factorE6), HighLoad)
    ensures var after := Adjusted(shaper, update, limits, config);
      after == Shaper(after.rateBps, shaper.lastCongestionUs, update.timestampUs, update.traffic.sampleId, false)
  {
    factorE6 := UpwardFactor(update.averageDelayUs, limits, config);
    UpwardRamps(update.averageDelayUs, limits, config);
    ScaledIs(shaper.rateBps, factorE6);
    LoadExceeds(update.traffic.trafficBps, shaper.rateBps, config.highLoadE6);
  }

  /** Neither congestion nor load, the decay period waited out, moves the rate toward base and never past it. */
  lemma DecayIs(shaper: Shaper, update: Update, limits: Limits, config: Config)
    requires Ready(shaper, limits, config) && Sees(shaper, update, limits)
    requires !update.congested && !Loaded(shaper, update, config) && shaper.rateBps != limits.baseBps
    requires update.timestampUs > shaper.lastDecayUs + config.decayRefractoryUs
    ensures Settles(shaper, update, limits, config,
                    if shaper.rateBps > limits.baseBps then
                      Max(HeldOf(shaper.rateBps, config.decayDownE6), limits.baseBps)
                    else Min(HeldOf(shaper.rateBps, config.decayUpE6), limits.baseBps), ReturnToBase)
    ensures var after := Adjusted(shaper, update, limits, config);
      after == Shaper(after.rateBps, shaper.lastCongestionUs, update.timestampUs, shaper.lastIncreaseId, false)
  {
    ScaledIs(shaper.rateBps, config.decayDownE6);
    ScaledIs(shaper.rateBps, config.decayUpE6);
    LoadExceeds(update.traffic.trafficBps, shaper.rateBps, config.highLoadE6);
  }

  /** Otherwise only the ceiling moves the rate, and nothing else of the direction changes. */
  lemma RestIs(shaper: Shaper, update: Update, limits: Limits, config: Config)
    requires Ready(shaper, limits, config) && Sees(shaper, update, limits)
    requires update.congested ==> !update.attributed || !Waited(shaper, update, config)
    requires !update.congested && Loaded(shaper, update, config) ==>
      update.traffic.sampleId == shaper.lastIncreaseId || !Waited(shaper, update, config)
    requires !update.congested && !Loaded(shaper, update, config) ==>
      shaper.rateBps == limits.baseBps || update.timestampUs <= shaper.lastDecayUs + config.decayRefractoryUs
    ensures Settles(shaper, update, limits, config, shaper.rateBps, AckShare)
    ensures var after := Adjusted(shaper, update, limits, config);
      after == shaper.(rateBps := after.rateBps)
  {
    LoadExceeds(update.traffic.trafficBps, shaper.rateBps, config.highLoadE6);
  }

  /** Before the first adjustment the rate is set as it is; without load or delay, or a say in it, it stays. */
  lemma UnseenIs(shaper: Shaper, update: Update, limits: Limits, config: Config)
    requires !Sees(shaper, update, limits)
    ensures var after, first := Adjusted(shaper, update, limits, config),
                                limits.adjust && update.traffic.valid && shaper.initialPending;
      && AdjustReason(shaper, update, limits, config) == (if first then Initial else Unchanged)
      && (first ==> after == Shaper(shaper.rateBps, update.timestampUs, update.timestampUs, shaper.lastIncreaseId,
                                    false))
      && (!first ==> after == shaper)
  {}

  // ----- what follows

  lemma WithinKeepsOrder(limits: Limits, rateBps: int, otherBps: int, ceilingBps: int)
    requires LimitsValid(limits) && rateBps <= otherBps
    ensures Within(limits, Min(rateBps, ceilingBps)) <= Within(limits, Min(otherBps, ceilingBps))
  {}

  /** Down factors of at most one never raise a rate. */
  lemma CutNeverRaises(shaper: Shaper, update: Update, limits: Limits, config: Config)
    requires Ready(shaper, limits, config) && Sees(shaper, update, limits)
    requires update.congested && update.attributed && Waited(shaper, update, config)
    requires config.minimumDownE6 <= RATIO_ONE_E6 && config.maximumDownE6 <= RATIO_ONE_E6
    ensures Adjusted(shaper, update, limits, config).rateBps <= shaper.rateBps
  {
    var factorE6 := CutIs(shaper, update, limits, config);
    HeldGrows(shaper.rateBps, factorE6, RATIO_ONE_E6);
    HeldOfOne(shaper.rateBps);
  }

  /** Up factors of at least one never lower a rate that the ceiling leaves alone. */
  lemma IncreaseNeverLowers(shaper: Shaper, update: Update, limits: Limits, config: Config)
    requires Ready(shaper, limits, config) && Sees(shaper, update, limits)
    requires !update.congested && Loaded(shaper, update, config) && Waited(shaper, update, config)
    requires update.traffic.sampleId != shaper.lastIncreaseId && update.ceilingBps >= shaper.rateBps
    requires config.minimumUpE6 >= RATIO_ONE_E6 && config.maximumUpE6 >= RATIO_ONE_E6
    ensures Adjusted(shaper, update, limits, config).rateBps >= shaper.rateBps
  {
    var factorE6 := IncreaseIs(shaper, update, limits, config);
    HeldGrows(shaper.rateBps, RATIO_ONE_E6, factorE6);
    HeldOfOne(shaper.rateBps);
  }

  lemma FractionGrows(part: u64, larger: u64, whole: u64)
    requires part <= larger
    ensures FractionToRatioE6(part, whole) <= FractionToRatioE6(larger, whole)
  {
    if whole > U64_MAX / RATIO_ONE_E6 {
      FractionOfLargeWhole(part, whole);
      FractionOfLargeWhole(larger, whole);
      QuotientMonotone(part, larger, RATIO_ONE_E6);
      QuotientMonotone(part / RATIO_ONE_E6 * RATIO_ONE_E6, larger / RATIO_ONE_E6 * RATIO_ONE_E6,
                       whole / RATIO_ONE_E6);
    } else if whole > 0 {
      FractionExact(part, whole);
      FractionExact(larger, whole);
      QuotientMonotone(part * RATIO_ONE_E6, larger * RATIO_ONE_E6, whole);
    }
  }

  lemma InterpolatedGrows(firstE6: u64, lastE6: u64, ratioE6: u64, largerE6: u64)
    requires ratioE6 <= largerE6 <= RATIO_ONE_E6
    ensures firstE6 <= lastE6 ==> Interpolated(firstE6, lastE6, ratioE6) <= Interpolated(firstE6, lastE6, largerE6)
    ensures lastE6 <= firstE6 ==> Interpolated(firstE6, lastE6, largerE6) <= Interpolated(firstE6, lastE6, ratioE6)
  {
    var span := Abs(lastE6 - firstE6);
    ShareOf(span, ratioE6);
    ShareOf(span, largerE6);
    RatioOfExact(span, ratioE6);
    RatioOfExact(span, largerE6);
    MulMonotone(ratioE6, largerE6, span);
    QuotientMonotone(span * ratioE6, span * largerE6, RATIO_ONE_E6);
  }

  lemma DelayAdjustmentGrows(delayUs: i64, longerUs: i64, fromUs: u64, toUs: u64)
    requires delayUs <= longerUs
    ensures DelayAdjustment(delayUs, fromUs, toUs) <= DelayAdjustment(longerUs, fromUs, toUs)
  {
    if fromUs < delayUs && longerUs < toUs {
      FractionGrows(delayUs - fromUs, longerUs - fromUs, toUs - fromUs);
    }
  }

  lemma UpAdjustmentShrinks(delayUs: i64, longerUs: i64, thresholdUs: u64, fullUs: u64)
    requires delayUs <= longerUs
    ensures UpAdjustment(longerUs, thresholdUs, fullUs) <= UpAdjustment(delayUs, thresholdUs, fullUs)
  {
    if fullUs < delayUs && longerUs < thresholdUs {
      FractionGrows(thresholdUs - longerUs, thresholdUs - delayUs, thresholdUs - fullUs);
    }
  }

  /** A longer delay never cuts less. */
  lemma CutDeepens(shaper: Shaper, update: Update, limits: Limits, config: Config, longerUs: i64)
    requires Ready(shaper, limits, config) && Sees(shaper, update, limits)
    requires update.congested && update.attributed && Waited(shaper, update, config)
    requires config.maximumDownE6 <= config.minimumDownE6 && update.averageDelayUs <= longerUs
    ensures Adjusted(shaper, update.(averageDelayUs := longerUs), limits, config).rateBps
         <= Adjusted(shaper, update, limits, config).rateBps
  {
    var factorE6 := DownwardFactor(update.averageDelayUs, limits, config);
    var deeperE6 := DownwardFactor(longerUs, limits, config);
    DelayAdjustmentGrows(update.averageDelayUs, longerUs, limits.thresholdUs, limits.adjustDownUs);
    InterpolatedGrows(config.minimumDownE6, config.maximumDownE6,
                      DelayAdjustment(update.averageDelayUs, limits.thresholdUs, limits.adjustDownUs),
                      DelayAdjustment(longerUs, limits.thresholdUs, limits.adjustDownUs));
    DownwardRamps(update.averageDelayUs, limits, config);
    DownwardRamps(longerUs, limits, config);
    ScaledKeepsOrder(shaper.rateBps, deeperE6, factorE6);
    WithinKeepsOrder(limits, ScaleRate(shaper.rateBps, deeperE6), ScaleRate(shaper.rateBps, factorE6),
                     update.ceilingBps);
  }

  /** A longer delay never raises a rate more. */
  lemma IncreaseShrinks(shaper: Shaper, update: Update, limits: Limits, config: Config, longerUs: i64)
    requires Ready(shaper, limits, config) && Sees(shaper, update, limits)
    requires !update.congested && Loaded(shaper, update, config) && Waited(shaper, update, config)
    requires update.traffic.sampleId != shaper.lastIncreaseId
    requires config.minimumUpE6 <= config.maximumUpE6 && update.averageDelayUs <= longerUs
    ensures Adjusted(shaper, update.(averageDelayUs := longerUs), limits, config).rateBps
         <= Adjusted(shaper, update, limits, config).rateBps
  {
    var factorE6 := UpwardFactor(update.averageDelayUs, limits, config);
    var smallerE6 := UpwardFactor(longerUs, limits, config);
    UpAdjustmentShrinks(update.averageDelayUs, longerUs, limits.thresholdUs, limits.adjustUpUs);
    InterpolatedGrows(config.minimumUpE6, config.maximumUpE6,
                      UpAdjustment(longerUs, limits.thresholdUs, limits.adjustUpUs),
                      UpAdjustment(update.averageDelayUs, limits.thresholdUs, limits.adjustUpUs));
    UpwardRamps(update.averageDelayUs, limits, config);
    UpwardRamps(longerUs, limits, config);
    ScaledKeepsOrder(shaper.rateBps, smallerE6, factorE6);
    LoadExceeds(update.traffic.trafficBps, shaper.rateBps, config.highLoadE6);
    WithinKeepsOrder(limits, ScaleRate(shaper.rateBps, smallerE6), ScaleRate(shaper.rateBps, factorE6),
                     update.ceilingBps);
  }

  lemma ScaledKeepsOrder(rateBps: u64, factorE6: u64, otherE6: u64)
    requires FactorValid(factorE6) && FactorValid(otherE6) && factorE6 <= otherE6
    ensures ScaleRate(rateBps, factorE6) <= ScaleRate(rateBps, otherE6)
  {
    ScaledIs(rateBps, factorE6);
    ScaledIs(rateBps, otherE6);
    HeldGrows(rateBps, factorE6, otherE6);
  }
}
