/** How one direction's shaper rate moves: cuts, increases, decay toward base, limits. */
module RateControl {
  import opened Arith
  import opened Rate

  const RATE_STEP_BPS: int := 8

  datatype Limits = Limits(
    adjust: bool, minimumBps: u64, baseBps: u64, maximumBps: u64,
    adjustUpUs: u64, thresholdUs: u64, adjustDownUs: u64)

  datatype Config = Config(
    window: nat, threshold: nat,
    minimumDownE6: u64, maximumDownE6: u64, minimumUpE6: u64, maximumUpE6: u64,
    decayDownE6: u64, decayUpE6: u64, highLoadE6: u64,
    refractoryUs: u64, decayRefractoryUs: u64,
    sharedDelay: bool, ackShareE6: u64)

  datatype Reason = Unchanged | Initial | Congestion | HighLoad | ReturnToBase | Reconcile | AckShare

  datatype Traffic = Traffic(valid: bool, sampleId: u64, trafficBps: u64, cakeBps: u64)

  /** The fields of a direction that rate adjustment reads and writes. */
  datatype Shaper = Shaper(
    rateBps: u64, lastCongestionUs: u64, lastDecayUs: u64, lastIncreaseId: u64, initialPending: bool)

  /** What one update brings to the adjustment. */
  datatype Update = Update(
    traffic: Traffic, latencyValid: bool, congested: bool, attributed: bool,
    averageDelayUs: i64, ceilingBps: u64, timestampUs: u64)

  predicate FactorsValid(config: Config)
  {
    && FactorValid(config.minimumDownE6) && FactorValid(config.maximumDownE6)
    && FactorValid(config.minimumUpE6) && FactorValid(config.maximumUpE6)
    && FactorValid(config.decayDownE6) && FactorValid(config.decayUpE6)
  }

  /** Rates as validated: whole bytes per second, in order. */
  predicate LimitsValid(limits: Limits)
  {
    && 0 < limits.minimumBps <= limits.baseBps <= limits.maximumBps
    && limits.minimumBps % RATE_STEP_BPS == 0
    && limits.baseBps % RATE_STEP_BPS == 0
    && limits.maximumBps % RATE_STEP_BPS == 0
  }

  function Holdable(rateBps: u64): u64 { rateBps / RATE_STEP_BPS * RATE_STEP_BPS }

  function ScaleRate(rateBps: u64, factorE6: u64): u64 { Holdable(RatioOf(rateBps, factorE6)) }

  function Clamp(rateBps: u64, limits: Limits): u64
  {
    if rateBps < limits.minimumBps then limits.minimumBps
    else if rateBps > limits.maximumBps then limits.maximumBps
    else rateBps
  }

  function TowardBase(rateBps: u64, baseBps: u64, config: Config): u64
  {
    if rateBps > baseBps then Max(ScaleRate(rateBps, config.decayDownE6), baseBps)
    else if rateBps < baseBps then Min(ScaleRate(rateBps, config.decayUpE6), baseBps)
    else rateBps
  }

  function Interpolated(minimumE6: u64, maximumE6: u64, adjustmentE6: u64): u64
    requires adjustmentE6 <= RATIO_ONE_E6
  {
    ShareOf(Max(maximumE6, minimumE6) - Min(maximumE6, minimumE6), adjustmentE6);
    if maximumE6 >= minimumE6 then minimumE6 + RatioOf(maximumE6 - minimumE6, adjustmentE6)
    else minimumE6 - RatioOf(minimumE6 - maximumE6, adjustmentE6)
  }

  /** Where between its two bounds the average delay lies, as a ratio. */
  function DelayAdjustment(delayUs: i64, fromUs: u64, toUs: u64): (ratio: u64)
    ensures ratio <= RATIO_ONE_E6
  {
    if toUs <= fromUs || (delayUs > 0 && delayUs >= toUs) then RATIO_ONE_E6
    else if delayUs <= 0 || delayUs <= fromUs then 0
    else PartBelowWhole(delayUs - fromUs, toUs - fromUs); FractionToRatioE6(delayUs - fromUs, toUs - fromUs)
  }

  function UpAdjustment(delayUs: i64, thresholdUs: u64, fullUs: u64): (ratio: u64)
    ensures ratio <= RATIO_ONE_E6
  {
    if thresholdUs <= fullUs || delayUs <= 0 || delayUs <= fullUs then RATIO_ONE_E6
    else if delayUs < thresholdUs then
      PartBelowWhole(thresholdUs - delayUs, thresholdUs - fullUs);
      FractionToRatioE6(thresholdUs - delayUs, thresholdUs - fullUs)
    else 0
  }

  function DownwardFactor(averageDelayUs: i64, limits: Limits, config: Config): u64
  {
    Interpolated(config.minimumDownE6, config.maximumDownE6,
                 DelayAdjustment(averageDelayUs, limits.thresholdUs, limits.adjustDownUs))
  }

  function UpwardFactor(averageDelayUs: i64, limits: Limits, config: Config): u64
  {
    Interpolated(config.minimumUpE6, config.maximumUpE6,
                 UpAdjustment(averageDelayUs, limits.thresholdUs, limits.adjustUpUs))
  }

  function Cut(shaper: Shaper, update: Update, limits: Limits, config: Config): Shaper
  {
    shaper.(rateBps := ScaleRate(shaper.rateBps, DownwardFactor(update.averageDelayUs, limits, config)),
            lastCongestionUs := update.timestampUs, lastDecayUs := update.timestampUs)
  }

  function Increased(shaper: Shaper, update: Update, limits: Limits, config: Config): Shaper
  {
    shaper.(rateBps := ScaleRate(shaper.rateBps, UpwardFactor(update.averageDelayUs, limits, config)),
            lastIncreaseId := update.traffic.sampleId, lastDecayUs := update.timestampUs)
  }

  /** The fall to the minimum rate. */
  function AtMinimum(shaper: Shaper, limits: Limits, timestampUs: u64): Shaper
  {
    shaper.(rateBps := limits.minimumBps, lastCongestionUs := timestampUs, lastDecayUs := timestampUs,
            initialPending := false)
  }

  predicate IsHighLoad(shaper: Shaper, update: Update, config: Config)
  {
    LoadRatioE6(update.traffic.trafficBps, shaper.rateBps) > config.highLoadE6
  }

  predicate Adjusts(shaper: Shaper, update: Update, limits: Limits)
  {
    limits.adjust && update.traffic.valid && !shaper.initialPending && update.latencyValid
  }

  predicate IsCut(shaper: Shaper, update: Update, limits: Limits, config: Config)
  {
    && Adjusts(shaper, update, limits)
    && update.congested && update.attributed
    && IntervalElapsed(update.timestampUs, shaper.lastCongestionUs, config.refractoryUs)
  }

  predicate IsIncrease(shaper: Shaper, update: Update, limits: Limits, config: Config)
  {
    && Adjusts(shaper, update, limits)
    && !update.congested && IsHighLoad(shaper, update, config)
    && update.traffic.sampleId != shaper.lastIncreaseId
    && IntervalElapsed(update.timestampUs, shaper.lastCongestionUs, config.refractoryUs)
  }

  predicate IsDecay(shaper: Shaper, update: Update, limits: Limits, config: Config)
  {
    && Adjusts(shaper, update, limits)
    && !update.congested && !IsHighLoad(shaper, update, config)
    && shaper.rateBps != limits.baseBps
    && IntervalElapsed(update.timestampUs, shaper.lastDecayUs, config.decayRefractoryUs)
  }

  /** The adjustment before the ceiling and the limits. */
  function Moved(shaper: Shaper, update: Update, limits: Limits, config: Config): Shaper
  {
    if IsCut(shaper, update, limits, config) then Cut(shaper, update, limits, config)
    else if IsIncrease(shaper, update, limits, config) then Increased(shaper, update, limits, config)
    else if IsDecay(shaper, update, limits, config) then
      shaper.(rateBps := TowardBase(shaper.rateBps, limits.baseBps, config), lastDecayUs := update.timestampUs)
    else shaper
  }

  function Adjusted(shaper: Shaper, update: Update, limits: Limits, config: Config): Shaper
  {
    if !limits.adjust || !update.traffic.valid then shaper
    else if shaper.initialPending then
      shaper.(initialPending := false, lastCongestionUs := update.timestampUs, lastDecayUs := update.timestampUs)
    else if !update.latencyValid then shaper
    else
      var moved := Moved(shaper, update, limits, config);
      // a ceiling under the minimum rate does not count
      moved.(rateBps := Clamp(Min(moved.rateBps, update.ceilingBps), limits))
  }

  function AdjustReason(shaper: Shaper, update: Update, limits: Limits, config: Config): Reason
  {
    if !limits.adjust || !update.traffic.valid then Unchanged
    else if shaper.initialPending then Initial
    else if !update.latencyValid then Unchanged
    else if Adjusted(shaper, update, limits, config).rateBps == shaper.rateBps then Unchanged
    else if Moved(shaper, update, limits, config).rateBps > update.ceilingBps then AckShare
    else if update.congested then Congestion
    else if IsHighLoad(shaper, update, config) then HighLoad
    else ReturnToBase
  }

  // ----- factors

  /** A share of a value is no more than the value. */
  lemma ShareOf(value: u64, shareE6: u64)
    requires shareE6 <= RATIO_ONE_E6
    ensures RatioOf(value, shareE6) <= value
    ensures shareE6 == RATIO_ONE_E6 ==> RatioOf(value, shareE6) == value
  {
    RatioOfExact(value, shareE6);
    MulMonotone(shareE6, RATIO_ONE_E6, value);
    QuotientMonotone(value * shareE6, value * RATIO_ONE_E6, RATIO_ONE_E6);
    QuotientIs(value * RATIO_ONE_E6, RATIO_ONE_E6, value);
  }

  lemma PartBelowWhole(part: u64, whole: u64)
    requires part < whole
    ensures FractionToRatioE6(part, whole) <= RATIO_ONE_E6
  {
    if whole <= U64_MAX / RATIO_ONE_E6 {
      FractionExact(part, whole);
      QuotientMonotone(part * RATIO_ONE_E6, whole * RATIO_ONE_E6, whole);
      QuotientIs(whole * RATIO_ONE_E6, whole, RATIO_ONE_E6);
    } else {
      FractionOfLargeWhole(part, whole);
      var p, w := part / RATIO_ONE_E6, whole / RATIO_ONE_E6;
      QuotientMonotone(part, whole, RATIO_ONE_E6);
      QuotientMonotone(p * RATIO_ONE_E6, w * RATIO_ONE_E6, w);
      QuotientIs(w * RATIO_ONE_E6, w, RATIO_ONE_E6);
    }
  }

  /** The factor lies between its two ends and meets them, so valid ends give a valid factor. */
  lemma InterpolationStaysBetween(minimumE6: u64, maximumE6: u64, adjustmentE6: u64)
    requires adjustmentE6 <= RATIO_ONE_E6
    ensures Min(minimumE6, maximumE6) <= Interpolated(minimumE6, maximumE6, adjustmentE6) <= Max(minimumE6, maximumE6)
    ensures adjustmentE6 == 0 ==> Interpolated(minimumE6, maximumE6, adjustmentE6) == minimumE6
    ensures adjustmentE6 == RATIO_ONE_E6 ==> Interpolated(minimumE6, maximumE6, adjustmentE6) == maximumE6
  {
    var span := Max(maximumE6, minimumE6) - Min(maximumE6, minimumE6);
    ShareOf(span, adjustmentE6);
    RatioOfExact(span, adjustmentE6);
  }

  // ----- the rate is always one CAKE can hold, within its limits

  ghost predicate Held(rateBps: u64, limits: Limits)
  {
    rateBps % RATE_STEP_BPS == 0 && limits.minimumBps <= rateBps <= limits.maximumBps
  }

  predicate CeilingHoldable(ceilingBps: u64) { ceilingBps == U64_MAX || ceilingBps % RATE_STEP_BPS == 0 }

  lemma AdjustmentKeepsHeld(shaper: Shaper, update: Update, limits: Limits, config: Config)
    requires LimitsValid(limits) && CeilingHoldable(update.ceilingBps)
    requires Held(shaper.rateBps, limits)
    ensures Held(Adjusted(shaper, update, limits, config).rateBps, limits)
  {
    MovesByWholeSteps(shaper, update, limits, config);
    ClampHolds(Moved(shaper, update, limits, config).rateBps, update.ceilingBps, limits);
  }

  lemma ScaleIsHoldable(rateBps: u64, factorE6: u64)
    ensures ScaleRate(rateBps, factorE6) % RATE_STEP_BPS == 0
  {
    HoldableNear(RatioOf(rateBps, factorE6));
  }

  lemma MovesByWholeSteps(shaper: Shaper, update: Update, limits: Limits, config: Config)
    requires LimitsValid(limits) && shaper.rateBps % RATE_STEP_BPS == 0
    ensures Moved(shaper, update, limits, config).rateBps % RATE_STEP_BPS == 0
  {
    ScaleIsHoldable(shaper.rateBps, DownwardFactor(update.averageDelayUs, limits, config));
    ScaleIsHoldable(shaper.rateBps, UpwardFactor(update.averageDelayUs, limits, config));
    ScaleIsHoldable(shaper.rateBps, config.decayDownE6);
    ScaleIsHoldable(shaper.rateBps, config.decayUpE6);
  }

  lemma ClampHolds(rateBps: u64, ceilingBps: u64, limits: Limits)
    requires LimitsValid(limits) && CeilingHoldable(ceilingBps) && rateBps % RATE_STEP_BPS == 0
    ensures Held(Clamp(Min(rateBps, ceilingBps), limits), limits)
  {}

  // ----- decay reaches base

  /** One decay step of an uncongested, lightly loaded, uncapped direction. */
  function DecayStep(rateBps: u64, limits: Limits, config: Config): u64
  {
    Clamp(TowardBase(rateBps, limits.baseBps, config), limits)
  }

  lemma DecayStepIsAdjustment(shaper: Shaper, update: Update, limits: Limits, config: Config)
    requires LimitsValid(limits) && Held(shaper.rateBps, limits)
    requires Adjusts(shaper, update, limits) && !update.congested && !IsHighLoad(shaper, update, config)
    requires update.ceilingBps == U64_MAX
    requires IntervalElapsed(update.timestampUs, shaper.lastDecayUs, config.decayRefractoryUs)
    ensures Adjusted(shaper, update, limits, config).rateBps == DecayStep(shaper.rateBps, limits, config)
  {}

  function Decayed(rateBps: u64, limits: Limits, config: Config, steps: nat): u64
    decreases steps
  {
    if steps == 0 then rateBps else Decayed(DecayStep(rateBps, limits, config), limits, config, steps - 1)
  }

  /** What a caller can check: the factor in use moves the current rate by a whole step. */
  predicate Progresses(rateBps: u64, limits: Limits, config: Config)
  {
    && (rateBps > limits.baseBps ==> config.decayDownE6 < RATIO_ONE_E6)
    && (rateBps < limits.baseBps ==> RatioOf(rateBps, config.decayUpE6) >= rateBps + RATE_STEP_BPS)
  }

  lemma HoldableNear(value: u64)
    ensures Holdable(value) % RATE_STEP_BPS == 0 && Holdable(value) <= value < Holdable(value) + RATE_STEP_BPS
  {}

  /** A factor below one lowers a holdable rate by at least a step. */
  lemma ScalesDown(rateBps: u64, factorE6: u64)
    requires rateBps % RATE_STEP_BPS == 0 && rateBps > 0 && factorE6 < RATIO_ONE_E6
    ensures ScaleRate(rateBps, factorE6) <= rateBps - RATE_STEP_BPS
  {
    RatioOfExact(rateBps, factorE6);
    MulMonotone(factorE6, RATIO_ONE_E6 - 1, rateBps);
    assert rateBps * (RATIO_ONE_E6 - 1) == rateBps * RATIO_ONE_E6 - rateBps;
    QuotientMonotone(rateBps * factorE6, rateBps * RATIO_ONE_E6 - 1, RATIO_ONE_E6);
    QuotientSplits(rateBps, -1, RATIO_ONE_E6);
    HoldableNear(RatioOf(rateBps, factorE6));
  }

  /** A factor of at least one adds its excess over one, truncated and saturated. */
  lemma GainIsExcess(rateBps: u64, factorE6: u64)
    requires FactorValid(factorE6) && factorE6 >= RATIO_ONE_E6
    ensures RatioOf(rateBps, factorE6) == Min(rateBps + rateBps * (factorE6 - RATIO_ONE_E6) / RATIO_ONE_E6, U64_MAX)
  {
    RatioOfExact(rateBps, factorE6);
    var extra := factorE6 - RATIO_ONE_E6;
    assert rateBps * factorE6 == rateBps * RATIO_ONE_E6 + rateBps * extra;
    QuotientSplits(rateBps, rateBps * extra, RATIO_ONE_E6);
  }

  /** What a factor adds grows with the rate. */
  lemma GainGrows(rateBps: u64, larger: u64, factorE6: u64)
    requires rateBps <= larger && FactorValid(factorE6) && factorE6 >= RATIO_ONE_E6
    requires larger + RATE_STEP_BPS <= U64_MAX
    requires RatioOf(rateBps, factorE6) >= rateBps + RATE_STEP_BPS
    ensures RatioOf(larger, factorE6) >= larger + RATE_STEP_BPS
  {
    GainIsExcess(rateBps, factorE6);
    GainIsExcess(larger, factorE6);
    var extra := factorE6 - RATIO_ONE_E6;
    MulMonotone(rateBps, larger, extra);
    QuotientMonotone(rateBps * extra, larger * extra, RATIO_ONE_E6);
  }

  lemma AtLeastOne(rateBps: u64, factorE6: u64)
    requires FactorValid(factorE6)
    ensures factorE6 >= RATIO_ONE_E6 ==> RatioOf(rateBps, factorE6) >= rateBps
    ensures factorE6 < RATIO_ONE_E6 ==> RatioOf(rateBps, factorE6) <= rateBps
  {
    RatioOfExact(rateBps, factorE6);
    QuotientIs(rateBps * RATIO_ONE_E6, RATIO_ONE_E6, rateBps);
    if factorE6 >= RATIO_ONE_E6 {
      MulMonotone(RATIO_ONE_E6, factorE6, rateBps);
      QuotientMonotone(rateBps * RATIO_ONE_E6, rateBps * factorE6, RATIO_ONE_E6);
    } else {
      MulMonotone(factorE6, RATIO_ONE_E6, rateBps);
      QuotientMonotone(rateBps * factorE6, rateBps * RATIO_ONE_E6, RATIO_ONE_E6);
    }
  }

  function Distance(rateBps: u64, limits: Limits): nat { Abs(rateBps - limits.baseBps) }

  /** A step that progresses moves at least one rate step closer, never past base, and the next one progresses too. */
  lemma StepCloser(rateBps: u64, limits: Limits, config: Config)
    requires LimitsValid(limits) && FactorsValid(config) && Held(rateBps, limits)
    requires rateBps != limits.baseBps && Progresses(rateBps, limits, config)
    ensures var next := DecayStep(rateBps, limits, config);
      && Held(next, limits) && Progresses(next, limits, config)
      && (rateBps > limits.baseBps ==> limits.baseBps <= next <= rateBps - RATE_STEP_BPS)
      && (rateBps < limits.baseBps ==> rateBps + RATE_STEP_BPS <= next <= limits.baseBps)
  {
    if rateBps > limits.baseBps {
      CloserFromAbove(rateBps, limits, config);
    } else {
      CloserFromBelow(rateBps, limits, config);
      GainNeedsFactor(rateBps, config.decayUpE6);
      KeepsGaining(rateBps, DecayStep(rateBps, limits, config), limits, config);
    }
  }

  lemma CloserFromAbove(rateBps: u64, limits: Limits, config: Config)
    requires LimitsValid(limits) && Held(rateBps, limits)
    requires rateBps > limits.baseBps && config.decayDownE6 < RATIO_ONE_E6
    ensures var next := DecayStep(rateBps, limits, config);
      Held(next, limits) && limits.baseBps <= next <= rateBps - RATE_STEP_BPS
  {
    ScalesDown(rateBps, config.decayDownE6);
    ScaleIsHoldable(rateBps, config.decayDownE6);
    StepDown(rateBps, ScaleRate(rateBps, config.decayDownE6), limits);
  }

  lemma CloserFromBelow(rateBps: u64, limits: Limits, config: Config)
    requires LimitsValid(limits) && Held(rateBps, limits)
    requires rateBps < limits.baseBps && RatioOf(rateBps, config.decayUpE6) >= rateBps + RATE_STEP_BPS
    ensures var next := DecayStep(rateBps, limits, config);
      Held(next, limits) && rateBps + RATE_STEP_BPS <= next <= limits.baseBps
  {
    GainScales(rateBps, config.decayUpE6);
    StepUp(rateBps, ScaleRate(rateBps, config.decayUpE6), limits);
  }

  lemma KeepsGaining(rateBps: u64, next: u64, limits: Limits, config: Config)
    requires FactorsValid(config) && config.decayUpE6 >= RATIO_ONE_E6
    requires rateBps <= next <= limits.baseBps && next % RATE_STEP_BPS == limits.baseBps % RATE_STEP_BPS == 0
    requires RatioOf(rateBps, config.decayUpE6) >= rateBps + RATE_STEP_BPS
    ensures Progresses(next, limits, config)
  {
    if next < limits.baseBps { GainGrows(rateBps, next, config.decayUpE6); }
  }

  lemma StepDown(rateBps: u64, scaledBps: u64, limits: Limits)
    requires LimitsValid(limits) && Held(rateBps, limits) && rateBps > limits.baseBps
    requires scaledBps % RATE_STEP_BPS == 0 && scaledBps <= rateBps - RATE_STEP_BPS
    ensures var next := Clamp(Max(scaledBps, limits.baseBps), limits);
      Held(next, limits) && limits.baseBps <= next <= rateBps - RATE_STEP_BPS
  {}

  lemma StepUp(rateBps: u64, scaledBps: u64, limits: Limits)
    requires LimitsValid(limits) && Held(rateBps, limits) && rateBps < limits.baseBps
    requires scaledBps % RATE_STEP_BPS == 0 && scaledBps >= rateBps + RATE_STEP_BPS
    ensures var next := Clamp(Min(scaledBps, limits.baseBps), limits);
      Held(next, limits) && rateBps + RATE_STEP_BPS <= next <= limits.baseBps
  {}

  lemma GainScales(rateBps: u64, factorE6: u64)
    requires rateBps % RATE_STEP_BPS == 0
    ensures ScaleRate(rateBps, factorE6) % RATE_STEP_BPS == 0
    ensures RatioOf(rateBps, factorE6) >= rateBps + RATE_STEP_BPS
       <==> ScaleRate(rateBps, factorE6) >= rateBps + RATE_STEP_BPS
    ensures RatioOf(rateBps, factorE6) >= rateBps <==> ScaleRate(rateBps, factorE6) >= rateBps
  {
    HoldableSteps(rateBps, RatioOf(rateBps, factorE6));
  }

  lemma HoldableSteps(rateBps: u64, value: u64)
    requires rateBps % RATE_STEP_BPS == 0
    ensures Holdable(value) % RATE_STEP_BPS == 0
    ensures value >= rateBps + RATE_STEP_BPS <==> Holdable(value) >= rateBps + RATE_STEP_BPS
    ensures value >= rateBps <==> Holdable(value) >= rateBps
  {
    HoldableNear(value);
  }

  lemma GainNeedsFactor(rateBps: u64, factorE6: u64)
    requires FactorValid(factorE6) && RatioOf(rateBps, factorE6) > rateBps
    ensures factorE6 >= RATIO_ONE_E6
  {
    AtLeastOne(rateBps, factorE6);
  }

  /** The rate reaches base monotonically, in at most its distance over the rate step. */
  lemma {:induction false} DecayReachesBase(rateBps: u64, limits: Limits, config: Config)
    requires LimitsValid(limits) && FactorsValid(config) && Held(rateBps, limits)
    requires Progresses(rateBps, limits, config)
    ensures Decayed(rateBps, limits, config, Distance(rateBps, limits) / RATE_STEP_BPS) == limits.baseBps
    decreases Distance(rateBps, limits)
  {
    if rateBps == limits.baseBps {
    } else {
      var next := DecayStep(rateBps, limits, config);
      StepCloser(rateBps, limits, config);
      DecayReachesBase(next, limits, config);
      DecayRests(next, limits, config, Distance(next, limits) / RATE_STEP_BPS,
                 Distance(rateBps, limits) / RATE_STEP_BPS - 1);
    }
  }

  /** Once at base the rate stays there. */
  lemma {:induction false} DecayRests(rateBps: u64, limits: Limits, config: Config, steps: nat, more: nat)
    requires LimitsValid(limits) && steps <= more
    requires Decayed(rateBps, limits, config, steps) == limits.baseBps
    ensures Decayed(rateBps, limits, config, more) == limits.baseBps
    decreases more
  {
    if more == 0 {
    } else {
      if steps == 0 {
        DecayRests(DecayStep(rateBps, limits, config), limits, config, 0, more - 1);
      } else {
        DecayRests(DecayStep(rateBps, limits, config), limits, config, steps - 1, more - 1);
      }
    }
  }

  /** A step that does not progress never moves toward base, nor does any after it. */
  lemma StepStalls(rateBps: u64, limits: Limits, config: Config)
    requires LimitsValid(limits) && FactorsValid(config) && Held(rateBps, limits)
    requires !Progresses(rateBps, limits, config)
    ensures var next := DecayStep(rateBps, limits, config);
      && Held(next, limits) && !Progresses(next, limits, config)
      && (rateBps > limits.baseBps ==> next >= rateBps)
      && (rateBps < limits.baseBps ==> next <= rateBps)
  {
    if rateBps > limits.baseBps {
      StallsAbove(rateBps, limits, config);
    } else {
      StallsBelow(rateBps, limits, config);
      StaysStalled(rateBps, DecayStep(rateBps, limits, config), config);
    }
  }

  lemma StallsAbove(rateBps: u64, limits: Limits, config: Config)
    requires LimitsValid(limits) && FactorsValid(config) && Held(rateBps, limits)
    requires rateBps > limits.baseBps && config.decayDownE6 >= RATIO_ONE_E6
    ensures Held(DecayStep(rateBps, limits, config), limits) && DecayStep(rateBps, limits, config) >= rateBps
  {
    AtLeastOne(rateBps, config.decayDownE6);
    GainScales(rateBps, config.decayDownE6);
    StallAbove(rateBps, ScaleRate(rateBps, config.decayDownE6), limits);
  }

  lemma StallsBelow(rateBps: u64, limits: Limits, config: Config)
    requires LimitsValid(limits) && Held(rateBps, limits)
    requires rateBps < limits.baseBps && RatioOf(rateBps, config.decayUpE6) < rateBps + RATE_STEP_BPS
    ensures Held(DecayStep(rateBps, limits, config), limits) && DecayStep(rateBps, limits, config) <= rateBps
  {
    GainScales(rateBps, config.decayUpE6);
    StallBelow(rateBps, ScaleRate(rateBps, config.decayUpE6), limits);
  }

  lemma StaysStalled(rateBps: u64, next: u64, config: Config)
    requires FactorsValid(config) && next <= rateBps <= U64_MAX - RATE_STEP_BPS
    requires RatioOf(rateBps, config.decayUpE6) < rateBps + RATE_STEP_BPS
    ensures RatioOf(next, config.decayUpE6) < next + RATE_STEP_BPS
  {
    if RatioOf(next, config.decayUpE6) >= next + RATE_STEP_BPS {
      GainNeedsFactor(next, config.decayUpE6);
      GainGrows(next, rateBps, config.decayUpE6);
    }
  }

  lemma StallAbove(rateBps: u64, scaledBps: u64, limits: Limits)
    requires LimitsValid(limits) && Held(rateBps, limits) && rateBps > limits.baseBps
    requires scaledBps % RATE_STEP_BPS == 0 && scaledBps >= rateBps
    ensures var next := Clamp(Max(scaledBps, limits.baseBps), limits);
      Held(next, limits) && next >= rateBps
  {}

  lemma StallBelow(rateBps: u64, scaledBps: u64, limits: Limits)
    requires LimitsValid(limits) && Held(rateBps, limits) && rateBps < limits.baseBps
    requires scaledBps % RATE_STEP_BPS == 0 && scaledBps < rateBps + RATE_STEP_BPS
    ensures var next := Clamp(Min(scaledBps, limits.baseBps), limits);
      Held(next, limits) && next <= rateBps
  {}

  lemma {:induction false} StalledNeverReaches(rateBps: u64, limits: Limits, config: Config, steps: nat)
    requires LimitsValid(limits) && FactorsValid(config) && Held(rateBps, limits)
    requires !Progresses(rateBps, limits, config)
    ensures Decayed(rateBps, limits, config, steps) != limits.baseBps
    decreases steps
  {
    if steps == 0 {
    } else {
      StepStalls(rateBps, limits, config);
      StalledNeverReaches(DecayStep(rateBps, limits, config), limits, config, steps - 1);
    }
  }

  /** Decay reaches base if and only if its first step makes progress. */
  lemma DecayReachesBaseIff(rateBps: u64, limits: Limits, config: Config)
    requires LimitsValid(limits) && FactorsValid(config) && Held(rateBps, limits)
    ensures (exists steps: nat :: Decayed(rateBps, limits, config, steps) == limits.baseBps)
       <==> Progresses(rateBps, limits, config)
  {
    if Progresses(rateBps, limits, config) {
      DecayReachesBase(rateBps, limits, config);
    } else {
      forall steps: nat
        ensures Decayed(rateBps, limits, config, steps) != limits.baseBps
      {
        StalledNeverReaches(rateBps, limits, config, steps);
      }
    }
  }

  /** A one per cent increase leaves a rate below 800 bit/s where it is. */
  lemma SlowRateStalls()
    ensures var limits := Limits(true, 80, 800, 8000, 0, 0, 0);
      var config := Config(1, 1, 900_000, 750_000, 1_000_000, 1_040_000, 990_000, 1_010_000, 750_000, 0, 0, false, 0);
      LimitsValid(limits) && FactorsValid(config) && Held(400, limits) && DecayStep(400, limits, config) == 400
  {}
}
