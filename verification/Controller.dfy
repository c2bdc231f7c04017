/** The controller: one updated direction, and both together. */
module Controller {
  import opened Arith
  import opened Rate
  import opened RateControl
  import opened Congestion
  import opened Coupling
  import Windows

  datatype CongestionState = NotKnown | Clear | Detected

  /** What one direction does with an update once the culprits are known. */
  datatype DirectionUpdate = DirectionUpdate(
    traffic: Traffic, latency: Latency, attributed: bool, ceilingBps: u64, timestampUs: u64)

  datatype Output = Output(
    line: LineState, congestion: CongestionState, reason: Reason, rateBps: u64, averageDelayUs: i64,
    delayedCount: nat, attributed: bool, ackShareActive: bool, ackShareCeilingBps: u64,
    lineChanged: bool, congestionChanged: bool, rateChanged: bool, attributionChanged: bool, ackShareChanged: bool)

  /** What an update leaves to report beside the rate, and to tell the next one's changes by. */
  datatype Judged = Judged(
    line: LineState, congestion: CongestionState, averageDelayUs: i64, delayedCount: nat, attributed: bool,
    ackShareActive: bool)

  /** A congestion cut: when, after how many valid delays, and how many of the last window were over theirs. */
  datatype CutRecord = CutRecord(us: u64, arrived: nat, over: nat)

  ghost predicate ConfigValid(config: Config)
  {
    && 0 < config.window && config.window <= U32_MAX && config.threshold <= config.window && FactorsValid(config)
  }

  /** A delay joins the window without an overflow of the running sum, before or after. */
  ghost predicate WindowFits(config: Config, delays: seq<Delay>, us: int)
    requires ConfigValid(config)
  {
    var last := LastOf(delays, config.window);
    I64_MIN <= SumOf(last) - last[0].us <= I64_MAX && I64_MIN <= SumOf(last) - last[0].us + us <= I64_MAX
  }

  ghost predicate DelayFits(config: Config, delays: seq<Delay>, latency: Latency)
    requires ConfigValid(config)
  {
    latency.valid ==> WindowFits(config, delays, latency.owdDeltaUs)
  }

  ghost predicate CutsSpread(cuts: seq<CutRecord>, config: Config)
  {
    forall i, j :: 0 <= i < j < |cuts| ==> cuts[j].us - cuts[i].us > config.refractoryUs
  }

  /** Each cut's count is the one over the window of delays that had arrived, and reaches the threshold. */
  ghost predicate CutsCounted(cuts: seq<CutRecord>, delays: seq<Delay>, config: Config)
  {
    forall i :: 0 <= i < |cuts| ==> CutCounted(cuts[i], delays, config)
  }

  ghost predicate CutCounted(cut: CutRecord, delays: seq<Delay>, config: Config)
  {
    && cut.arrived <= |delays|
    && cut.over == CountOver(LastOf(delays[..cut.arrived], config.window))
    && cut.over >= config.threshold
  }

  ghost predicate StrictlyIncreasing(ids: seq<u64>)
  {
    forall i, j :: 0 <= i < j < |ids| ==> ids[i] < ids[j]
  }

  function SetOutput(limits: Limits, shaper: Shaper, traffic: Traffic, reason: Reason): (r: (u64, bool, Reason))
  {
    if !limits.adjust then (traffic.cakeBps, false, Unchanged)
    else
      var changed := traffic.valid && (reason.Initial? || traffic.cakeBps != shaper.rateBps);
      (shaper.rateBps, changed, if changed && reason.Unchanged? then Reconcile else reason)
  }

  function Report(limits: Limits, shaper: Shaper, before: Judged, now: Judged, update: DirectionUpdate,
                  reason: Reason): Output
  {
    var (rate, changed, why) := SetOutput(limits, shaper, update.traffic, reason);
    Output(now.line, now.congestion, why, rate, now.averageDelayUs, now.delayedCount, now.attributed,
           now.ackShareActive,
           update.ceilingBps, now.line != before.line, now.congestion != before.congestion, changed,
           now.attributed != before.attributed, now.ackShareActive != before.ackShareActive)
  }

  /** A valid delay joins the history with the threshold in force. */
  ghost function WithDelay(delays: seq<Delay>, latency: Latency, limits: Limits): seq<Delay>
  {
    if latency.valid then delays + [Delay(latency.owdDeltaUs, limits.thresholdUs)] else delays
  }

  /** What rate adjustment sees of an update: congestion and average over the window its delay has joined. */
  ghost function SeenOf(config: Config, delays: seq<Delay>, update: DirectionUpdate): RateControl.Update
    requires ConfigValid(config)
    requires update.latency.valid ==> I64_MIN <= SumOf(LastOf(delays, config.window)) <= I64_MAX
  {
    RateControl.Update(update.traffic, update.latency.valid,
      update.latency.valid && CountOver(LastOf(delays, config.window)) >= config.threshold,
      update.attributed,
      if update.latency.valid then SignedRoundedDivide(SumOf(LastOf(delays, config.window)), config.window) else 0,
      update.ceilingBps, update.timestampUs)
  }

  /** A direction's rate and what a run has shown of it. */
  datatype RunRecord = RunRecord(
    shaper: Shaper, delays: seq<Delay>, cuts: seq<CutRecord>, increases: seq<u64>, clock: u64, newestSample: u64)

  /** One update of the rate: a delay joins its window, the rate is adjusted, and a cut or an increase recorded. */
  ghost function RunUpdated(run: RunRecord, update: DirectionUpdate, limits: Limits, config: Config): RunRecord
    requires ConfigValid(config) && DelayFits(config, run.delays, update.latency)
  {
    RunAdjusted(run.(delays := WithDelay(run.delays, update.latency, limits)), SeenAfter(run, update, limits, config),
                limits, config)
  }

  /** The rate adjusted to what was seen, the delay it was seen with recorded. */
  ghost function RunAdjusted(run: RunRecord, seen: RateControl.Update, limits: Limits, config: Config): RunRecord
  {
    var over := CountOver(LastOf(run.delays, config.window));
    RunRecord(Adjusted(run.shaper, seen, limits, config), run.delays,
              if IsCut(run.shaper, seen, limits, config) then
                run.cuts + [CutRecord(seen.timestampUs, |run.delays|, over)]
              else run.cuts,
              if IsIncrease(run.shaper, seen, limits, config) then run.increases + [seen.traffic.sampleId]
              else run.increases,
              seen.timestampUs, seen.traffic.sampleId)
  }

  lemma JoinedSumFits(config: Config, delays: seq<Delay>, latency: Latency, limits: Limits)
    requires ConfigValid(config) && DelayFits(config, delays, latency)
    ensures latency.valid ==>
      I64_MIN <= SumOf(LastOf(WithDelay(delays, latency, limits), config.window)) <= I64_MAX
  {
    if latency.valid { SumShifts(delays, config.window, Delay(latency.owdDeltaUs, limits.thresholdUs)); }
  }

  lemma SumShifts(delays: seq<Delay>, window: nat, added: Delay)
    requires window > 0
    ensures var last := LastOf(delays, window);
      SumOf(LastOf(delays + [added], window)) == SumOf(last) - last[0].us + added.us
  {
    var last := LastOf(delays, window);
    Windows.LastShifts(delays, window, NO_DELAY, added);
    SumsAppend(last[1..], added);
    assert last == [last[0]] + last[1..];
  }

  /** Cuts lie more than the refractory period apart with their counts, increases have ids of their own. */
  ghost predicate RunValid(run: RunRecord, config: Config)
  {
    CutsValid(run.shaper, run.cuts, config, run.clock) && CutsCounted(run.cuts, run.delays, config)
    && IncreasesValid(run.shaper, run.increases, run.newestSample)
  }

  ghost predicate CutsValid(shaper: Shaper, cuts: seq<CutRecord>, config: Config, clock: u64)
  {
    && CutsSpread(cuts, config)
    && (cuts != [] ==> !shaper.initialPending && cuts[|cuts| - 1].us <= shaper.lastCongestionUs)
    && (!shaper.initialPending ==> shaper.lastCongestionUs <= clock)
  }

  ghost predicate IncreasesValid(shaper: Shaper, increases: seq<u64>, newest: u64)
  {
    && StrictlyIncreasing(increases)
    && (increases != [] ==> increases[|increases| - 1] <= shaper.lastIncreaseId)
    && shaper.lastIncreaseId <= newest
  }

  /** What an update may assume: time and sample ids that do not go back, a delay that fits, a ceiling CAKE holds. */
  ghost predicate UpdateAllowed(run: RunRecord, update: DirectionUpdate, config: Config)
    requires ConfigValid(config)
  {
    && update.timestampUs >= run.clock && update.traffic.sampleId >= run.newestSample
    && CeilingHoldable(update.ceilingBps) && DelayFits(config, run.delays, update.latency)
  }

  class Direction {
    const config: Config
    const delaySamples: array<int>
    const delayedSamples: array<bool>
    var limits: Limits
    var line: Line
    var congestion: CongestionState
    var delaySumUs: i64
    var averageDelayUs: i64
    var nextSample: nat
    var delayedCount: nat
    var shaper: Shaper
    var attributed: bool
    var ackShareActive: bool
    /** What a run has shown: valid delays, congestion cuts, load increases, and the newest inputs. */
    ghost var delays: seq<Delay>
    ghost var cuts: seq<CutRecord>
    ghost var increases: seq<u64>
    ghost var clock: u64
    ghost var newestSample: u64

    ghost predicate Valid()
      reads `limits, `nextSample, `delaySumUs, `delayedCount, `delays, `shaper, `cuts, `increases, `clock, `newestSample
      reads delaySamples, delayedSamples
    {
      && WindowValid()
      && (limits.adjust ==> LimitsValid(limits) && Held(shaper.rateBps, limits))
      && RunValid(Run(), config)
    }

    ghost function Run(): RunRecord
      reads `shaper, `delays, `cuts, `increases, `clock, `newestSample
    {
      RunRecord(shaper, delays, cuts, increases, clock, newestSample)
    }

    function Shown(): Judged
      reads `line, `congestion, `averageDelayUs, `delayedCount, `attributed, `ackShareActive
    {
      Judged(line.state, congestion, averageDelayUs, delayedCount, attributed, ackShareActive)
    }

    constructor (config: Config, limits: Limits)
      requires ConfigValid(config) && (limits.adjust ==> LimitsValid(limits))
      ensures Valid() && fresh(delaySamples) && fresh(delayedSamples)
      ensures this.config == config && this.limits == limits
      ensures Run() == RunRecord(Shaper(limits.baseBps, 0, 0, 0, limits.adjust), [], [], [], 0, 0)
      ensures Shown() == Judged(Unknown, NotKnown, 0, 0, true, false)
    {
      this.config, this.limits := config, limits;
      delaySamples := new int[config.window](_ => 0);
      delayedSamples := new bool[config.window](_ => false);
      line, congestion := NEW_LINE, NotKnown;
      delaySumUs, averageDelayUs, nextSample, delayedCount := 0, 0, 0, 0;
      shaper := Shaper(limits.baseBps, 0, 0, 0, limits.adjust);
      // blamed until an attribution says otherwise
      attributed, ackShareActive := true, false;
      delays, cuts, increases, clock, newestSample := [], [], [], 0, 0;
      new;
      EmptyHolds(config.window);
      assert delaySamples[..] == seq(config.window, _ => 0);
      assert delayedSamples[..] == seq(config.window, _ => false);
    }

    /** The rings, their running sum and their count stand for the last delays. */
    ghost predicate WindowValid()
      reads `nextSample, `delaySumUs, `delayedCount, `delays, delaySamples, delayedSamples
    {
      && ConfigValid(config)
      && delaySamples.Length == delayedSamples.Length == config.window
      && Holds(delaySamples[..], delayedSamples[..], nextSample, delaySumUs, delayedCount, delays)
    }

    method AddDelay(deltaUs: i64)
      requires WindowValid() && WindowFits(config, delays, deltaUs)
      modifies this`delaySumUs, this`nextSample, this`delayedCount, this`delays, delaySamples, delayedSamples
      ensures WindowValid() && delays == old(delays) + [Delay(deltaUs, limits.thresholdUs)]
    {
      ghost var added := Delay(deltaUs, limits.thresholdUs);
      ghost var samples, delayed := delaySamples[..], delayedSamples[..];
      OldestIsFirst(samples, delayed, nextSample, delaySumUs, delayedCount, delays);
      AddHolds(samples, delayed, nextSample, delaySumUs, delayedCount, delays, added);
      var index := nextSample;
      // the oldest sample leaves the sum as the new one enters it
      delaySumUs := delaySumUs - delaySamples[index];
      delaySumUs := delaySumUs + deltaUs;
      if delayedSamples[index] {
        delayedCount := delayedCount - 1;
      }
      // judged once, by the threshold in force now
      if deltaUs > 0 && deltaUs > limits.thresholdUs {
        delayedCount := delayedCount + 1;
        delayedSamples[index] := true;
      } else {
        delayedSamples[index] := false;
      }
      delaySamples[index] := deltaUs;
      nextSample := index + 1;
      if nextSample == config.window {
        nextSample := 0;
      }
      delays := delays + [added];
      assert delaySamples[..] == samples[index := deltaUs];
      assert delayedSamples[..] == delayed[index := Over(added)];
    }

    /** Adds a valid delay to the rolling window, and says what the window now shows. */
    method UpdateCongestion(latency: Latency)
      requires WindowValid() && DelayFits(config, delays, latency)
      modifies this`delaySumUs, this`averageDelayUs, this`nextSample, this`delayedCount, this`congestion,
               this`delays, delaySamples, delayedSamples
      ensures WindowValid() && delays == WithDelay(old(delays), latency, limits)
      ensures !latency.valid ==> congestion == NotKnown && averageDelayUs == 0
      ensures latency.valid ==>
        var last := LastOf(delays, config.window);
        && I64_MIN <= SumOf(last) <= I64_MAX
        && averageDelayUs == SignedRoundedDivide(SumOf(last), config.window)
        && congestion == if CountOver(last) >= config.threshold then Detected else Clear
    {
      if !latency.valid {
        congestion, averageDelayUs := NotKnown, 0;
        return;
      }
      AddDelay(latency.owdDeltaUs);
      averageDelayUs := SignedRoundedDivide(delaySumUs, config.window);
      congestion := if delayedCount >= config.threshold then Detected else Clear;
    }

    /** The adjusted rate and times, and why. */
    method ComputeAdjustment(seen: RateControl.Update) returns (after: Shaper, reason: Reason)
      ensures after == Adjusted(shaper, seen, limits, config)
      ensures reason == AdjustReason(shaper, seen, limits, config)
    {
      after := shaper;
      if !limits.adjust || !seen.traffic.valid {
        return after, Unchanged;
      }
      if shaper.initialPending {
        after := shaper.(initialPending := false, lastCongestionUs := seen.timestampUs,
                         lastDecayUs := seen.timestampUs);
        return after, Initial;
      }
      if !seen.latencyValid {
        return after, Unchanged;
      }
      var previous := shaper.rateBps;
      var highLoad := IsHighLoad(shaper, seen, config);
      var elapsed := IntervalElapsed(seen.timestampUs, shaper.lastCongestionUs, config.refractoryUs);
      if seen.congested && seen.attributed && elapsed {
        after := Cut(shaper, seen, limits, config);
      } else if !seen.congested && highLoad && seen.traffic.sampleId != shaper.lastIncreaseId && elapsed {
        after := Increased(shaper, seen, limits, config);
      } else if !seen.congested && !highLoad && previous != limits.baseBps
             && IntervalElapsed(seen.timestampUs, shaper.lastDecayUs, config.decayRefractoryUs) {
        after := shaper.(rateBps := TowardBase(previous, limits.baseBps, config), lastDecayUs := seen.timestampUs);
      }
      var capped := after.rateBps > seen.ceilingBps;
      if capped {
        after := after.(rateBps := seen.ceilingBps);
      }
      after := after.(rateBps := Clamp(after.rateBps, limits));
      reason := if after.rateBps == previous then Unchanged
                else if capped then AckShare
                else if seen.congested then Congestion
                else if highLoad then HighLoad
                else ReturnToBase;
    }

    /** Line state and congestion first. */
    method Judge(update: DirectionUpdate) returns (seen: RateControl.Update)
      requires WindowValid() && DelayFits(config, delays, update.latency)
      modifies `line, `delaySumUs, `averageDelayUs, `nextSample, `delayedCount, `congestion,
               `delays, delaySamples, delayedSamples
      ensures WindowValid() && Run() == old(Run()).(delays := WithDelay(old(delays), update.latency, limits))
      ensures seen == SeenAfter(old(Run()), update, limits, config)
      ensures line == LineNext(old(line), update.traffic)
      ensures congestion == CongestionOf(seen) && averageDelayUs == seen.averageDelayUs
    {
      line := LineNext(line, update.traffic);
      UpdateCongestion(update.latency);
      seen := RateControl.Update(update.traffic, update.latency.valid, congestion.Detected?,
        update.attributed, averageDelayUs, update.ceilingBps, update.timestampUs);
    }

    /** Moves the rate to what was seen, and records it. */
    method AdjustRate(seen: RateControl.Update) returns (reason: Reason)
      requires WindowValid() && CeilingHoldable(seen.ceilingBps)
      requires limits.adjust ==> LimitsValid(limits) && Held(shaper.rateBps, limits)
      requires RunValid(RunAdjusted(Run(), seen, limits, config), config)
      modifies `shaper, `cuts, `increases, `clock, `newestSample
      ensures Valid() && Run() == RunAdjusted(old(Run()), seen, limits, config)
      ensures reason == AdjustReason(old(shaper), seen, limits, config)
    {
      if limits.adjust { AdjustmentKeepsHeld(shaper, seen, limits, config); }
      ghost var after := RunAdjusted(Run(), seen, limits, config);
      cuts, increases, clock, newestSample := after.cuts, after.increases, after.clock, after.newestSample;
      shaper, reason := ComputeAdjustment(seen);
    }

    method JudgeAndAdjust(update: DirectionUpdate) returns (reason: Reason)
      requires Valid() && UpdateAllowed(Run(), update, config)
      modifies `line, `delaySumUs, `averageDelayUs, `nextSample, `delayedCount, `congestion, `delays,
               `shaper, `cuts, `increases, `clock, `newestSample, delaySamples, delayedSamples
      ensures Valid() && Run() == RunUpdated(old(Run()), update, limits, config)
      ensures line == LineNext(old(line), update.traffic)
      ensures congestion == CongestionOf(SeenAfter(old(Run()), update, limits, config))
      ensures averageDelayUs == SeenAfter(old(Run()), update, limits, config).averageDelayUs
      ensures reason == ReasonOf(old(Run()), update, limits, config)
    {
      ghost var run := Run();
      UpdateIsAdjustment(run, update, limits, config);
      var seen := Judge(update);
      assert Run() == run.(delays := WithDelay(run.delays, update.latency, limits));
      reason := AdjustRate(seen);
      assert Run() == RunUpdated(run, update, limits, config);
    }

    /** One update: line state, congestion, then the rate, and what changed. */
    method Update(update: DirectionUpdate) returns (output: Output)
      requires Valid() && UpdateAllowed(Run(), update, config)
      modifies `line, `delaySumUs, `averageDelayUs, `nextSample, `delayedCount, `congestion, `delays,
               `shaper, `cuts, `increases, `clock, `newestSample, `attributed, `ackShareActive,
               delaySamples, delayedSamples
      ensures Valid() && Run() == RunUpdated(old(Run()), update, limits, config)
      ensures line == LineNext(old(line), update.traffic)
      ensures Shown() == JudgedAfter(line, old(Run()), update, limits, config)
      ensures output == Reported(old(Shown()), update, ReasonOf(old(Run()), update, limits, config))
    {
      var previous := Shown();
      var reason := JudgeAndAdjust(update);
      attributed := update.attributed;
      ackShareActive := update.ceilingBps != U64_MAX;
      output := Reported(previous, update, reason);
    }

    /** What an update reports of the state it leaves, given what was shown before. */
    function Reported(before: Judged, update: DirectionUpdate, reason: Reason): Output
      reads `limits, `shaper, `line, `congestion, `averageDelayUs, `delayedCount, `attributed, `ackShareActive
    {
      Report(limits, shaper, before, Shown(), update, reason)
    }

    method SetMinimumRate(timestampUs: u64)
      requires Valid() && timestampUs >= clock
      modifies this`shaper, this`clock
      ensures Valid() && clock == timestampUs
      ensures shaper == if limits.adjust then AtMinimum(old(shaper), limits, timestampUs) else old(shaper)
      ensures limits.adjust ==>
        shaper == Shaper(limits.minimumBps, timestampUs, timestampUs, old(shaper.lastIncreaseId), false)
    {
      clock := timestampUs;
      if limits.adjust {
        shaper := AtMinimum(shaper, limits, timestampUs);
      }
    }

    /** Adds to both thresholds what sending one packet costs at the present rate. */
    method Compensate(configured: Limits, wirePacketBits: u64)
      requires Valid()
      modifies this`limits
      ensures Valid()
      ensures var time := SerializationUs(wirePacketBits, shaper.rateBps);
        limits == old(limits).(adjustUpUs := SaturatingAdd(configured.adjustUpUs, time),
                               thresholdUs := SaturatingAdd(configured.thresholdUs, time),
                               adjustDownUs := SaturatingAdd(configured.adjustDownUs, time))
    {
      var time := SerializationUs(wirePacketBits, shaper.rateBps);
      limits := limits.(adjustUpUs := SaturatingAdd(configured.adjustUpUs, time),
                        thresholdUs := SaturatingAdd(configured.thresholdUs, time),
                        adjustDownUs := SaturatingAdd(configured.adjustDownUs, time));
    }
  }

  function CongestionOf(seen: RateControl.Update): CongestionState
  {
    if !seen.latencyValid then NotKnown else if seen.congested then Detected else Clear
  }

  ghost function SeenAfter(run: RunRecord, update: DirectionUpdate, limits: Limits, config: Config): RateControl.Update
    requires ConfigValid(config) && DelayFits(config, run.delays, update.latency)
  {
    JoinedSumFits(config, run.delays, update.latency, limits);
    SeenOf(config, WithDelay(run.delays, update.latency, limits), update)
  }

  ghost function JudgedAfter(line: Line, run: RunRecord, update: DirectionUpdate, limits: Limits, config: Config)
    : Judged
    requires ConfigValid(config) && DelayFits(config, run.delays, update.latency)
  {
    var seen := SeenAfter(run, update, limits, config);
    Judged(line.state, CongestionOf(seen), seen.averageDelayUs,
           CountOver(LastOf(WithDelay(run.delays, update.latency, limits), config.window)),
           update.attributed, update.ceilingBps != U64_MAX)
  }

  ghost function ReasonOf(run: RunRecord, update: DirectionUpdate, limits: Limits, config: Config): Reason
    requires ConfigValid(config) && DelayFits(config, run.delays, update.latency)
  {
    AdjustReason(run.shaper, SeenAfter(run, update, limits, config), limits, config)
  }

  lemma OldestIsFirst(samples: seq<int>, delayed: seq<bool>, next: nat, sum: int, count: int, delays: seq<Delay>)
    requires Holds(samples, delayed, next, sum, count, delays)
    ensures samples[next] == LastOf(delays, |samples|)[0].us
    ensures sum == SumOf(LastOf(delays, |samples|))
  {
    assert Windows.Unrolled(samples, next)[0] == samples[next];
  }

  /** Delays no larger than the 64-bit range over the window always fit. */
  lemma SmallDelaysFit(config: Config, delays: seq<Delay>, us: int)
    requires ConfigValid(config)
    requires EachAtMost(LastOf(delays, config.window), I64_MAX / config.window)
    requires 0 - I64_MAX / config.window <= us <= I64_MAX / config.window
    ensures WindowFits(config, delays, us)
  {
    var last, limit := LastOf(delays, config.window), I64_MAX / config.window;
    assert last == [last[0]] + last[1..];
    assert forall d :: d in last[1..] ==> d in last;
    SumBound(last[1..], limit);
    LimitFits(limit, config.window);
  }

  lemma LimitFits(limit: nat, window: nat)
    requires window > 0 && limit == I64_MAX / window
    ensures limit * (window - 1) + limit <= I64_MAX
  {
    DivisionParts(I64_MAX, window);
    assert limit * (window - 1) == limit * window - limit;
  }

  /** One update keeps cuts apart and counted, and increases distinct. */
  lemma RunKeeps(run: RunRecord, update: DirectionUpdate, limits: Limits, config: Config)
    requires ConfigValid(config) && RunValid(run, config) && UpdateAllowed(run, update, config)
    ensures RunValid(RunUpdated(run, update, limits, config), config)
  {
    var delays := WithDelay(run.delays, update.latency, limits);
    JoinedSumFits(config, run.delays, update.latency, limits);
    CountsStay(run.cuts, run.delays, delays, config);
    AdjustedKeeps(run.(delays := delays), SeenOf(config, delays, update), limits, config);
  }

  /** An update is the adjustment to what it shows once its delay has joined the window. */
  lemma UpdateIsAdjustment(run: RunRecord, update: DirectionUpdate, limits: Limits, config: Config)
    requires ConfigValid(config) && RunValid(run, config) && UpdateAllowed(run, update, config)
    ensures var joined := run.(delays := WithDelay(run.delays, update.latency, limits));
      RunValid(RunAdjusted(joined, SeenAfter(run, update, limits, config), limits, config), config)
      && RunUpdated(run, update, limits, config)
         == RunAdjusted(joined, SeenAfter(run, update, limits, config), limits, config)
  {
    RunKeeps(run, update, limits, config);
  }

  lemma AdjustedKeeps(run: RunRecord, seen: RateControl.Update, limits: Limits, config: Config)
    requires RunValid(run, config)
    requires seen.timestampUs >= run.clock && seen.traffic.sampleId >= run.newestSample
    requires seen.congested ==> CountOver(LastOf(run.delays, config.window)) >= config.threshold
    ensures RunValid(RunAdjusted(run, seen, limits, config), config)
  {
    var over := CountOver(LastOf(run.delays, config.window));
    CutsKeep(run.shaper, run.cuts, seen, limits, config, run.clock, |run.delays|, over);
    IncreasesKeep(run.shaper, run.increases, seen, limits, config, run.newestSample);
    CutIsCounted(run.cuts, CutRecord(seen.timestampUs, |run.delays|, over), run.delays, config);
  }

  lemma CutIsCounted(cuts: seq<CutRecord>, cut: CutRecord, delays: seq<Delay>, config: Config)
    requires CutsCounted(cuts, delays, config)
    requires cut.arrived == |delays| && cut.over == CountOver(LastOf(delays, config.window))
    ensures cut.over >= config.threshold ==> CutsCounted(cuts + [cut], delays, config)
  {
    assert delays[..|delays|] == delays;
  }

  lemma CountsStay(cuts: seq<CutRecord>, before: seq<Delay>, after: seq<Delay>, config: Config)
    requires CutsCounted(cuts, before, config) && before <= after
    ensures CutsCounted(cuts, after, config)
  {
    forall i | 0 <= i < |cuts|
      ensures CutCounted(cuts[i], after, config)
    {
      assert CutCounted(cuts[i], before, config);
      assert before[..cuts[i].arrived] == after[..cuts[i].arrived];
    }
  }

  lemma CutsKeep(shaper: Shaper, cuts: seq<CutRecord>, seen: RateControl.Update, limits: Limits, config: Config,
                 clock: u64, arrived: nat, over: nat)
    requires CutsValid(shaper, cuts, config, clock) && seen.timestampUs >= clock
    ensures CutsValid(Adjusted(shaper, seen, limits, config),
                      if IsCut(shaper, seen, limits, config) then
                        cuts + [CutRecord(seen.timestampUs, arrived, over)]
                      else cuts,
                      config, seen.timestampUs)
  {
    if IsCut(shaper, seen, limits, config) {
      CutStaysApart(cuts, CutRecord(seen.timestampUs, arrived, over), shaper.lastCongestionUs, config);
    }
  }

  lemma IncreasesKeep(shaper: Shaper, increases: seq<u64>, seen: RateControl.Update, limits: Limits, config: Config,
                      newest: u64)
    requires IncreasesValid(shaper, increases, newest) && seen.traffic.sampleId >= newest
    ensures IncreasesValid(Adjusted(shaper, seen, limits, config),
                           if IsIncrease(shaper, seen, limits, config) then
                             increases + [seen.traffic.sampleId]
                           else increases,
                           seen.traffic.sampleId)
  {
    if IsIncrease(shaper, seen, limits, config) {
      IncreaseStaysDistinct(increases, seen.traffic.sampleId);
    }
  }

  lemma CutStaysApart(cuts: seq<CutRecord>, cut: CutRecord, lastUs: u64, config: Config)
    requires CutsSpread(cuts, config)
    requires cuts != [] ==> cuts[|cuts| - 1].us <= lastUs && cut.us - lastUs > config.refractoryUs
    ensures CutsSpread(cuts + [cut], config)
  {
    forall i | 0 <= i < |cuts|
      ensures cut.us - cuts[i].us > config.refractoryUs
    {
      assert i < |cuts| - 1 ==> cuts[|cuts| - 1].us - cuts[i].us > config.refractoryUs;
    }
  }

  lemma IncreaseStaysDistinct(increases: seq<u64>, id: u64)
    requires StrictlyIncreasing(increases) && (increases != [] ==> increases[|increases| - 1] < id)
    ensures StrictlyIncreasing(increases + [id])
  {
    forall i | 0 <= i < |increases|
      ensures increases[i] < id
    {
      assert i < |increases| - 1 ==> increases[i] < increases[|increases| - 1];
    }
  }

  // ----- whole runs of one direction

  /** An update under the limits in force, or the fall to the minimum rate when the link goes idle or stalls. */
  datatype RunStep = Adjust(update: DirectionUpdate, limits: Limits) | ToMinimum(timestampUs: u64)

  /** The thresholds of a step may be compensated; its rates are the configured ones. */
  ghost predicate StepAllowed(run: RunRecord, step: RunStep, limits: Limits, config: Config)
    requires ConfigValid(config)
  {
    match step
    case Adjust(update, used) =>
      && used == limits.(adjustUpUs := used.adjustUpUs, thresholdUs := used.thresholdUs,
                         adjustDownUs := used.adjustDownUs)
      && UpdateAllowed(run, update, config)
    case ToMinimum(us) => us >= run.clock
  }

  ghost function RunStepped(run: RunRecord, step: RunStep, limits: Limits, config: Config): RunRecord
    requires ConfigValid(config) && StepAllowed(run, step, limits, config)
  {
    match step
    case Adjust(update, used) => RunUpdated(run, update, used, config)
    case ToMinimum(us) => run.(shaper := AtMinimum(run.shaper, limits, us), clock := us)
  }

  ghost predicate RunAllowed(run: RunRecord, steps: seq<RunStep>, limits: Limits, config: Config)
    requires ConfigValid(config)
    decreases |steps|
  {
    steps == [] ||
    (&& StepAllowed(run, steps[0], limits, config)
     && RunAllowed(RunStepped(run, steps[0], limits, config), steps[1..], limits, config))
  }

  ghost function RunAfter(run: RunRecord, steps: seq<RunStep>, limits: Limits, config: Config): RunRecord
    requires ConfigValid(config) && RunAllowed(run, steps, limits, config)
    decreases |steps|
  {
    if steps == [] then run else RunAfter(RunStepped(run, steps[0], limits, config), steps[1..], limits, config)
  }

  lemma StepKeeps(run: RunRecord, step: RunStep, limits: Limits, config: Config)
    requires ConfigValid(config) && limits.adjust && LimitsValid(limits)
    requires RunValid(run, config) && Held(run.shaper.rateBps, limits) && StepAllowed(run, step, limits, config)
    ensures RunValid(RunStepped(run, step, limits, config), config)
    ensures Held(RunStepped(run, step, limits, config).shaper.rateBps, limits)
    ensures run.delays <= RunStepped(run, step, limits, config).delays
  {
    if step.Adjust? {
      var delays := WithDelay(run.delays, step.update.latency, step.limits);
      JoinedSumFits(config, run.delays, step.update.latency, step.limits);
      AdjustmentKeepsHeld(run.shaper, SeenOf(config, delays, step.update), step.limits, config);
      RunKeeps(run, step.update, step.limits, config);
    }
  }

  /**
   Over every run of an adjusted direction the rate is a multiple of eight within its
   limits; cuts lie more than the refractory period apart, and each was made when at
   least the threshold number of the last window's valid delays exceeded the threshold in
   force as they arrived; and no traffic sample brings two increases.
   */
  lemma {:induction false} EveryRunKeeps(run: RunRecord, steps: seq<RunStep>, limits: Limits, config: Config)
    requires ConfigValid(config) && limits.adjust && LimitsValid(limits)
    requires RunValid(run, config) && Held(run.shaper.rateBps, limits) && RunAllowed(run, steps, limits, config)
    ensures var after := RunAfter(run, steps, limits, config);
      && Held(after.shaper.rateBps, limits) && CutsSpread(after.cuts, config)
      && CutsCounted(after.cuts, after.delays, config) && StrictlyIncreasing(after.increases)
      && run.delays <= after.delays
    decreases |steps|
  {
    if steps == [] {
    } else {
      StepKeeps(run, steps[0], limits, config);
      EveryRunKeeps(RunStepped(run, steps[0], limits, config), steps[1..], limits, config);
    }
  }

  // ----- both directions

  datatype Input = Input(
    download: Traffic, upload: Traffic, downloadLatency: Latency, uploadLatency: Latency,
    queue: Queue, acks: Acks, timestampUs: u64)

  /** What each direction is updated with: attribution, its share of the delay, and its ceiling. */
  function Planned(config: Config, input: Input, downloadBps: u64, uploadBps: u64)
    : (r: (DirectionUpdate, DirectionUpdate))
    requires Representable(config, input.queue, input.downloadLatency, input.uploadLatency)
  {
    var delivery := DeliveryE6(downloadBps, input.download);
    var (downloadDelay, uploadDelay) := Delays(config, input.queue, input.downloadLatency, input.uploadLatency);
    (DirectionUpdate(input.download, downloadDelay, DownloadAttributed(config, delivery, input.queue),
                     DownloadCeilingBps(config, uploadBps, input.acks, input.download, input.upload),
                     input.timestampUs),
     DirectionUpdate(input.upload, uploadDelay, UploadAttributed(config, delivery, input.queue),
                     U64_MAX, input.timestampUs))
  }

  /** Every plan blames somebody, loses no delay, and gives each direction a ceiling CAKE can hold. */
  lemma PlanIsSound(config: Config, input: Input, downloadBps: u64, uploadBps: u64)
    requires Representable(config, input.queue, input.downloadLatency, input.uploadLatency)
    ensures var (down, up) := Planned(config, input, downloadBps, uploadBps);
      && (down.attributed || up.attributed)
      && down.latency.owdDeltaUs + up.latency.owdDeltaUs
         == input.downloadLatency.owdDeltaUs + input.uploadLatency.owdDeltaUs
      && CeilingHoldable(down.ceilingBps) && CeilingHoldable(up.ceilingBps)
  {
    SomeDirectionIsBlamed(config, DeliveryE6(downloadBps, input.download), input.queue);
    CeilingIsHoldable(config, uploadBps, input.acks, input.download, input.upload);
  }

  class Controller {
    const config: Config
    const download: Direction
    const upload: Direction

    /** Two directions that share nothing they change. */
    static ghost predicate Apart(one: Direction, other: Direction)
    {
      one != other && one.delaySamples != other.delaySamples && one.delayedSamples != other.delayedSamples
    }

    ghost predicate Valid()
      reads download, upload, download.delaySamples, download.delayedSamples, upload.delaySamples, upload.delayedSamples
    {
      && Apart(download, upload) && download.config == config && upload.config == config
      && download.Valid() && upload.Valid()
    }

    constructor (config: Config, downloadLimits: Limits, uploadLimits: Limits)
      requires ConfigValid(config)
      requires downloadLimits.adjust ==> LimitsValid(downloadLimits)
      requires uploadLimits.adjust ==> LimitsValid(uploadLimits)
      ensures Valid() && fresh(download) && fresh(upload)
    {
      this.config := config;
      download := new Direction(config, downloadLimits);
      upload := new Direction(config, uploadLimits);
    }

    /** Time and samples that do not go back, and sums that fit: the delay's split, and each direction's window. */
    ghost predicate Allowed(input: Input)
      requires ConfigValid(config)
      reads download, upload
    {
      && Representable(config, input.queue, input.downloadLatency, input.uploadLatency)
      && input.timestampUs >= download.clock && input.timestampUs >= upload.clock
      && input.download.sampleId >= download.newestSample && input.upload.sampleId >= upload.newestSample
      && var (down, up) := Planned(config, input, download.shaper.rateBps, upload.shaper.rateBps);
         DelayFits(config, download.delays, down.latency) && DelayFits(config, upload.delays, up.latency)
    }

    /** Attribution first, from the rates before the update; then each direction. */
    method Update(input: Input) returns (downloadOutput: Output, uploadOutput: Output)
      requires Valid() && Allowed(input)
      modifies download, upload
      modifies download.delaySamples, download.delayedSamples, upload.delaySamples, upload.delayedSamples
      ensures Valid() && (download.attributed || upload.attributed)
      ensures download.limits == old(download.limits) && upload.limits == old(upload.limits)
      ensures var (down, up) := Planned(config, input, old(download.shaper.rateBps), old(upload.shaper.rateBps));
        && download.Run() == RunUpdated(old(download.Run()), down, download.limits, config)
        && upload.Run() == RunUpdated(old(upload.Run()), up, upload.limits, config)
        && download.line == LineNext(old(download.line), input.download)
        && upload.line == LineNext(old(upload.line), input.upload)
        && download.Shown() == JudgedAfter(download.line, old(download.Run()), down, download.limits, config)
        && upload.Shown() == JudgedAfter(upload.line, old(upload.Run()), up, upload.limits, config)
        && downloadOutput == download.Reported(old(download.Shown()), down,
                                               ReasonOf(old(download.Run()), down, download.limits, config))
        && uploadOutput == upload.Reported(old(upload.Shown()), up,
                                           ReasonOf(old(upload.Run()), up, upload.limits, config))
    {
      PlanIsSound(config, input, download.shaper.rateBps, upload.shaper.rateBps);
      var (down, up) := Planned(config, input, download.shaper.rateBps, upload.shaper.rateBps);
      downloadOutput := UpdateOne(download, upload, down);
      uploadOutput := UpdateOne(upload, download, up);
    }

    /** One direction is updated; the other stays as it is. */
    method UpdateOne(direction: Direction, other: Direction, update: DirectionUpdate) returns (output: Output)
      requires Apart(direction, other) && direction.config == config && direction.Valid() && other.Valid()
      requires UpdateAllowed(direction.Run(), update, config)
      modifies direction`line, direction`delaySumUs, direction`averageDelayUs, direction`nextSample,
               direction`delayedCount,
               direction`congestion, direction`delays, direction`shaper, direction`cuts, direction`increases,
               direction`clock, direction`newestSample, direction`attributed, direction`ackShareActive,
               direction.delaySamples, direction.delayedSamples
      ensures direction.Valid() && other.Valid()
      ensures direction.attributed == update.attributed
      ensures direction.Run() == RunUpdated(old(direction.Run()), update, direction.limits, config)
      ensures direction.line == LineNext(old(direction.line), update.traffic)
      ensures direction.Shown() == JudgedAfter(direction.line, old(direction.Run()), update, direction.limits, config)
      ensures output == direction.Reported(old(direction.Shown()), update,
                                           ReasonOf(old(direction.Run()), update, direction.limits, config))
    {
      output := direction.Update(update);
    }

    method SetMinimumRates(timestampUs: u64)
      requires Valid() && timestampUs >= download.clock && timestampUs >= upload.clock
      modifies download`shaper, download`clock, upload`shaper, upload`clock
      ensures Valid()
      ensures download.clock == timestampUs && upload.clock == timestampUs
      ensures download.shaper == if download.limits.adjust
        then AtMinimum(old(download.shaper), download.limits, timestampUs) else old(download.shaper)
      ensures upload.shaper == if upload.limits.adjust
        then AtMinimum(old(upload.shaper), upload.limits, timestampUs) else old(upload.shaper)
      ensures download.limits.adjust ==> download.shaper.rateBps == download.limits.minimumBps
      ensures upload.limits.adjust ==> upload.shaper.rateBps == upload.limits.minimumBps
    {
      download.SetMinimumRate(timestampUs);
      upload.SetMinimumRate(timestampUs);
    }
  }
}
