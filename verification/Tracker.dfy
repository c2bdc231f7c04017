/** Delay baselines and averaged deltas of one reflector, kept in whole microseconds. */
module Tracker {
  import opened Arith
  import opened Wrappers

  const INITIAL_BASELINE_US: i64 := 100_000
  const ROLLOVER_DELTA_US: u64 := 3_000_000_000
  const DIRECTIONS: nat := 2
  const DOWNLOAD: nat := 0
  const UPLOAD: nat := 1
  const HALF_E6: int := 500_000

  /** How much a new sample counts, per million; at most all. */
  datatype Weights = Weights(increase: u64, decrease: u64, ewma: u64)
  {
    predicate Valid() { increase <= RATIO_ONE_E6 && decrease <= RATIO_ONE_E6 && ewma <= RATIO_ONE_E6 }
  }

  datatype State = State(baseline: i64, ewma: i64)

  const INITIAL := State(INITIAL_BASELINE_US, 0)

  datatype Sample = Sample(delays: seq<i64>, rolloverSensitive: bool)
  {
    predicate Valid() { |delays| == DIRECTIONS }
  }

  datatype Observation = Observation(delay: i64, baseline: i64, delta: i64, ewma: i64)

  predicate Fits(x: int) { I64_MIN <= x <= I64_MAX }

  /** The weighted average, nearest and ties away from zero, unless a product or the sum overflows. */
  function Average(alpha: u64, value: i64, average: i64): Option<i64>
    requires alpha <= RATIO_ONE_E6
  {
    var weighted := alpha * value + (RATIO_ONE_E6 - alpha) * average;
    if Fits(alpha * value) && Fits((RATIO_ONE_E6 - alpha) * average) && Fits(weighted)
    then Some(SignedRoundedDivide(weighted, RATIO_ONE_E6)) else None
  }

  /** Averaging starts over at the value when its sum would not fit. */
  function Averaged(alpha: u64, value: i64, average: i64): i64
    requires alpha <= RATIO_ONE_E6
  {
    match Average(alpha, value, average)
    case Some(r) => r
    case None => value
  }

  function WeightFor(w: Weights, baseline: i64, value: i64): (r: u64)
    requires w.Valid()
    ensures r <= RATIO_ONE_E6
  {
    if value >= baseline then w.increase else w.decrease
  }

  function NextBaseline(w: Weights, baseline: i64, value: i64): i64
    requires w.Valid()
  {
    Averaged(WeightFor(w, baseline, value), value, baseline)
  }

  predicate RolledOver(states: seq<State>, sample: Sample)
    requires |states| == DIRECTIONS && sample.Valid()
  {
    sample.rolloverSensitive
    && AbsoluteDifference(sample.delays[DOWNLOAD], states[DOWNLOAD].baseline)
       + AbsoluteDifference(sample.delays[UPLOAD], states[UPLOAD].baseline) >= ROLLOVER_DELTA_US
  }

  function NextState(w: Weights, state: State, value: i64, rollover: bool): State
    requires w.Valid()
  {
    state.(baseline := if rollover then value else NextBaseline(w, state.baseline, value))
  }

  function DeltaOf(w: Weights, state: State, value: i64, rollover: bool): i64
    requires w.Valid()
  {
    if rollover then 0 else SignedDifference(value, NextBaseline(w, state.baseline, value))
  }

  /** One reflector's two directions. */
  class LatencyTracker {
    const weights: Weights
    var states: seq<State>

    ghost predicate Valid()
      reads this`states
    {
      weights.Valid() && |states| == DIRECTIONS
    }

    constructor (weights: Weights)
      requires weights.Valid()
      ensures Valid() && this.weights == weights && states == [INITIAL, INITIAL]
    {
      this.weights := weights;
      states := [INITIAL, INITIAL];
    }

    method Reset()
      requires Valid()
      modifies this
      ensures Valid() && states == [INITIAL, INITIAL]
    {
      var direction := 0;
      while direction < DIRECTIONS
        invariant direction <= DIRECTIONS && |states| == DIRECTIONS
        invariant forall d :: 0 <= d < direction ==> states[d] == INITIAL
      {
        states := states[direction := INITIAL];
        direction := direction + 1;
      }
    }

    /** The two differences add up to the limit or more, compared without an overflow. */
    method SampleRolledOver(sample: Sample) returns (r: bool)
      requires Valid() && sample.Valid()
      ensures r == RolledOver(states, sample)
    {
      if !sample.rolloverSensitive {
        return false;
      }
      var download := AbsoluteDifference(sample.delays[DOWNLOAD], states[DOWNLOAD].baseline);
      var upload := AbsoluteDifference(sample.delays[UPLOAD], states[UPLOAD].baseline);
      if download >= ROLLOVER_DELTA_US {
        return true;
      }
      var left: u64 := ROLLOVER_DELTA_US - download;
      r := upload >= left;
    }

    method Update(sample: Sample) returns (observations: seq<Observation>)
      requires Valid() && sample.Valid()
      modifies this
      ensures Valid() && |observations| == DIRECTIONS
      ensures forall d :: 0 <= d < DIRECTIONS ==>
        var rollover := RolledOver(old(states), sample);
        && states[d] == NextState(weights, old(states)[d], sample.delays[d], rollover)
        && observations[d] == Observation(sample.delays[d], states[d].baseline,
                                          DeltaOf(weights, old(states)[d], sample.delays[d], rollover),
                                          states[d].ewma)
    {
      var rollover := SampleRolledOver(sample);
      observations := [];
      for direction := 0 to DIRECTIONS
        invariant |states| == DIRECTIONS && |observations| == direction
        invariant forall d :: direction <= d < DIRECTIONS ==> states[d] == old(states)[d]
        invariant forall d :: 0 <= d < direction ==>
          && states[d] == NextState(weights, old(states)[d], sample.delays[d], rollover)
          && observations[d] == Observation(sample.delays[d], states[d].baseline,
                                            DeltaOf(weights, old(states)[d], sample.delays[d], rollover),
                                            states[d].ewma)
      {
        var state, delay := states[direction], sample.delays[direction];
        var delta: i64 := 0;
        if rollover {
          states := states[direction := state.(baseline := delay)];
        } else {
          states := states[direction := state.(baseline := NextBaseline(weights, state.baseline, delay))];
          delta := SignedDifference(delay, states[direction].baseline);
        }
        observations := observations + [Observation(delay, states[direction].baseline, delta, state.ewma)];
      }
    }

    /** Averages the deltas, unless a link is busy. */
    method UpdateEwma(lowLoad: bool, observations: seq<Observation>) returns (updated: seq<Observation>)
      requires Valid() && |observations| == DIRECTIONS
      modifies this
      ensures Valid() && |updated| == DIRECTIONS
      ensures forall d :: 0 <= d < DIRECTIONS ==>
        && states[d].baseline == old(states)[d].baseline
        && states[d].ewma == (if lowLoad then Averaged(weights.ewma, observations[d].delta, old(states)[d].ewma)
                              else old(states)[d].ewma)
        && updated[d] == observations[d].(ewma := states[d].ewma)
    {
      updated := [];
      for direction := 0 to DIRECTIONS
        invariant |states| == DIRECTIONS && |updated| == direction
        invariant forall d :: direction <= d < DIRECTIONS ==> states[d] == old(states)[d]
        invariant forall d :: 0 <= d < direction ==>
          && states[d].baseline == old(states)[d].baseline
          && states[d].ewma == (if lowLoad then Averaged(weights.ewma, observations[d].delta, old(states)[d].ewma)
                                else old(states)[d].ewma)
          && updated[d] == observations[d].(ewma := states[d].ewma)
      {
        var state := states[direction];
        if lowLoad {
          var ewma := Averaged(weights.ewma, observations[direction].delta, state.ewma);
          states := states[direction := state.(ewma := ewma)];
        }
        updated := updated + [observations[direction].(ewma := states[direction].ewma)];
      }
    }
  }

  // ----- one average

  /** The weighted sum is the average moved by the weight of the difference. */
  lemma WeightedSum(alpha: u64, value: i64, average: i64)
    ensures alpha * value + (RATIO_ONE_E6 - alpha) * average == average * RATIO_ONE_E6 + alpha * (value - average)
  {}

  lemma MixStaysBetween(alpha: u64, value: int, average: int, low: int, high: int)
    requires alpha <= RATIO_ONE_E6 && low <= value <= high && low <= average <= high
    ensures low * RATIO_ONE_E6 <= alpha * value + (RATIO_ONE_E6 - alpha) * average <= high * RATIO_ONE_E6
  {
    var rest := RATIO_ONE_E6 - alpha;
    MulMonotone(low, value, alpha);
    MulMonotone(value, high, alpha);
    MulMonotone(low, average, rest);
    MulMonotone(average, high, rest);
    assert low * alpha + low * rest == low * RATIO_ONE_E6;
    assert high * alpha + high * rest == high * RATIO_ONE_E6;
  }

  /** An average never leaves an interval that holds the value and the average before. */
  lemma AverageStaysBetween(alpha: u64, value: i64, average: i64, low: int, high: int)
    requires alpha <= RATIO_ONE_E6 && low <= value <= high && low <= average <= high
    ensures low <= Averaged(alpha, value, average) <= high
  {
    if Average(alpha, value, average).Some? {
      MixStaysBetween(alpha, value, average, low, high);
      RoundingStaysBetween(alpha * value + (RATIO_ONE_E6 - alpha) * average, RATIO_ONE_E6, low, high);
    }
  }

  /** Rounding a whole number of millionths back: it stays put for less than half, and for half toward zero. */
  lemma RoundsBack(whole: int, extra: int)
    requires Fits(whole * RATIO_ONE_E6 + extra)
    ensures SignedRoundedDivide(whole * RATIO_ONE_E6 + extra, RATIO_ONE_E6) == whole
       <==> Abs(extra) < HALF_E6 || (extra == HALF_E6 && whole < 0) || (extra == -HALF_E6 && whole > 0)
  {
    SignedRoundedDivideNearest(whole * RATIO_ONE_E6 + extra, RATIO_ONE_E6);
  }

  /** A representable average keeps its value exactly when the weighted distance is below half, or half toward zero. */
  lemma AverageStaysIff(alpha: u64, value: i64, average: i64)
    requires alpha <= RATIO_ONE_E6 && Average(alpha, value, average).Some?
    ensures var pull := alpha * (value - average);
      (Averaged(alpha, value, average) == average) ==
      (Abs(pull) < HALF_E6 || (pull == HALF_E6 && average < 0) || (pull == -HALF_E6 && average > 0))
  {
    WeightedSum(alpha, value, average);
    RoundsBack(average, alpha * (value - average));
  }

  // ----- one step of a baseline

  function Distance(value: i64, baseline: i64): int { Abs(value - baseline) }

  /** A delta has the sign of the sample's difference from the baseline before it, or is zero. */
  lemma DeltaKeepsSign(w: Weights, state: State, value: i64, rollover: bool)
    requires w.Valid()
    ensures value >= state.baseline ==> DeltaOf(w, state, value, rollover) >= 0
    ensures value <= state.baseline ==> DeltaOf(w, state, value, rollover) <= 0
  {
    var low, high := Min(value, state.baseline), Max(value, state.baseline);
    AverageStaysBetween(WeightFor(w, state.baseline, value), value, state.baseline, low, high);
    SignedDifferenceClamps(value, NextBaseline(w, state.baseline, value));
  }

  lemma PullSize(alpha: u64, value: int, baseline: int)
    ensures Abs(alpha * (value - baseline)) == alpha * Abs(value - baseline)
  {
    if value < baseline {
      assert alpha * (value - baseline) == -(alpha * (baseline - value));
      MulNonNegative(alpha, baseline - value);
    }
    else { MulNonNegative(alpha, value - baseline); }
  }

  /** A baseline never moves away from the sample or past it, and gets closer when pulled over half a microsecond. */
  lemma BaselineComesCloser(w: Weights, baseline: i64, value: i64)
    requires w.Valid()
    ensures var next := NextBaseline(w, baseline, value);
      && Distance(value, next) <= Distance(value, baseline)
      && (value >= baseline ==> next <= value)
      && (value <= baseline ==> next >= value)
      && (WeightFor(w, baseline, value) * Distance(value, baseline) > HALF_E6 ==>
            Distance(value, next) < Distance(value, baseline))
  {
    var alpha := WeightFor(w, baseline, value);
    AverageStaysBetween(alpha, value, baseline, Min(value, baseline), Max(value, baseline));
    PullSize(alpha, value, baseline);
    if Average(alpha, value, baseline).Some? {
      AverageStaysIff(alpha, value, baseline);
    } else if value == baseline {
      assert alpha * Distance(value, baseline) == 0;
    }
  }

  // ----- a constant sample

  function AfterConstant(w: Weights, baseline: i64, value: i64, steps: nat): i64
    requires w.Valid()
    decreases steps
  {
    if steps == 0 then baseline else AfterConstant(w, NextBaseline(w, baseline, value), value, steps - 1)
  }

  /**
   Under a constant sample the baseline ends, within as many samples as it was
   microseconds away, no further than half a million over the weight, and stays there.
   */
  lemma {:induction false} ConstantSampleSettles(w: Weights, baseline: i64, value: i64, alpha: u64, steps: nat)
    requires w.Valid() && (value != baseline ==> alpha == WeightFor(w, baseline, value))
    requires alpha * Distance(value, baseline) <= HALF_E6 || steps >= Distance(value, baseline)
    ensures alpha * Distance(value, AfterConstant(w, baseline, value, steps)) <= HALF_E6
    decreases steps
  {
    var distance := Distance(value, baseline);
    if steps > 0 {
      var next := NextBaseline(w, baseline, value);
      BaselineComesCloser(w, baseline, value);
      NoLargerPull(alpha, Distance(value, next), distance);
      ConstantSampleSettles(w, next, value, alpha, steps - 1);
    } else {
      NoLargerPull(alpha, distance, 0);
    }
  }

  lemma NoLargerPull(alpha: nat, distance: nat, before: nat)
    ensures distance <= before ==> alpha * distance <= alpha * before
    ensures distance <= 0 ==> alpha * distance == 0
  {
    if distance <= before { MulMonotone(distance, before, alpha); }
  }

  // ----- whole runs

  datatype Event = Restart | Reply(sample: Sample, lowLoad: bool)

  function EwmaOf(w: Weights, state: State, delta: i64, lowLoad: bool): i64
    requires w.Valid()
  {
    if lowLoad then Averaged(w.ewma, delta, state.ewma) else state.ewma
  }

  function NextStates(w: Weights, states: seq<State>, event: Event): (r: seq<State>)
    requires w.Valid() && |states| == DIRECTIONS && (event.Reply? ==> event.sample.Valid())
    ensures |r| == DIRECTIONS
  {
    match event
    case Restart => [INITIAL, INITIAL]
    case Reply(sample, lowLoad) =>
      var rollover := RolledOver(states, sample);
      seq(DIRECTIONS, d requires 0 <= d < DIRECTIONS =>
        NextState(w, states[d], sample.delays[d], rollover).(
          ewma := EwmaOf(w, states[d], DeltaOf(w, states[d], sample.delays[d], rollover), lowLoad)))
  }

  /** A value mixed into an average by its weight per million, to the nearest; it replaces one it cannot be added to. */
  ghost predicate Mixed(weight: u64, value: i64, average: i64, next: i64)
  {
    if Fits(weight * value) && Fits((RATIO_ONE_E6 - weight) * average)
       && Fits(weight * value + (RATIO_ONE_E6 - weight) * average)
    then Abs(RATIO_ONE_E6 * (next - average) - weight * (value - average)) <= HALF_E6
    else next == value
  }

  lemma AveragedMixes(alpha: u64, value: i64, average: i64)
    requires alpha <= RATIO_ONE_E6
    ensures Mixed(alpha, value, average, Averaged(alpha, value, average))
  {
    WeightedSum(alpha, value, average);
    var weighted := alpha * value + (RATIO_ONE_E6 - alpha) * average;
    if Average(alpha, value, average).Some? { SignedRoundedDivideNearest(weighted, RATIO_ONE_E6); }
  }

  /** Delays so far from both baselines together that a clock has rolled over. */
  predicate Far(states: seq<State>, sample: Sample)
    requires |states| == DIRECTIONS && sample.Valid()
  {
    && sample.rolloverSensitive
    && Abs(sample.delays[0] - states[0].baseline) + Abs(sample.delays[1] - states[1].baseline) >= 3_000_000_000
  }

  /**
   Each baseline takes a delay at or above it by the increase weight and one below it by the
   decrease weight, unless the delays rolled over, which restarts both; the delta is from the
   baseline after that, and is averaged while both links have little load.
   */
  lemma ReplySteps(w: Weights, states: seq<State>, sample: Sample, lowLoad: bool, d: nat)
    requires w.Valid() && |states| == DIRECTIONS && sample.Valid() && d < DIRECTIONS
    ensures var state, value, next :=
        states[d], sample.delays[d], NextStates(w, states, Reply(sample, lowLoad))[d];
      var delta := if Far(states, sample) then 0 else Max(I64_MIN, Min(I64_MAX, value - next.baseline));
      && DeltaOf(w, state, value, RolledOver(states, sample)) == delta
      && (Far(states, sample) ==> next.baseline == value)
      && (!Far(states, sample) && value >= state.baseline ==>
            Mixed(w.increase, value, state.baseline, next.baseline))
      && (!Far(states, sample) && value < state.baseline ==>
            Mixed(w.decrease, value, state.baseline, next.baseline))
      && (lowLoad ==> Mixed(w.ewma, delta, state.ewma, next.ewma))
      && (!lowLoad ==> next.ewma == state.ewma)
  {
    var state, value, rollover := states[d], sample.delays[d], RolledOver(states, sample);
    AveragedMixes(WeightFor(w, state.baseline, value), value, state.baseline);
    SignedDifferenceClamps(value, NextBaseline(w, state.baseline, value));
    AveragedMixes(w.ewma, DeltaOf(w, state, value, rollover), state.ewma);
  }

  /** A reply recorded by the tracker is one step of the run. */
  method Record(tracker: LatencyTracker, sample: Sample, lowLoad: bool) returns (observations: seq<Observation>)
    requires tracker.Valid() && sample.Valid()
    modifies tracker
    ensures tracker.Valid()
    ensures tracker.states == NextStates(tracker.weights, old(tracker.states), Reply(sample, lowLoad))
  {
    observations := tracker.Update(sample);
    observations := tracker.UpdateEwma(lowLoad, observations);
  }

  ghost predicate SamplesWithin(events: seq<Event>, low: int, high: int)
  {
    forall i :: 0 <= i < |events| && events[i].Reply? ==> SampleWithin(events[i].sample, low, high)
  }

  ghost predicate SampleWithin(sample: Sample, low: int, high: int)
  {
    sample.Valid() && forall d :: 0 <= d < DIRECTIONS ==> low <= sample.delays[d] <= high
  }

  ghost predicate Within(state: State, low: int, high: int)
  {
    low <= state.baseline <= high && low - high <= state.ewma <= high - low
  }

  function RunStates(w: Weights, events: seq<Event>): (r: seq<State>)
    requires w.Valid() && forall i :: 0 <= i < |events| && events[i].Reply? ==> events[i].sample.Valid()
    ensures |r| == DIRECTIONS
  {
    if events == [] then [INITIAL, INITIAL]
    else NextStates(w, RunStates(w, events[..|events| - 1]), events[|events| - 1])
  }

  lemma StepStaysWithin(w: Weights, state: State, value: i64, rollover: bool, lowLoad: bool, low: int, high: int)
    requires w.Valid() && Within(state, low, high) && low <= value <= high
    ensures var ewma := EwmaOf(w, state, DeltaOf(w, state, value, rollover), lowLoad);
      Within(NextState(w, state, value, rollover).(ewma := ewma), low, high)
  {
    AverageStaysBetween(WeightFor(w, state.baseline, value), value, state.baseline, low, high);
    SignedDifferenceClamps(value, NextBaseline(w, state.baseline, value));
    var delta := DeltaOf(w, state, value, rollover);
    AverageStaysBetween(w.ewma, delta, state.ewma, low - high, high - low);
  }

  /**
   Over every run, resets and roll-overs included, baselines stay within the hull
   of the initial baseline and the samples, and averaged deltas within its width.
   */
  lemma {:induction false} RunStaysWithin(w: Weights, events: seq<Event>, low: int, high: int)
    requires w.Valid() && SamplesWithin(events, low, high) && low <= INITIAL_BASELINE_US <= high
    ensures forall d :: 0 <= d < DIRECTIONS ==> Within(RunStates(w, events)[d], low, high)
  {
    if events == [] {
    } else {
      var before, event := events[..|events| - 1], events[|events| - 1];
      assert SamplesWithin(before, low, high);
      RunStaysWithin(w, before, low, high);
      if event.Reply? {
        var states := RunStates(w, before);
        forall d | 0 <= d < DIRECTIONS
          ensures Within(NextStates(w, states, event)[d], low, high)
        {
          StepStaysWithin(w, states[d], event.sample.delays[d], RolledOver(states, event.sample), event.lowLoad,
                          low, high);
        }
      }
    }
  }
}
