/** The rolling delay window and the line state's hysteresis. */
module Congestion {
  import opened Arith
  import opened RateControl
  import Windows

  const SATURATION_ENTER_RATIO_E6: int := 900_000
  const SATURATION_EXIT_RATIO_E6: int := 800_000
  const CONFIRMATION_SAMPLES: nat := 3

  // ----- the line state

  datatype LineState = Unknown | BelowCapacity | Saturated

  datatype Line = Line(state: LineState, saturation: nat, recovery: nat)

  const NEW_LINE := Line(Unknown, 0, 0)

  predicate Measurable(traffic: Traffic) { traffic.valid && traffic.cakeBps != 0 }

  predicate Full(traffic: Traffic)
  {
    Measurable(traffic) && traffic.trafficBps >= RatioOfRoundedUp(traffic.cakeBps, SATURATION_ENTER_RATIO_E6)
  }

  predicate Eased(traffic: Traffic)
  {
    Measurable(traffic) && traffic.trafficBps <= RatioOfRoundedUp(traffic.cakeBps, SATURATION_EXIT_RATIO_E6)
  }

  function LineNext(line: Line, traffic: Traffic): Line
  {
    if !Measurable(traffic) then NEW_LINE
    else if line.state.Saturated? then
      if Eased(traffic) then
        if line.recovery + 1 >= CONFIRMATION_SAMPLES then Line(BelowCapacity, 0, 0)
        else Line(Saturated, 0, line.recovery + 1)
      else Line(Saturated, 0, 0)
    else if Full(traffic) then
      if line.saturation + 1 >= CONFIRMATION_SAMPLES then Line(Saturated, 0, 0)
      else Line(line.state, line.saturation + 1, 0)
    else Line(BelowCapacity, 0, 0)
  }

  ghost function LineAfter(seen: seq<Traffic>): Line
  {
    if seen == [] then NEW_LINE else LineNext(LineAfter(seen[..|seen| - 1]), seen[|seen| - 1])
  }

  /** How many of the latest samples in a row are full, or eased. */
  ghost function TrailingFull(seen: seq<Traffic>): nat
  {
    if seen == [] || !Full(seen[|seen| - 1]) then 0 else 1 + TrailingFull(seen[..|seen| - 1])
  }

  ghost function TrailingEased(seen: seq<Traffic>): nat
  {
    if seen == [] || !Eased(seen[|seen| - 1]) then 0 else 1 + TrailingEased(seen[..|seen| - 1])
  }

  lemma {:induction false} CountsTrail(seen: seq<Traffic>)
    ensures var line := LineAfter(seen);
      && line.saturation <= TrailingFull(seen) && line.saturation < CONFIRMATION_SAMPLES
      && line.recovery <= TrailingEased(seen) && line.recovery < CONFIRMATION_SAMPLES
      && (line.state.Saturated? ==> line.saturation == 0) && (!line.state.Saturated? ==> line.recovery == 0)
  {
    if seen == [] {
    } else {
      CountsTrail(seen[..|seen| - 1]);
    }
  }

  /** The line turns saturated only on three full samples in a row, and leaves only on three eased or one unknown. */
  lemma TurnsNeedThree(seen: seq<Traffic>, next: Traffic)
    ensures !LineAfter(seen).state.Saturated? && LineAfter(seen + [next]).state.Saturated? ==>
      TrailingFull(seen + [next]) >= CONFIRMATION_SAMPLES
    ensures LineAfter(seen).state.Saturated? && !LineAfter(seen + [next]).state.Saturated? ==>
      !Measurable(next) || TrailingEased(seen + [next]) >= CONFIRMATION_SAMPLES
  {
    assert (seen + [next])[..|seen|] == seen;
    CountsTrail(seen);
  }

  /**
   The line is unknown exactly while full samples, fewer than three, are all that has come
   since the start or since a sample that could not be measured.
   */
  lemma {:induction false} UnknownIff(seen: seq<Traffic>)
    ensures var trail := TrailingFull(seen);
      && trail <= |seen|
      && (LineAfter(seen).state.Unknown? <==>
          trail < CONFIRMATION_SAMPLES && (trail == |seen| || !Measurable(seen[|seen| - trail - 1])))
      && (LineAfter(seen).state.Unknown? ==> LineAfter(seen).saturation == trail)
  {
    if seen == [] {
    } else {
      UnknownIff(seen[..|seen| - 1]);
      CountsTrail(seen[..|seen| - 1]);
    }
  }

  /** Some sample of a rate is both full and eased exactly below 5 bit/s; above that no sample serves both turns. */
  lemma BothFullAndEasedIff(cakeBps: u64)
    requires cakeBps > 0
    ensures (exists traffic: Traffic :: traffic.cakeBps == cakeBps && Full(traffic) && Eased(traffic)) <==> cakeBps < 5
  {
    RatioOfRoundedUpExact(cakeBps, SATURATION_ENTER_RATIO_E6);
    RatioOfRoundedUpExact(cakeBps, SATURATION_EXIT_RATIO_E6);
    if cakeBps < 5 {
      var traffic := Traffic(true, 0, cakeBps, cakeBps);
      assert traffic.cakeBps == cakeBps && Full(traffic) && Eased(traffic);
    }
  }

  /** No sample is full and eased at once. */
  ghost predicate NeverBoth(seen: seq<Traffic>)
  {
    forall traffic :: traffic in seen ==> !(Full(traffic) && Eased(traffic))
  }

  /** Rates from 5 bit/s on make sure of that. */
  lemma UsualRatesAreClear(seen: seq<Traffic>)
    requires forall traffic :: traffic in seen && Measurable(traffic) ==> traffic.cakeBps >= 5
    ensures NeverBoth(seen)
  {
    forall traffic | traffic in seen
      ensures !(Full(traffic) && Eased(traffic))
    {
      if Measurable(traffic) { BothFullAndEasedIff(traffic.cakeBps); }
    }
  }

  /** Then each counter is the length of the run of samples it counts. */
  lemma {:induction false} CountsAreTrails(seen: seq<Traffic>)
    requires NeverBoth(seen)
    ensures var line := LineAfter(seen);
      && (!line.state.Saturated? ==> line.saturation == TrailingFull(seen) < CONFIRMATION_SAMPLES)
      && (line.state.Saturated? ==> line.recovery == TrailingEased(seen) < CONFIRMATION_SAMPLES)
  {
    if seen == [] {
    } else {
      var front, last := seen[..|seen| - 1], seen[|seen| - 1];
      assert last in seen && forall traffic :: traffic in front ==> traffic in seen;
      CountsAreTrails(front);
    }
  }

  /** And the line turns exactly on the third full, or the third eased, sample in a row. */
  lemma TurnsAtThree(seen: seq<Traffic>, next: Traffic)
    requires NeverBoth(seen + [next])
    ensures !LineAfter(seen).state.Saturated? ==>
      (LineAfter(seen + [next]).state.Saturated? <==> TrailingFull(seen + [next]) >= CONFIRMATION_SAMPLES)
    ensures LineAfter(seen).state.Saturated? ==>
      (!LineAfter(seen + [next]).state.Saturated? <==>
       !Measurable(next) || TrailingEased(seen + [next]) >= CONFIRMATION_SAMPLES)
  {
    var all := seen + [next];
    assert all[..|seen|] == seen && next in all && forall traffic :: traffic in seen ==> traffic in all;
    CountsAreTrails(seen);
  }

  // ----- the delay window

  /** A valid delay and the threshold in force when it arrived. */
  datatype Delay = Delay(us: i64, thresholdUs: u64)

  predicate Over(delay: Delay) { delay.us > 0 && delay.us > delay.thresholdUs }

  const NO_DELAY := Delay(0, 0)

  /** The last delays of a window that started out empty. */
  ghost function LastOf(delays: seq<Delay>, window: nat): (last: seq<Delay>)
    ensures |last| == window
  {
    Windows.LastOf(delays, window, NO_DELAY)
  }

  ghost function SumOf(delays: seq<Delay>): int
  {
    if delays == [] then 0 else delays[0].us + SumOf(delays[1..])
  }

  ghost function CountOver(delays: seq<Delay>): nat
  {
    if delays == [] then 0 else (if Over(delays[0]) then 1 else 0) + CountOver(delays[1..])
  }

  /** The count is of the places whose delay is longer than nothing and than the threshold it came with. */
  lemma {:induction false} CountsLonger(delays: seq<Delay>)
    ensures CountOver(delays) == |LongerPlaces(delays)|
    decreases |delays|
  {
    if delays == [] {
      assert LongerPlaces(delays) == {};
    } else {
      var front, last := delays[..|delays| - 1], |delays| - 1;
      CountsLonger(front);
      assert delays == front + [delays[last]];
      SumsAppend(front, delays[last]);
      assert LongerPlaces(delays) == LongerPlaces(front)
        + (if delays[last].us > Max(0, delays[last].thresholdUs) then {last} else {});
    }
  }

  ghost function LongerPlaces(delays: seq<Delay>): set<int>
  {
    set i | 0 <= i < |delays| && delays[i].us > Max(0, delays[i].thresholdUs)
  }

  lemma {:induction false} SumsAppend(delays: seq<Delay>, added: Delay)
    ensures SumOf(delays + [added]) == SumOf(delays) + added.us
    ensures CountOver(delays + [added]) == CountOver(delays) + (if Over(added) then 1 else 0)
  {
    if delays == [] {
      assert delays + [added] == [added];
    } else {
      SumsAppend(delays[1..], added);
      assert (delays + [added])[1..] == delays[1..] + [added];
    }
  }

  ghost predicate EachAtMost(delays: seq<Delay>, most: nat)
  {
    forall d :: d in delays ==> 0 - most <= d.us <= most
  }

  lemma {:induction false} SumBound(delays: seq<Delay>, most: nat)
    requires EachAtMost(delays, most)
    ensures -(most * |delays|) <= SumOf(delays) <= most * |delays|
  {
    if delays == [] {
    } else {
      SumBound(delays[1..], most);
      assert delays[0] in delays;
      assert most * |delays| == most * |delays[1..]| + most;
    }
  }

  ghost function Times(delays: seq<Delay>): (times: seq<int>)
    ensures |times| == |delays|
  {
    if delays == [] then [] else [delays[0].us] + Times(delays[1..])
  }

  ghost function Classes(delays: seq<Delay>): (classes: seq<bool>)
    ensures |classes| == |delays|
  {
    if delays == [] then [] else [Over(delays[0])] + Classes(delays[1..])
  }

  lemma {:induction false} TimesAppend(delays: seq<Delay>, added: Delay)
    ensures Times(delays + [added]) == Times(delays) + [added.us]
  {
    if delays == [] {
      assert delays + [added] == [added];
    } else {
      TimesAppend(delays[1..], added);
      assert (delays + [added])[1..] == delays[1..] + [added];
    }
  }

  lemma {:induction false} ClassesAppend(delays: seq<Delay>, added: Delay)
    ensures Classes(delays + [added]) == Classes(delays) + [Over(added)]
  {
    if delays == [] {
      assert delays + [added] == [added];
    } else {
      ClassesAppend(delays[1..], added);
      assert (delays + [added])[1..] == delays[1..] + [added];
    }
  }

  /** The rings hold the last delays and their classification, with the running sum and count. */
  ghost predicate Holds(samples: seq<int>, delayed: seq<bool>, next: nat, sum: int, count: int, delays: seq<Delay>)
  {
    && |samples| == |delayed| && next < |samples|
    && var last := LastOf(delays, |samples|);
       && sum == SumOf(last) && count == CountOver(last)
       && Windows.Unrolled(samples, next) == Times(last) && Windows.Unrolled(delayed, next) == Classes(last)
  }

  lemma EmptyHolds(window: nat)
    requires window > 0
    ensures Holds(seq(window, _ => 0), seq(window, _ => false), 0, 0, 0, [])
  {
    NothingYet(window);
    assert LastOf([], window) == seq(window, _ => NO_DELAY);
    assert Windows.Unrolled(seq(window, _ => 0), 0) == seq(window, _ => 0);
    assert Windows.Unrolled(seq(window, _ => false), 0) == seq(window, _ => false);
  }

  lemma {:induction false} NothingYet(window: nat)
    ensures SumOf(seq(window, _ => NO_DELAY)) == 0 && CountOver(seq(window, _ => NO_DELAY)) == 0
    ensures Times(seq(window, _ => NO_DELAY)) == seq(window, _ => 0)
    ensures Classes(seq(window, _ => NO_DELAY)) == seq(window, _ => false)
  {
    if window == 0 {
    } else {
      NothingYet(window - 1);
      assert seq(window, _ => NO_DELAY)[1..] == seq(window - 1, _ => NO_DELAY);
    }
  }

  /** Replacing the oldest sample and its share of sum and count keeps the window. */
  lemma AddHolds(samples: seq<int>, delayed: seq<bool>, next: nat, sum: int, count: int,
                 delays: seq<Delay>, added: Delay)
    requires Holds(samples, delayed, next, sum, count, delays)
    ensures Holds(samples[next := added.us], delayed[next := Over(added)],
                  if next + 1 == |samples| then 0 else next + 1,
                  sum - samples[next] + added.us,
                  count - (if delayed[next] then 1 else 0) + (if Over(added) then 1 else 0),
                  delays + [added])
    ensures delayed[next] ==> count > 0
  {
    var last := LastOf(delays, |samples|);
    Windows.LastShifts(delays, |samples|, NO_DELAY, added);
    Windows.RingShifts(samples, next, added.us);
    Windows.RingShifts(delayed, next, Over(added));
    SumsAppend(last[1..], added);
    TimesAppend(last[1..], added);
    ClassesAppend(last[1..], added);
    assert Windows.Unrolled(samples, next)[0] == samples[next] && Windows.Unrolled(delayed, next)[0] == delayed[next];
    assert last == [last[0]] + last[1..];
  }
}
