/**
 The estimator's parts that are values: the clamped floor, the two-slot minimum
 window against a naive minimum, and the unwrapped remote clock.
 */
module TcpWindow {
  import opened Arith
  import opened Clock32
  import opened Wrappers

  const WINDOW_NS: int := 100_000_000

  // ----- the floor

  datatype Floor = Floor(valueNs: int, valid: bool)

  /** The largest queue any sample may show, when one is set. */
  datatype Bound = Unbounded | AtMost(ns: nat)

  function FloorUpdate(bound: Bound, floor: Floor, valueNs: int): Floor
  {
    if !floor.valid || valueNs < floor.valueNs then Floor(valueNs, true)
    else if bound.AtMost? && valueNs - floor.valueNs > bound.ns then Floor(valueNs - bound.ns, true)
    else floor
  }

  /** What a sample shows above its updated floor. */
  function QueueAbove(bound: Bound, floor: Floor, valueNs: int): int
  {
    valueNs - FloorUpdate(bound, floor, valueNs).valueNs
  }

  ghost predicate Within(queueNs: int, bound: Bound)
  {
    0 <= queueNs && (bound.AtMost? ==> queueNs <= bound.ns)
  }

  lemma QueueIsBounded(bound: Bound, floor: Floor, valueNs: int)
    ensures Within(QueueAbove(bound, floor, valueNs), bound)
  {}

  /** Over a floor a sample shows its height as far as the bound allows; the floor moves no more than it must. */
  lemma QueueIsClamped(bound: Bound, floor: Floor, valueNs: int)
    ensures var queueNs, after := QueueAbove(bound, floor, valueNs), FloorUpdate(bound, floor, valueNs);
      && after.valid && after.valueNs + queueNs == valueNs
      && (!floor.valid ==> queueNs == 0)
      && (floor.valid && bound.Unbounded? ==> queueNs == Max(0, valueNs - floor.valueNs))
      && (floor.valid && bound.AtMost? ==> queueNs == Max(0, Min(valueNs - floor.valueNs, bound.ns)))
  {}

  ghost function FloorAfter(floor: Floor, values: seq<int>): Floor
  {
    if values == [] then floor
    else FloorUpdate(Unbounded, FloorAfter(floor, values[..|values| - 1]), values[|values| - 1])
  }

  /** Without a bound the floor is the running minimum. */
  lemma {:induction false} UnboundedFloorIsMinimum(values: seq<int>)
    requires values != []
    ensures var floor := FloorAfter(Floor(0, false), values);
      floor.valid && floor.valueNs in values && forall v :: v in values ==> floor.valueNs <= v
  {
    var front, last := values[..|values| - 1], values[|values| - 1];
    assert forall v :: v in values <==> v in front || v == last;
    if front == [] {
    } else {
      UnboundedFloorIsMinimum(front);
    }
  }

  // ----- the window

  /** The minima of the newest window and of its predecessor. */
  datatype Window = Window(minimum0: i64, minimum1: i64, index: nat, valid0: bool, valid1: bool)

  const NO_WINDOW := Window(0, 0, 0, false, false)

  function Index(timeNs: u64): nat { timeNs / WINDOW_NS }

  function WindowAdd(window: Window, queueNs: i64, timeNs: u64): Window
  {
    var index := Index(timeNs);
    var begun := if !window.valid0 && !window.valid1 then window.(index := index) else window;
    var moved :=
      if index > begun.index then
        begun.(minimum1 := begun.minimum0, valid1 := begun.valid0 && index == begun.index + 1,
                valid0 := false, index := index)
      else begun;
    var slot := moved.index - index;
    if slot > 1 then moved
    else if slot == 0 then
      if !moved.valid0 || queueNs < moved.minimum0 then moved.(minimum0 := queueNs, valid0 := true) else moved
    else
      if !moved.valid1 || queueNs < moved.minimum1 then moved.(minimum1 := queueNs, valid1 := true) else moved
  }

  function WindowResult(window: Window, nowNs: u64): Option<i64>
  {
    var index := Index(nowNs);
    var current := if window.valid0 && (window.index == index || window.index + 1 == index)
      then Some(window.minimum0) else None;
    if window.valid1 && window.index == index && (current.None? || window.minimum1 < current.value)
    then Some(window.minimum1) else current
  }

  // ----- the naive minimum it must agree with

  datatype Observation = Observation(queueNs: i64, timeNs: u64, bound: Bound)

  /** The smallest queue observed in windows low to high, if any was. */
  ghost function Naive(seen: seq<Observation>, low: int, high: int): Option<i64>
  {
    if seen == [] then None
    else
      var last := seen[|seen| - 1];
      var before := Naive(seen[..|seen| - 1], low, high);
      if low <= Index(last.timeNs) <= high && (before.None? || last.queueNs < before.value)
      then Some(last.queueNs) else before
  }

  ghost predicate Counts(o: Observation, low: int, high: int) { low <= Index(o.timeNs) <= high }

  lemma {:induction false} NaiveIsMinimum(seen: seq<Observation>, low: int, high: int)
    ensures Naive(seen, low, high).None? <==> forall o :: o in seen ==> !Counts(o, low, high)
    ensures Naive(seen, low, high).Some? ==>
      && (exists o :: o in seen && Counts(o, low, high) && o.queueNs == Naive(seen, low, high).value)
      && (forall o :: o in seen && Counts(o, low, high) ==> Naive(seen, low, high).value <= o.queueNs)
  {
    if seen == [] {
    } else {
      var front, last := seen[..|seen| - 1], seen[|seen| - 1];
      NaiveIsMinimum(front, low, high);
      assert seen == front + [last];
      assert forall o :: o in front ==> o in seen;
      assert Counts(last, low, high) <==> low <= Index(last.timeNs) <= high;
    }
  }

  ghost function Newest(seen: seq<Observation>): nat
  {
    if seen == [] then 0
    else Max(Newest(seen[..|seen| - 1]), Index(seen[|seen| - 1].timeNs))
  }

  lemma {:induction false} NothingNewer(seen: seq<Observation>, low: int, high: int)
    requires low > Newest(seen)
    ensures Naive(seen, low, high) == None
  {
    if seen == [] {
    } else {
      NothingNewer(seen[..|seen| - 1], low, high);
    }
  }

  lemma {:induction false} NewestIsSeen(seen: seq<Observation>)
    requires seen != []
    ensures Naive(seen, Newest(seen), Newest(seen)).Some?
  {
    var front := seen[..|seen| - 1];
    if front == [] {
    } else {
      NewestIsSeen(front);
    }
  }

  /** Two adjacent windows together. */
  lemma {:induction false} NaiveJoins(seen: seq<Observation>, index: int)
    ensures var newer, older := Naive(seen, index, index), Naive(seen, index - 1, index - 1);
      Naive(seen, index - 1, index) ==
        if older.Some? && (newer.None? || older.value < newer.value) then older else newer
  {
    if seen == [] {
    } else {
      NaiveJoins(seen[..|seen| - 1], index);
    }
  }

  /** The two slots hold the naive minima of the newest window and the one before it. */
  ghost predicate Refines(window: Window, seen: seq<Observation>)
  {
    if seen == [] then !window.valid0 && !window.valid1
    else
      && window.index == Newest(seen)
      && (if window.valid0 then Some(window.minimum0) else None) == Naive(seen, window.index, window.index)
      && (if window.valid1 then Some(window.minimum1) else None) == Naive(seen, window.index - 1, window.index - 1)
  }

  /** Adding keeps the agreement, whatever order the times come in. */
  lemma AddRefines(window: Window, seen: seq<Observation>, added: Observation)
    requires Refines(window, seen)
    ensures Refines(WindowAdd(window, added.queueNs, added.timeNs), seen + [added])
  {
    var now := seen + [added];
    assert now[..|seen|] == seen;
    var index := Index(added.timeNs);
    if seen != [] {
      NewestIsSeen(seen);
      if index > window.index {
        NothingNewer(seen, index, index);
        if index > window.index + 1 { NothingNewer(seen, index - 1, index - 1); }
      }
    }
  }

  /** The recent queue: none before the newest window, else the minimum over this window and the last. */
  ghost function Recent(seen: seq<Observation>, nowNs: u64): Option<i64>
  {
    if Index(nowNs) < Newest(seen) then None else Naive(seen, Index(nowNs) - 1, Index(nowNs))
  }

  lemma ResultIsRecent(window: Window, seen: seq<Observation>, nowNs: u64)
    requires Refines(window, seen)
    ensures WindowResult(window, nowNs) == Recent(seen, nowNs)
  {
    var index := Index(nowNs);
    if seen != [] {
      NewestIsSeen(seen);
      NaiveJoins(seen, index);
      if index > window.index { NothingNewer(seen, index, index); }
      if index > window.index + 1 { NothingNewer(seen, index - 1, index - 1); }
    } else {
      NaiveJoins(seen, index);
    }
  }

  /** So a result lies between zero and the bound in force for one of the samples it covers. */
  lemma ResultIsBounded(seen: seq<Observation>, nowNs: u64)
    requires forall o :: o in seen ==> Within(o.queueNs, o.bound)
    ensures Recent(seen, nowNs).Some? ==>
      exists o :: o in seen && Counts(o, Index(nowNs) - 1, Index(nowNs))
                  && o.queueNs == Recent(seen, nowNs).value && Within(Recent(seen, nowNs).value, o.bound)
  {
    NaiveIsMinimum(seen, Index(nowNs) - 1, Index(nowNs));
  }

  // ----- the remote clock

  datatype Clock = Clock(lastTsval: u32, ticks: nat, lastAcceptedNs: u64)

  predicate Accepts(clock: Clock, tsval: u32, arrivalNs: u64)
  {
    SignedDistance(tsval, clock.lastTsval) >= 0 && arrivalNs >= clock.lastAcceptedNs
  }

  function Advanced(clock: Clock, tsval: u32, arrivalNs: u64): Clock
  {
    if Accepts(clock, tsval, arrivalNs)
    then Clock(tsval, clock.ticks + SignedDistance(tsval, clock.lastTsval), arrivalNs) else clock
  }

  /** A packet as it is offered to a flow: the 32-bit clock it carries, and when it arrived. */
  datatype Offer = Offer(tsval: u32, arrivalNs: u64)

  function Started(first: Offer): Clock { Clock(first.tsval, 0, first.arrivalNs) }

  ghost function ClockAfter(clock: Clock, offers: seq<Offer>): Clock
  {
    if offers == [] then clock
    else
      var last := offers[|offers| - 1];
      Advanced(ClockAfter(clock, offers[..|offers| - 1]), last.tsval, last.arrivalNs)
  }

  lemma ClockTakes(clock: Clock, offers: seq<Offer>, last: Offer)
    ensures ClockAfter(clock, offers + [last]) == Advanced(ClockAfter(clock, offers), last.tsval, last.arrivalNs)
  {
    assert (offers + [last])[..|offers|] == offers;
  }

  /** A packet as its sender knew it: the unwrapped remote clock, and when it arrived. */
  datatype Stamp = Stamp(remote: nat, arrivalNs: u64)

  function OfferOf(stamp: Stamp): Offer { Offer(stamp.remote % CLOCK_VALUES, stamp.arrivalNs) }

  function OffersOf(stamps: seq<Stamp>): (offers: seq<Offer>)
    ensures |offers| == |stamps|
  {
    if stamps == [] then [] else OffersOf(stamps[..|stamps| - 1]) + [OfferOf(stamps[|stamps| - 1])]
  }

  /** The stamp last taken by the rule an unwrapped clock would follow: neither time nor clock goes back. */
  ghost function LastTaken(first: Stamp, stamps: seq<Stamp>): Stamp
  {
    if stamps == [] then first
    else
      var last, before := stamps[|stamps| - 1], LastTaken(first, stamps[..|stamps| - 1]);
      if last.remote >= before.remote && last.arrivalNs >= before.arrivalNs then last else before
  }

  /** Every stamp lies within half the clock of the last one taken. */
  ghost predicate Near(first: Stamp, stamps: seq<Stamp>)
  {
    stamps == [] ||
    (Near(first, stamps[..|stamps| - 1]) &&
     var distance := stamps[|stamps| - 1].remote - LastTaken(first, stamps[..|stamps| - 1]).remote;
     -HALF_CLOCK <= distance < HALF_CLOCK)
  }

  /** Ticks are the true advance since the flow began, across any number of wraps. */
  lemma {:induction false} TicksAreTrueAdvance(first: Stamp, stamps: seq<Stamp>)
    requires Near(first, stamps)
    ensures var clock, taken := ClockAfter(Started(OfferOf(first)), OffersOf(stamps)), LastTaken(first, stamps);
      && clock.ticks == taken.remote - first.remote
      && clock.lastTsval == taken.remote % CLOCK_VALUES
      && clock.lastAcceptedNs == taken.arrivalNs
  {
    if stamps == [] {
    } else {
      var front, last := stamps[..|stamps| - 1], stamps[|stamps| - 1];
      TicksAreTrueAdvance(first, front);
      ClockTakes(Started(OfferOf(first)), OffersOf(front), OfferOf(last));
      DistanceIsTrue(last.remote, LastTaken(first, front).remote);
    }
  }

  /** A sample in time order is accepted exactly when its true clock has not gone back. */
  lemma AcceptedIffNotBack(first: Stamp, stamps: seq<Stamp>, next: Stamp)
    requires Near(first, stamps + [next])
    requires next.arrivalNs >= LastTaken(first, stamps).arrivalNs
    ensures Accepts(ClockAfter(Started(OfferOf(first)), OffersOf(stamps)), next.remote % CLOCK_VALUES, next.arrivalNs)
       <==> next.remote >= LastTaken(first, stamps).remote
  {
    assert (stamps + [next])[..|stamps|] == stamps;
    TicksAreTrueAdvance(first, stamps);
    DistanceIsTrue(next.remote, LastTaken(first, stamps).remote);
  }
}
