/** A reflector's health over the last checks, and the order reflectors are polled in. */
module Reflectors {
  import opened Arith
  import Windows

  // ----- health

  datatype Health = Healthy | Offence | Misbehaving

  function CountTrue(flags: seq<bool>): nat
  {
    if flags == [] then 0 else (if flags[0] then 1 else 0) + CountTrue(flags[1..])
  }

  /** Offences among the last window checks. */
  ghost function RecentOffences(checks: seq<bool>, window: nat): nat
  {
    CountTrue(Windows.LastOf(checks, window, false))
  }

  lemma {:induction false} CountAppends(flags: seq<bool>, flag: bool)
    ensures CountTrue(flags + [flag]) == CountTrue(flags) + (if flag then 1 else 0)
  {
    if flags == [] {
      assert flags + [flag] == [flag];
    } else {
      CountAppends(flags[1..], flag);
      assert (flags + [flag])[1..] == flags[1..] + [flag];
    }
  }

  /** The ring holds the last outcomes, oldest at its next slot, and the count of them. */
  ghost predicate Holds(ring: seq<bool>, next: nat, count: int, checks: seq<bool>)
  {
    && next < |ring|
    && Windows.Unrolled(ring, next) == Windows.LastOf(checks, |ring|, false)
    && count == RecentOffences(checks, |ring|)
  }

  lemma {:induction false} NothingYet(window: nat)
    ensures CountTrue(seq(window, _ => false)) == 0
  {
    if window == 0 {
    } else {
      NothingYet(window - 1);
      assert seq(window, _ => false)[1..] == seq(window - 1, _ => false);
    }
  }

  lemma EmptyHolds(ring: seq<bool>)
    requires ring != [] && forall i :: 0 <= i < |ring| ==> !ring[i]
    ensures Holds(ring, 0, 0, [])
  {
    NothingYet(|ring|);
    assert Windows.LastOf([], |ring|, false) == seq(|ring|, _ => false);
    assert Windows.Unrolled(ring, 0) == seq(|ring|, _ => false);
  }

  /** One check replaces the oldest outcome and its share of the count. */
  lemma CheckHolds(ring: seq<bool>, next: nat, count: int, checks: seq<bool>, offence: bool)
    requires Holds(ring, next, count, checks)
    ensures ring[next] ==> count > 0
    ensures Holds(ring[next := offence], if next + 1 == |ring| then 0 else next + 1,
                  count - (if ring[next] then 1 else 0) + (if offence then 1 else 0), checks + [offence])
  {
    var last := Windows.LastOf(checks, |ring|, false);
    Windows.LastShifts(checks, |ring|, false, offence);
    Windows.RingShifts(ring, next, offence);
    CountAppends(last[1..], offence);
    assert Windows.Unrolled(ring, next)[0] == ring[next];
    assert last == [last[0]] + last[1..];
  }

  /** The health record of one pinger slot. */
  class ReflectorHealth {
    const offences: array<bool>
    const threshold: nat
    const deadlineUs: u64
    var lastResponseUs: u64
    var index: nat
    var count: nat
    /** The outcome of every check since the record was last reset. */
    ghost var checks: seq<bool>

    ghost predicate Valid()
      reads `index, `count, `checks, offences
    {
      offences.Length > 0 && Holds(offences[..], index, count, checks)
    }

    constructor (window: nat, threshold: nat, deadlineUs: u64, startUs: u64)
      requires 0 < threshold <= window
      ensures Valid() && fresh(offences) && checks == [] && lastResponseUs == startUs
      ensures offences.Length == window && this.threshold == threshold && this.deadlineUs == deadlineUs
    {
      offences := new bool[window](_ => false);
      this.threshold, this.deadlineUs, lastResponseUs := threshold, deadlineUs, startUs;
      index, count, checks := 0, 0, [];
      new;
      EmptyHolds(offences[..]);
    }

    method Reset(startUs: u64)
      requires Valid()
      modifies this, offences
      ensures Valid() && checks == [] && lastResponseUs == startUs
    {
      forall i | 0 <= i < offences.Length {
        offences[i] := false;
      }
      lastResponseUs, index, count, checks := startUs, 0, 0, [];
      EmptyHolds(offences[..]);
    }

    method RecordResponse(timestampUs: u64)
      requires Valid()
      modifies `lastResponseUs
      ensures Valid() && lastResponseUs == timestampUs
    {
      lastResponseUs := timestampUs;
    }

    /** Misbehaving exactly when the threshold is reached among the last window checks, this one included. */
    method Check(timestampUs: u64) returns (health: Health)
      requires Valid()
      modifies `index, `count, `checks, offences
      ensures Valid()
      ensures checks == old(checks) + [IntervalElapsed(timestampUs, lastResponseUs, deadlineUs)]
      ensures health.Misbehaving? <==> RecentOffences(checks, offences.Length) >= threshold
      ensures !health.Misbehaving? ==> (health.Offence? <==> IntervalElapsed(timestampUs, lastResponseUs, deadlineUs))
    {
      var offence := IntervalElapsed(timestampUs, lastResponseUs, deadlineUs);
      ghost var ring := offences[..];
      CheckHolds(ring, index, count, checks, offence);
      if offences[index] {
        count := count - 1;
      }
      offences[index] := offence;
      if offence {
        count := count + 1;
      }
      assert offences[..] == ring[index := offence];
      index := index + 1;
      if index == offences.Length {
        index := 0;
      }
      checks := checks + [offence];
      health := if count >= threshold then Misbehaving else if offence then Offence else Healthy;
    }
  }

  /** A window of checks without an offence clears a reflector, whatever came before. */
  lemma {:induction false} QuietWindowClears(checks: seq<bool>, quiet: nat, window: nat)
    requires quiet >= window
    ensures RecentOffences(checks + seq(quiet, _ => false), window) == 0
  {
    NothingYet(window);
    assert Windows.LastOf(checks + seq(quiet, _ => false), window, false) == seq(window, _ => false);
  }

  // ----- rotation

  /** The active slots first, then the standby queue. */
  datatype Order<T> = Order(active: seq<T>, standby: seq<T>)

  function Split<T>(order: seq<T>, activeCount: nat): Order<T>
    requires activeCount <= |order|
  {
    Order(order[..activeCount], order[activeCount..])
  }

  /** The head of the standby queue enters the slot; what it replaces joins the end. */
  function Rotated<T>(o: Order<T>, pinger: nat): Order<T>
    requires pinger < |o.active| && o.standby != []
  {
    Order(o.active[pinger := o.standby[0]], o.standby[1..] + [o.active[pinger]])
  }

  method Rotate<T>(order: array<T>, activeCount: nat, pinger: nat)
    requires pinger < activeCount < order.Length
    modifies order
    ensures Split(order[..], activeCount) == Rotated(old(Split(order[..], activeCount)), pinger)
  {
    ghost var was := order[..];
    var bad := order[pinger];
    order[pinger] := order[activeCount];
    forall i | activeCount <= i < order.Length - 1 {
      order[i] := order[i + 1];
    }
    order[order.Length - 1] := bad;
    SplitIs(order[..], was, activeCount, pinger);
  }

  lemma SplitIs<T>(now: seq<T>, was: seq<T>, activeCount: nat, pinger: nat)
    requires pinger < activeCount < |was| && |now| == |was|
    requires now[pinger] == was[activeCount] && now[|now| - 1] == was[pinger]
    requires forall i :: 0 <= i < activeCount && i != pinger ==> now[i] == was[i]
    requires forall i :: activeCount <= i < |was| - 1 ==> now[i] == was[i + 1]
    ensures Split(now, activeCount) == Rotated(Split(was, activeCount), pinger)
  {
    var next := Rotated(Split(was, activeCount), pinger);
    assert now[..activeCount] == next.active;
    forall i | 0 <= i < |was| - activeCount
      ensures now[activeCount..][i] == next.standby[i]
    {
      if i < |was| - activeCount - 1 { assert now[activeCount + i] == was[activeCount + i + 1]; }
    }
    assert now[activeCount..] == next.standby;
  }

  /** No reflector is lost or doubled. */
  lemma RotationPermutes<T>(o: Order<T>, pinger: nat)
    requires pinger < |o.active| && o.standby != []
    ensures var r := Rotated(o, pinger);
      multiset(r.active) + multiset(r.standby) == multiset(o.active) + multiset(o.standby)
  {
    assert o.standby == [o.standby[0]] + o.standby[1..];
  }

  predicate ValidPingers(pingers: seq<nat>, activeCount: nat)
  {
    forall i :: 0 <= i < |pingers| ==> pingers[i] < activeCount
  }

  function RotatedBy<T>(o: Order<T>, pingers: seq<nat>): (r: Order<T>)
    requires ValidPingers(pingers, |o.active|) && o.standby != []
    ensures |r.active| == |o.active| && |r.standby| == |o.standby|
  {
    if pingers == [] then o
    else Rotated(RotatedBy(o, pingers[..|pingers| - 1]), pingers[|pingers| - 1])
  }

  /** The reflectors rotated out, in order. */
  ghost function Ousted<T>(o: Order<T>, pingers: seq<nat>): (r: seq<T>)
    requires ValidPingers(pingers, |o.active|) && o.standby != []
    ensures |r| == |pingers|
  {
    if pingers == [] then []
    else
      var front := pingers[..|pingers| - 1];
      Ousted(o, front) + [RotatedBy(o, front).active[pingers[|pingers| - 1]]]
  }

  /**
   Over every run the standby list is a queue: it holds what is left of the first
   standbys followed by the reflectors rotated out, in that order; so each waits
   for exactly the standbys ahead of it.
   */
  lemma {:induction false} StandbyIsAQueue<T>(o: Order<T>, pingers: seq<nat>)
    requires ValidPingers(pingers, |o.active|) && o.standby != []
    ensures RotatedBy(o, pingers).standby == (o.standby + Ousted(o, pingers))[|pingers|..]
  {
    if pingers == [] {
    } else {
      var front := pingers[..|pingers| - 1];
      StandbyIsAQueue(o, front);
      var before := o.standby + Ousted(o, front);
      assert o.standby + Ousted(o, pingers) == before + [RotatedBy(o, front).active[pingers[|pingers| - 1]]];
    }
  }

  /** Over every run the slots and the queue hold the reflectors they started with. */
  lemma {:induction false} RunPermutes<T>(o: Order<T>, pingers: seq<nat>)
    requires ValidPingers(pingers, |o.active|) && o.standby != []
    ensures var r := RotatedBy(o, pingers);
      multiset(r.active) + multiset(r.standby) == multiset(o.active) + multiset(o.standby)
  {
    if pingers == [] {
    } else {
      var front := pingers[..|pingers| - 1];
      RunPermutes(o, front);
      RotationPermutes(RotatedBy(o, front), pingers[|pingers| - 1]);
    }
  }
}
