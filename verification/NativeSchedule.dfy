/**
 When a native session sends: due times one spacing apart and a target's one period
 apart, scheduled from the due time unless a whole spacing late. And how late a send may
 read its clock before its ring slot is used again while it is still waited for.
 */
module NativeSchedule {
  import opened Arith

  const RESPONSE_TIMEOUT_US: int := 10_000_000
  const MILLISECOND: int := 1000
  const MAX_TARGETS: nat := 64
  const PERIOD_EXCESS_LIMIT_US: int := 33_000

  /** Microseconds between sends, and between sends to one of count targets. */
  datatype Pace = Pace(spacing: u64, period: u64, count: nat)
  {
    predicate Valid()
    {
      && MILLISECOND <= spacing && 0 < count <= MAX_TARGETS
      && 0 <= Excess() <= PERIOD_EXCESS_LIMIT_US && (count == 1 ==> Excess() == 0)
    }

    /** What rounding leaves of a period beyond the spacings of its targets. */
    function Excess(): int { period - count * spacing }
  }

  function Capacity(spacing: u64): (capacity: nat)
    requires spacing >= MILLISECOND
    ensures capacity >= 2
  {
    QuotientAtMost(RESPONSE_TIMEOUT_US, spacing);
    RESPONSE_TIMEOUT_US / spacing + 2
  }

  /** The shortest time from one due send to the one sends later. */
  function Elapsed(p: Pace, sends: nat): int
    requires p.count > 0
  {
    sends * p.spacing + sends / p.count * p.Excess()
  }

  /** Times a run would schedule without saturation: the next send, and the targets' from the next on. */
  datatype Plan = Plan(next: int, due: seq<int>)

  function Sent(p: Pace, plan: Plan, due: int): (after: Plan)
    requires |plan.due| == p.count > 0
    ensures |after.due| == p.count
  {
    var rest := plan.due[1..] + [due + p.period];
    Plan(Max(due + p.spacing, rest[0]), rest)
  }

  /** The earliest due time of the send so many sends from the next. */
  function Earliest(p: Pace, plan: Plan, sends: nat): int
    requires |plan.due| == p.count > 0
  {
    if sends == 0 then plan.next
    else
      Max(Earliest(p, plan, sends - 1) + p.spacing,
          if sends < p.count then plan.due[sends] else Earliest(p, plan, sends - p.count) + p.period)
  }

  // ----- sizing

  /** The ring stays far below the sequence space, and covers the timeout by more than one spacing. */
  lemma CapacityBounds(spacing: u64)
    requires spacing >= MILLISECOND
    ensures Capacity(spacing) <= 10_002
    ensures RESPONSE_TIMEOUT_US + spacing < Capacity(spacing) * spacing <= RESPONSE_TIMEOUT_US + 2 * spacing
  {
    var whole := RESPONSE_TIMEOUT_US / spacing;
    DivisionParts(RESPONSE_TIMEOUT_US, spacing);
    TwoMore(whole, spacing);
    if whole > 10_000 {
      MulMonotone(10_001, whole, spacing);
      MulMonotone(MILLISECOND, spacing, 10_001);
    }
  }

  lemma TwoMore(count: int, spacing: int)
    ensures (count + 2) * spacing == count * spacing + 2 * spacing
  {}

  lemma OneMore(count: int, spacing: int)
    ensures (count + 1) * spacing == count * spacing + spacing
  {}

  // ----- elapsed times

  lemma ElapsedGrows(p: Pace, sends: nat)
    requires p.Valid()
    ensures Elapsed(p, sends) + p.spacing <= Elapsed(p, sends + 1) <= Elapsed(p, sends) + p.spacing + p.Excess()
    ensures Elapsed(p, sends + 1) ==
      Elapsed(p, sends) + p.spacing + (if (sends + 1) % p.count == 0 then p.Excess() else 0)
  {
    OneMore(sends, p.spacing);
    NextQuotient(sends, p.count);
    OneMore(sends / p.count, p.Excess());
  }

  lemma NextQuotient(a: nat, d: nat)
    requires d > 0
    ensures (a + 1) / d == a / d + (if (a + 1) % d == 0 then 1 else 0)
  {
    DivisionParts(a, d);
    DivisionParts(a + 1, d);
    if a % d + 1 < d {
      QuotientIs(a + 1, d, a / d);
    } else {
      OneMore(a / d, d);
      QuotientIs(a + 1, d, a / d + 1);
    }
  }

  lemma ElapsedRounds(p: Pace, sends: nat)
    requires p.Valid()
    ensures Elapsed(p, sends + p.count) == Elapsed(p, sends) + p.period
  {
    var q, e := sends / p.count, p.Excess();
    QuotientSplits(1, sends, p.count);
    assert (sends + p.count) * p.spacing == sends * p.spacing + p.count * p.spacing;
    OneMore(q, e);
  }

  lemma ElapsedWithinRound(p: Pace, sends: nat)
    requires p.Valid() && sends < p.count
    ensures Elapsed(p, sends) == sends * p.spacing
  {
    QuotientIs(sends, p.count, 0);
  }

  // ----- earliest times

  lemma {:induction false} EarliestFromNext(p: Pace, plan: Plan, sends: nat)
    requires p.Valid() && |plan.due| == p.count
    ensures Earliest(p, plan, sends) >= plan.next + Elapsed(p, sends)
  {
    if sends == 0 {
      ElapsedWithinRound(p, 0);
    } else if sends < p.count {
      EarliestFromNext(p, plan, sends - 1);
      ElapsedWithinRound(p, sends - 1);
      ElapsedWithinRound(p, sends);
      OneMore(sends - 1, p.spacing);
    } else {
      EarliestFromNext(p, plan, sends - p.count);
      ElapsedRounds(p, sends - p.count);
    }
  }

  /** A send counts in every later one: one spacing for each, one period for each round. */
  lemma {:induction false} EarliestAfterSend(p: Pace, plan: Plan, due: int, sends: nat)
    requires p.Valid() && |plan.due| == p.count
    ensures Earliest(p, Sent(p, plan, due), sends) >= due + Elapsed(p, sends + 1)
  {
    var after := Sent(p, plan, due);
    if sends + 1 < p.count {
      ElapsedWithinRound(p, sends);
      ElapsedWithinRound(p, sends + 1);
      OneMore(sends, p.spacing);
      if sends > 0 { EarliestAfterSend(p, plan, due, sends - 1); }
    } else if sends + 1 == p.count {
      ElapsedRounds(p, 0);
      ElapsedWithinRound(p, 0);
      assert after.due[sends] == due + p.period;
    } else {
      EarliestAfterSend(p, plan, due, sends - p.count);
      ElapsedRounds(p, sends + 1 - p.count);
    }
  }

  /** A send at or after its due time brings no later send forward. */
  lemma {:induction false} SendingDelaysAll(p: Pace, plan: Plan, due: int, sends: nat)
    requires p.Valid() && |plan.due| == p.count && due >= plan.next
    ensures Earliest(p, Sent(p, plan, due), sends) >= Earliest(p, plan, sends + 1)
  {
    var after := Sent(p, plan, due);
    if sends == 0 {
      if p.count > 1 { assert after.due[0] == plan.due[1]; } else { assert after.due[0] == due + p.period; }
    } else {
      SendingDelaysAll(p, plan, due, sends - 1);
      if sends + 1 < p.count {
        assert after.due[sends] == plan.due[sends + 1];
      } else if sends + 1 == p.count {
        assert after.due[sends] == due + p.period;
      } else {
        SendingDelaysAll(p, plan, due, sends - p.count);
      }
    }
  }

  // ----- the shape of a schedule

  /** Beyond the spacing a gap is nothing, the excess of a period, or a whole spacing lost to a restart. */
  predicate GapPossible(p: Pace, gap: int)
  {
    gap >= 0 && (p.Excess() <= p.spacing ==> gap == 0 || gap == p.Excess() || gap >= p.spacing)
  }

  ghost predicate Even(p: Pace, plan: Plan)
  {
    && |plan.due| == p.count > 0
    && plan.next == Max(plan.due[p.count - 1] - p.period + p.spacing, plan.due[0])
    && forall i :: 0 <= i < p.count - 1 ==> GapPossible(p, plan.due[i + 1] - plan.due[i] - p.spacing)
  }

  lemma {:induction false} Spread(p: Pace, plan: Plan, i: nat)
    requires p.Valid() && Even(p, plan) && i < p.count
    ensures plan.due[i] - plan.due[0] >= i * p.spacing
    ensures p.Excess() <= p.spacing ==>
      var over := plan.due[i] - plan.due[0] - i * p.spacing; over == 0 || over >= p.Excess()
  {
    if i == 0 {
    } else {
      Spread(p, plan, i - 1);
      OneMore(i - 1, p.spacing);
      assert GapPossible(p, plan.due[i - 1 + 1] - plan.due[i - 1] - p.spacing);
    }
  }

  /** Sending on time or a whole spacing late keeps the shape. */
  lemma SendingKeepsEven(p: Pace, plan: Plan, due: int)
    requires p.Valid() && Even(p, plan) && (due == plan.next || due >= plan.next + p.spacing)
    ensures Even(p, Sent(p, plan, due))
  {
    var after, n := Sent(p, plan, due), p.count;
    Spread(p, plan, n - 1);
    OneMore(n - 1, p.spacing);
    forall i | 0 <= i < n - 1
      ensures GapPossible(p, after.due[i + 1] - after.due[i] - p.spacing)
    {
      if i + 1 < n - 1 {
        assert GapPossible(p, plan.due[i + 1 + 1] - plan.due[i + 1] - p.spacing);
      }
    }
  }

  /** The next send is due one spacing later, or the excess of a period after that. */
  lemma ExtraIsExcess(p: Pace, plan: Plan, due: int)
    requires p.Valid() && Even(p, plan) && (due == plan.next || due >= plan.next + p.spacing)
    ensures var extra := Sent(p, plan, due).next - due - p.spacing;
      0 <= extra <= p.Excess() && (p.Excess() <= p.spacing ==> extra == 0 || extra == p.Excess())
  {
    SendingKeepsEven(p, plan, due);
    Spread(p, Sent(p, plan, due), p.count - 1);
    OneMore(p.count - 1, p.spacing);
  }

  // ----- how late a send may be

  /** A send so late, with its next send extra past a spacing, keeps its slot until it has timed out. */
  predicate ReadingSafe(p: Pace, extra: int, late: int)
    requires p.Valid()
  {
    var capacity := Capacity(p.spacing);
    || late <= Max(Elapsed(p, capacity), p.spacing + extra + Elapsed(p, capacity - 1)) - RESPONSE_TIMEOUT_US
    || late >= 2 * p.spacing + extra
  }

  /** Lateness that keeps a send's slot wherever in a round it falls. */
  predicate SafeLateness(p: Pace, late: int)
    requires p.Valid()
  {
    ReadingSafe(p, 0, late) && ReadingSafe(p, p.Excess(), late)
  }

  lemma SafeAnywhere(p: Pace, extra: int, late: int)
    requires p.Valid() && SafeLateness(p, late)
    requires 0 <= extra <= p.Excess() && (p.Excess() <= p.spacing ==> extra == 0 || extra == p.Excess())
    ensures ReadingSafe(p, extra, late)
  {
    if p.Excess() > p.spacing { AlwaysSafe(p); }
  }

  /** An excess over a spacing gives the ring so much more time that no lateness harms. */
  lemma AlwaysSafe(p: Pace)
    requires p.Valid() && p.Excess() > p.spacing
    ensures Elapsed(p, Capacity(p.spacing)) - RESPONSE_TIMEOUT_US >= 2 * p.spacing + p.Excess()
  {
    var capacity, e := Capacity(p.spacing), p.Excess();
    CapacityBounds(p.spacing);
    QuotientOfLimit(p.spacing);
    QuotientMonotone(2 * p.count, capacity, p.count);
    QuotientIs(2 * p.count, p.count, 2);
    MulMonotone(2, capacity / p.count, e);
  }

  lemma QuotientOfLimit(spacing: u64)
    requires MILLISECOND <= spacing < PERIOD_EXCESS_LIMIT_US
    ensures Capacity(spacing) >= 2 * MAX_TARGETS
  {
    DivisionParts(RESPONSE_TIMEOUT_US, spacing);
    if RESPONSE_TIMEOUT_US / spacing < 2 * MAX_TARGETS {
      MulMonotone(RESPONSE_TIMEOUT_US / spacing, 2 * MAX_TARGETS - 1, spacing);
    }
  }

  /** One spacing of lateness is always safe. */
  lemma OneSpacingIsSafe(p: Pace, extra: int, late: int)
    requires p.Valid() && late <= p.spacing
    ensures ReadingSafe(p, extra, late)
  {
    CapacityBounds(p.spacing);
    ElapsedAtLeast(p, Capacity(p.spacing));
  }

  // ----- a sent request and the reuse of its slot

  function Deadline(sentUs: u64): u64 { SaturatingAdd(sentUs, RESPONSE_TIMEOUT_US) }

  /**
   The send that reuses a request's slot is due no earlier than its deadline; or the
   request was read so late that the next send starts the schedule over.
   */
  ghost predicate Covered(p: Pace, plan: Plan, next: nat, serial: nat, sentUs: u64)
    requires p.Valid() && |plan.due| == p.count && serial < next <= serial + Capacity(p.spacing)
  {
    || Deadline(sentUs) <= Earliest(p, plan, serial + Capacity(p.spacing) - next)
    || (serial == next - 1 && sentUs >= plan.next + p.spacing)
  }

  lemma SendingKeepsCover(p: Pace, plan: Plan, due: int, next: nat, serial: nat, sentUs: u64)
    requires p.Valid() && |plan.due| == p.count && serial < next < serial + Capacity(p.spacing)
    requires Covered(p, plan, next, serial, sentUs) && due >= plan.next
    requires sentUs >= plan.next + p.spacing ==> due >= sentUs
    ensures Covered(p, Sent(p, plan, due), next + 1, serial, sentUs)
  {
    var capacity := Capacity(p.spacing);
    SendingDelaysAll(p, plan, due, serial + capacity - next - 1);
    if serial == next - 1 && sentUs >= plan.next + p.spacing {
      EarliestAfterSend(p, plan, due, capacity - 2);
      ElapsedAtLeast(p, capacity - 1);
      CapacityBounds(p.spacing);
      OneMore(capacity - 1, p.spacing);
    }
  }

  lemma ElapsedAtLeast(p: Pace, sends: nat)
    requires p.Valid()
    ensures Elapsed(p, sends) >= sends * p.spacing >= 0
  {
    QuotientAtMost(sends, p.count);
    MulNonNegative(sends / p.count, p.Excess());
    MulNonNegative(sends, p.spacing);
  }

  lemma NewIsCovered(p: Pace, plan: Plan, due: int, next: nat, sentUs: u64)
    requires p.Valid() && |plan.due| == p.count
    requires Deadline(sentUs) <= due || ReadingSafe(p, Sent(p, plan, due).next - due - p.spacing, sentUs - due)
    ensures Covered(p, Sent(p, plan, due), next + 1, next, sentUs)
  {
    var after, capacity := Sent(p, plan, due), Capacity(p.spacing);
    EarliestAfterSend(p, plan, due, capacity - 1);
    EarliestFromNext(p, after, capacity - 1);
    ElapsedAtLeast(p, capacity);
  }

  /** A slot's earlier request has timed out by the time its next send is due. */
  lemma ReusedOnlyOnceDue(p: Pace, plan: Plan, serial: nat, sentUs: u64)
    requires p.Valid() && |plan.due| == p.count
    requires Covered(p, plan, serial + Capacity(p.spacing), serial, sentUs)
    ensures Deadline(sentUs) <= plan.next
  {}

  // ----- a schedule kept to the microsecond

  /** Every send on time since an opening. */
  function OnTime(p: Pace, openedUs: int, sends: nat): (plan: Plan)
    requires p.count > 0
    ensures |plan.due| == p.count
  {
    Plan(openedUs + Elapsed(p, sends),
         seq(p.count, i requires 0 <= i < p.count => openedUs + Elapsed(p, sends + i)))
  }

  lemma OnTimeAdvances(p: Pace, openedUs: int, sends: nat)
    requires p.Valid()
    ensures Sent(p, OnTime(p, openedUs, sends), openedUs + Elapsed(p, sends)) == OnTime(p, openedUs, sends + 1)
  {
    ElapsedGrows(p, sends);
    ElapsedRounds(p, sends);
    var after := Sent(p, OnTime(p, openedUs, sends), openedUs + Elapsed(p, sends));
    var wanted := OnTime(p, openedUs, sends + 1);
    forall i | 0 <= i < p.count
      ensures after.due[i] == wanted.due[i]
    {}
  }
}
