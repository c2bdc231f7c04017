/**
 One native probe session: ticks that expire and send on a schedule, and replies matched
 to live requests by a 16-bit sequence.
 */
module NativeSession {
  import opened Arith
  import opened NativeRing
  import opened NativeSchedule
  import opened Wrappers
  import Icmp

  const SECOND: int := 1_000_000
  const DAY_MS: int := 86_400_000
  const SEQUENCES: nat := 0x1_0000

  type Mode = Icmp.Mode

  datatype Target = Target(address: nat, nextSendUs: u64, sendFailed: bool)

  datatype Reply = Reply(
    source: nat, sequence: u16, token: u64, serial: u64,
    originateMs: u32, receiveMs: u32, transmitMs: u32, realtimeUs: u64)

  datatype Sample = Sample(
    timestampUs: u64, sequence: u64, rolloverSensitive: bool, downloadUs: int, uploadUs: int, responseUs: u64)

  /** What icmp_send met: the clock it read, if it could, and whether the datagram left. */
  datatype Send = Send(clockRead: bool, readingUs: u64, delivered: bool)

  /** What a session keeps from its opening to its closing. */
  datatype Setup = Setup(mode: Mode, token: u64, pace: Pace)

  /** The session's changing fields. */
  datatype State = State(view: View, targets: seq<Target>, nextTarget: nat, nextSendUs: u64)

  function MidnightMs(realtimeUs: u64): u32 { realtimeUs / MILLISECOND % DAY_MS }

  function ResponseMonotonicUs(realtimeUs: u64, nowUs: u64, responseUs: u64): u64
  {
    if responseUs > realtimeUs then SaturatingAdd(nowUs, responseUs - realtimeUs)
    else SaturatingSub(nowUs, realtimeUs - responseUs)
  }

  /** The serial a 16-bit sequence stands for, counted back from the newest one. */
  function SerialOf(nextSerial: nat, sequence: u16): (serial: int)
    requires nextSerial > 0
  {
    nextSerial - 1 - ((nextSerial - 1) % SEQUENCES - sequence) % SEQUENCES
  }

  // ----- matching

  /** Among fewer than 2^16 consecutive serials each sequence names one, and names it exactly. */
  lemma SequenceNamesSerial(nextSerial: nat, sequence: u16, serial: nat)
    requires serial < nextSerial <= serial + SEQUENCES
    ensures serial % SEQUENCES == sequence <==> SerialOf(nextSerial, sequence) == serial
  {
    var age := nextSerial - 1 - serial;
    assert (nextSerial - 1) % SEQUENCES == (serial % SEQUENCES + age) % SEQUENCES;
    assert ((nextSerial - 1) % SEQUENCES - sequence) % SEQUENCES == (serial % SEQUENCES - sequence + age) % SEQUENCES;
  }

  // ----- a tick

  /** When the send counts as due: at its due time, or at the tick itself once that is a spacing past. */
  function DueFrom(nextSendUs: u64, nowUs: u64, spacing: u64): u64
    requires nextSendUs <= nowUs
  {
    if nowUs - nextSendUs >= spacing then nowUs else nextSendUs
  }

  ghost predicate WellFormed(setup: Setup, st: State)
  {
    && setup.pace.Valid()
    && |st.targets| == setup.pace.count && st.nextTarget < |st.targets|
    && Shaped(st.view)
  }

  ghost predicate Sends(setup: Setup, st: State, nowUs: u64)
    requires WellFormed(setup, st)
  {
    nowUs >= st.nextSendUs && nowUs >= st.targets[st.nextTarget].nextSendUs
  }

  function Turn(first: nat, i: nat, count: nat): (turn: nat)
    requires first < count && i <= count
    ensures i < count ==> turn < count
  {
    if first + i < count then first + i else first + i - count
  }

  /** The state after a request was sent that was due at a time. */
  ghost function Dispatched(setup: Setup, st: State, request: Request, dueUs: u64): (after: State)
    requires WellFormed(setup, st)
    ensures WellFormed(setup, after)
  {
    var target := st.targets[st.nextTarget].(
      nextSendUs := SaturatingAdd(dueUs, setup.pace.period), sendFailed := !request.pending);
    var targets, turn := st.targets[st.nextTarget := target], (st.nextTarget + 1) % |st.targets|;
    State(SentAs(st.view, request), targets, turn,
          Max(SaturatingAdd(dueUs, setup.pace.spacing), targets[turn].nextSendUs))
  }

  ghost function RequestFor(st: State, nowUs: u64, realtimeUs: u64, send: Send): Request
    requires st.view.next <= U64_MAX
  {
    Request(st.view.next, if send.clockRead then send.readingUs else nowUs, MidnightMs(realtimeUs), st.nextTarget,
            send.clockRead && send.delivered)
  }

  /** A tick expires, then sends at most once, into the next serial's slot whatever is in it. */
  ghost function Ticked(setup: Setup, st: State, nowUs: u64, realtimeUs: u64, send: Send): (after: State)
    requires WellFormed(setup, st) && st.view.next <= U64_MAX
    ensures WellFormed(setup, after)
  {
    var expired := st.(view := ExpiredAt(st.view, nowUs));
    if nowUs < st.nextSendUs then expired
    else if nowUs < st.targets[st.nextTarget].nextSendUs then
      expired.(nextSendUs := st.targets[st.nextTarget].nextSendUs)
    else
      Dispatched(setup, expired, RequestFor(st, nowUs, realtimeUs, send),
                 DueFrom(st.nextSendUs, nowUs, setup.pace.spacing))
  }

  /** The tick's send overwrites the slot of a live request. */
  ghost predicate Overwrites(setup: Setup, st: State, nowUs: u64)
    requires WellFormed(setup, st)
  {
    Sends(setup, st, nowUs) && st.view.next >= ExpiredAt(st.view, nowUs).expired + |st.view.ring|
  }

  /** The tick's send uses the slot of a request still waited for. */
  ghost predicate Loses(setup: Setup, st: State, nowUs: u64)
    requires WellFormed(setup, st)
  {
    Sends(setup, st, nowUs) && At(ExpiredAt(st.view, nowUs), st.view.next).pending
  }

  // ----- a reply

  /** The serial a reply is accepted for, by the code's own tests. */
  ghost function AcceptedSerial(setup: Setup, st: State, reply: Reply, nowUs: u64, realtimeUs: u64): (r: Option<nat>)
    requires WellFormed(setup, st)
    ensures r.Some? ==> r.value < st.view.next
  {
    if st.view.next == 0 || SerialOf(st.view.next, reply.sequence) < 0 then None
    else
      var serial := SerialOf(st.view.next, reply.sequence);
      if Matches(setup, st, serial, reply, nowUs, realtimeUs) then Some(serial) else None
  }

  ghost predicate Matches(setup: Setup, st: State, serial: nat, reply: Reply, nowUs: u64, realtimeUs: u64)
    requires WellFormed(setup, st)
  {
    var request := At(st.view, serial);
    && request.pending && request.serial == serial && nowUs < Deadline(request.sentUs)
    && request.target < |st.targets| && st.targets[request.target].address == reply.source
    && (if setup.mode.Timestamp? then reply.originateMs == request.originateMs
        else reply.token == setup.token && reply.serial == serial)
    && request.sentUs <= ResponseMonotonicUs(realtimeUs, nowUs, reply.realtimeUs)
    && reply.realtimeUs <= realtimeUs
  }

  ghost function Replied(setup: Setup, st: State, reply: Reply, nowUs: u64, realtimeUs: u64): (after: State)
    requires WellFormed(setup, st)
    ensures WellFormed(setup, after)
  {
    match AcceptedSerial(setup, st, reply, nowUs, realtimeUs)
    case Some(serial) => st.(view := SettledAs(st.view, serial, Accepted))
    case None => st
  }

  /** The live request a reply answers. */
  ghost predicate Answers(setup: Setup, st: State, s: nat, reply: Reply, nowUs: u64, realtimeUs: u64)
    requires WellFormed(setup, st)
  {
    Live(st.view, s) && s % SEQUENCES == reply.sequence && Matches(setup, st, s, reply, nowUs, realtimeUs)
  }

  /** A reply is accepted for a serial exactly when it answers that live request; so it answers at most one. */
  lemma AcceptedIffAnswers(setup: Setup, st: State, reply: Reply, nowUs: u64, realtimeUs: u64, s: nat)
    requires WellFormed(setup, st) && Consistent(st.view) && |st.view.ring| <= SEQUENCES
    ensures AcceptedSerial(setup, st, reply, nowUs, realtimeUs) == Some(s)
       <==> Answers(setup, st, s, reply, nowUs, realtimeUs)
  {
    if Live(st.view, s) {
      SequenceNamesSerial(st.view.next, reply.sequence, s);
    }
    if Answers(setup, st, s, reply, nowUs, realtimeUs) { assert OwnsSlot(st.view, s); }
    if AcceptedSerial(setup, st, reply, nowUs, realtimeUs) == Some(s) {
      assert st.view.ring[Slot(s, |st.view.ring|)].pending;
      assert Live(st.view, s);
    }
  }

  function SampleFor(request: Request, targetCount: nat, mode: Mode,
                     reply: Reply, nowUs: u64, realtimeUs: u64): Sample
    requires targetCount > 0
    requires request.sentUs <= ResponseMonotonicUs(realtimeUs, nowUs, reply.realtimeUs)
  {
    var receivedUs := ResponseMonotonicUs(realtimeUs, nowUs, reply.realtimeUs);
    QuotientAtMost(request.serial, targetCount);
    var round := request.serial / targetCount;
    if mode.Timestamp? then
      Sample(reply.realtimeUs, round, true,
             (MidnightMs(reply.realtimeUs) - reply.transmitMs) * MILLISECOND,
             (reply.receiveMs - request.originateMs) * MILLISECOND, receivedUs)
    else
      var half := RoundedDivide(receivedUs - request.sentUs, 2);
      Sample(reply.realtimeUs, round, false, half, half, receivedUs)
  }

  // ----- what a sample says, in true times

  /** A real time is on the monotonic clock as far from now as from the real time now, within 64 bits. */
  lemma MonotonicShifts(realtimeUs: u64, nowUs: u64, responseUs: u64)
    ensures ResponseMonotonicUs(realtimeUs, nowUs, responseUs)
         == Max(0, Min(nowUs + responseUs - realtimeUs, U64_MAX))
  {}

  /** Two readings of the real-time clock on one day are as many milliseconds apart as their times of day. */
  lemma SameDay(earlierUs: u64, laterUs: u64)
    requires earlierUs / (MILLISECOND * DAY_MS) == laterUs / (MILLISECOND * DAY_MS)
    ensures MidnightMs(laterUs) - MidnightMs(earlierUs) == laterUs / MILLISECOND - earlierUs / MILLISECOND
    ensures 0 <= MidnightMs(laterUs) < DAY_MS
  {
    assert laterUs / MILLISECOND / DAY_MS == laterUs / (MILLISECOND * DAY_MS);
    assert earlierUs / MILLISECOND / DAY_MS == earlierUs / (MILLISECOND * DAY_MS);
  }

  /**
   A timestamp request's way, in milliseconds: sent at a real time, up to a target whose
   clock is ahead by an offset, held there, and down; all on one day of both clocks.
   */
  ghost predicate Travelled(request: Request, reply: Reply, sentUs: u64, up: int, held: int, down: int, offset: int)
  {
    && request.originateMs == MidnightMs(sentUs)
    && sentUs / (MILLISECOND * DAY_MS) == reply.realtimeUs / (MILLISECOND * DAY_MS)
    && sentUs / MILLISECOND + up + held + down == reply.realtimeUs / MILLISECOND
    && reply.receiveMs == request.originateMs + up + offset
    && reply.transmitMs == reply.receiveMs + held
  }

  /**
   A sample is of its reply's real time and its request's round. A timestamp request
   measures each way apart, off by the target's clock; an echo half the time between its
   two monotonic times each way, the second of which leaves out what the reply waited here.
   */
  ghost predicate Measures(sample: Sample, request: Request, targetCount: nat, mode: Mode,
                           reply: Reply, nowUs: u64, realtimeUs: u64)
  {
    && sample.timestampUs == reply.realtimeUs && (sample.rolloverSensitive <==> mode.Timestamp?)
    && sample.sequence * targetCount <= request.serial < sample.sequence * targetCount + targetCount
    && sample.responseUs == Max(0, nowUs - (realtimeUs - reply.realtimeUs))
    && (mode.Timestamp? ==>
          forall sentUs: u64, up, held, down, offset :: Travelled(request, reply, sentUs, up, held, down, offset) ==>
            && sample.uploadUs == (up + offset) * MILLISECOND && sample.downloadUs == (down - offset) * MILLISECOND
            && sample.uploadUs + sample.downloadUs == (up + down) * MILLISECOND)
    && (!mode.Timestamp? ==>
          var roundTrip := sample.responseUs - request.sentUs;
          sample.uploadUs == sample.downloadUs && 2 * sample.downloadUs == roundTrip + roundTrip % 2)
  }

  lemma SampleMeasures(request: Request, targetCount: nat, mode: Mode, reply: Reply, nowUs: u64, realtimeUs: u64)
    requires targetCount > 0 && reply.realtimeUs <= realtimeUs
    requires request.sentUs <= ResponseMonotonicUs(realtimeUs, nowUs, reply.realtimeUs)
    ensures Measures(SampleFor(request, targetCount, mode, reply, nowUs, realtimeUs),
                     request, targetCount, mode, reply, nowUs, realtimeUs)
  {
    var sample := SampleFor(request, targetCount, mode, reply, nowUs, realtimeUs);
    DivisionParts(request.serial, targetCount);
    if mode.Timestamp? {
      forall sentUs: u64, up, held, down, offset | Travelled(request, reply, sentUs, up, held, down, offset)
        ensures sample.uploadUs == (up + offset) * MILLISECOND && sample.downloadUs == (down - offset) * MILLISECOND
      {
        SameDay(sentUs, reply.realtimeUs);
      }
    }
  }

  // ----- what every tick and reply keeps

  /** The session's times are the plan's, saturated. */
  ghost predicate Follows(p: Pace, st: State, plan: Plan)
    requires p.Valid() && |st.targets| == p.count && st.nextTarget < |st.targets|
  {
    && |plan.due| == p.count
    && st.nextSendUs == Min(U64_MAX, plan.next)
    && plan.next >= 0 && (forall i :: 0 <= i < p.count ==> plan.due[i] >= 0)
    && forall i :: 0 <= i < p.count ==>
         st.targets[Turn(st.nextTarget, i, p.count)].nextSendUs == Min(U64_MAX, plan.due[i])
  }

  /** Every live request but one is covered by the schedule. */
  ghost predicate CoveredBut(p: Pace, view: View, plan: Plan, except: int)
    requires p.Valid() && |plan.due| == p.count && view.next <= view.expired + Capacity(p.spacing) && |view.ring| > 0
  {
    forall s: nat :: Live(view, s) && s != except ==> Covered(p, plan, view.next, s, At(view, s).sentUs)
  }

  /** Consistent and on schedule, with every live request covered but perhaps one. */
  ghost predicate SoundBut(setup: Setup, st: State, plan: Plan, except: int)
  {
    && WellFormed(setup, st)
    && Consistent(st.view) && |st.view.ring| == Capacity(setup.pace.spacing)
    && st.view.targetCount == setup.pace.count
    && Follows(setup.pace, st, plan) && Even(setup.pace, plan)
    && CoveredBut(setup.pace, st.view, plan, except)
  }

  ghost predicate Sound(setup: Setup, st: State, plan: Plan) { SoundBut(setup, st, plan, -1) }

  /** The due time in the plan of the tick's send. */
  function PlannedDue(plan: Plan, nowUs: u64, spacing: u64): int
  {
    if plan.next > U64_MAX then plan.next
    else if nowUs - plan.next >= spacing then nowUs else plan.next
  }

  lemma ExpiringKeeps(setup: Setup, st: State, plan: Plan, except: int, nowUs: u64)
    requires SoundBut(setup, st, plan, except)
    ensures SoundBut(setup, st.(view := ExpiredAt(st.view, nowUs)), plan, except)
  {
    var v, w := st.view, ExpiredAt(st.view, nowUs);
    ExpiredKeeps(v, nowUs);
    ExpiryIsExact(v, nowUs);
    forall s: nat | Live(w, s) && s != except
      ensures Covered(setup.pace, plan, w.next, s, At(w, s).sentUs)
    {
      assert Live(v, s) && At(w, s) == At(v, s);
    }
  }

  /** Whoever is due finds the next slot free, unless it is the excepted request's. */
  lemma RoomToSend(setup: Setup, st: State, plan: Plan, except: int, nowUs: u64)
    requires SoundBut(setup, st, plan, except) && nowUs >= st.nextSendUs
    requires except >= 0 ==> st.view.next != except + Capacity(setup.pace.spacing)
    ensures ExpiredAt(st.view, nowUs).expired + |st.view.ring| > st.view.next
  {
    var w := st.(view := ExpiredAt(st.view, nowUs));
    ExpiringKeeps(setup, st, plan, except, nowUs);
    if w.view.next == w.view.expired + |w.view.ring| { OldestIsDue(setup, w, plan, except); }
    ExpiryIsExact(st.view, nowUs);
  }

  /** When the ring is full its oldest request times out before the next send is due. */
  lemma OldestIsDue(setup: Setup, st: State, plan: Plan, except: int)
    requires SoundBut(setup, st, plan, except)
    requires st.view.next == st.view.expired + |st.view.ring| && st.view.expired != except
    ensures Live(st.view, st.view.expired) && Deadline(At(st.view, st.view.expired).sentUs) <= st.nextSendUs
  {
    var s := st.view.expired;
    assert Live(st.view, s);
    ReusedOnlyOnceDue(setup.pace, plan, s, At(st.view, s).sentUs);
  }

  lemma DispatchFollows(setup: Setup, st: State, plan: Plan, request: Request, dueUs: u64, planned: int)
    requires WellFormed(setup, st) && Follows(setup.pace, st, plan) && Even(setup.pace, plan)
    requires planned >= 0 && dueUs == Min(U64_MAX, planned)
    ensures Follows(setup.pace, Dispatched(setup, st, request, dueUs), Sent(setup.pace, plan, planned))
  {
    var p, after, next := setup.pace, Dispatched(setup, st, request, dueUs), Sent(setup.pace, plan, planned);
    forall i | 0 <= i < p.count
      ensures after.targets[Turn(after.nextTarget, i, p.count)].nextSendUs == Min(U64_MAX, next.due[i])
    {
      TurnsOn(st.nextTarget, i, p.count);
      if i < p.count - 1 {
        assert next.due[i] == plan.due[i + 1];
        assert Turn(after.nextTarget, i, p.count) == Turn(st.nextTarget, i + 1, p.count) != st.nextTarget;
        assert st.targets[Turn(st.nextTarget, i + 1, p.count)].nextSendUs == Min(U64_MAX, plan.due[i + 1]);
      } else {
        assert Turn(after.nextTarget, i, p.count) == st.nextTarget;
      }
    }
    assert after.targets[Turn(after.nextTarget, 0, p.count)].nextSendUs == Min(U64_MAX, next.due[0]);
  }

  lemma TurnsOn(turn: nat, i: nat, count: nat)
    requires turn < count && i < count
    ensures var after := (turn + 1) % count;
      after < count && if i < count - 1 then Turn(after, i, count) == Turn(turn, i + 1, count) != turn
                       else Turn(after, i, count) == turn
  {}

  /** A send into a free slot keeps all of it, and the request sent is covered when its lateness is safe. */
  lemma DispatchKeeps(setup: Setup, st: State, plan: Plan, except: int, request: Request, nowUs: u64, exceptNow: int)
    requires SoundBut(setup, st, plan, except)
    requires nowUs >= st.nextSendUs && nowUs >= st.view.clock
    requires st.view.next < st.view.expired + |st.view.ring|
    requires request.serial == st.view.next && request.target < setup.pace.count && request.sentUs >= nowUs
    requires plan.next > U64_MAX ==> nowUs == U64_MAX && st.view.expired == st.view.next
    requires exceptNow == except || (exceptNow == st.view.next && except == -1)
    requires exceptNow == st.view.next || plan.next > U64_MAX ||
             SafeLateness(setup.pace, request.sentUs - DueFrom(st.nextSendUs, nowUs, setup.pace.spacing))
    ensures SoundBut(setup, Dispatched(setup, st, request, DueFrom(st.nextSendUs, nowUs, setup.pace.spacing)),
                     Sent(setup.pace, plan, PlannedDue(plan, nowUs, setup.pace.spacing)), exceptNow)
  {
    var p, planned := setup.pace, PlannedDue(plan, nowUs, setup.pace.spacing);
    SendingKeeps(st.view, request);
    SendingKeepsEven(p, plan, planned);
    forall s: nat | Live(st.view, s) && At(st.view, s).sentUs >= plan.next + p.spacing
      ensures planned >= At(st.view, s).sentUs
    {
      assert OwnsSlot(st.view, s);
    }
    DispatchFollows(setup, st, plan, request, DueFrom(st.nextSendUs, nowUs, p.spacing), planned);
    DispatchCovers(p, st.view, plan, except, request, planned, exceptNow);
  }

  lemma DispatchCovers(p: Pace, v: View, plan: Plan, except: int, request: Request, planned: int, exceptNow: int)
    requires p.Valid() && Consistent(v) && |v.ring| == Capacity(p.spacing) && Even(p, plan)
    requires v.next < v.expired + |v.ring| && CoveredBut(p, v, plan, except)
    requires request.serial == v.next && request.target < v.targetCount && request.sentUs >= v.clock
    requires exceptNow == except || (exceptNow == v.next && except == -1)
    requires planned == plan.next || planned >= plan.next + p.spacing
    requires forall s: nat :: Live(v, s) && At(v, s).sentUs >= plan.next + p.spacing ==> planned >= At(v, s).sentUs
    requires exceptNow == v.next || Deadline(request.sentUs) <= planned || SafeLateness(p, request.sentUs - planned)
    ensures CoveredBut(p, SentAs(v, request), Sent(p, plan, planned), exceptNow)
  {
    var w, next := SentAs(v, request), Sent(p, plan, planned);
    SendingKeeps(v, request);
    ExtraIsExcess(p, plan, planned);
    forall s: nat | Live(w, s) && s != exceptNow
      ensures Covered(p, next, w.next, s, At(w, s).sentUs)
    {
      if s == v.next {
        if Deadline(request.sentUs) > planned {
          SafeAnywhere(p, next.next - planned - p.spacing, request.sentUs - planned);
        }
        NewIsCovered(p, plan, planned, v.next, request.sentUs);
      } else {
        assert Live(v, s) && At(w, s) == At(v, s);
        SendingKeepsCover(p, plan, planned, v.next, s, At(v, s).sentUs);
      }
    }
  }

  lemma ReplyKeeps(setup: Setup, st: State, plan: Plan, except: int, reply: Reply, nowUs: u64, realtimeUs: u64)
    requires SoundBut(setup, st, plan, except)
    ensures SoundBut(setup, Replied(setup, st, reply, nowUs, realtimeUs), plan, except)
  {
    match AcceptedSerial(setup, st, reply, nowUs, realtimeUs)
    case None =>
    case Some(serial) =>
      var v, w := st.view, SettledAs(st.view, serial, Accepted);
      AcceptedIsLive(setup, st, reply, nowUs, realtimeUs);
      SettlingKeeps(v, serial, Accepted);
      OtherSlots(v, serial);
      forall s: nat | Live(w, s) && s != except
        ensures Covered(setup.pace, plan, w.next, s, At(w, s).sentUs)
      {
        assert Live(v, s) && At(w, s).sentUs == At(v, s).sentUs;
      }
  }

  lemma AcceptedIsLive(setup: Setup, st: State, reply: Reply, nowUs: u64, realtimeUs: u64)
    requires WellFormed(setup, st) && Consistent(st.view)
    requires AcceptedSerial(setup, st, reply, nowUs, realtimeUs).Some?
    ensures var s := AcceptedSerial(setup, st, reply, nowUs, realtimeUs).value;
      Live(st.view, s) && At(st.view, s).pending && st.view.fates[s] == Pending
  {
    var s := AcceptedSerial(setup, st, reply, nowUs, realtimeUs).value;
    assert st.view.ring[Slot(s, |st.view.ring|)].pending;
    assert Live(st.view, s) && OwnsSlot(st.view, s);
  }

  /** What a tick may assume: a clock that has not gone back, and a reading whose lateness is safe. */
  ghost predicate TickAllowed(setup: Setup, st: State, nowUs: u64, send: Send)
    requires WellFormed(setup, st)
  {
    && nowUs >= st.view.clock && st.view.next < U64_MAX
    && (send.clockRead ==> send.readingUs >= nowUs)
    && (send.clockRead && Sends(setup, st, nowUs) ==>
          SafeLateness(setup.pace, send.readingUs - DueFrom(st.nextSendUs, nowUs, setup.pace.spacing)))
  }

  ghost function PlanAfter(setup: Setup, st: State, plan: Plan, nowUs: u64): Plan
    requires WellFormed(setup, st) && |plan.due| == setup.pace.count
  {
    if Sends(setup, st, nowUs) then Sent(setup.pace, plan, PlannedDue(plan, nowUs, setup.pace.spacing)) else plan
  }

  /** At the end of time every request has expired. */
  lemma EndOfTime(setup: Setup, st: State, plan: Plan)
    requires SoundBut(setup, st, plan, -1)
    ensures ExpiredAt(st.view, U64_MAX).expired == st.view.next
  {
    var w := ExpiredAt(st.view, U64_MAX);
    ExpiredKeeps(st.view, U64_MAX);
    ExpiryIsExact(st.view, U64_MAX);
    assert Live(w, w.expired) <==> w.expired < w.next;
  }

  lemma TickKeeps(setup: Setup, st: State, plan: Plan, nowUs: u64, realtimeUs: u64, send: Send)
    requires Sound(setup, st, plan) && TickAllowed(setup, st, nowUs, send)
    ensures !Overwrites(setup, st, nowUs) && !Loses(setup, st, nowUs)
    ensures Sound(setup, Ticked(setup, st, nowUs, realtimeUs, send), PlanAfter(setup, st, plan, nowUs))
  {
    var expired := st.(view := ExpiredAt(st.view, nowUs));
    ExpiringKeeps(setup, st, plan, -1, nowUs);
    ExpiryIsExact(st.view, nowUs);
    NextIsTargets(setup.pace, st, plan);
    if Sends(setup, st, nowUs) {
      RoomToSend(setup, st, plan, -1, nowUs);
      FreeSlotLosesNothing(expired.view);
      if plan.next > U64_MAX { EndOfTime(setup, st, plan); }
      if !send.clockRead {
        OneSpacingIsSafe(setup.pace, 0, nowUs - DueFrom(st.nextSendUs, nowUs, setup.pace.spacing));
        OneSpacingIsSafe(setup.pace, setup.pace.Excess(), nowUs - DueFrom(st.nextSendUs, nowUs, setup.pace.spacing));
      }
      DispatchKeeps(setup, expired, plan, -1, RequestFor(st, nowUs, realtimeUs, send), nowUs, -1);
    }
  }

  /** The session is never due before its next target, so a due tick sends. */
  lemma NextIsTargets(p: Pace, st: State, plan: Plan)
    requires p.Valid() && |st.targets| == p.count && st.nextTarget < |st.targets|
    requires Follows(p, st, plan) && Even(p, plan)
    ensures st.nextSendUs >= st.targets[st.nextTarget].nextSendUs
  {
    assert st.targets[Turn(st.nextTarget, 0, p.count)].nextSendUs == Min(U64_MAX, plan.due[0]);
  }

  // ----- opening

  ghost function OpenedView(capacity: nat, count: nat, nowUs: u64): View
  {
    View(seq(capacity, _ => Request(0, 0, 0, 0, false)), count, 0, 0, 0, [], nowUs)
  }

  ghost predicate Opened(setup: Setup, st: State, nowUs: u64)
  {
    && setup.pace.Valid()
    && st.view == OpenedView(Capacity(setup.pace.spacing), setup.pace.count, nowUs)
    && |st.targets| == setup.pace.count && st.nextTarget == 0 && st.nextSendUs == nowUs
    && forall i :: 0 <= i < |st.targets| ==> st.targets[i].nextSendUs == Min(U64_MAX, nowUs + i * setup.pace.spacing)
  }

  function OpeningPlan(p: Pace, nowUs: u64): Plan
  {
    Plan(nowUs, seq(p.count, i => nowUs + i * p.spacing))
  }

  lemma OpenedIsSound(setup: Setup, st: State, nowUs: u64)
    requires Opened(setup, st, nowUs)
    ensures Sound(setup, st, OpeningPlan(setup.pace, nowUs))
  {
    var p, plan := setup.pace, OpeningPlan(setup.pace, nowUs);
    forall i | 0 <= i < p.count
      ensures plan.due[i] >= nowUs
    {
      MulNonNegative(i, p.spacing);
    }
    OneMore(p.count - 1, p.spacing);
    MulNonNegative(p.count - 1, p.spacing);
    forall i | 0 <= i < p.count - 1
      ensures GapPossible(p, plan.due[i + 1] - plan.due[i] - p.spacing)
    {
      OneMore(i, p.spacing);
    }
    assert plan.due[p.count - 1] == nowUs + (p.count - 1) * p.spacing;
    assert plan.due[0] == nowUs;
  }

  // ----- the session

  /** Some targets, not too many, and each send at least a millisecond from the next. */
  predicate Openable(intervalUs: u64, count: nat)
  {
    0 < count <= MAX_TARGETS && intervalUs / count >= MILLISECOND
  }

  /** Rounded to milliseconds, the period and the spacings of all targets fit 64 bits. */
  predicate PaceFits(intervalUs: u64, count: nat)
    requires Openable(intervalUs, count)
  {
    && RoundedDivide(intervalUs, MILLISECOND) * MILLISECOND <= U64_MAX
    && RoundedDivide(intervalUs, count * MILLISECOND) * MILLISECOND * count <= U64_MAX
  }

  class Session {
    const setup: Setup
    const requests: array<Request>
    var targets: seq<Target>
    var nextTarget: nat
    var nextSerial: u64
    var expiredSerial: u64
    var nextSendUs: u64
    var timeoutCount: nat
    ghost var fates: seq<Fate>
    ghost var clock: u64
    ghost var plan: Plan

    ghost predicate Valid()
      reads this, requests
    {
      Sound(setup, Values(), plan)
    }

    ghost function Values(): State
      reads this, requests
    {
      State(RingValues(), targets, nextTarget, nextSendUs)
    }

    ghost function RingValues(): View
      reads requests, `targets, `expiredSerial, `nextSerial, `timeoutCount, `fates, `clock
    {
      View(requests[..], |targets|, expiredSerial, nextSerial, timeoutCount, fates, clock)
    }

    constructor (mode: Mode, addresses: seq<nat>, intervalUs: u64, token: u64, nowUs: u64)
      requires Openable(intervalUs, |addresses|) && PaceFits(intervalUs, |addresses|)
      ensures Valid() && fresh(requests) && Opened(setup, Values(), nowUs)
      ensures setup.mode == mode && setup.token == token && setup.pace.count == |addresses|
      ensures setup.pace.spacing == RoundedDivide(intervalUs, |addresses| * MILLISECOND) * MILLISECOND
      ensures setup.pace.period ==
        Max(RoundedDivide(intervalUs, MILLISECOND) * MILLISECOND, setup.pace.spacing * |addresses|)
      ensures forall i :: 0 <= i < |targets| ==> targets[i].address == addresses[i] && !targets[i].sendFailed
    {
      var count := |addresses|;
      var spacingMs := RoundedDivide(intervalUs, count * MILLISECOND);
      SpacingFits(intervalUs, count);
      var spacing: u64 := spacingMs * MILLISECOND;
      var periodMs := RoundedDivide(intervalUs, MILLISECOND);
      var period: u64 := Max(periodMs * MILLISECOND, spacing * count);
      setup := Setup(mode, token, Pace(spacing, period, count));
      requests := new Request[Capacity(spacing)](_ => Request(0, 0, 0, 0, false));
      targets := seq(count, i requires 0 <= i < count =>
        MulNonNegative(i, spacing); Target(addresses[i], Min(U64_MAX, nowUs + i * spacing), false));
      nextTarget, nextSerial, expiredSerial := 0, 0, 0;
      nextSendUs, timeoutCount := nowUs, 0;
      fates, clock, plan := [], nowUs, OpeningPlan(Pace(spacing, period, count), nowUs);
      new;
      assert requests[..] == seq(Capacity(spacing), _ => Request(0, 0, 0, 0, false));
      OpenedIsSound(setup, Values(), nowUs);
    }

    /** Settles every request whose deadline has passed, oldest first. */
    method Expire(nowUs: u64)
      requires requests.Length > 0 && Consistent(RingValues())
      modifies this`expiredSerial, this`timeoutCount, this`fates, requests
      ensures RingValues() == ExpiredAt(old(RingValues()), nowUs)
    {
      ghost var before := RingValues();
      while expiredSerial < nextSerial
        invariant requests.Length == |before.ring| && Consistent(RingValues())
        invariant ExpiredAt(RingValues(), nowUs) == ExpiredAt(before, nowUs)
        decreases nextSerial - expiredSerial
      {
        if nowUs < Deadline(requests[Slot(expiredSerial, requests.Length)].sentUs) {
          break;
        }
        OldestExpiredKeeps(RingValues());
        ExpireOldest();
      }
    }

    method ExpireOldest()
      requires requests.Length > 0 && Consistent(RingValues()) && expiredSerial < nextSerial
      modifies this`expiredSerial, this`timeoutCount, this`fates, requests
      ensures RingValues() == OldestExpired(old(RingValues()))
    {
      ghost var v := RingValues();
      var slot := Slot(expiredSerial, requests.Length);
      if requests[slot].pending {
        timeoutCount := timeoutCount + 1;
        requests[slot] := requests[slot].(pending := false);
        fates := fates[expiredSerial := TimedOut];
        assert requests[..] == v.ring[slot := v.ring[slot].(pending := false)];
      }
      expiredSerial := expiredSerial + 1;
    }

    /**
     At most one send, once both the session and the next target are due. The send's
     clock reading may be late by anything that is safe.
     */
    method Tick(nowUs: u64, realtimeUs: u64, send: Send) returns (failed: bool)
      requires Valid() && TickAllowed(setup, Values(), nowUs, send)
      modifies this, requests
      ensures Valid() && Values() == Ticked(setup, old(Values()), nowUs, realtimeUs, send)
      ensures failed <==> old(Sends(setup, Values(), nowUs)) && !(send.clockRead && send.delivered)
      ensures !old(Overwrites(setup, Values(), nowUs)) && !old(Loses(setup, Values(), nowUs))
    {
      ghost var st := Values();
      TickKeeps(setup, st, plan, nowUs, realtimeUs, send);
      plan := PlanAfter(setup, st, plan, nowUs);
      failed := Fire(nowUs, realtimeUs, send);
    }

    /** The tick itself, which asks nothing of the schedule. */
    method Fire(nowUs: u64, realtimeUs: u64, send: Send) returns (failed: bool)
      requires WellFormed(setup, Values()) && Consistent(RingValues()) && nextSerial < U64_MAX
      modifies this`targets, this`nextTarget, this`nextSerial, this`expiredSerial, this`nextSendUs, this`timeoutCount,
               this`fates, this`clock, requests
      ensures Values() == Ticked(setup, old(Values()), nowUs, realtimeUs, send)
      ensures failed <==> old(Sends(setup, Values(), nowUs)) && !(send.clockRead && send.delivered)
    {
      Expire(nowUs);
      if nowUs < nextSendUs {
        return false;
      }
      var target := targets[nextTarget];
      if nowUs < target.nextSendUs {
        nextSendUs := target.nextSendUs;
        return false;
      }
      var dueUs := if nowUs - nextSendUs >= setup.pace.spacing then nowUs else nextSendUs;
      failed := !(send.clockRead && send.delivered);
      StoreAndSchedule(Request(nextSerial, if send.clockRead then send.readingUs else nowUs,
                               MidnightMs(realtimeUs), nextTarget, !failed), dueUs);
    }

    /** Stores a sent request and schedules its target's next send and the session's. */
    method StoreAndSchedule(request: Request, dueUs: u64)
      requires WellFormed(setup, Values()) && nextSerial < U64_MAX && requests.Length > 0
      modifies this`targets, this`nextTarget, this`nextSerial, this`nextSendUs, this`timeoutCount, this`fates,
               this`clock,
               requests
      ensures Values() == Dispatched(setup, old(Values()), request, dueUs)
    {
      ghost var st := Values();
      requests[Slot(nextSerial, requests.Length)] := request;
      fates := fates + [if request.pending then Pending else TimedOut];
      clock := if request.sentUs > clock then request.sentUs else clock;
      if !request.pending {
        timeoutCount := timeoutCount + 1;
      }
      targets := targets[nextTarget := targets[nextTarget].(
        nextSendUs := SaturatingAdd(dueUs, setup.pace.period), sendFailed := !request.pending)];
      nextSerial := nextSerial + 1;
      nextTarget := (nextTarget + 1) % |targets|;
      nextSendUs := Max(SaturatingAdd(dueUs, setup.pace.spacing), targets[nextTarget].nextSendUs);
      assert RingValues() == SentAs(st.view, request);
    }

    /** A reply is taken exactly when it answers a live request, which it then settles. */
    method Accept(reply: Reply, nowUs: u64, realtimeUs: u64) returns (sample: Option<Sample>)
      requires Valid()
      modifies this`fates, requests
      ensures Valid() && Values() == Replied(setup, old(Values()), reply, nowUs, realtimeUs)
      ensures forall s: nat :: old(Answers(setup, Values(), s, reply, nowUs, realtimeUs)) ==>
        && sample == Some(SampleFor(old(At(Values().view, s)), |targets|, setup.mode, reply, nowUs, realtimeUs))
        && Measures(sample.value, old(At(Values().view, s)), |targets|, setup.mode, reply, nowUs, realtimeUs)
      ensures sample.Some? ==> exists s: nat :: old(Answers(setup, Values(), s, reply, nowUs, realtimeUs))
    {
      ghost var st := Values();
      ReplyKeeps(setup, st, plan, -1, reply, nowUs, realtimeUs);
      CapacityBounds(setup.pace.spacing);
      AnswersAre(setup, st, reply, nowUs, realtimeUs);
      if nextSerial == 0 {
        return None;
      }
      var serial: int := nextSerial - 1;
      var age := (serial % SEQUENCES - reply.sequence) % SEQUENCES;
      if age > serial {
        return None;
      }
      serial := serial - age;
      var slot := Slot(serial, requests.Length);
      var request := requests[slot];
      if !request.pending || request.serial != serial || nowUs >= Deadline(request.sentUs) {
        return None;
      }
      PendingHasTarget(st.view, slot);
      if targets[request.target].address != reply.source {
        return None;
      }
      if (if setup.mode.Timestamp? then reply.originateMs != request.originateMs
          else reply.token != setup.token || reply.serial != serial) {
        return None;
      }
      var receivedUs := ResponseMonotonicUs(realtimeUs, nowUs, reply.realtimeUs);
      if receivedUs < request.sentUs || reply.realtimeUs > realtimeUs {
        return None;
      }
      assert AcceptedSerial(setup, st, reply, nowUs, realtimeUs) == Some(serial);
      SampleMeasures(request, |targets|, setup.mode, reply, nowUs, realtimeUs);
      sample := Some(SampleFor(request, |targets|, setup.mode, reply, nowUs, realtimeUs));
      requests[slot] := request.(pending := false);
      fates := fates[serial := Accepted];
      assert requests[..] == SettledAs(st.view, serial, Accepted).ring;
    }
  }

  lemma AnswersAre(setup: Setup, st: State, reply: Reply, nowUs: u64, realtimeUs: u64)
    requires WellFormed(setup, st) && Consistent(st.view) && |st.view.ring| <= SEQUENCES
    ensures forall s: nat :: Answers(setup, st, s, reply, nowUs, realtimeUs) <==>
      AcceptedSerial(setup, st, reply, nowUs, realtimeUs) == Some(s)
  {
    forall s: nat
      ensures Answers(setup, st, s, reply, nowUs, realtimeUs) <==>
        AcceptedSerial(setup, st, reply, nowUs, realtimeUs) == Some(s)
    {
      AcceptedIffAnswers(setup, st, reply, nowUs, realtimeUs, s);
    }
  }

  lemma PendingHasTarget(v: View, slot: nat)
    requires Consistent(v) && slot < |v.ring| && v.ring[slot].pending
    ensures v.ring[slot].target < v.targetCount
  {
    assert Live(v, v.ring[slot].serial) && OwnsSlot(v, v.ring[slot].serial);
  }

  /** Whether the ring, randomness, addresses and sockets an opening needs could be had. */
  datatype Resources = Resources(ring: bool, random: bool, addresses: bool, sockets: bool)
  {
    predicate Had() { ring && random && addresses && sockets }
  }

  /** Opens a session, unless one is open, the targets and interval are not openable, or something fails. */
  method Open(isOpen: bool, resources: Resources, mode: Mode, addresses: seq<nat>, intervalUs: u64, token: u64,
              nowUs: u64)
    returns (session: Session?)
    requires Openable(intervalUs, |addresses|) ==> PaceFits(intervalUs, |addresses|)
    ensures session == null <==> isOpen || !Openable(intervalUs, |addresses|) || !resources.Had()
    ensures session != null ==> fresh(session) && fresh(session.requests) && session.Valid()
    ensures session != null ==> Opened(session.setup, session.Values(), nowUs)
  {
    if isOpen || |addresses| == 0 || |addresses| > MAX_TARGETS || intervalUs / |addresses| < MILLISECOND {
      return null;
    }
    if !resources.Had() {
      return null;
    }
    session := new Session(mode, addresses, intervalUs, token, nowUs);
  }

  lemma SpacingFits(intervalUs: u64, count: nat)
    requires Openable(intervalUs, count) && PaceFits(intervalUs, count)
    ensures var spacing, period := RoundedDivide(intervalUs, count * MILLISECOND) * MILLISECOND,
                                   RoundedDivide(intervalUs, MILLISECOND) * MILLISECOND;
      && MILLISECOND <= spacing <= spacing * count <= U64_MAX && period <= U64_MAX
      && period - count * spacing <= PERIOD_EXCESS_LIMIT_US && (count == 1 ==> period == spacing)
      && spacing * count == count * spacing
  {
    var spacingMs := RoundedDivide(intervalUs, count * MILLISECOND);
    RoundedDivideNearest(intervalUs, MILLISECOND);
    SpacingNear(intervalUs, count, spacingMs);
    MulMonotone(1, count, spacingMs * MILLISECOND);
  }

  /** Intervals that leave room for rounding always fit. */
  lemma IntervalsFit(intervalUs: u64, count: nat)
    requires Openable(intervalUs, count) && intervalUs <= U64_MAX - PERIOD_EXCESS_LIMIT_US
    ensures PaceFits(intervalUs, count)
  {
    RoundedDivideNearest(intervalUs, MILLISECOND);
    SpacingNear(intervalUs, count, RoundedDivide(intervalUs, count * MILLISECOND));
  }

  lemma SpacingNear(intervalUs: u64, count: nat, spacingMs: int)
    requires Openable(intervalUs, count)
    requires spacingMs == RoundedDivide(intervalUs, count * MILLISECOND)
    ensures spacingMs >= 1
    ensures intervalUs - 32_000 <= spacingMs * MILLISECOND * count <= intervalUs + 32_000
  {
    RoundedDivideNearest(intervalUs, count * MILLISECOND);
    DivisionParts(intervalUs, count);
    MulMonotone(MILLISECOND, intervalUs / count, count);
    ThousandTimes(spacingMs, count);
  }

  lemma ThousandTimes(a: int, b: int)
    ensures a * (b * MILLISECOND) == a * MILLISECOND * b
  {}
}
