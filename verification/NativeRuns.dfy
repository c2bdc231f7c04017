/** Whole runs of a native session: what every run keeps, and exactly which lateness breaks it. */
module NativeRuns {
  import opened Arith
  import opened NativeRing
  import opened NativeSchedule
  import opened NativeSession
  import opened Wrappers
  import Icmp

  datatype Input =
    | Tick(nowUs: u64, realtimeUs: u64, send: Send)
    | Reception(reply: Reply, nowUs: u64, realtimeUs: u64)

  ghost function Next(setup: Setup, st: State, input: Input): (after: State)
    requires WellFormed(setup, st) && st.view.next <= U64_MAX
    ensures WellFormed(setup, after)
  {
    match input
    case Tick(nowUs, realtimeUs, send) => Ticked(setup, st, nowUs, realtimeUs, send)
    case Reception(reply, nowUs, realtimeUs) => Replied(setup, st, reply, nowUs, realtimeUs)
  }

  /** Each tick's clock has not gone back, and readings are no earlier than their tick. */
  ghost predicate Clocked(setup: Setup, st: State, input: Input)
    requires WellFormed(setup, st)
  {
    input.Tick? ==>
      && input.nowUs >= st.view.clock && st.view.next < U64_MAX
      && (input.send.clockRead ==> input.send.readingUs >= input.nowUs)
  }

  /** How late after its due time an input's send reads the clock, when it sends and reads it. */
  ghost function Lateness(setup: Setup, st: State, input: Input): Option<int>
    requires WellFormed(setup, st)
  {
    if input.Tick? && input.send.clockRead && Sends(setup, st, input.nowUs)
    then Some(input.send.readingUs - DueFrom(st.nextSendUs, input.nowUs, setup.pace.spacing)) else None
  }

  /** A run with that clock, every lateness allowed. */
  ghost predicate Run(setup: Setup, st: State, inputs: seq<Input>, allowed: int -> bool)
    requires WellFormed(setup, st)
    decreases |inputs|
  {
    inputs == [] ||
    (&& Clocked(setup, st, inputs[0]) && st.view.next <= U64_MAX
     && (Lateness(setup, st, inputs[0]).Some? ==> allowed(Lateness(setup, st, inputs[0]).value))
     && Run(setup, Next(setup, st, inputs[0]), inputs[1..], allowed))
  }

  ghost function After(setup: Setup, st: State, inputs: seq<Input>, allowed: int -> bool): (after: State)
    requires WellFormed(setup, st) && Run(setup, st, inputs, allowed)
    ensures WellFormed(setup, after)
    decreases |inputs|
  {
    if inputs == [] then st else After(setup, Next(setup, st, inputs[0]), inputs[1..], allowed)
  }

  /** No send of the run uses the slot of a request whose timeout has not passed, answered or not. */
  ghost predicate NeverOverwrites(setup: Setup, st: State, inputs: seq<Input>, allowed: int -> bool)
    requires WellFormed(setup, st) && Run(setup, st, inputs, allowed)
    decreases |inputs|
  {
    inputs == [] ||
    (&& (inputs[0].Tick? ==> !Overwrites(setup, st, inputs[0].nowUs))
     && NeverOverwrites(setup, Next(setup, st, inputs[0]), inputs[1..], allowed))
  }

  /** No send of the run uses a slot whose request is not settled yet. */
  ghost predicate NeverLoses(setup: Setup, st: State, inputs: seq<Input>, allowed: int -> bool)
    requires WellFormed(setup, st) && Run(setup, st, inputs, allowed)
    decreases |inputs|
  {
    inputs == [] ||
    (&& (inputs[0].Tick? ==> !Loses(setup, st, inputs[0].nowUs))
     && NeverLoses(setup, Next(setup, st, inputs[0]), inputs[1..], allowed))
  }

  /** The serials replies were accepted for, in order. */
  ghost function Taken(setup: Setup, st: State, inputs: seq<Input>, allowed: int -> bool): seq<nat>
    requires WellFormed(setup, st) && Run(setup, st, inputs, allowed)
    decreases |inputs|
  {
    if inputs == [] then []
    else TakenBy(setup, st, inputs[0]) + Taken(setup, Next(setup, st, inputs[0]), inputs[1..], allowed)
  }

  ghost function TakenBy(setup: Setup, st: State, input: Input): seq<nat>
    requires WellFormed(setup, st)
  {
    if input.Tick? then []
    else
      match AcceptedSerial(setup, st, input.reply, input.nowUs, input.realtimeUs)
      case Some(serial) => [serial]
      case None => []
  }

  ghost function PlanNext(setup: Setup, st: State, plan: Plan, input: Input): Plan
    requires WellFormed(setup, st) && |plan.due| == setup.pace.count
  {
    if input.Tick? then PlanAfter(setup, st, plan, input.nowUs) else plan
  }

  /** One input keeps a sound session sound, overwrites nothing live, and settles fates only once. */
  lemma InputKeeps(setup: Setup, st: State, plan: Plan, input: Input)
    requires Sound(setup, st, plan) && Clocked(setup, st, input) && st.view.next <= U64_MAX
    requires Lateness(setup, st, input).Some? ==> SafeLateness(setup.pace, Lateness(setup, st, input).value)
    ensures Sound(setup, Next(setup, st, input), PlanNext(setup, st, plan, input))
    ensures input.Tick? ==> !Overwrites(setup, st, input.nowUs) && !Loses(setup, st, input.nowUs)
    ensures Settles(st.view, Next(setup, st, input).view, TakenBy(setup, st, input))
  {
    match input
    case Tick(nowUs, realtimeUs, send) =>
      TickKeeps(setup, st, plan, nowUs, realtimeUs, send);
      ExpirySettles(st.view, nowUs);
      if Sends(setup, st, nowUs) {
        NextIsTargets(setup.pace, st, plan);
        SendSettles(st.view, ExpiredAt(st.view, nowUs), RequestFor(st, nowUs, realtimeUs, send));
      }
    case Reception(reply, nowUs, realtimeUs) =>
      ReplyKeeps(setup, st, plan, -1, reply, nowUs, realtimeUs);
      if AcceptedSerial(setup, st, reply, nowUs, realtimeUs).Some? {
        AcceptedIsLive(setup, st, reply, nowUs, realtimeUs);
        SettlingKeeps(st.view, AcceptedSerial(setup, st, reply, nowUs, realtimeUs).value, Accepted);
      }
  }

  /** Settled fates stay; those taken were pending and are accepted, and nothing else becomes so. */
  ghost predicate Settles(before: View, after: View, taken: seq<nat>)
  {
    && OnlySettles(before.fates, after.fates)
    && CountFate(after.fates, Accepted) == CountFate(before.fates, Accepted) + |taken|
    && forall i :: 0 <= i < |taken| ==>
         && taken[i] < |after.fates| && after.fates[taken[i]] == Accepted
         && (taken[i] < |before.fates| ==> before.fates[taken[i]] == Pending)
  }

  lemma ExpirySettles(v: View, nowUs: u64)
    requires Consistent(v)
    ensures Settles(v, ExpiredAt(v, nowUs), [])
  {
    ExpiryIsExact(v, nowUs);
  }

  lemma SendSettles(v: View, expired: View, request: Request)
    requires Settles(v, expired, []) && |expired.ring| > 0
    ensures Settles(v, SentAs(expired, request), [])
  {
    FateAppends(expired.fates, if request.pending then Pending else TimedOut, Accepted);
  }

  ghost predicate AllDistinct(serials: seq<nat>)
  {
    forall i, j :: 0 <= i < j < |serials| ==> serials[i] != serials[j]
  }

  lemma SettlesJoin(a: View, b: View, c: View, first: seq<nat>, rest: seq<nat>)
    requires Settles(a, b, first) && Settles(b, c, rest)
    requires |first| <= 1 && AllDistinct(rest)
    ensures Settles(a, c, first + rest) && AllDistinct(first + rest)
  {}

  /**
   Over every run whose readings are late by no more than is safe: the session stays
   consistent and on schedule, no send uses a live request's slot, and fates settle once.
   */
  lemma {:induction false} EveryRunKeeps(setup: Setup, st: State, plan: Plan, inputs: seq<Input>, allowed: int -> bool)
    returns (after: Plan)
    requires Sound(setup, st, plan) && Run(setup, st, inputs, allowed)
    requires forall late: int :: allowed(late) ==> SafeLateness(setup.pace, late)
    ensures NeverOverwrites(setup, st, inputs, allowed) && NeverLoses(setup, st, inputs, allowed)
    ensures Sound(setup, After(setup, st, inputs, allowed), after)
    ensures Settles(st.view, After(setup, st, inputs, allowed).view, Taken(setup, st, inputs, allowed))
    ensures AllDistinct(Taken(setup, st, inputs, allowed))
    decreases |inputs|
  {
    if inputs == [] {
      after := plan;
    } else {
      var next := Next(setup, st, inputs[0]);
      InputKeeps(setup, st, plan, inputs[0]);
      after := EveryRunKeeps(setup, next, PlanNext(setup, st, plan, inputs[0]), inputs[1..], allowed);
      SettlesJoin(st.view, next.view, After(setup, st, inputs, allowed).view, TakenBy(setup, st, inputs[0]),
                  Taken(setup, next, inputs[1..], allowed));
    }
  }

  /**
   Over every run of an opened session: room for every send, each request sent is
   exactly one of accepted, timed out or pending, and none is accepted twice.
   */
  lemma EveryRequestHasOneFate(setup: Setup, st: State, openedUs: u64, inputs: seq<Input>, allowed: int -> bool)
    requires Opened(setup, st, openedUs) && WellFormed(setup, st) && Run(setup, st, inputs, allowed)
    requires forall late: int :: allowed(late) ==> SafeLateness(setup.pace, late)
    ensures NeverOverwrites(setup, st, inputs, allowed) && NeverLoses(setup, st, inputs, allowed)
    ensures var v, taken := After(setup, st, inputs, allowed).view, Taken(setup, st, inputs, allowed);
      v.next == |taken| + v.timeoutCount + CountFate(v.fates, Pending) && AllDistinct(taken)
  {
    OpenedIsSound(setup, st, openedUs);
    var plan := EveryRunKeeps(setup, st, OpeningPlan(setup.pace, openedUs), inputs, allowed);
    FatesAddUp(After(setup, st, inputs, allowed).view.fates);
  }

  // ----- a lateness that is not safe breaks a run

  /** Readings within a spacing of their due time, or late by one given amount. */
  function OnTimeOr(p: Pace, late: int): int -> bool
  {
    reading => reading <= p.spacing || reading == late
  }

  /** What the given lateness must be at the send of serial q to have its slot used again too early. */
  ghost predicate Breaks(p: Pace, q: nat, late: int)
    requires p.Valid()
  {
    && Elapsed(p, q) + late < Elapsed(p, q + 1) + p.spacing
    && Elapsed(p, q + Capacity(p.spacing)) < Elapsed(p, q) + late + RESPONSE_TIMEOUT_US
  }

  /** The first send after opening has no excess before the next; the last of the first round has all of it. */
  lemma UnsafeBreaks(p: Pace, late: int) returns (q: nat)
    requires p.Valid() && !SafeLateness(p, late)
    ensures q < p.count && Breaks(p, q, late)
  {
    var capacity, n := Capacity(p.spacing), p.count;
    ElapsedWithinRound(p, 0);
    ElapsedWithinRound(p, n - 1);
    ElapsedRounds(p, 0);
    if !ReadingSafe(p, 0, late) {
      q := 0;
      if n > 1 { ElapsedWithinRound(p, 1); }
    } else {
      q := n - 1;
      ElapsedRounds(p, capacity - 1);
      OneMore(n - 1, p.spacing);
    }
  }

  /** Every send has been on time. */
  ghost predicate Punctual(setup: Setup, st: State, openedUs: u64, sends: nat)
  {
    && setup.pace.Valid() && SoundBut(setup, st, OnTime(setup.pace, openedUs, sends), -1)
    && st.view.next == sends && st.view.clock <= openedUs + Elapsed(setup.pace, sends)
  }

  /** Every send has been on time but the one at q, read late, which is still pending and live. */
  ghost predicate LateAt(setup: Setup, st: State, openedUs: u64, sends: nat, q: nat, late: int)
  {
    var p := setup.pace;
    && p.Valid() && q < sends && SoundBut(setup, st, OnTime(p, openedUs, sends), q)
    && st.view.next == sends && st.view.clock <= openedUs + Max(Elapsed(p, q) + late, Elapsed(p, sends - 1))
    && Live(st.view, q) && At(st.view, q).pending && At(st.view, q).sentUs == openedUs + Elapsed(p, q) + late
  }

  ghost predicate Underway(setup: Setup, st: State, openedUs: u64, sends: nat, q: nat, late: int)
  {
    if sends <= q then Punctual(setup, st, openedUs, sends) else LateAt(setup, st, openedUs, sends, q, late)
  }

  /** Nothing in the first rounds after opening comes near the end of time. */
  ghost predicate Fits(p: Pace, openedUs: u64)
    requires p.Valid()
  {
    openedUs + Elapsed(p, p.count + Capacity(p.spacing)) + p.period + 2 * p.spacing + RESPONSE_TIMEOUT_US <= U64_MAX
  }

  /** A pace, an opening and a lateness for which the send of serial q breaks a run. */
  ghost predicate Scene(p: Pace, openedUs: u64, q: nat, late: int)
  {
    p.Valid() && Fits(p, openedUs) && q < p.count && 0 <= late && Breaks(p, q, late)
  }

  function NowAt(p: Pace, openedUs: u64, k: nat, q: nat, late: int): int
    requires p.count > 0
  {
    openedUs + (if k == q + 1 then Max(Elapsed(p, q) + late, Elapsed(p, k)) else Elapsed(p, k))
  }

  lemma {:induction false} ElapsedMonotone(p: Pace, a: nat, b: nat)
    requires p.Valid() && a <= b
    ensures Elapsed(p, a) <= Elapsed(p, b)
    decreases b - a
  {
    if a == b {
    } else {
      ElapsedGrows(p, a);
      ElapsedMonotone(p, a + 1, b);
    }
  }

  /** Where the clock stands at the tick of serial k. */
  lemma NowIs(p: Pace, openedUs: u64, k: nat, q: nat, late: int)
    requires Scene(p, openedUs, q, late) && k <= q + Capacity(p.spacing)
    ensures var now := NowAt(p, openedUs, k, q, late);
      && 0 <= Elapsed(p, k) <= now - openedUs < Elapsed(p, k) + p.spacing
      && (k > q ==> now - openedUs < Elapsed(p, q) + late + RESPONSE_TIMEOUT_US
                    && now - openedUs >= Max(Elapsed(p, q) + late, Elapsed(p, k - 1)))
      && now + 2 * p.spacing + p.period + RESPONSE_TIMEOUT_US <= U64_MAX + p.spacing
  {
    ElapsedAtLeast(p, k);
    ElapsedMonotone(p, k, q + Capacity(p.spacing));
    ElapsedMonotone(p, q + Capacity(p.spacing), p.count + Capacity(p.spacing));
    if k > q {
      ElapsedMonotone(p, q + 1, k);
      ElapsedGrows(p, q + 1);
      ElapsedGrows(p, k - 1);
      if k > q + 1 { ElapsedMonotone(p, q + 2, k); }
    }
  }

  function InRange(x: int): u64 { Max(0, Min(U64_MAX, x)) }

  function WitnessTick(p: Pace, openedUs: u64, k: nat, q: nat, late: int): Input
    requires p.count > 0
  {
    var now := InRange(NowAt(p, openedUs, k, q, late));
    Tick(now, 0, Send(true, if k == q then InRange(openedUs + Elapsed(p, q) + late) else now, true))
  }

  lemma ReadingFits(p: Pace, openedUs: u64, q: nat, late: int)
    requires Scene(p, openedUs, q, late)
    ensures 0 <= openedUs + Elapsed(p, q) + late <= U64_MAX - RESPONSE_TIMEOUT_US
  {
    ElapsedAtLeast(p, q);
    ElapsedMonotone(p, q + 1, p.count + Capacity(p.spacing));
  }

  lemma PromptIsDue(setup: Setup, st: State, plan: Plan, except: int, nowUs: u64)
    requires SoundBut(setup, st, plan, except)
    requires plan.next <= nowUs < plan.next + setup.pace.spacing && plan.next <= U64_MAX
    requires except >= 0 ==> st.view.next != except + Capacity(setup.pace.spacing)
    ensures Sends(setup, st, nowUs) && DueFrom(st.nextSendUs, nowUs, setup.pace.spacing) == plan.next
    ensures st.view.next < ExpiredAt(st.view, nowUs).expired + |st.view.ring|
  {
    NextIsTargets(setup.pace, st, plan);
    RoomToSend(setup, st, plan, except, nowUs);
  }

  /** A tick within a spacing of its due time sends as planned; its own request may be left uncovered. */
  lemma PromptDispatch(setup: Setup, st: State, plan: Plan, except: int, nowUs: u64, readingUs: u64, exceptNow: int)
    requires SoundBut(setup, st, plan, except) && st.view.next < U64_MAX
    requires plan.next <= nowUs < plan.next + setup.pace.spacing && plan.next <= U64_MAX
    requires nowUs >= st.view.clock && readingUs >= nowUs
    requires except >= 0 ==> st.view.next != except + Capacity(setup.pace.spacing)
    requires (exceptNow == except && readingUs == nowUs) || (exceptNow == st.view.next && except == -1)
    ensures Sends(setup, st, nowUs) && DueFrom(st.nextSendUs, nowUs, setup.pace.spacing) == plan.next
    ensures st.view.next < ExpiredAt(st.view, nowUs).expired + |st.view.ring|
    ensures SoundBut(setup, Ticked(setup, st, nowUs, 0, Send(true, readingUs, true)),
                     Sent(setup.pace, plan, plan.next), exceptNow)
    ensures var after := Ticked(setup, st, nowUs, 0, Send(true, readingUs, true)).view;
      after == SentAs(ExpiredAt(st.view, nowUs), RequestFor(st, nowUs, 0, Send(true, readingUs, true)))
      && after.next == st.view.next + 1 && after.clock == Max(readingUs, st.view.clock)
  {
    var expired := st.(view := ExpiredAt(st.view, nowUs));
    PromptIsDue(setup, st, plan, except, nowUs);
    ExpiringKeeps(setup, st, plan, except, nowUs);
    OneSpacingIsSafe(setup.pace, 0, nowUs - plan.next);
    OneSpacingIsSafe(setup.pace, setup.pace.Excess(), nowUs - plan.next);
    ExpiryIsExact(st.view, nowUs);
    DispatchKeeps(setup, expired, plan, except, RequestFor(st, nowUs, 0, Send(true, readingUs, true)), nowUs,
                  exceptNow);
  }

  /** A request whose deadline has not passed stays pending through a tick that sends. */
  lemma StaysPending(v: View, nowUs: u64, request: Request, q: nat)
    requires Consistent(v) && v.next < ExpiredAt(v, nowUs).expired + |v.ring|
    requires request.serial == v.next && request.target < v.targetCount && request.sentUs >= v.clock
    requires if q == v.next then request.pending
             else Live(v, q) && At(v, q).pending && nowUs < Deadline(At(v, q).sentUs)
    ensures var after := SentAs(ExpiredAt(v, nowUs), request);
      && Live(after, q) && At(after, q).pending
      && At(after, q).sentUs == (if q == v.next then request.sentUs else At(v, q).sentUs)
  {
    var expired := ExpiredAt(v, nowUs);
    ExpiredKeeps(v, nowUs);
    ExpiryIsExact(v, nowUs);
    SendingKeeps(expired, request);
    if q != v.next {
      ExpiryStops(v, q, nowUs);
      assert Live(expired, q);
    }
  }

  /** Such a tick leaves a request pending whose deadline has not passed. */
  lemma PromptPending(setup: Setup, st: State, plan: Plan, except: int, nowUs: u64, readingUs: u64, q: nat)
    requires SoundBut(setup, st, plan, except) && st.view.next < U64_MAX
    requires plan.next <= nowUs < plan.next + setup.pace.spacing && plan.next <= U64_MAX
    requires nowUs >= st.view.clock && readingUs >= nowUs
    requires except >= 0 ==> st.view.next != except + Capacity(setup.pace.spacing)
    requires (q == except && readingUs == nowUs) || (q == st.view.next && except == -1)
    requires q == except ==> Live(st.view, q) && At(st.view, q).pending && nowUs < Deadline(At(st.view, q).sentUs)
    ensures var after := Ticked(setup, st, nowUs, 0, Send(true, readingUs, true));
      && SoundBut(setup, after, Sent(setup.pace, plan, plan.next), q)
      && after.view.next == st.view.next + 1 && after.view.clock == Max(readingUs, st.view.clock)
      && Live(after.view, q) && At(after.view, q).pending
      && At(after.view, q).sentUs == (if q == st.view.next then readingUs else At(st.view, q).sentUs)
    ensures Sends(setup, st, nowUs) && DueFrom(st.nextSendUs, nowUs, setup.pace.spacing) == plan.next
  {
    PromptDispatch(setup, st, plan, except, nowUs, readingUs, q);
    StaysPending(st.view, nowUs, RequestFor(st, nowUs, 0, Send(true, readingUs, true)), q);
  }

  /** A tick of the run that is read on time, or late by the given amount. */
  ghost predicate StepsTo(setup: Setup, st: State, input: Input, late: int)
    requires WellFormed(setup, st)
  {
    && Clocked(setup, st, input) && st.view.next <= U64_MAX
    && (Lateness(setup, st, input).Some? ==> OnTimeOr(setup.pace, late)(Lateness(setup, st, input).value))
  }

  lemma TickSteps(setup: Setup, st: State, nowUs: u64, readingUs: u64, dueUs: int, late: int)
    requires WellFormed(setup, st) && nowUs >= st.view.clock && readingUs >= nowUs && st.view.next < U64_MAX
    requires Sends(setup, st, nowUs) && DueFrom(st.nextSendUs, nowUs, setup.pace.spacing) == dueUs
    requires readingUs - dueUs <= setup.pace.spacing || readingUs - dueUs == late
    ensures var input := Tick(nowUs, 0, Send(true, readingUs, true));
      && StepsTo(setup, st, input, late)
      && Next(setup, st, input) == Ticked(setup, st, nowUs, 0, Send(true, readingUs, true))
  {}

  lemma PunctualStep(setup: Setup, st: State, openedUs: u64, k: nat, q: nat, late: int)
    requires Punctual(setup, st, openedUs, k) && Scene(setup.pace, openedUs, q, late) && k < q
    ensures StepsTo(setup, st, WitnessTick(setup.pace, openedUs, k, q, late), late)
    ensures Punctual(setup, Next(setup, st, WitnessTick(setup.pace, openedUs, k, q, late)), openedUs, k + 1)
  {
    var p, now, due := setup.pace, InRange(NowAt(setup.pace, openedUs, k, q, late)), openedUs + Elapsed(setup.pace, k);
    NowIs(p, openedUs, k, q, late);
    ElapsedGrows(p, k);
    OnTimeAdvances(p, openedUs, k);
    PromptDispatch(setup, st, OnTime(p, openedUs, k), -1, now, now, -1);
    TickSteps(setup, st, now, now, due, late);
  }

  lemma LateSend(setup: Setup, st: State, openedUs: u64, q: nat, late: int, due: u64, reading: u64)
    requires Punctual(setup, st, openedUs, q) && Scene(setup.pace, openedUs, q, late)
    requires due == openedUs + Elapsed(setup.pace, q) && reading == due + late
    ensures Sends(setup, st, due) && DueFrom(st.nextSendUs, due, setup.pace.spacing) == due
    ensures LateAt(setup, Ticked(setup, st, due, 0, Send(true, reading, true)), openedUs, q + 1, q, late)
  {
    NowIs(setup.pace, openedUs, q, q, late);
    OnTimeAdvances(setup.pace, openedUs, q);
    PromptPending(setup, st, OnTime(setup.pace, openedUs, q), -1, due, reading, q);
  }

  lemma LateStep(setup: Setup, st: State, openedUs: u64, q: nat, late: int)
    requires Punctual(setup, st, openedUs, q) && Scene(setup.pace, openedUs, q, late)
    ensures StepsTo(setup, st, WitnessTick(setup.pace, openedUs, q, q, late), late)
    ensures LateAt(setup, Next(setup, st, WitnessTick(setup.pace, openedUs, q, q, late)), openedUs, q + 1, q, late)
  {
    var due := openedUs + Elapsed(setup.pace, q);
    NowIs(setup.pace, openedUs, q, q, late);
    ReadingFits(setup.pace, openedUs, q, late);
    LateSend(setup, st, openedUs, q, late, due, due + late);
    TickSteps(setup, st, due, due + late, due, late);
  }

  lemma LaterSend(setup: Setup, st: State, openedUs: u64, k: nat, q: nat, late: int, now: u64, due: u64)
    requires LateAt(setup, st, openedUs, k, q, late) && Scene(setup.pace, openedUs, q, late)
    requires k < q + Capacity(setup.pace.spacing)
    requires now == NowAt(setup.pace, openedUs, k, q, late) && due == openedUs + Elapsed(setup.pace, k)
    ensures Sends(setup, st, now) && DueFrom(st.nextSendUs, now, setup.pace.spacing) == due
    ensures LateAt(setup, Ticked(setup, st, now, 0, Send(true, now, true)), openedUs, k + 1, q, late)
  {
    CapacityBounds(setup.pace.spacing);
    NowIs(setup.pace, openedUs, k, q, late);
    ReadingFits(setup.pace, openedUs, q, late);
    OnTimeAdvances(setup.pace, openedUs, k);
    PromptPending(setup, st, OnTime(setup.pace, openedUs, k), q, now, now, q);
  }

  lemma LaterStep(setup: Setup, st: State, openedUs: u64, k: nat, q: nat, late: int)
    requires LateAt(setup, st, openedUs, k, q, late) && Scene(setup.pace, openedUs, q, late)
    requires k < q + Capacity(setup.pace.spacing)
    ensures StepsTo(setup, st, WitnessTick(setup.pace, openedUs, k, q, late), late)
    ensures LateAt(setup, Next(setup, st, WitnessTick(setup.pace, openedUs, k, q, late)), openedUs, k + 1, q, late)
  {
    NowIs(setup.pace, openedUs, k, q, late);
    CapacityBounds(setup.pace.spacing);
    var now, due := NowAt(setup.pace, openedUs, k, q, late), openedUs + Elapsed(setup.pace, k);
    LaterSend(setup, st, openedUs, k, q, late, now, due);
    TickSteps(setup, st, now, now, due, late);
  }

  /** From there a run overwrites the live request. */
  lemma {:induction false} WitnessFrom(setup: Setup, st: State, openedUs: u64, k: nat, q: nat, late: int)
    returns (inputs: seq<Input>)
    requires WellFormed(setup, st) && Scene(setup.pace, openedUs, q, late) && k <= q + Capacity(setup.pace.spacing)
    requires Underway(setup, st, openedUs, k, q, late)
    ensures Run(setup, st, inputs, OnTimeOr(setup.pace, late))
    ensures !NeverLoses(setup, st, inputs, OnTimeOr(setup.pace, late))
    decreases q + Capacity(setup.pace.spacing) - k
  {
    var input := WitnessTick(setup.pace, openedUs, k, q, late);
    if k == q + Capacity(setup.pace.spacing) {
      inputs := [input];
      FullOfLive(setup, st, openedUs, q, late);
    } else {
      if k < q { PunctualStep(setup, st, openedUs, k, q, late); }
      else if k == q { LateStep(setup, st, openedUs, q, late); }
      else { LaterStep(setup, st, openedUs, k, q, late); }
      var rest := WitnessFrom(setup, Next(setup, st, input), openedUs, k + 1, q, late);
      inputs := [input] + rest;
      FirstInput(setup, st, input, rest, late);
    }
  }

  lemma FirstInput(setup: Setup, st: State, input: Input, rest: seq<Input>, late: int)
    requires WellFormed(setup, st) && StepsTo(setup, st, input, late)
    requires Run(setup, Next(setup, st, input), rest, OnTimeOr(setup.pace, late))
    requires !NeverLoses(setup, Next(setup, st, input), rest, OnTimeOr(setup.pace, late))
    ensures Run(setup, st, [input] + rest, OnTimeOr(setup.pace, late))
    ensures !NeverLoses(setup, st, [input] + rest, OnTimeOr(setup.pace, late))
  {
    assert ([input] + rest)[1..] == rest;
  }

  lemma FullOfLive(setup: Setup, st: State, openedUs: u64, q: nat, late: int)
    requires WellFormed(setup, st) && Scene(setup.pace, openedUs, q, late)
    requires Underway(setup, st, openedUs, q + Capacity(setup.pace.spacing), q, late)
    ensures var input := WitnessTick(setup.pace, openedUs, q + Capacity(setup.pace.spacing), q, late);
      && Run(setup, st, [input], OnTimeOr(setup.pace, late))
      && !NeverLoses(setup, st, [input], OnTimeOr(setup.pace, late))
  {
    var p, k := setup.pace, q + Capacity(setup.pace.spacing);
    var input := WitnessTick(p, openedUs, k, q, late);
    CapacityBounds(p.spacing);
    NowIs(p, openedUs, k, q, late);
    NextIsTargets(p, st, OnTime(p, openedUs, k));
    ExpiryStops(st.view, q, input.nowUs);
    LateIsLost(setup, st, q, input.nowUs);
  }

  /** A full ring sends into the slot of its oldest request, which is still pending. */
  lemma LateIsLost(setup: Setup, st: State, q: nat, nowUs: u64)
    requires WellFormed(setup, st) && Consistent(st.view) && Live(st.view, q) && At(st.view, q).pending
    requires st.view.next == q + |st.view.ring| && Sends(setup, st, nowUs) && nowUs < Deadline(At(st.view, q).sentUs)
    ensures Loses(setup, st, nowUs) && Overwrites(setup, st, nowUs)
  {
    ExpiryStops(st.view, q, nowUs);
    ExpiryIsExact(st.view, nowUs);
    SameSlot(q, |st.view.ring|);
  }

  lemma SameSlot(serial: nat, capacity: nat)
    requires capacity > 0
    ensures Slot(serial + capacity, capacity) == Slot(serial, capacity)
  {
    DivisionParts(serial, capacity);
    DivisionParts(serial + capacity, capacity);
    QuotientSplits(1, serial, capacity);
    OneMore(serial / capacity, capacity);
  }

  lemma OpenedIsUnderway(setup: Setup, st: State, openedUs: u64, q: nat, late: int)
    requires Opened(setup, st, openedUs) && WellFormed(setup, st)
    ensures Underway(setup, st, openedUs, 0, q, late)
  {
    var p, plan := setup.pace, OpeningPlan(setup.pace, openedUs);
    OpenedIsSound(setup, st, openedUs);
    ElapsedWithinRound(p, 0);
    forall i | 0 <= i < p.count
      ensures plan.due[i] == OnTime(p, openedUs, 0).due[i]
    {
      ElapsedWithinRound(p, i);
    }
    assert plan == OnTime(p, openedUs, 0);
  }

  lemma SafeNeverLoses(setup: Setup, st: State, openedUs: u64, late: nat, inputs: seq<Input>)
    requires Opened(setup, st, openedUs) && WellFormed(setup, st) && SafeLateness(setup.pace, late)
    requires Run(setup, st, inputs, OnTimeOr(setup.pace, late))
    ensures NeverOverwrites(setup, st, inputs, OnTimeOr(setup.pace, late))
    ensures NeverLoses(setup, st, inputs, OnTimeOr(setup.pace, late))
  {
    var p := setup.pace;
    forall reading: int | OnTimeOr(p, late)(reading)
      ensures SafeLateness(p, reading)
    {
      if reading <= p.spacing {
        OneSpacingIsSafe(p, 0, reading);
        OneSpacingIsSafe(p, p.Excess(), reading);
      }
    }
    EveryRequestHasOneFate(setup, st, openedUs, inputs, OnTimeOr(p, late));
  }

  /**
   Exactly the safe latenesses are harmless: runs of an opened session whose readings are
   on time, or late by one given amount, never send into the slot of a request still
   waited for if and only if that amount is safe. A safe amount keeps even the slots of
   answered requests until their timeout.
   */
  lemma LatenessIsSafeIff(setup: Setup, st: State, openedUs: u64, late: nat)
    requires Opened(setup, st, openedUs) && WellFormed(setup, st) && Fits(setup.pace, openedUs)
    ensures (forall inputs: seq<Input> | Run(setup, st, inputs, OnTimeOr(setup.pace, late)) ::
               NeverLoses(setup, st, inputs, OnTimeOr(setup.pace, late)))
       <==> SafeLateness(setup.pace, late)
    ensures SafeLateness(setup.pace, late) ==>
      forall inputs: seq<Input> | Run(setup, st, inputs, OnTimeOr(setup.pace, late)) ::
        NeverOverwrites(setup, st, inputs, OnTimeOr(setup.pace, late))
  {
    var p := setup.pace;
    if SafeLateness(p, late) {
      forall inputs: seq<Input> | Run(setup, st, inputs, OnTimeOr(p, late))
        ensures NeverLoses(setup, st, inputs, OnTimeOr(p, late))
        ensures NeverOverwrites(setup, st, inputs, OnTimeOr(p, late))
      {
        SafeNeverLoses(setup, st, openedUs, late, inputs);
      }
    } else {
      var q := UnsafeBreaks(p, late);
      OpenedIsUnderway(setup, st, openedUs, q, late);
      var inputs := WitnessFrom(setup, st, openedUs, 0, q, late);
      assert !NeverLoses(setup, st, inputs, OnTimeOr(p, late));
    }
  }

  /** How late a send may be before the ring, which covers the timeout by this much, comes round too early. */
  function Slack(spacing: u64): int
    requires spacing >= MILLISECOND
  {
    Capacity(spacing) * spacing - RESPONSE_TIMEOUT_US
  }

  /**
   What is unsafe, in closed form: later than the slack, with a period's excess for each
   round the ring spans, and yet too early for the next send to start the schedule over.
   */
  lemma SafeLatenessIs(p: Pace, late: int)
    requires p.Valid()
    ensures var capacity, e := Capacity(p.spacing), p.Excess();
      SafeLateness(p, late) <==>
        && !(Slack(p.spacing) + capacity / p.count * e < late < 2 * p.spacing)
        && !(Slack(p.spacing) + (capacity + p.count - 1) / p.count * e < late < 2 * p.spacing + e)
    ensures p.Excess() == 0 ==> (SafeLateness(p, late) <==> late <= Slack(p.spacing) || late >= 2 * p.spacing)
    ensures p.spacing < Slack(p.spacing) <= 2 * p.spacing
  {
    var capacity, e := Capacity(p.spacing), p.Excess();
    CapacityBounds(p.spacing);
    ElapsedGrows(p, capacity - 1);
    QuotientSplits(1, capacity - 1, p.count);
    OneMore(capacity - 1, p.spacing);
    OneMore((capacity - 1) / p.count, e);
  }

  // ----- a request as it goes and as it comes back

  /** The reply to a request still waited for, as its target sends it, is accepted for it. */
  lemma AnswerIsAccepted(setup: Setup, st: State, plan: Plan, s: nat, family: Icmp.Family, identifier: u16,
                         receiveMs: u32, transmitMs: u32, replyUs: u64, nowUs: u64, realtimeUs: u64)
    requires Sound(setup, st, plan) && st.view.next <= U64_MAX
    requires Live(st.view, s) && At(st.view, s).pending && nowUs < Deadline(At(st.view, s).sentUs)
    requires At(st.view, s).sentUs <= ResponseMonotonicUs(realtimeUs, nowUs, replyUs) && replyUs <= realtimeUs
    ensures OwnsSlot(st.view, s)
    ensures var request := At(st.view, s);
      var sent := Icmp.Built(family, setup.mode, identifier, s % SEQUENCES, setup.token, request.serial,
                             request.originateMs);
      var parsed := Icmp.MessageReply(Icmp.Answer(sent, family, setup.mode, receiveMs, transmitMs),
                                      family, setup.mode, identifier);
      && parsed.Some?
      && AcceptedSerial(setup, st,
           Reply(st.targets[request.target].address, parsed.value.sequence, parsed.value.token, parsed.value.serial,
                 parsed.value.originateMs, parsed.value.receiveMs, parsed.value.transmitMs, replyUs),
           nowUs, realtimeUs) == Some(s)
  {
    assert OwnsSlot(st.view, s);
    var request := At(st.view, s);
    CapacityBounds(setup.pace.spacing);
    Icmp.AnswerCarriesRequest(family, setup.mode, identifier, s % SEQUENCES, setup.token, request.serial,
                              request.originateMs, receiveMs, transmitMs);
    SequenceNamesSerial(st.view.next, s % SEQUENCES, s);
  }
}
