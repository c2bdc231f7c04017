/**
 What a native session sends and to whom: each request's fields, the targets in turn, and
 exactly which replies are taken for which request.
 */
module NativeTurns {
  import opened Arith
  import opened NativeRing
  import opened NativeSchedule
  import opened NativeSession
  import opened NativeRuns
  import opened Wrappers

  // ----- one send

  /**
   A tick that sends stores the next request: its serial, the clock as read for it or the
   tick's, the time of day in milliseconds, its target; waited for if it was delivered. The
   target's next send is a period and the session's a spacing after the due time, or that
   target's later one; the turn passes on.
   */
  lemma TickSends(setup: Setup, st: State, nowUs: u64, realtimeUs: u64, send: Send)
    requires WellFormed(setup, st) && st.view.next <= U64_MAX && Sends(setup, st, nowUs)
    ensures var after, count := Ticked(setup, st, nowUs, realtimeUs, send), |st.targets|;
      var dueUs: int := if nowUs >= st.nextSendUs + setup.pace.spacing then nowUs else st.nextSendUs;
      && after.view.next == st.view.next + 1 && |after.view.ring| == |st.view.ring|
      && At(after.view, st.view.next) ==
         Request(st.view.next, if send.clockRead then send.readingUs else nowUs, realtimeUs / 1000 % 86_400_000,
                 st.nextTarget, send.clockRead && send.delivered)
      && after.nextTarget == (if st.nextTarget == count - 1 then 0 else st.nextTarget + 1)
      && |after.targets| == count
      && (forall i :: 0 <= i < count && i != st.nextTarget ==> after.targets[i] == st.targets[i])
      && after.targets[st.nextTarget] ==
         Target(st.targets[st.nextTarget].address, Min(dueUs + setup.pace.period, U64_MAX),
                !(send.clockRead && send.delivered))
      && after.nextSendUs == Max(Min(dueUs + setup.pace.spacing, U64_MAX), after.targets[after.nextTarget].nextSendUs)
  {
    ExpiryKeepsRing(st.view, nowUs);
    NextTurn(st.nextTarget, |st.targets|);
  }

  lemma NextTurn(turn: nat, count: nat)
    requires turn < count
    ensures (turn + 1) % count == if turn == count - 1 then 0 else turn + 1
  {
    if turn < count - 1 { QuotientIs(turn + 1, count, 0); } else { QuotientIs(count, count, 1); }
    DivisionParts(turn + 1, count);
  }

  lemma {:induction false} ExpiryKeepsRing(v: View, nowUs: u64)
    requires Shaped(v)
    ensures |ExpiredAt(v, nowUs).ring| == |v.ring|
    ensures forall i :: 0 <= i < |v.ring| ==>
      ExpiredAt(v, nowUs).ring[i].(pending := v.ring[i].pending) == v.ring[i]
      && (ExpiredAt(v, nowUs).ring[i].pending ==> v.ring[i].pending)
    decreases v.next - v.expired
  {
    if v.expired >= v.next || nowUs < Deadline(At(v, v.expired).sentUs) {
    } else {
      ExpiryKeepsRing(OldestExpired(v), nowUs);
    }
  }

  /** A tick that does not send only expires, and leaves the targets and their turn alone. */
  lemma TickRests(setup: Setup, st: State, nowUs: u64, realtimeUs: u64, send: Send)
    requires WellFormed(setup, st) && st.view.next <= U64_MAX && !Sends(setup, st, nowUs)
    ensures var after := Ticked(setup, st, nowUs, realtimeUs, send);
      && after.view == ExpiredAt(st.view, nowUs) && after.view.next == st.view.next
      && after.targets == st.targets && after.nextTarget == st.nextTarget
      && after.nextSendUs ==
         (if nowUs < st.nextSendUs then st.nextSendUs else st.targets[st.nextTarget].nextSendUs)
  {}

  // ----- whose turn

  /** The next request is for the target whose turn its serial is, and so is each one waited for. */
  ghost predicate InTurn(setup: Setup, st: State)
    requires WellFormed(setup, st)
  {
    && st.nextTarget == st.view.next % |st.targets|
    && forall i :: 0 <= i < |st.view.ring| && st.view.ring[i].pending ==> RequestInTurn(st.view.ring[i], |st.targets|)
  }

  predicate RequestInTurn(request: Request, count: nat)
    requires count > 0
  {
    request.target == request.serial % count
  }

  lemma TurnPasses(next: nat, count: nat)
    requires count > 0
    ensures (next + 1) % count == if next % count == count - 1 then 0 else next % count + 1
  {
    DivisionParts(next, count);
    DivisionParts(next + 1, count);
    if next % count == count - 1 {
      OneMore(next / count, count);
      QuotientIs(next + 1, count, next / count + 1);
    } else {
      QuotientIs(next + 1, count, next / count);
    }
  }

  lemma TickKeepsTurn(setup: Setup, st: State, nowUs: u64, realtimeUs: u64, send: Send)
    requires WellFormed(setup, st) && st.view.next <= U64_MAX && InTurn(setup, st)
    ensures InTurn(setup, Ticked(setup, st, nowUs, realtimeUs, send))
  {
    var after := Ticked(setup, st, nowUs, realtimeUs, send);
    ExpiryKeepsRing(st.view, nowUs);
    if Sends(setup, st, nowUs) {
      NextTurn(st.nextTarget, |st.targets|);
      TurnPasses(st.view.next, |st.targets|);
      forall i | 0 <= i < |after.view.ring| && after.view.ring[i].pending
        ensures RequestInTurn(after.view.ring[i], |st.targets|)
      {
        if i != Slot(st.view.next, |st.view.ring|) { assert RequestInTurn(st.view.ring[i], |st.targets|); }
      }
    } else {
      forall i | 0 <= i < |after.view.ring| && after.view.ring[i].pending
        ensures RequestInTurn(after.view.ring[i], |st.targets|)
      {
        assert RequestInTurn(st.view.ring[i], |st.targets|);
      }
    }
  }

  /** Over every run of an opened session, the requests go to the targets in turn. */
  lemma {:induction false} TargetsTakeTurns(setup: Setup, st: State, inputs: seq<Input>, allowed: int -> bool)
    requires WellFormed(setup, st) && InTurn(setup, st) && Run(setup, st, inputs, allowed)
    ensures InTurn(setup, After(setup, st, inputs, allowed))
    decreases |inputs|
  {
    if inputs == [] {
    } else {
      if inputs[0].Tick? {
        TickKeepsTurn(setup, st, inputs[0].nowUs, inputs[0].realtimeUs, inputs[0].send);
      }
      TargetsTakeTurns(setup, Next(setup, st, inputs[0]), inputs[1..], allowed);
    }
  }

  lemma OpenedInTurn(setup: Setup, st: State, openedUs: u64)
    requires Opened(setup, st, openedUs) && WellFormed(setup, st)
    ensures InTurn(setup, st)
  {}

  // ----- which replies are taken

  /**
   A reply answers a live request if and only if it comes from that request's target, with its
   sequence, within ten seconds; carries the time a timestamp request was sent with, or the
   session's token and an echo's own serial; and arrived neither in the future nor before the
   request was sent, its wait here subtracted.
   */
  lemma AnswersIff(setup: Setup, st: State, s: nat, reply: Reply, nowUs: u64, realtimeUs: u64)
    requires WellFormed(setup, st) && Consistent(st.view) && Live(st.view, s)
    requires st.view.targetCount == |st.targets|
    ensures OwnsSlot(st.view, s)
    ensures var request := At(st.view, s);
      Answers(setup, st, s, reply, nowUs, realtimeUs) <==>
        && st.view.fates[s] == Pending && (s - reply.sequence) % 0x1_0000 == 0
        && reply.source == st.targets[request.target].address
        && nowUs - request.sentUs < 10_000_000 && nowUs < U64_MAX
        && (setup.mode.Timestamp? ==> reply.originateMs == request.originateMs)
        && (setup.mode.Echo? ==> reply.token == setup.token && reply.serial == s)
        && reply.realtimeUs <= realtimeUs && Max(0, nowUs - (realtimeUs - reply.realtimeUs)) >= request.sentUs
  {
    assert OwnsSlot(st.view, s);
    SameSequence(s, reply.sequence);
  }

  lemma SameSequence(s: nat, sequence: u16)
    ensures s % SEQUENCES == sequence <==> (s - sequence) % 0x1_0000 == 0
  {}
}
