/**
 What the injector's runs mean: one count for every handshake that is settled or
 worked, which later counts are still possible, and what a stall changes.
 */
module InjectRuns {
  import opened Arith
  import opened Clock32
  import opened Inject
  import opened Wrappers

  // ----- what a run means for one flow

  /** The injection a flow is on: the place of the last one marked for it, or nothing. */
  ghost function LastInjected(marks: seq<Mark>, flow: Flow): (r: Option<nat>)
    ensures r.Some? ==> r.value < |marks| && IsInjection(marks[r.value], flow)
    ensures forall k :: (if r.Some? then r.value else -1) < k < |marks| ==> !IsInjection(marks[k], flow)
  {
    if marks == [] then None
    else if IsInjection(marks[|marks| - 1], flow) then Some(|marks| - 1)
    else
      var r := LastInjected(marks[..|marks| - 1], flow);
      assert forall k :: 0 <= k < |marks| - 1 ==> marks[k] == marks[..|marks| - 1][k];
      r
  }

  predicate IsInjection(mark: Mark, flow: Flow) { mark.Injected? && mark.flow == flow }

  predicate IsSettled(mark: Mark, flow: Flow) { (mark.Refused? || mark.Stalled?) && mark.flow == flow }

  predicate IsWorked(mark: Mark, flow: Flow) { mark.Worked? && mark.flow == flow }

  /** The injections marked for a flow; those counted refused or stalled; those counted as having worked. */
  ghost function CountInjected(marks: seq<Mark>, flow: Flow): nat
  {
    if marks == [] then 0
    else CountInjected(marks[..|marks| - 1], flow) + (if IsInjection(marks[|marks| - 1], flow) then 1 else 0)
  }

  ghost function CountSettled(marks: seq<Mark>, flow: Flow): nat
  {
    if marks == [] then 0
    else CountSettled(marks[..|marks| - 1], flow) + (if IsSettled(marks[|marks| - 1], flow) then 1 else 0)
  }

  ghost function CountWorked(marks: seq<Mark>, flow: Flow): nat
  {
    if marks == [] then 0
    else CountWorked(marks[..|marks| - 1], flow) + (if IsWorked(marks[|marks| - 1], flow) then 1 else 0)
  }

  /** Refusals and stalls counted for a flow since its last injection. */
  ghost function SettledSince(marks: seq<Mark>, flow: Flow): nat
  {
    if marks == [] then 0
    else if IsInjection(marks[|marks| - 1], flow) then 0
    else SettledSince(marks[..|marks| - 1], flow) + (if IsSettled(marks[|marks| - 1], flow) then 1 else 0)
  }

  lemma CountsGrow(marks: seq<Mark>, mark: Mark, flow: Flow)
    ensures CountInjected(marks + [mark], flow) ==
      CountInjected(marks, flow) + (if IsInjection(mark, flow) then 1 else 0)
    ensures CountSettled(marks + [mark], flow) == CountSettled(marks, flow) + (if IsSettled(mark, flow) then 1 else 0)
    ensures CountWorked(marks + [mark], flow) == CountWorked(marks, flow) + (if IsWorked(mark, flow) then 1 else 0)
  {
    assert (marks + [mark])[..|marks|] == marks;
  }

  lemma MarkTells(marks: seq<Mark>, mark: Mark, flow: Flow)
    ensures LastInjected(marks + [mark], flow) ==
      (if IsInjection(mark, flow) then Some(|marks|) else LastInjected(marks, flow))
    ensures SettledSince(marks + [mark], flow) ==
      (if IsInjection(mark, flow) then 0 else SettledSince(marks, flow) + (if IsSettled(mark, flow) then 1 else 0))
    ensures CountInjected(marks + [mark], flow) ==
      CountInjected(marks, flow) + (if IsInjection(mark, flow) then 1 else 0)
    ensures CountSettled(marks + [mark], flow) == CountSettled(marks, flow) + (if IsSettled(mark, flow) then 1 else 0)
    ensures CountWorked(marks + [mark], flow) == CountWorked(marks, flow) + (if IsWorked(mark, flow) then 1 else 0)
  {
    assert (marks + [mark])[..|marks|] == marks;
  }

  /** Between two injections of a flow with one sequence lies one with another sequence. */
  ghost predicate Alternates(marks: seq<Mark>, flow: Flow)
  {
    forall i, j :: 0 <= i < j < |marks| && SameInjection(marks[i], marks[j], flow) ==> OtherBetween(marks, flow, i, j)
  }

  predicate SameInjection(one: Mark, other: Mark, flow: Flow)
  {
    IsInjection(one, flow) && IsInjection(other, flow) && one.sequence == other.sequence
  }

  ghost predicate OtherBetween(marks: seq<Mark>, flow: Flow, i: nat, j: nat)
    requires i < j < |marks| && IsInjection(marks[j], flow)
  {
    exists k :: i < k < j && IsInjection(marks[k], flow) && marks[k].sequence != marks[j].sequence
  }

  lemma AlternatesOn(marks: seq<Mark>, mark: Mark, flow: Flow)
    requires Alternates(marks, flow)
    requires IsInjection(mark, flow) && LastInjected(marks, flow).Some? ==>
               marks[LastInjected(marks, flow).value].sequence != mark.sequence
    ensures Alternates(marks + [mark], flow)
  {
    var all := marks + [mark];
    forall i, j | 0 <= i < j < |all| && SameInjection(all[i], all[j], flow)
      ensures OtherBetween(all, flow, i, j)
    {
      if j < |marks| {
        assert OtherBetween(marks, flow, i, j);
        var k :| i < k < j && IsInjection(marks[k], flow) && marks[k].sequence != marks[j].sequence;
        assert all[k] == marks[k];
      } else {
        var k := LastInjected(marks, flow).value;
        assert all[k] == marks[k];
        assert all[i] == marks[i];
      }
    }
  }

  // ----- which injections are counted as working

  /** The injection whose data a flow waits for: the one on at its last echo with the flow known, until data counts. */
  ghost function AwaitedInjection(marks: seq<Mark>, flow: Flow): (r: Option<nat>)
    ensures r.Some? ==> r.value < |marks| && IsInjection(marks[r.value], flow)
  {
    if marks == [] then None
    else
      var front, last := marks[..|marks| - 1], marks[|marks| - 1];
      if last == Awaited(flow) then LastInjected(front, flow)
      else if last == Worked(flow) then None
      else AwaitedInjection(front, flow)
  }

  /** The injections of a flow counted as having worked: each count is for the one then awaited. */
  ghost function WorkedInjections(marks: seq<Mark>, flow: Flow): seq<nat>
  {
    if marks == [] then []
    else
      var front := marks[..|marks| - 1];
      WorkedInjections(front, flow)
      + (if marks[|marks| - 1] == Worked(flow) && AwaitedInjection(front, flow).Some?
         then [AwaitedInjection(front, flow).value] else [])
  }

  lemma MarkAttributes(marks: seq<Mark>, mark: Mark, flow: Flow)
    ensures AwaitedInjection(marks + [mark], flow) ==
      (if mark == Awaited(flow) then LastInjected(marks, flow) else if mark == Worked(flow) then None
       else AwaitedInjection(marks, flow))
    ensures WorkedInjections(marks + [mark], flow) == WorkedInjections(marks, flow)
      + (if mark == Worked(flow) && AwaitedInjection(marks, flow).Some?
         then [AwaitedInjection(marks, flow).value] else [])
  {
    assert (marks + [mark])[..|marks|] == marks;
  }

  /** Places in increasing order, hence different ones, and each before a bound. */
  ghost predicate IncreaseBelow(places: seq<nat>, bound: nat)
  {
    && (forall i, j :: 0 <= i < j < |places| ==> places[i] < places[j])
    && (forall i :: 0 <= i < |places| ==> places[i] < bound)
  }

  /**
   Whom the working counts are for: every count belongs to one injection, of
   this flow, and no two to the same; the one awaited is later than all of them
   and is the one whose sequence the flow keeps.
   */
  ghost predicate Attributed(v: FlowView, flow: Flow)
  {
    var last, awaited := LastInjected(v.marks, flow), AwaitedInjection(v.marks, flow);
    var worked := WorkedInjections(v.marks, flow);
    && |worked| == CountWorked(v.marks, flow)
    && IncreaseBelow(worked, |v.marks|)
    && (forall i :: 0 <= i < |worked| ==> IsInjection(v.marks[worked[i]], flow))
    && v.wait.Some? == awaited.Some?
    && (awaited.Some? ==> v.marks[awaited.value].sequence == v.wait.value && IncreaseBelow(worked, awaited.value))
    && (v.Unanswered() && last.Some? ==>
          IncreaseBelow(worked, last.value) && (awaited.Some? ==> awaited.value < last.value))
  }

  // ----- what every event keeps

  /** One flow's part of the world: its handshake, the sequence it waits with, and what was marked. */
  datatype FlowView = FlowView(handshake: Option<Handshake>, wait: Option<u32>, marks: seq<Mark>)
  {
    predicate Open() { handshake.Some? && !handshake.value.phase.Closed? }

    predicate Unanswered() { handshake.Some? && Rank(handshake.value.phase) <= 1 }
  }

  function ViewOf(w: World, flow: Flow): FlowView
  {
    FlowView(Lookup(w.handshakes, flow), Lookup(w.waiting, flow), w.marks)
  }

  function Rank(phase: Phase): nat
  {
    match phase
    case Sent => 0
    case Retried => 1
    case Echoed => 2
    case Closed => 3
  }

  /** What the marks must say for a flow seen like this. */
  ghost predicate Tells(v: FlowView, flow: Flow)
  {
    var last := LastInjected(v.marks, flow);
    && v.handshake.Some? == last.Some?
    && (v.handshake.Some? ==>
        && v.handshake.value.tsval != 0
        && v.marks[last.value] == Injected(flow, v.handshake.value.sequence, v.handshake.value.tsval))
    && SettledSince(v.marks, flow) == (if v.handshake.Some? && !v.Open() then 1 else 0)
    && CountSettled(v.marks, flow) + (if v.Open() then 1 else 0) <= CountInjected(v.marks, flow)
    && CountWorked(v.marks, flow) + (if v.wait.Some? then 1 else 0) + (if v.Unanswered() then 1 else 0)
       <= CountInjected(v.marks, flow)
  }

  /**
   One flow's part of a step: nothing, a phase that moves up uncounted, an echo
   that starts a wait, a handshake settled and counted, a new one injected, or
   data acknowledged.
   */
  ghost predicate FlowStep(v: FlowView, v': FlowView, flow: Flow)
  {
    || v' == v
    || MovesUp(v, v')
    || StartsWaiting(v, v', flow)
    || Settles(v, v', flow)
    || Injects(v, v', flow)
    || (v.wait.Some? && v' == v.(wait := None, marks := v.marks + [Worked(flow)]))
    || Elsewhere(v, v', flow)
  }

  ghost predicate Elsewhere(v: FlowView, v': FlowView, flow: Flow)
  {
    && |v'.marks| == |v.marks| + 1 && v' == v.(marks := v.marks + [v'.marks[|v.marks|]])
    && (v'.marks[|v.marks|].flow != flow || v'.marks[|v.marks|].LeftAlone?)
  }

  ghost predicate MovesUp(v: FlowView, v': FlowView)
  {
    && v.handshake.Some? && v'.handshake.Some? && v' == v.(handshake := v'.handshake)
    && v'.handshake.value.(phase := v.handshake.value.phase, learned := v.handshake.value.learned) == v.handshake.value
    && Rank(v.handshake.value.phase) <= Rank(v'.handshake.value.phase) <= 2
  }

  ghost predicate StartsWaiting(v: FlowView, v': FlowView, flow: Flow)
  {
    && v.Unanswered()
    && v' == FlowView(Some(v.handshake.value.(phase := Echoed)), Some(v.handshake.value.sequence),
                      v.marks + [Awaited(flow)])
  }

  ghost predicate Settles(v: FlowView, v': FlowView, flow: Flow)
  {
    && v.Open()
    && v' == v.(handshake := Some(v.handshake.value.(phase := Closed)), marks := v'.marks)
    && (v'.marks == v.marks + [Refused(flow)] || v'.marks == v.marks + [Stalled(flow)])
  }

  ghost predicate Injects(v: FlowView, v': FlowView, flow: Flow)
  {
    && v'.handshake.Some? && v'.handshake.value.phase.Sent? && v'.handshake.value.tsval != 0
    && (v.handshake.Some? ==> v.handshake.value.sequence != v'.handshake.value.sequence)
    && v' == v.(handshake := v'.handshake,
                marks := v.marks + [Injected(flow, v'.handshake.value.sequence, v'.handshake.value.tsval)])
  }

  /** Every event is one of those steps for every flow: phases never move down and a handshake is never dropped. */
  lemma EveryEventIsAFlowStep(w: World, event: Event, flow: Flow)
    ensures FlowStep(ViewOf(w, flow), ViewOf(Next(w, event), flow), flow)
  {
    match event
    case OutgoingSyn(f, sequence, nowNs, appended) => SynIsAFlowStep(w, f, sequence, nowNs, appended, flow);
    case SynAck(f, echo, flowKnown, nowNs) => AnswerIsAFlowStep(w, f, echo, flowKnown, nowNs, flow);
    case ClientReset(f, sequence, nowNs) =>
      if ClientResetRejects(Lookup(w.handshakes, f), sequence) { SkipIsAFlowStep(w, f, nowNs, flow); }
    case ServerReset(f, nowNs) =>
      if ServerResetRejects(Lookup(w.handshakes, f)) { SkipIsAFlowStep(w, f, nowNs, flow); }
    case FirstClientStamp(f, tsval, nowNs) =>
    case ServerData(f, acknowledgement) =>
  }

  lemma SkipIsAFlowStep(w: World, f: Flow, nowNs: u64, flow: Flow)
    requires f in w.handshakes && !w.handshakes[f].phase.Closed?
    ensures FlowStep(ViewOf(w, flow), ViewOf(WithServerSkipped(w, f, nowNs), flow), flow)
  {}

  lemma SynIsAFlowStep(w: World, f: Flow, sequence: u32, nowNs: u64, appended: bool, flow: Flow)
    ensures FlowStep(ViewOf(w, flow), ViewOf(NewSyn(w, f, sequence, nowNs, appended), flow), flow)
  {
    if ClassifySyn(Lookup(w.handshakes, f), sequence).Rejected? { SkipIsAFlowStep(w, f, nowNs, flow); }
    TsvalIsNeverZero(Lookup(w.clients, f.local), nowNs);
  }

  lemma AnswerIsAFlowStep(w: World, f: Flow, echo: u32, flowKnown: bool, nowNs: u64, flow: Flow)
    ensures FlowStep(ViewOf(w, flow), ViewOf(Answered(w, f, echo, flowKnown, nowNs), flow), flow)
  {
    if f in w.handshakes {
      var answer := ClassifyAnswer(Some(w.handshakes[f]), echo == w.handshakes[f].tsval);
      if answer.Declined? || answer.RejectedAnswer? { SkipIsAFlowStep(w, f, nowNs, flow); }
    }
  }

  /** The marks agree with the handshake a flow has. */
  ghost predicate Told(w: World, flow: Flow)
  {
    && Tells(ViewOf(w, flow), flow)
    && Attributed(ViewOf(w, flow), flow)
    && Alternates(w.marks, flow)
  }

  lemma SettlingTells(v: FlowView, v': FlowView, mark: Mark, flow: Flow)
    requires Tells(v, flow) && v.Open() && IsSettled(mark, flow)
    requires v' == v.(handshake := Some(v.handshake.value.(phase := Closed)), marks := v.marks + [mark])
    ensures Tells(v', flow)
  {
    MarkTells(v.marks, mark, flow);
  }

  lemma InjectingTells(v: FlowView, v': FlowView, flow: Flow)
    requires Tells(v, flow) && Injects(v, v', flow)
    ensures Tells(v', flow)
  {
    MarkTells(v.marks, Injected(flow, v'.handshake.value.sequence, v'.handshake.value.tsval), flow);
  }

  /** A mark that is neither an injection nor a settlement of the flow. */
  lemma OtherTells(v: FlowView, v': FlowView, mark: Mark, flow: Flow)
    requires Tells(v, flow) && v'.marks == v.marks + [mark]
    requires !IsInjection(mark, flow) && !IsSettled(mark, flow)
    requires v'.handshake == v.handshake || StartsWaiting(v, v', flow)
    requires IsWorked(mark, flow) ==> v.wait.Some? && v'.wait.None?
    requires v'.wait.Some? ==> v.wait.Some? || StartsWaiting(v, v', flow)
    ensures Tells(v', flow)
  {
    MarkTells(v.marks, mark, flow);
  }

  lemma FlowStepTells(v: FlowView, v': FlowView, flow: Flow)
    requires Tells(v, flow) && FlowStep(v, v', flow)
    ensures Tells(v', flow)
  {
    if v'.marks == v.marks {
    } else if Injects(v, v', flow) {
      InjectingTells(v, v', flow);
    } else if Settles(v, v', flow) {
      SettlingTells(v, v', v'.marks[|v.marks|], flow);
    } else {
      OtherTells(v, v', v'.marks[|v.marks|], flow);
    }
  }

  lemma WaitAttributes(v: FlowView, v': FlowView, flow: Flow)
    requires Tells(v, flow) && Attributed(v, flow) && StartsWaiting(v, v', flow)
    ensures Attributed(v', flow)
  {
    MarkTells(v.marks, Awaited(flow), flow);
    MarkAttributes(v.marks, Awaited(flow), flow);
  }

  lemma DataAttributes(v: FlowView, v': FlowView, flow: Flow)
    requires Attributed(v, flow) && v.wait.Some? && v' == v.(wait := None, marks := v.marks + [Worked(flow)])
    ensures Attributed(v', flow)
  {
    MarkTells(v.marks, Worked(flow), flow);
    MarkAttributes(v.marks, Worked(flow), flow);
  }

  lemma OtherAttributes(v: FlowView, v': FlowView, mark: Mark, flow: Flow)
    requires Attributed(v, flow) && v'.wait == v.wait && v'.marks == v.marks + [mark]
    requires mark != Awaited(flow) && mark != Worked(flow)
    requires v'.Unanswered() && LastInjected(v'.marks, flow).Some? ==> v.Unanswered() || IsInjection(mark, flow)
    ensures Attributed(v', flow)
  {
    MarkTells(v.marks, mark, flow);
    MarkAttributes(v.marks, mark, flow);
  }

  lemma FlowStepAttributes(v: FlowView, v': FlowView, flow: Flow)
    requires Tells(v, flow) && Attributed(v, flow) && FlowStep(v, v', flow)
    ensures Attributed(v', flow)
  {
    if v'.marks == v.marks {
    } else if StartsWaiting(v, v', flow) {
      WaitAttributes(v, v', flow);
    } else if v.wait.Some? && v' == v.(wait := None, marks := v.marks + [Worked(flow)]) {
      DataAttributes(v, v', flow);
    } else {
      OtherAttributes(v, v', v'.marks[|v.marks|], flow);
    }
  }

  lemma FlowStepAlternates(v: FlowView, v': FlowView, flow: Flow)
    requires Tells(v, flow) && Alternates(v.marks, flow) && FlowStep(v, v', flow)
    ensures Alternates(v'.marks, flow)
  {
    if v'.marks != v.marks {
      assert v'.marks == v.marks + [v'.marks[|v.marks|]];
      AlternatesOn(v.marks, v'.marks[|v.marks|], flow);
    }
  }

  lemma NextIsTold(w: World, event: Event, flow: Flow)
    requires Told(w, flow)
    ensures Told(Next(w, event), flow)
  {
    EveryEventIsAFlowStep(w, event, flow);
    var v, v' := ViewOf(w, flow), ViewOf(Next(w, event), flow);
    FlowStepTells(v, v', flow);
    FlowStepAttributes(v, v', flow);
    FlowStepAlternates(v, v', flow);
  }

  /**
   Over every run: a flow's handshake is its last injection; it is counted
   refused or stalled exactly once when closed and never before; each count of a
   working handshake is for an injection of its own; and one sequence is injected
   again only after another.
   */
  lemma {:induction false} EveryRunTells(events: seq<Event>, flow: Flow)
    ensures Told(After(EMPTY, events), flow)
  {
    if events == [] {
    } else {
      EveryRunTells(events[..|events| - 1], flow);
      NextIsTold(After(EMPTY, events[..|events| - 1]), events[|events| - 1], flow);
    }
  }

  /** After any run an answer without a timestamp is never read as the server's echo. */
  lemma UnstampedNeverEchoes(events: seq<Event>, flow: Flow, flowKnown: bool, nowNs: u64)
    ensures var w := After(EMPTY, events); var w' := Next(w, SynAck(flow, 0, flowKnown, nowNs));
      && flow in w.handshakes && !w.handshakes[flow].phase.Closed? ==>
         flow in w'.handshakes && w'.handshakes[flow].phase.Closed? && |w'.marks| == |w.marks| + 1
  {
    EveryRunTells(events, flow);
  }

  // ----- where the counters say less than they seem to

  lemma AfterOneMore(events: seq<Event>, event: Event)
    ensures After(EMPTY, events + [event]) == Next(After(EMPTY, events), event)
  {
    assert (events + [event])[..|events|] == events;
  }

  /** One sequence is injected twice whenever another SYN of the four-tuple comes between and nothing answers. */
  lemma OneSequenceCanBeInjectedTwice(flow: Flow, sequence: u32, other: u32, nowNs: u64)
    requires sequence != other
    ensures After(EMPTY, [OutgoingSyn(flow, sequence, nowNs, true)]
                         + [OutgoingSyn(flow, other, nowNs, true)]
                         + [OutgoingSyn(flow, sequence, nowNs, true)]).marks
         == [Injected(flow, sequence, INJECT_TSVAL), Injected(flow, other, INJECT_TSVAL),
             Injected(flow, sequence, INJECT_TSVAL)]
  {
    var first, second := OutgoingSyn(flow, sequence, nowNs, true), OutgoingSyn(flow, other, nowNs, true);
    AfterOneMore([], first);
    AfterOneMore([first], second);
    AfterOneMore([first] + [second], first);
    assert [] + [first] == [first];
    var w := Next(EMPTY, first);
    assert w.marks == [Injected(flow, sequence, INJECT_TSVAL)];
    var w' := Next(w, second);
    assert w'.marks == w.marks + [Injected(flow, other, INJECT_TSVAL)];
    assert Next(w', first).marks == w'.marks + [Injected(flow, sequence, INJECT_TSVAL)];
  }

  /**
   A handshake counted as stalled, which should never be counted as having
   worked, is once the server acknowledges data after all: the flow still waits.
   */
  lemma AStalledHandshakeCanWork(flow: Flow, sequence: u32, nowNs: u64, acknowledgement: u32)
    requires DataAcknowledged(acknowledgement, sequence)
    ensures After(EMPTY, [OutgoingSyn(flow, sequence, nowNs, true)]
                         + [SynAck(flow, INJECT_TSVAL, true, nowNs)]
                         + [SynAck(flow, INJECT_TSVAL, true, nowNs)]
                         + [ServerData(flow, acknowledgement)]).marks
         == [Injected(flow, sequence, INJECT_TSVAL), Awaited(flow), Stalled(flow), Worked(flow)]
  {
    var syn, answer, data := OutgoingSyn(flow, sequence, nowNs, true), SynAck(flow, INJECT_TSVAL, true, nowNs),
                             ServerData(flow, acknowledgement);
    AfterOneMore([], syn);
    AfterOneMore([syn], answer);
    AfterOneMore([syn] + [answer], answer);
    AfterOneMore([syn] + [answer] + [answer], data);
    assert [] + [syn] == [syn];
    var w := Next(Next(EMPTY, syn), answer);
    assert w.marks == [Injected(flow, sequence, INJECT_TSVAL), Awaited(flow)] && w.waiting == map[flow := sequence];
    var w' := Next(w, answer);
    assert w'.marks == w.marks + [Stalled(flow)] && w'.waiting == w.waiting;
    assert Next(w', data).marks == w'.marks + [Worked(flow)];
  }

  /**
   Acknowledged data counts as a handshake that worked exactly when the flow
   still waits for it and the acknowledgement passes the waiting SYN.
   */
  lemma WorkedIsExact(w: World, event: Event, flow: Flow)
    ensures Next(w, event).marks == w.marks + [Worked(flow)] <==>
      (event.ServerData? && event.flow == flow && flow in w.waiting
       && DataAcknowledged(event.acknowledgement, w.waiting[flow]))
  {
    var w' := Next(w, event);
    if w'.marks == w.marks + [Worked(flow)] { assert w'.marks[|w.marks|] == Worked(flow); }
  }

  /**
   Data that belongs to a newer connection is counted for the older handshake
   when its echo is the one the flow waits with: two counts after the second
   injection, one for each.
   */
  lemma AnEarlierHandshakeIsCounted(flow: Flow, sequence: u32, other: u32, nowNs: u64, acknowledgement: u32)
    requires sequence != other
    requires DataAcknowledged(acknowledgement, sequence) && DataAcknowledged(acknowledgement, other)
    ensures var marks := After(EMPTY, [OutgoingSyn(flow, sequence, nowNs, true)]
                                      + [SynAck(flow, INJECT_TSVAL, true, nowNs)]
                                      + [OutgoingSyn(flow, other, nowNs, true)]
                                      + [ServerData(flow, acknowledgement)]
                                      + [SynAck(flow, INJECT_TSVAL, true, nowNs)]
                                      + [ServerData(flow, acknowledgement)]).marks;
      && marks == [Injected(flow, sequence, INJECT_TSVAL), Awaited(flow), Injected(flow, other, INJECT_TSVAL),
                   Worked(flow), Awaited(flow), Worked(flow)]
      && WorkedInjections(marks, flow) == [0, 2]
  {
    var first, answer, second, data := OutgoingSyn(flow, sequence, nowNs, true),
                                       SynAck(flow, INJECT_TSVAL, true, nowNs),
                                       OutgoingSyn(flow, other, nowNs, true), ServerData(flow, acknowledgement);
    AfterOneMore([], first);
    AfterOneMore([first], answer);
    AfterOneMore([first] + [answer], second);
    AfterOneMore([first] + [answer] + [second], data);
    AfterOneMore([first] + [answer] + [second] + [data], answer);
    AfterOneMore([first] + [answer] + [second] + [data] + [answer], data);
    assert [] + [first] == [first];
    var w := Next(Next(EMPTY, first), answer);
    var w' := Next(Next(w, second), data);
    assert w'.marks == w.marks + [Injected(flow, other, INJECT_TSVAL)] + [Worked(flow)];
    var w'' := Next(Next(w', answer), data);
    assert w''.marks == w'.marks + [Awaited(flow)] + [Worked(flow)];
    WorksTwice(flow, Injected(flow, sequence, INJECT_TSVAL), Injected(flow, other, INJECT_TSVAL));
    assert w''.marks == [Injected(flow, sequence, INJECT_TSVAL), Awaited(flow), Injected(flow, other, INJECT_TSVAL),
                         Worked(flow), Awaited(flow), Worked(flow)];
  }

  lemma WorksOnce(flow: Flow, one: Mark, other: Mark)
    requires IsInjection(one, flow) && IsInjection(other, flow)
    ensures var marks := [one, Awaited(flow), other, Worked(flow)];
      && WorkedInjections(marks, flow) == [0] && LastInjected(marks, flow) == Some(2)
  {
    assert [] + [one] == [one] && [one] + [Awaited(flow)] == [one, Awaited(flow)];
    MarkAttributes([], one, flow);
    MarkAttributes([one], Awaited(flow), flow);
    assert [one, Awaited(flow)] + [other] == [one, Awaited(flow), other];
    MarkAttributes([one, Awaited(flow)], other, flow);
    assert [one, Awaited(flow), other] + [Worked(flow)] == [one, Awaited(flow), other, Worked(flow)];
    MarkAttributes([one, Awaited(flow), other], Worked(flow), flow);
  }

  lemma WorksTwice(flow: Flow, one: Mark, other: Mark)
    requires IsInjection(one, flow) && IsInjection(other, flow)
    ensures WorkedInjections([one, Awaited(flow), other, Worked(flow), Awaited(flow), Worked(flow)], flow) == [0, 2]
  {
    var marks := [one, Awaited(flow), other, Worked(flow)];
    WorksOnce(flow, one, other);
    MarkAttributes(marks, Awaited(flow), flow);
    MarkAttributes(marks + [Awaited(flow)], Worked(flow), flow);
    assert marks + [Awaited(flow)] + [Worked(flow)]
        == [one, Awaited(flow), other, Worked(flow), Awaited(flow), Worked(flow)];
  }

  /**
   Over every run a count of a working handshake is for exactly one injection of its
   flow: the last one if and only if, since that one, its echo found the flow known and
   nothing was counted after; otherwise an earlier one.
   */
  lemma CountsLastIff(events: seq<Event>, event: Event, flow: Flow)
    requires var marks := After(EMPTY, events).marks; After(EMPTY, events + [event]).marks == marks + [Worked(flow)]
    ensures var marks := After(EMPTY, events).marks;
      var worked, now := WorkedInjections(marks, flow), WorkedInjections(marks + [Worked(flow)], flow);
      && LastInjected(marks, flow).Some? && |now| == |worked| + 1 && now[..|worked|] == worked
      && now[|worked|] <= LastInjected(marks, flow).value
      && (now[|worked|] == LastInjected(marks, flow).value <==> AwaitsLast(marks, flow))
  {
    var w := After(EMPTY, events);
    AfterOneMore(events, event);
    EveryRunTells(events, flow);
    EventMarks(w, event, flow);
    assert (w.marks + [Worked(flow)])[|w.marks|] == Worked(flow);
    MarkAttributes(w.marks, Worked(flow), flow);
    AwaitsLastIff(w.marks, flow);
  }

  // ----- which settled handshakes are counted as working afterwards

  /** Server data that passes a SYN with this sequence. */
  predicate Passes(event: Event, flow: Flow, sequence: u32)
  {
    event.ServerData? && event.flow == flow && DataAcknowledged(event.acknowledgement, sequence)
  }

  /** An echo of a handshake still open, for a flow that is known: whatever the flow waited with is replaced. */
  predicate WaitsAnew(w: World, event: Event, flow: Flow)
  {
    && event.SynAck? && event.flow == flow && event.flowKnown && flow in w.handshakes
    && ClassifyAnswer(Lookup(w.handshakes, flow), event.echo == w.handshakes[flow].tsval).Echo?
  }

  /** Since a flow's last injection its echo found the flow known, and nothing was counted as working after that. */
  ghost predicate AwaitsLast(marks: seq<Mark>, flow: Flow)
  {
    && marks != []
    && var front, last := marks[..|marks| - 1], marks[|marks| - 1];
       && !IsInjection(last, flow) && last != Worked(flow)
       && ((last == Awaited(flow) && LastInjected(front, flow).Some?) || AwaitsLast(front, flow))
  }

  lemma {:induction false} AwaitsLastIff(marks: seq<Mark>, flow: Flow)
    requires LastInjected(marks, flow).Some?
    ensures AwaitsLast(marks, flow) <==> AwaitedInjection(marks, flow) == LastInjected(marks, flow)
  {
    var front, last := marks[..|marks| - 1], marks[|marks| - 1];
    if IsInjection(last, flow) {
      assert AwaitedInjection(marks, flow) == AwaitedInjection(front, flow);
    } else if LastInjected(front, flow).Some? {
      AwaitsLastIff(front, flow);
    }
  }

  /** An injection whose handshake is closed or replaced. */
  ghost predicate Over(v: FlowView, flow: Flow, place: nat)
  {
    && place < |v.marks| && IsInjection(v.marks[place], flow)
    && LastInjected(v.marks, flow).Some?
    && (place == LastInjected(v.marks, flow).value ==> v.handshake.Some? && !v.Open())
  }

  /** What one event marks: a wait and a working count exactly when the event starts one or passes the waiting SYN. */
  lemma EventMarks(w: World, event: Event, flow: Flow)
    ensures var w' := Next(w, event);
      && (w'.marks == w.marks || (|w'.marks| == |w.marks| + 1 && w'.marks == w.marks + [w'.marks[|w.marks|]]))
      && (WaitsAnew(w, event, flow) <==> w'.marks != w.marks && w'.marks[|w.marks|] == Awaited(flow))
      && ((flow in w.waiting && Passes(event, flow, w.waiting[flow]))
          <==> w'.marks != w.marks && w'.marks[|w.marks|] == Worked(flow))
  {}

  lemma StepKeepsOver(v: FlowView, v': FlowView, flow: Flow, place: nat)
    requires FlowStep(v, v', flow) && Tells(v, flow) && Over(v, flow, place)
    ensures Over(v', flow, place) && v'.marks[place] == v.marks[place]
  {
    if v'.marks != v.marks {
      assert v'.marks == v.marks + [v'.marks[|v.marks|]];
      MarkTells(v.marks, v'.marks[|v.marks|], flow);
    }
  }

  lemma EventKeepsOver(w: World, event: Event, flow: Flow, place: nat)
    requires Told(w, flow) && Over(ViewOf(w, flow), flow, place)
    ensures Over(ViewOf(Next(w, event), flow), flow, place) && Next(w, event).marks[place] == w.marks[place]
  {
    EveryEventIsAFlowStep(w, event, flow);
    StepKeepsOver(ViewOf(w, flow), ViewOf(Next(w, event), flow), flow, place);
  }

  lemma EventOnOver(w: World, event: Event, flow: Flow, place: nat)
    requires Told(w, flow) && Over(ViewOf(w, flow), flow, place)
    ensures var w', sequence := Next(w, event), w.marks[place].sequence;
      && (AwaitedInjection(w'.marks, flow) == Some(place) <==>
            && AwaitedInjection(w.marks, flow) == Some(place)
            && !WaitsAnew(w, event, flow) && !Passes(event, flow, sequence))
      && (place in WorkedInjections(w'.marks, flow) <==>
            place in WorkedInjections(w.marks, flow)
            || (AwaitedInjection(w.marks, flow) == Some(place) && Passes(event, flow, sequence)))
  {
    var w' := Next(w, event);
    EventMarks(w, event, flow);
    if w'.marks != w.marks {
      MarkAttributes(w.marks, w'.marks[|w.marks|], flow);
    }
  }

  /** Data after some events passes the SYN, and no echo of a later handshake took over the wait before it. */
  ghost predicate CountedAt(w: World, events: seq<Event>, flow: Flow, sequence: u32, k: nat)
  {
    && k < |events| && Passes(events[k], flow, sequence)
    && forall j :: 0 <= j < k ==> !WaitsAnew(After(w, events[..j]), events[j], flow)
  }

  /** The wait is still there: nothing passed and nothing took it over. */
  ghost predicate Undisturbed(w: World, events: seq<Event>, flow: Flow, sequence: u32)
  {
    forall j: nat :: j < |events| ==> CalmAt(w, events, flow, sequence, j)
  }

  ghost predicate CalmAt(w: World, events: seq<Event>, flow: Flow, sequence: u32, j: nat)
    requires j < |events|
  {
    !WaitsAnew(After(w, events[..j]), events[j], flow) && !Passes(events[j], flow, sequence)
  }

  lemma CalmAtFront(w: World, events: seq<Event>, flow: Flow, sequence: u32, j: nat)
    requires j < |events| - 1
    ensures CalmAt(w, events, flow, sequence, j) == CalmAt(w, events[..|events| - 1], flow, sequence, j)
  {
    assert events[..j] == events[..|events| - 1][..j];
  }

  lemma CountedAtFront(w: World, events: seq<Event>, flow: Flow, sequence: u32, k: nat)
    requires k < |events| - 1
    ensures CountedAt(w, events, flow, sequence, k) == CountedAt(w, events[..|events| - 1], flow, sequence, k)
  {
    var front := events[..|events| - 1];
    assert forall j :: 0 <= j <= |front| ==> events[..j] == front[..j];
  }

  lemma UndisturbedGrows(w: World, events: seq<Event>, flow: Flow, sequence: u32)
    requires events != []
    ensures var front := events[..|events| - 1];
      Undisturbed(w, events, flow, sequence) <==>
        (Undisturbed(w, front, flow, sequence) && CalmAt(w, events, flow, sequence, |front|))
  {
    var front := events[..|events| - 1];
    forall j: nat | j < |front|
      ensures CalmAt(w, front, flow, sequence, j) == CalmAt(w, events, flow, sequence, j)
    {
      CalmAtFront(w, events, flow, sequence, j);
    }
  }

  /** A handshake over and not awaited is never counted any more. */
  lemma {:induction false} NotAwaitedStays(w: World, events: seq<Event>, flow: Flow, place: nat)
    requires Told(w, flow) && Over(ViewOf(w, flow), flow, place) && AwaitedInjection(w.marks, flow) != Some(place)
    ensures var w' := After(w, events);
      && Told(w', flow) && Over(ViewOf(w', flow), flow, place) && AwaitedInjection(w'.marks, flow) != Some(place)
      && (place in WorkedInjections(w'.marks, flow) <==> place in WorkedInjections(w.marks, flow))
  {
    if events == [] {
    } else {
      var front, event := events[..|events| - 1], events[|events| - 1];
      NotAwaitedStays(w, front, flow, place);
      EventKeepsOver(After(w, front), event, flow, place);
      EventOnOver(After(w, front), event, flow, place);
      NextIsTold(After(w, front), event, flow);
    }
  }

  /** A handshake over and awaited: counted by the first data that passes, if no later echo comes before it. */
  lemma {:induction false} AwaitedWorksIff(w: World, events: seq<Event>, flow: Flow, place: nat)
    requires Told(w, flow) && Over(ViewOf(w, flow), flow, place) && AwaitedInjection(w.marks, flow) == Some(place)
    ensures var w', sequence := After(w, events), w.marks[place].sequence;
      && Told(w', flow) && Over(ViewOf(w', flow), flow, place) && w'.marks[place] == w.marks[place]
      && (AwaitedInjection(w'.marks, flow) == Some(place) <==> Undisturbed(w, events, flow, sequence))
      && (place in WorkedInjections(w'.marks, flow) <==> exists k: nat :: CountedAt(w, events, flow, sequence, k))
  {
    var sequence := w.marks[place].sequence;
    if events == [] {
    } else {
      var front, event := events[..|events| - 1], events[|events| - 1];
      AwaitedWorksIff(w, front, flow, place);
      EventKeepsOver(After(w, front), event, flow, place);
      EventOnOver(After(w, front), event, flow, place);
      NextIsTold(After(w, front), event, flow);
      UndisturbedGrows(w, events, flow, sequence);
      CountingGrows(w, events, flow, sequence);
    }
  }

  lemma CountingGrows(w: World, events: seq<Event>, flow: Flow, sequence: u32)
    requires events != []
    ensures var front, event := events[..|events| - 1], events[|events| - 1];
      (exists k: nat :: CountedAt(w, events, flow, sequence, k)) <==>
        ((exists k: nat :: CountedAt(w, front, flow, sequence, k))
         || (Undisturbed(w, front, flow, sequence) && Passes(event, flow, sequence)))
  {
    var front, event := events[..|events| - 1], events[|events| - 1];
    if k: nat :| CountedAt(w, front, flow, sequence, k) {
      CountedAtFront(w, events, flow, sequence, k);
    }
    if Undisturbed(w, front, flow, sequence) && Passes(event, flow, sequence) {
      CountedAtLast(w, events, flow, sequence);
    }
    if k: nat :| CountedAt(w, events, flow, sequence, k) {
      CountedBefore(w, events, flow, sequence, k);
    }
  }

  lemma CountedBefore(w: World, events: seq<Event>, flow: Flow, sequence: u32, k: nat)
    requires CountedAt(w, events, flow, sequence, k)
    ensures var front := events[..|events| - 1];
      || (exists k': nat :: CountedAt(w, front, flow, sequence, k'))
      || (Undisturbed(w, front, flow, sequence) && Passes(events[|events| - 1], flow, sequence))
  {
    if k < |events| - 1 {
      CountedAtFront(w, events, flow, sequence, k);
    } else {
      DisturbedByDataCounts(w, events, flow, sequence);
    }
  }

  lemma CountedAtLast(w: World, events: seq<Event>, flow: Flow, sequence: u32)
    requires events != [] && Undisturbed(w, events[..|events| - 1], flow, sequence)
    requires Passes(events[|events| - 1], flow, sequence)
    ensures CountedAt(w, events, flow, sequence, |events| - 1)
  {
    var front := events[..|events| - 1];
    forall j | 0 <= j < |front|
      ensures !WaitsAnew(After(w, events[..j]), events[j], flow)
    {
      CalmAtFront(w, events, flow, sequence, j);
      assert CalmAt(w, front, flow, sequence, j);
    }
  }

  lemma DisturbedByDataCounts(w: World, events: seq<Event>, flow: Flow, sequence: u32)
    requires events != [] && CountedAt(w, events, flow, sequence, |events| - 1)
    ensures var front := events[..|events| - 1];
      Undisturbed(w, front, flow, sequence) || exists k: nat :: CountedAt(w, front, flow, sequence, k)
  {
    var front := events[..|events| - 1];
    assert forall j :: 0 <= j <= |front| ==> events[..j] == front[..j];
    if !Undisturbed(w, front, flow, sequence) {
      var j: nat :| j < |front| && !CalmAt(w, front, flow, sequence, j);
      assert front[j] == events[j];
      assert !WaitsAnew(After(w, events[..j]), events[j], flow);
      forall i | 0 <= i < j
        ensures !WaitsAnew(After(w, front[..i]), front[i], flow)
      {
        assert front[i] == events[i];
      }
      assert CountedAt(w, front, flow, sequence, j);
    }
  }

  lemma JoinedFront(before: seq<Event>, events: seq<Event>)
    requires events != []
    ensures var all := before + events;
      && all[..|all| - 1] == before + events[..|events| - 1]
      && all[|all| - 1] == events[|events| - 1]
  {}

  lemma {:induction false} AfterJoins(w: World, before: seq<Event>, events: seq<Event>)
    ensures After(w, before + events) == After(After(w, before), events)
  {
    if events == [] {
      assert before + events == before;
    } else {
      AfterJoins(w, before, events[..|events| - 1]);
      JoinedFront(before, events);
    }
  }

  /**
   Over every run: a handshake already counted refused or stalled is counted as
   working afterwards exactly when its echo found the flow known, nothing was
   counted as working since that echo, and server data passes its SYN before an
   echo of a later handshake takes over the wait.
   */
  lemma SettledWorksIff(before: seq<Event>, events: seq<Event>, flow: Flow)
    requires flow in After(EMPTY, before).handshakes && After(EMPTY, before).handshakes[flow].phase.Closed?
    ensures var w, w' := After(EMPTY, before), After(EMPTY, before + events);
      && LastInjected(w.marks, flow).Some?
      && var place := LastInjected(w.marks, flow).value;
         (place !in WorkedInjections(w.marks, flow) && place in WorkedInjections(w'.marks, flow)) <==>
           (AwaitsLast(w.marks, flow) && exists k: nat :: CountedAt(w, events, flow, w.handshakes[flow].sequence, k))
  {
    var w := After(EMPTY, before);
    EveryRunTells(before, flow);
    AfterJoins(EMPTY, before, events);
    AwaitsLastIff(w.marks, flow);
    var place := LastInjected(w.marks, flow).value;
    if AwaitsLast(w.marks, flow) {
      AwaitedWorksIff(w, events, flow, place);
    } else {
      NotAwaitedStays(w, events, flow, place);
    }
  }

  // ----- whether a stall changes the next SYN

  /**
   After a stall that the first value caused, the client's next SYN gets a value
   that suits its nonzero clock exactly when the client's entry is no more than
   a day old and holds no learned clock that is ahead. A stall does not renew an
   old entry.
   */
  lemma StallSuitsNextIff(w: World, flow: Flow, nowNs: u64, laterNs: u64, clock: u32)
    requires flow in w.handshakes && clock != 0 && Ahead(INJECT_TSVAL, clock)
    ensures var known := Lookup(w.clients, flow.local);
      !Ahead(ClientTsval(Lookup(WithStall(w, flow, nowNs).clients, flow.local), laterNs), clock) <==>
        (Wrap64(laterNs - (if known.Some? then known.value.seenNs else nowNs)) < DAY_NS
         && (known.Some? && known.value.tsval != 0 ==> !Ahead(known.value.tsval, clock)))
  {
    assert !Ahead(STALLED_TSVAL, clock) by { FallbacksCoverClocks(clock); }
  }

  /** A client whose entry is a day old. */
  predicate Forgotten(client: Option<Client>, nowNs: u64)
  {
    client.Some? && Wrap64(nowNs - client.value.seenNs) >= DAY_NS
  }

  /**
   After any run a forgotten client whose next handshake stalls gets the first
   value on its next SYN too, however its clock reads: it stalls again.
   */
  lemma AForgottenClientStallsAgain(before: seq<Event>, flow: Flow, sequence: u32, next: u32, nowNs: u64)
    requires var w := After(EMPTY, before);
      && Forgotten(Lookup(w.clients, flow.local), nowNs) && !ServerSkipped(Lookup(w.rejected, ServerOf(flow)), nowNs)
      && ClassifySyn(Lookup(w.handshakes, flow), sequence).New? && sequence != next
    ensures After(EMPTY, before + [OutgoingSyn(flow, sequence, nowNs, true)]
                         + [SynAck(flow, INJECT_TSVAL, false, nowNs)]
                         + [SynAck(flow, INJECT_TSVAL, false, nowNs)]
                         + [OutgoingSyn(flow, next, nowNs, true)]).marks
         == After(EMPTY, before).marks
            + [Injected(flow, sequence, INJECT_TSVAL)] + [Stalled(flow)] + [Injected(flow, next, INJECT_TSVAL)]
  {
    var answer := SynAck(flow, INJECT_TSVAL, false, nowNs);
    AfterFourMore(before, OutgoingSyn(flow, sequence, nowNs, true), answer, answer,
                  OutgoingSyn(flow, next, nowNs, true));
    StalledRun(After(EMPTY, before), flow, sequence, next, nowNs);
  }

  lemma AfterFourMore(events: seq<Event>, a: Event, b: Event, c: Event, d: Event)
    ensures After(EMPTY, events + [a] + [b] + [c] + [d]) == Next(Next(Next(Next(After(EMPTY, events), a), b), c), d)
  {
    AfterOneMore(events, a);
    AfterOneMore(events + [a], b);
    AfterOneMore(events + [a] + [b], c);
    AfterOneMore(events + [a] + [b] + [c], d);
  }

  lemma StalledRun(w: World, flow: Flow, sequence: u32, next: u32, nowNs: u64)
    requires Forgotten(Lookup(w.clients, flow.local), nowNs)
    requires !ServerSkipped(Lookup(w.rejected, ServerOf(flow)), nowNs)
    requires ClassifySyn(Lookup(w.handshakes, flow), sequence).New? && sequence != next
    ensures var answer := SynAck(flow, INJECT_TSVAL, false, nowNs);
      var stalled := Next(Next(Next(w, OutgoingSyn(flow, sequence, nowNs, true)), answer), answer);
      Next(stalled, OutgoingSyn(flow, next, nowNs, true)).marks
        == w.marks + [Injected(flow, sequence, INJECT_TSVAL)] + [Stalled(flow)] + [Injected(flow, next, INJECT_TSVAL)]
  {
    var answer := SynAck(flow, INJECT_TSVAL, false, nowNs);
    var w' := Next(w, OutgoingSyn(flow, sequence, nowNs, true));
    assert w'.marks == w.marks + [Injected(flow, sequence, INJECT_TSVAL)] && w'.clients == w.clients;
    var stalled := Next(Next(w', answer), answer);
    assert stalled.marks == w'.marks + [Stalled(flow)];
    assert stalled.clients[flow.local] == w.clients[flow.local].(stalled := true);
    assert stalled.rejected == w.rejected;
  }

  // ----- what the counters add up to

  /** The marks of other flows. */
  ghost function Without(marks: seq<Mark>, flow: Flow): (r: seq<Mark>)
    ensures |r| <= |marks|
  {
    if marks == [] then []
    else
      var rest := Without(marks[..|marks| - 1], flow);
      if marks[|marks| - 1].flow == flow then rest else rest + [marks[|marks| - 1]]
  }

  /** The counters are those of the other flows and this flow's own counts; stalls are among its settlements. */
  lemma {:induction false} CountersSplit(marks: seq<Mark>, flow: Flow)
    ensures var c, others := CountersOf(marks), CountersOf(Without(marks, flow));
      && c.injected == others.injected + CountInjected(marks, flow)
      && c.accepted == others.accepted + CountWorked(marks, flow)
      && c.stalled <= others.stalled + CountSettled(marks, flow)
  {
    if marks == [] {
    } else {
      var front, last := marks[..|marks| - 1], marks[|marks| - 1];
      assert front + [last] == marks;
      CountersSplit(front, flow);
      CountersGrow(front, last);
      CountsGrow(front, last, flow);
      if last.flow == flow {
        assert Without(marks, flow) == Without(front, flow);
      } else {
        assert Without(marks, flow) == Without(front, flow) + [last];
        CountersGrow(Without(front, flow), last);
      }
    }
  }

  lemma {:induction false} WithoutKeeps(marks: seq<Mark>, flow: Flow, other: Flow)
    ensures CountInjected(Without(marks, flow), other) == (if other == flow then 0 else CountInjected(marks, other))
    ensures CountSettled(Without(marks, flow), other) == (if other == flow then 0 else CountSettled(marks, other))
    ensures CountWorked(Without(marks, flow), other) == (if other == flow then 0 else CountWorked(marks, other))
  {
    if marks == [] {
    } else {
      var rest := Without(marks[..|marks| - 1], flow);
      WithoutKeeps(marks[..|marks| - 1], flow, other);
      CountsGrow(rest, marks[|marks| - 1], other);
    }
  }

  lemma {:induction false} WithoutLast(marks: seq<Mark>)
    requires marks != []
    ensures |Without(marks, marks[|marks| - 1].flow)| < |marks|
  {}

  ghost predicate FlowsBounded(marks: seq<Mark>)
  {
    forall flow: Flow ::
      CountSettled(marks, flow) <= CountInjected(marks, flow) && CountWorked(marks, flow) <= CountInjected(marks, flow)
  }

  lemma {:induction false} BoundsAddUp(marks: seq<Mark>)
    requires FlowsBounded(marks)
    ensures var c := CountersOf(marks); c.accepted <= c.injected && c.stalled <= c.injected
    decreases |marks|
  {
    if marks == [] {
    } else {
      var flow := marks[|marks| - 1].flow;
      var rest := Without(marks, flow);
      forall other: Flow
        ensures CountSettled(rest, other) <= CountInjected(rest, other)
        ensures CountWorked(rest, other) <= CountInjected(rest, other)
      {
        WithoutKeeps(marks, flow, other);
      }
      WithoutLast(marks);
      BoundsAddUp(rest);
      CountersSplit(marks, flow);
    }
  }

  /** Over every run no more handshakes are counted as accepted, and no more as stalled, than were injected. */
  lemma CountersAgree(events: seq<Event>)
    ensures var c := CountersOf(After(EMPTY, events).marks); c.accepted <= c.injected && c.stalled <= c.injected
  {
    var marks := After(EMPTY, events).marks;
    forall flow: Flow
      ensures CountSettled(marks, flow) <= CountInjected(marks, flow)
      ensures CountWorked(marks, flow) <= CountInjected(marks, flow)
    {
      EveryRunTells(events, flow);
    }
    BoundsAddUp(marks);
  }
}
