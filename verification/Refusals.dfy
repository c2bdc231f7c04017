/** How long a server that refused an injected SYN is left alone, over the injector's runs. */
module Refusals {
  import opened Arith
  import opened Clock32
  import opened Inject
  import opened Wrappers

  /** When an event happens; data of a server is not timed. */
  function TimeOf(event: Event): Option<u64>
  {
    match event
    case OutgoingSyn(_, _, nowNs, _) => Some(nowNs)
    case ClientReset(_, _, nowNs) => Some(nowNs)
    case ServerReset(_, nowNs) => Some(nowNs)
    case SynAck(_, _, _, nowNs) => Some(nowNs)
    case FirstClientStamp(_, _, nowNs) => Some(nowNs)
    case ServerData(_, _) => None
  }

  /** The clock does not go back. */
  ghost predicate InOrder(events: seq<Event>)
  {
    forall i, j :: 0 <= i < j < |events| ==> NotAfter(TimeOf(events[i]), TimeOf(events[j]))
  }

  predicate NotAfter(one: Option<u64>, other: Option<u64>) { one.Some? && other.Some? ==> one.value <= other.value }

  /** An event counts a refusal by a server. */
  ghost predicate Refuses(w: World, event: Event, server: Server)
  {
    var before, after := w.marks, Next(w, event).marks;
    |after| == |before| + 1 && after[|before|].Refused? && ServerOf(after[|before|].flow) == server
  }

  /** The times of a run's refusals by a server, on any port of any client. */
  ghost function RefusalTimes(events: seq<Event>, server: Server): seq<u64>
  {
    if events == [] then []
    else
      var before, event := events[..|events| - 1], events[|events| - 1];
      RefusalTimes(before, server)
      + (if Refuses(After(EMPTY, before), event, server) && TimeOf(event).Some? then [TimeOf(event).value] else [])
  }

  /** A refusal dates its server's entry, and nothing else changes one. */
  lemma EntriesAreRefusals(w: World, event: Event, server: Server)
    ensures Refuses(w, event, server) ==>
      TimeOf(event).Some? && Lookup(Next(w, event).rejected, server) == TimeOf(event)
    ensures !Refuses(w, event, server) ==> Lookup(Next(w, event).rejected, server) == Lookup(w.rejected, server)
  {}

  function LastOf(times: seq<u64>): Option<u64> { if times == [] then None else Some(times[|times| - 1]) }

  /** The entry a server has is the time of the latest refusal by it. */
  lemma {:induction false} EntryIsLatest(events: seq<Event>, server: Server)
    ensures Lookup(After(EMPTY, events).rejected, server) == LastOf(RefusalTimes(events, server))
  {
    if events == [] {
    } else {
      EntryIsLatest(events[..|events| - 1], server);
      EntriesAreRefusals(After(EMPTY, events[..|events| - 1]), events[|events| - 1], server);
    }
  }

  lemma TimesGrow(events: seq<Event>, server: Server)
    requires |events| > 0
    ensures var before, time := RefusalTimes(events[..|events| - 1], server), TimeOf(events[|events| - 1]);
      RefusalTimes(events, server) == before || (time.Some? && RefusalTimes(events, server) == before + [time.value])
  {}

  /** Times of which none is later than the last, nor that than now. */
  ghost predicate UpToLast(times: seq<u64>, nowNs: u64)
  {
    forall k :: 0 <= k < |times| ==> times[k] <= times[|times| - 1] <= nowNs
  }

  lemma AppendedUpToLast(times: seq<u64>, time: u64, nowNs: u64)
    requires UpToLast(times, time) && time <= nowNs
    ensures UpToLast(times, nowNs) && UpToLast(times + [time], nowNs)
  {}

  ghost predicate NoneLater(events: seq<Event>, nowNs: u64)
  {
    forall i :: 0 <= i < |events| ==> NotAfter(TimeOf(events[i]), Some(nowNs))
  }

  /** Under a clock that does not go back no refusal is later than the latest, or than now. */
  lemma {:induction false} LatestIsLast(events: seq<Event>, server: Server, nowNs: u64)
    requires InOrder(events) && NoneLater(events, nowNs)
    ensures UpToLast(RefusalTimes(events, server), nowNs)
  {
    if events == [] {
    } else {
      var before, time := events[..|events| - 1], TimeOf(events[|events| - 1]);
      BeforeLast(events, nowNs);
      var latestNs := if time.Some? then time.value else nowNs;
      LatestIsLast(before, server, latestNs);
      TimesGrow(events, server);
      AppendedUpToLast(RefusalTimes(before, server), latestNs, nowNs);
    }
  }

  lemma BeforeLast(events: seq<Event>, nowNs: u64)
    requires |events| > 0 && InOrder(events) && NoneLater(events, nowNs)
    ensures var before, time := events[..|events| - 1], TimeOf(events[|events| - 1]);
      InOrder(before) && NoneLater(before, if time.Some? then time.value else nowNs) && NotAfter(time, Some(nowNs))
  {
    var last := events[|events| - 1];
    assert NotAfter(TimeOf(last), Some(nowNs));
    forall i | 0 <= i < |events| - 1
      ensures NotAfter(TimeOf(events[i]), TimeOf(last))
    {}
  }

  ghost predicate AnyLately(times: seq<u64>, nowNs: u64)
  {
    exists k :: 0 <= k < |times| && nowNs - times[k] < 86_400 * 1_000_000_000
  }

  /** Some refusal by a server lies less than a day back. */
  ghost predicate RefusedLately(events: seq<Event>, server: Server, nowNs: u64)
  {
    AnyLately(RefusalTimes(events, server), nowNs)
  }

  lemma SkippedIff(time: u64, nowNs: u64)
    requires time <= nowNs
    ensures ServerSkipped(Some(time), nowNs) <==> nowNs - time < 86_400 * 1_000_000_000
  {}

  /** Of times up to now the latest tells whether any is recent. */
  lemma LatestTells(times: seq<u64>, nowNs: u64)
    requires UpToLast(times, nowNs)
    ensures AnyLately(times, nowNs) <==> ServerSkipped(LastOf(times), nowNs)
  {
    if times != [] {
      SkippedIff(times[|times| - 1], nowNs);
    }
  }

  /** With a clock that does not go back, the entry of a server tells whether it refused one lately. */
  lemma EntryTells(events: seq<Event>, server: Server, nowNs: u64)
    requires InOrder(events) && NoneLater(events, nowNs)
    ensures RefusedLately(events, server, nowNs)
       <==> ServerSkipped(Lookup(After(EMPTY, events).rejected, server), nowNs)
  {
    EntryIsLatest(events, server);
    LatestIsLast(events, server, nowNs);
    LatestTells(RefusalTimes(events, server), nowNs);
  }

  /**
   The first SYN of a handshake is left alone if and only if its server refused one, on any
   port of any client, within the day before; and otherwise is injected once a timestamp is
   appended. Retransmissions are never injected into.
   */
  lemma LeftAloneIffRefused(events: seq<Event>, flow: Flow, sequence: u32, nowNs: u64, appended: bool)
    requires InOrder(events) && NoneLater(events, nowNs)
    ensures var before := After(EMPTY, events);
      var after := Next(before, OutgoingSyn(flow, sequence, nowNs, appended));
      if flow in before.handshakes && before.handshakes[flow].sequence == sequence then
        after.marks == before.marks || after.marks == before.marks + [Refused(flow)]
      else if RefusedLately(events, ServerOf(flow), nowNs) then
        after == before.(marks := before.marks + [LeftAlone(flow)])
      else if appended then
        exists tsval :: after.marks == before.marks + [Injected(flow, sequence, tsval)]
      else after == before
  {
    EntryTells(events, ServerOf(flow), nowNs);
    SynIs(After(EMPTY, events), flow, sequence, nowNs, appended,
          RefusedLately(events, ServerOf(flow), nowNs));
  }

  lemma SynIs(w: World, flow: Flow, sequence: u32, nowNs: u64, appended: bool, skipped: bool)
    requires skipped == ServerSkipped(Lookup(w.rejected, ServerOf(flow)), nowNs)
    ensures var after := Next(w, OutgoingSyn(flow, sequence, nowNs, appended));
      if flow in w.handshakes && w.handshakes[flow].sequence == sequence then
        after.marks == w.marks || after.marks == w.marks + [Refused(flow)]
      else if skipped then after == w.(marks := w.marks + [LeftAlone(flow)])
      else if appended then exists tsval :: after.marks == w.marks + [Injected(flow, sequence, tsval)]
      else after == w
  {
    var tsval := ClientTsval(Lookup(w.clients, flow.local), nowNs);
    assert Next(w, OutgoingSyn(flow, sequence, nowNs, appended)).marks == w.marks + [Injected(flow, sequence, tsval)]
      || !appended || skipped || (flow in w.handshakes && w.handshakes[flow].sequence == sequence);
  }

  // ----- what each event makes of a handshake

  function FlowOf(event: Event): Flow { event.flow }

  /** A handshake is closed and its server counted refused. */
  ghost predicate ClosesRefused(w: World, after: World, flow: Flow)
    requires flow in w.handshakes
  {
    && after.handshakes == w.handshakes[flow := w.handshakes[flow].(phase := Closed)]
    && after.marks == w.marks + [Refused(flow)] && after.clients == w.clients && after.waiting == w.waiting
  }

  /**
   Until it is echoed an injected handshake is refused by a server's reset or by an answer
   that does not echo; after that by a retransmission or by the client's reset right after
   its SYN. An answer after the echo is a stall. A closed one changes no more.
   */
  lemma EventSettles(w: World, event: Event)
    requires FlowOf(event) in w.handshakes
    ensures var flow, after := FlowOf(event), Next(w, event);
      var handshake := w.handshakes[flow];
      var unanswered, echoed := handshake.phase.Sent? || handshake.phase.Retried?, handshake.phase.Echoed?;
      match event
      case OutgoingSyn(_, sequence, _, _) =>
        sequence == handshake.sequence ==>
          if handshake.phase.Sent? then after == w.(handshakes := w.handshakes[flow := handshake.(phase := Retried)])
          else if echoed then ClosesRefused(w, after, flow) else after == w
      case SynAck(_, echo, _, _) =>
        if unanswered && echo == handshake.tsval then
          after.handshakes == w.handshakes[flow := handshake.(phase := Echoed)]
        else if unanswered then ClosesRefused(w, after, flow)
        else if echoed then
          && after.handshakes == w.handshakes[flow := handshake.(phase := Closed)]
          && after.marks == w.marks + [Stalled(flow)]
        else after == w
      case ServerReset(_, _) => if unanswered then ClosesRefused(w, after, flow) else after == w
      case ClientReset(_, sequence, _) =>
        if echoed && (sequence - handshake.sequence - 1) % 0x1_0000_0000 == 0 then ClosesRefused(w, after, flow)
        else after == w
      case FirstClientStamp(_, _, _) =>
        if handshake.learned || !echoed then after == w
        else
          && after.handshakes == w.handshakes[flow := handshake.(learned := true)]
          && after.marks == w.marks && after.waiting == w.waiting && after.rejected == w.rejected
      case ServerData(_, _) => after.handshakes == w.handshakes
  {
    if event.ClientReset? { NextSequence(event.sequence, w.handshakes[event.flow].sequence); }
  }

  lemma NextSequence(sequence: u32, before: u32)
    ensures sequence == (before + 1) % CLOCK_VALUES <==> (sequence - before - 1) % 0x1_0000_0000 == 0
  {}

  // ----- the clients' clocks

  /** An event shows a client's clock: the first stamp of a handshake of its own that was echoed. */
  ghost predicate ShowsClock(w: World, event: Event, client: Address)
  {
    && event.FirstClientStamp? && event.flow.local == client && event.flow in w.handshakes
    && w.handshakes[event.flow].phase.Echoed? && !w.handshakes[event.flow].learned
  }

  ghost predicate Stalls(w: World, event: Event, client: Address)
  {
    var before, after := w.marks, Next(w, event).marks;
    |after| == |before| + 1 && after[|before|].Stalled? && after[|before|].flow.local == client
  }

  /** A client's entry is its clock as last shown, dated then; or its first stall; and whether it stalled since. */
  lemma EntryFollowsClock(w: World, event: Event, client: Address)
    ensures var entry, after := Lookup(w.clients, client), Lookup(Next(w, event).clients, client);
      if ShowsClock(w, event, client) then after == Some(Client(event.nowNs, event.tsval, false))
      else if Stalls(w, event, client) then
        after == Some(if entry.Some? then entry.value.(stalled := true) else Client(TimeOf(event).value, 0, true))
      else after == entry
  {
    if event.SynAck? {
      AnswerFollowsClock(w, event, client);
    } else if event.FirstClientStamp? {
    } else {
      OthersKeepClients(w, event);
    }
  }

  lemma AnswerFollowsClock(w: World, event: Event, client: Address)
    requires event.SynAck?
    ensures var entry, after := Lookup(w.clients, client), Lookup(Next(w, event).clients, client);
      after == if Stalls(w, event, client) then
                 Some(if entry.Some? then entry.value.(stalled := true) else Client(event.nowNs, 0, true))
               else entry
  {}

  lemma OthersKeepClients(w: World, event: Event)
    requires !event.SynAck? && !event.FirstClientStamp?
    ensures Next(w, event).clients == w.clients
    ensures forall client :: !Stalls(w, event, client)
  {}

  lemma LastMark(marks: seq<Mark>, mark: Mark)
    ensures (marks + [mark])[|marks|] == mark
  {}

  /**
   The value injected is the client's clock as shown within a day; without one, the second
   fallback after a stall within a day of the first, and the first fallback otherwise.
   */
  lemma InjectsClock(w: World, flow: Flow, sequence: u32, nowNs: u64, tsval: u32)
    requires Next(w, OutgoingSyn(flow, sequence, nowNs, true)).marks == w.marks + [Injected(flow, sequence, tsval)]
    requires flow.local in w.clients ==> w.clients[flow.local].seenNs <= nowNs
    ensures if flow.local !in w.clients then tsval == 1
      else
        var client := w.clients[flow.local];
        if nowNs - client.seenNs >= 86_400 * 1_000_000_000 then tsval == 1
        else if client.tsval != 0 then tsval == client.tsval
        else tsval == if client.stalled then 0x8000_0000 else 1
  {
    LastMark(w.marks, Injected(flow, sequence, tsval));
    LastMark(w.marks, Injected(flow, sequence, ClientTsval(Lookup(w.clients, flow.local), nowNs)));
  }
}
