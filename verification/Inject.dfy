/**
 The TCP timestamp injector's policy: handshake states, skipped servers and
 learned client clocks, as steps over its maps on one processor without eviction.
 */
module Inject {
  import opened Arith
  import opened Clock32
  import opened Wrappers

  const INJECT_TSVAL: u32 := 1
  const STALLED_TSVAL: u32 := 0x8000_0000
  const DAY_NS: int := 86_400_000_000_000

  type Address = nat
  datatype Flow = Flow(local: Address, localPort: u16, remote: Address, remotePort: u16)
  datatype Server = Server(address: Address, port: u16)

  datatype Phase = Sent | Retried | Echoed | Closed

  datatype Handshake = Handshake(sequence: u32, tsval: u32, phase: Phase, learned: bool)

  datatype Client = Client(seenNs: u64, tsval: u32, stalled: bool)

  function Lookup<K, V>(m: map<K, V>, k: K): Option<V> { if k in m then Some(m[k]) else None }

  function ServerOf(flow: Flow): Server { Server(flow.remote, flow.remotePort) }

  // ----- the pure policy

  predicate ServerSkipped(rejectedNs: Option<u64>, nowNs: u64)
  {
    rejectedNs.Some? && Wrap64(nowNs - rejectedNs.value) < DAY_NS
  }

  datatype Syn = New | Rejected | Retry | Pass

  function ClassifySyn(handshake: Option<Handshake>, sequence: u32): Syn
  {
    if handshake.None? || handshake.value.sequence != sequence then New
    else match handshake.value.phase
      case Sent => Retry
      case Echoed => Syn.Rejected
      case _ => Pass
  }

  predicate ClientResetRejects(handshake: Option<Handshake>, sequence: u32)
  {
    handshake.Some? && handshake.value.phase.Echoed? && sequence == (handshake.value.sequence + 1) % CLOCK_VALUES
  }

  predicate DataAcknowledged(acknowledgement: u32, sequence: u32)
  {
    SignedDistance(acknowledgement, (sequence + 1) % CLOCK_VALUES) > 0
  }

  predicate ServerResetRejects(handshake: Option<Handshake>)
  {
    handshake.Some? && (handshake.value.phase.Sent? || handshake.value.phase.Retried?)
  }

  datatype Answer = NoAnswer | Echo | Declined | RejectedAnswer | StalledAnswer

  function ClassifyAnswer(handshake: Option<Handshake>, echoes: bool): Answer
  {
    if handshake.None? then NoAnswer
    else match handshake.value.phase
      case Sent => if echoes then Echo else Declined
      case Retried => if echoes then Echo else RejectedAnswer
      case Echoed => StalledAnswer
      case Closed => NoAnswer
  }

  function ClientTsval(client: Option<Client>, nowNs: u64): u32
  {
    if client.None? || Wrap64(nowNs - client.value.seenNs) >= DAY_NS then INJECT_TSVAL
    else if client.value.tsval != 0 then client.value.tsval
    else if client.value.stalled then STALLED_TSVAL
    else INJECT_TSVAL
  }

  // ----- the maps and what happens to them

  /** What a run has done, in order: every count, and each echo that made its flow wait for data. */
  datatype Mark =
    | Injected(flow: Flow, sequence: u32, tsval: u32)
    | Refused(flow: Flow)
    | Stalled(flow: Flow)
    | LeftAlone(flow: Flow)
    | Awaited(flow: Flow)
    | Worked(flow: Flow)

  datatype World = World(
    handshakes: map<Flow, Handshake>,
    rejected: map<Server, u64>,
    clients: map<Address, Client>,
    waiting: map<Flow, u32>,
    marks: seq<Mark>)

  const EMPTY := World(map[], map[], map[], map[], [])

  datatype Event =
    | OutgoingSyn(flow: Flow, sequence: u32, nowNs: u64, appended: bool)
    | ClientReset(flow: Flow, sequence: u32, nowNs: u64)
    | ServerReset(flow: Flow, nowNs: u64)
    | SynAck(flow: Flow, echo: u32, flowKnown: bool, nowNs: u64)
    | FirstClientStamp(flow: Flow, tsval: u32, nowNs: u64)
    | ServerData(flow: Flow, acknowledgement: u32)

  function WithPhase(w: World, flow: Flow, phase: Phase): World
    requires flow in w.handshakes
  {
    w.(handshakes := w.handshakes[flow := w.handshakes[flow].(phase := phase)])
  }

  function WithServerSkipped(w: World, flow: Flow, nowNs: u64): World
    requires flow in w.handshakes
  {
    WithPhase(w, flow, Closed).(rejected := w.rejected[ServerOf(flow) := nowNs], marks := w.marks + [Refused(flow)])
  }

  function Learn(w: World, flow: Flow, tsval: u32, nowNs: u64): World
  {
    if flow !in w.handshakes || w.handshakes[flow].learned || !w.handshakes[flow].phase.Echoed? then w
    else
      w.(handshakes := w.handshakes[flow := w.handshakes[flow].(learned := true)],
         clients := w.clients[flow.local := Client(nowNs, tsval, false)])
  }

  function WithStall(w: World, flow: Flow, nowNs: u64): World
    requires flow in w.handshakes
  {
    var client := if flow.local in w.clients then w.clients[flow.local].(stalled := true) else Client(nowNs, 0, true);
    WithPhase(w, flow, Closed).(clients := w.clients[flow.local := client], marks := w.marks + [Stalled(flow)])
  }

  function WithEcho(w: World, flow: Flow, flowKnown: bool): World
    requires flow in w.handshakes
  {
    var w' := WithPhase(w, flow, Echoed);
    if flowKnown then
      w'.(waiting := w.waiting[flow := w.handshakes[flow].sequence], marks := w.marks + [Awaited(flow)])
    else w'
  }

  function NewSyn(w: World, flow: Flow, sequence: u32, nowNs: u64, appended: bool): World
  {
    match ClassifySyn(Lookup(w.handshakes, flow), sequence)
    case Retry => WithPhase(w, flow, Retried)
    case Rejected => WithServerSkipped(w, flow, nowNs)
    case Pass => w
    case New =>
      if ServerSkipped(Lookup(w.rejected, ServerOf(flow)), nowNs) then w.(marks := w.marks + [LeftAlone(flow)])
      else if !appended then w
      else
        var tsval := ClientTsval(Lookup(w.clients, flow.local), nowNs);
        w.(handshakes := w.handshakes[flow := Handshake(sequence, tsval, Sent, false)],
           marks := w.marks + [Injected(flow, sequence, tsval)])
  }

  /** A SYN-ACK; an answer with no timestamp counts as echoing zero. */
  function Answered(w: World, flow: Flow, echo: u32, flowKnown: bool, nowNs: u64): World
  {
    if flow !in w.handshakes then w
    else
      var handshake := w.handshakes[flow];
      match ClassifyAnswer(Some(handshake), echo == handshake.tsval)
      case Echo => WithEcho(w, flow, flowKnown)
      case Declined => WithServerSkipped(w, flow, nowNs)
      case RejectedAnswer => WithServerSkipped(w, flow, nowNs)
      case StalledAnswer => WithStall(w, flow, nowNs)
      case NoAnswer => w
  }

  function Next(w: World, event: Event): World
  {
    match event
    case OutgoingSyn(flow, sequence, nowNs, appended) => NewSyn(w, flow, sequence, nowNs, appended)
    case ClientReset(flow, sequence, nowNs) =>
      if ClientResetRejects(Lookup(w.handshakes, flow), sequence) then WithServerSkipped(w, flow, nowNs) else w
    case ServerReset(flow, nowNs) =>
      if ServerResetRejects(Lookup(w.handshakes, flow)) then WithServerSkipped(w, flow, nowNs) else w
    case SynAck(flow, echo, flowKnown, nowNs) => Answered(w, flow, echo, flowKnown, nowNs)
    case FirstClientStamp(flow, tsval, nowNs) => Learn(w, flow, tsval, nowNs)
    case ServerData(flow, acknowledgement) =>
      if flow in w.waiting && DataAcknowledged(acknowledgement, w.waiting[flow])
      then w.(waiting := w.waiting - {flow}, marks := w.marks + [Worked(flow)]) else w
  }

  function After(w: World, events: seq<Event>): World
  {
    if events == [] then w else Next(After(w, events[..|events| - 1]), events[|events| - 1])
  }

  // ----- the injected value

  /** The injected value is never zero, so an answer without a timestamp is never read as an echo. */
  lemma TsvalIsNeverZero(client: Option<Client>, nowNs: u64)
    ensures ClientTsval(client, nowNs) != 0
  {}

  /** A value is ahead of a clock when the receiver would drop the clock's packets as old. */
  predicate Ahead(tsval: u32, clock: u32) { SignedDistance(clock, tsval) < 0 }

  /** One of the two fallback values is not ahead of a clock, exactly when the clock is not zero. */
  lemma FallbacksCoverClocks(clock: u32)
    ensures (!Ahead(INJECT_TSVAL, clock) || !Ahead(STALLED_TSVAL, clock)) <==> clock != 0
  {}

  // ----- the maps and counters themselves

  datatype Counters = Counters(injected: nat, skipped: nat, accepted: nat, stalled: nat)

  function CountersOf(marks: seq<Mark>): Counters
  {
    if marks == [] then Counters(0, 0, 0, 0)
    else Counted(CountersOf(marks[..|marks| - 1]), marks[|marks| - 1])
  }

  function Counted(c: Counters, mark: Mark): Counters
  {
    match mark
    case Injected(_, _, _) => c.(injected := c.injected + 1)
    case Refused(_) => c.(skipped := c.skipped + 1)
    case LeftAlone(_) => c.(skipped := c.skipped + 1)
    case Stalled(_) => c.(stalled := c.stalled + 1)
    case Worked(_) => c.(accepted := c.accepted + 1)
    case Awaited(_) => c
  }

  lemma CountersGrow(marks: seq<Mark>, mark: Mark)
    ensures CountersOf(marks + [mark]) == Counted(CountersOf(marks), mark)
  {
    assert (marks + [mark])[..|marks|] == marks;
  }

  /** The four maps, the four counters, and a record of what was counted. */
  class Injector {
    var handshakes: map<Flow, Handshake>
    var rejected: map<Server, u64>
    var clients: map<Address, Client>
    var waiting: map<Flow, u32>
    var injected: nat
    var skipped: nat
    var accepted: nat
    var stalled: nat
    ghost var marks: seq<Mark>

    constructor ()
      ensures Values() == EMPTY && Valid()
    {
      handshakes, rejected, clients, waiting := map[], map[], map[], map[];
      injected, skipped, accepted, stalled, marks := 0, 0, 0, 0, [];
    }

    ghost function Values(): World
      reads this
    {
      World(handshakes, rejected, clients, waiting, marks)
    }

    ghost predicate Valid()
      reads this
    {
      CountersOf(marks) == Counters(injected, skipped, accepted, stalled)
    }

    /** Counts one mark. */
    method Count(mark: Mark)
      requires Valid()
      modifies this`injected, this`skipped, this`accepted, this`stalled, this`marks
      ensures Valid() && marks == old(marks) + [mark]
    {
      CountersGrow(marks, mark);
      var counters := Counted(Counters(injected, skipped, accepted, stalled), mark);
      injected, skipped := counters.injected, counters.skipped;
      accepted, stalled := counters.accepted, counters.stalled;
      marks := marks + [mark];
    }

    method SkipServer(flow: Flow, nowNs: u64)
      requires Valid() && flow in handshakes
      modifies this
      ensures Valid() && Values() == WithServerSkipped(old(Values()), flow, nowNs)
    {
      rejected := rejected[ServerOf(flow) := nowNs];
      handshakes := handshakes[flow := handshakes[flow].(phase := Closed)];
      Count(Refused(flow));
    }

    method Stall(flow: Flow, nowNs: u64)
      requires Valid() && flow in handshakes
      modifies this
      ensures Valid() && Values() == WithStall(old(Values()), flow, nowNs)
    {
      handshakes := handshakes[flow := handshakes[flow].(phase := Closed)];
      var client := if flow.local in clients then clients[flow.local].(stalled := true) else Client(nowNs, 0, true);
      clients := clients[flow.local := client];
      Count(Stalled(flow));
    }

    /** A connection's first stamp from the client side: its clock, unless one was taken already. */
    method Learn(flow: Flow, tsval: u32, nowNs: u64)
      requires Valid()
      modifies this`handshakes, this`clients
      ensures Valid() && Values() == Next(old(Values()), FirstClientStamp(flow, tsval, nowNs))
    {
      if flow !in handshakes || handshakes[flow].learned || !handshakes[flow].phase.Echoed? {
        return;
      }
      handshakes := handshakes[flow := handshakes[flow].(learned := true)];
      clients := clients[flow.local := Client(nowNs, tsval, false)];
    }

    /** An echo: a flow that is known waits for its data to be acknowledged. */
    method StartWaiting(flow: Flow, flowKnown: bool)
      requires Valid() && flow in handshakes
      modifies this
      ensures Valid() && Values() == WithEcho(old(Values()), flow, flowKnown)
    {
      handshakes := handshakes[flow := handshakes[flow].(phase := Echoed)];
      if flowKnown {
        waiting := waiting[flow := handshakes[flow].sequence];
        Count(Awaited(flow));
      }
    }

    /** A server's reset or answer. */
    method Observe(flow: Flow, reset: bool, echo: u32, flowKnown: bool, nowNs: u64)
      requires Valid()
      modifies this
      ensures Valid()
      ensures Values() ==
        Next(old(Values()), if reset then ServerReset(flow, nowNs) else SynAck(flow, echo, flowKnown, nowNs))
    {
      if flow !in handshakes {
        return;
      }
      if reset {
        if ServerResetRejects(Some(handshakes[flow])) {
          SkipServer(flow, nowNs);
        }
        return;
      }
      Answer(flow, echo, flowKnown, nowNs);
    }

    method Answer(flow: Flow, echo: u32, flowKnown: bool, nowNs: u64)
      requires Valid() && flow in handshakes
      modifies this
      ensures Valid() && Values() == Answered(old(Values()), flow, echo, flowKnown, nowNs)
    {
      match ClassifyAnswer(Some(handshakes[flow]), echo == handshakes[flow].tsval)
      case Echo => StartWaiting(flow, flowKnown);
      case Declined => SkipServer(flow, nowNs);
      case RejectedAnswer => SkipServer(flow, nowNs);
      case StalledAnswer => Stall(flow, nowNs);
      case NoAnswer =>
    }

    /** A packet of a server that stamps its packets. */
    method CheckData(flow: Flow, acknowledgement: u32)
      requires Valid()
      modifies this
      ensures Valid() && Values() == Next(old(Values()), ServerData(flow, acknowledgement))
    {
      if flow !in waiting || !DataAcknowledged(acknowledgement, waiting[flow]) {
        return;
      }
      waiting := waiting - {flow};
      Count(Worked(flow));
    }

    /** An outgoing SYN without a timestamp and with room for one; whether appending it succeeds is the kernel's. */
    method NewSyn(flow: Flow, sequence: u32, nowNs: u64, appends: bool)
      requires Valid()
      modifies this
      ensures Valid() && Values() == Next(old(Values()), OutgoingSyn(flow, sequence, nowNs, appends))
    {
      match ClassifySyn(Lookup(handshakes, flow), sequence)
      case Retry => handshakes := handshakes[flow := handshakes[flow].(phase := Retried)];
      case Rejected => SkipServer(flow, nowNs);
      case Pass =>
      case New =>
        if ServerSkipped(Lookup(rejected, ServerOf(flow)), nowNs) {
          Count(LeftAlone(flow));
          return;
        }
        if !appends {
          return;
        }
        var tsval := ClientTsval(Lookup(clients, flow.local), nowNs);
        handshakes := handshakes[flow := Handshake(sequence, tsval, Sent, false)];
        Count(Injected(flow, sequence, tsval));
    }

    method Reset(flow: Flow, sequence: u32, nowNs: u64)
      requires Valid()
      modifies this
      ensures Valid() && Values() == Next(old(Values()), ClientReset(flow, sequence, nowNs))
    {
      if ClientResetRejects(Lookup(handshakes, flow), sequence) {
        SkipServer(flow, nowNs);
      }
    }
  }
}
