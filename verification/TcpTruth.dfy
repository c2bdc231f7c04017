/**
 The estimator against what really happened: packets that left a server on the ticks of
 its clock, and took some time each way.
 */
module TcpTruth {
  import opened Arith
  import opened Clock32
  import opened TcpEstimator
  import opened TcpWindow
  import opened Wrappers

  /** The true times of a server's ticks: when its clock would have stood at zero, and how long a tick is. */
  datatype Server = Server(startNs: int, tickNs: int)

  /**
   A server's packet: its clock when it left, how long it took down, and how long the
   packet it answers took up, when it answers one whose departure was seen.
   */
  datatype Journey = Journey(remote: nat, downNs: int, upNs: Option<int>)

  function LeftNs(server: Server, journey: Journey): int { server.startNs + journey.remote * server.tickNs }

  function ArrivedNs(server: Server, journey: Journey): int { LeftNs(server, journey) + journey.downNs }

  /** What the filter samples of a packet. */
  ghost predicate Seen(server: Server, journey: Journey, sample: Sample)
  {
    && sample.tsval == journey.remote % CLOCK_VALUES
    && sample.arrivalNs == ArrivedNs(server, journey)
    && (journey.upNs.Some? ==> sample.departureNs == LeftNs(server, journey) - journey.upNs.value)
    && (journey.upNs.Some? <==> sample.departureNs != 0)
  }

  // ----- the least delays of packets

  function LeastDown(journeys: seq<Journey>): int
    requires journeys != []
  {
    var last := journeys[|journeys| - 1].downNs;
    if |journeys| == 1 then last else Min(LeastDown(journeys[..|journeys| - 1]), last)
  }

  function LeastUp(journeys: seq<Journey>): Option<int>
  {
    if journeys == [] then None
    else
      var before, last := LeastUp(journeys[..|journeys| - 1]), journeys[|journeys| - 1].upNs;
      if last.None? then before else if before.None? then last else Some(Min(before.value, last.value))
  }

  lemma {:induction false} LeastDownIsLeast(journeys: seq<Journey>)
    requires journeys != []
    ensures exists j :: j in journeys && j.downNs == LeastDown(journeys)
    ensures forall j :: j in journeys ==> LeastDown(journeys) <= j.downNs
  {
    var front, last := journeys[..|journeys| - 1], journeys[|journeys| - 1];
    assert forall j :: j in journeys <==> j in front || j == last;
    if |journeys| == 1 {
    } else {
      LeastDownIsLeast(front);
    }
  }

  lemma {:induction false} LeastUpIsLeast(journeys: seq<Journey>)
    ensures LeastUp(journeys).None? <==> forall j :: j in journeys ==> j.upNs.None?
    ensures LeastUp(journeys).Some? ==> exists j :: j in journeys && j.upNs == LeastUp(journeys)
    ensures forall j :: j in journeys && j.upNs.Some? ==>
      LeastUp(journeys).Some? && LeastUp(journeys).value <= j.upNs.value
  {
    if journeys == [] {
    } else {
      var front, last := journeys[..|journeys| - 1], journeys[|journeys| - 1];
      assert forall j :: j in journeys <==> j in front || j == last;
      LeastUpIsLeast(front);
    }
  }

  lemma LeastTakes(journeys: seq<Journey>, next: Journey)
    ensures LeastDown(journeys + [next]) ==
      (if journeys == [] then next.downNs else Min(LeastDown(journeys), next.downNs))
    ensures LeastUp(journeys + [next]) ==
      (if next.upNs.None? then LeastUp(journeys)
       else if LeastUp(journeys).None? then next.upNs
       else Some(Min(LeastUp(journeys).value, next.upNs.value)))
  {
    assert (journeys + [next])[..|journeys|] == journeys;
  }

  // ----- what a flow holds of the packets it took

  /** The packet a flow took last, or the one it began with. */
  function LastOf(first: Journey, taken: seq<Journey>): Journey
  {
    if taken == [] then first else taken[|taken| - 1]
  }

  /** The floors of a flow at the server's own tick, in true delays of the packets taken. */
  ghost predicate FloorsAreLeast(flow: Flow, index: nat, first: Journey, taken: seq<Journey>)
    requires index < TICKS && |flow.downloadFloors| == |flow.uploadFloors| == TICKS
  {
    && flow.downloadFloors[index] ==
       (if taken == [] then Floor(0, false) else Floor(LeastDown(taken) - first.downNs, true))
    && flow.uploadFloors[index] ==
       (match LeastUp(taken)
        case None => Floor(0, false)
        case Some(up) => Floor(up + first.downNs, true))
  }

  ghost predicate Follows(flow: Flow, server: Server, index: nat, first: Journey, taken: seq<Journey>)
    requires index < TICKS
  {
    var last := LastOf(first, taken);
    && Shaped(flow) && (flow.tickNs == 0 || flow.tickIndex == index)
    && flow.firstArrivalNs == ArrivedNs(server, first)
    && last.remote >= first.remote && flow.clock.ticks == last.remote - first.remote
    && flow.clock.lastTsval == last.remote % CLOCK_VALUES
    && flow.clock.lastAcceptedNs == ArrivedNs(server, last)
    && FloorsAreLeast(flow, index, first, taken)
  }

  /** A packet is taken when neither its clock nor its arrival has gone back. */
  ghost predicate Takes(server: Server, last: Journey, next: Journey)
  {
    next.remote >= last.remote && ArrivedNs(server, next) >= ArrivedNs(server, last)
  }

  /** No packet lies half the 32-bit clock away from the last one taken. */
  ghost predicate Near(last: Journey, next: Journey) { -HALF_CLOCK <= next.remote - last.remote < HALF_CLOCK }

  /** What a packet taken queued, each way: its delay less the least so far, its own among them. */
  function DownQueue(taken: seq<Journey>, next: Journey): int { next.downNs - LeastDown(taken + [next]) }

  function UpQueue(taken: seq<Journey>, next: Journey): int
    requires next.upNs.Some?
  {
    LeastTakes(taken, next);
    next.upNs.value - LeastUp(taken + [next]).value
  }

  /** Queues no longer than the longest the estimator believes. */
  ghost predicate Plausible(taken: seq<Journey>, next: Journey)
  {
    && DownQueue(taken, next) <= IMPLAUSIBLE_QUEUE_NS
    && (next.upNs.Some? ==> UpQueue(taken, next) <= IMPLAUSIBLE_QUEUE_NS)
  }

  // ----- one packet

  /** On the server's own tick the raw values are true delays, off by the first packet's delay down. */
  lemma RawsAreDelays(flow: Flow, server: Server, index: nat, first: Journey, next: Journey, sample: Sample)
    requires index < TICKS && server.tickNs == STANDARD_TICKS_NS[index] && Seen(server, next, sample)
    requires flow.firstArrivalNs == ArrivedNs(server, first)
    requires next.remote >= first.remote && flow.clock.ticks == next.remote - first.remote
    ensures DownloadRaw(flow, sample, index) == next.downNs - first.downNs
    ensures next.upNs.Some? ==> UploadRaw(flow, sample, index) == next.upNs.value + first.downNs
  {
    TicksApart(next.remote, first.remote, server.tickNs);
  }

  lemma TicksApart(later: int, earlier: int, tickNs: int)
    ensures (later - earlier) * tickNs == later * tickNs - earlier * tickNs
  {}

  /** Of all candidate periods the one at an index is measured by itself. */
  lemma {:induction false} MeasuredAllAt(bound: Bound, flow: Flow, count: nat, index: nat, sample: Sample)
    requires index < TICKS && count <= TICKS && |flow.downloadFloors| == |flow.uploadFloors| == TICKS
    ensures var all, one := MeasuredAll(bound, flow, count, sample), Measured(bound, flow, index, sample);
      && all.downloadFloors[index] == (if index < count then one else flow).downloadFloors[index]
      && all.uploadFloors[index] == (if index < count then one else flow).uploadFloors[index]
  {
    if count == 0 {
    } else {
      MeasuredAllAt(bound, flow, count - 1, index, sample);
      MeasuredAllStays(bound, flow, count - 1, sample);
      OneMeasured(bound, MeasuredAll(bound, flow, count - 1, sample), flow, count - 1, index, sample);
    }
  }

  /** Measuring at one period reads and moves the floors of that period alone. */
  lemma OneMeasured(bound: Bound, before: Flow, flow: Flow, at: nat, index: nat, sample: Sample)
    requires at < TICKS && index < TICKS && |flow.downloadFloors| == |flow.uploadFloors| == TICKS
    requires |before.downloadFloors| == |before.uploadFloors| == TICKS
    requires before.clock == flow.clock && before.firstArrivalNs == flow.firstArrivalNs
    requires before.downloadFloors[index] == flow.downloadFloors[index] || at != index
    requires before.uploadFloors[index] == flow.uploadFloors[index] || at != index
    ensures var after, one := Measured(bound, before, at, sample), Measured(bound, flow, index, sample);
      && after.downloadFloors[index] == (if at == index then one else before).downloadFloors[index]
      && after.uploadFloors[index] == (if at == index then one else before).uploadFloors[index]
  {}

  /** Measuring a packet at the server's tick keeps the floors least, and shows its queues above them. */
  lemma MeasuringIsTrue(flow: Flow, server: Server, index: nat, first: Journey, taken: seq<Journey>,
                        next: Journey, sample: Sample)
    requires index < TICKS && server.tickNs == STANDARD_TICKS_NS[index] && Seen(server, next, sample)
    requires |flow.downloadFloors| == |flow.uploadFloors| == TICKS && FloorsAreLeast(flow, index, first, taken)
    requires flow.firstArrivalNs == ArrivedNs(server, first)
    requires next.remote >= first.remote && flow.clock.ticks == next.remote - first.remote
    ensures FloorsAreLeast(Measured(Unbounded, flow, index, sample), index, first, taken + [next])
    ensures Computes(Unbounded, flow, index, sample) ==>
      && QueuesOf(Unbounded, flow, index, sample).downloadNs == DownQueue(taken, next)
      && QueuesOf(Unbounded, flow, index, sample).uploadNs == (if next.upNs.Some? then UpQueue(taken, next) else -1)
  {
    RawsAreDelays(flow, server, index, first, next, sample);
    LeastTakes(taken, next);
  }

  lemma TakenIffAccepted(flow: Flow, server: Server, index: nat, first: Journey, taken: seq<Journey>,
                         next: Journey, sample: Sample)
    requires index < TICKS && Follows(flow, server, index, first, taken) && Seen(server, next, sample)
    requires Near(LastOf(first, taken), next)
    ensures Accepts(flow.clock, sample.tsval, sample.arrivalNs) <==> Takes(server, LastOf(first, taken), next)
    ensures Takes(server, LastOf(first, taken), next) ==>
      Clocked(flow, sample).clock == Clock(sample.tsval, next.remote - first.remote, sample.arrivalNs)
  {
    DistanceIsTrue(next.remote, LastOf(first, taken).remote);
  }

  /** A packet not taken changes nothing a flow holds or has shown. */
  lemma NotTaken(flow: Flow, server: Server, index: nat, first: Journey, taken: seq<Journey>,
                 next: Journey, sample: Sample, history: History)
    requires index < TICKS && Follows(flow, server, index, first, taken) && Seen(server, next, sample)
    requires Near(LastOf(first, taken), next) && !Takes(server, LastOf(first, taken), next)
    requires Representable(Unbounded, flow, sample)
    ensures Updated(Unbounded, flow, sample) == flow
    ensures Extended(Unbounded, flow, sample, history).download == history.download
    ensures Extended(Unbounded, flow, sample, history).upload == history.upload
  {
    TakenIffAccepted(flow, server, index, first, taken, next, sample);
  }

  /** Before a flow has a period a packet taken only moves its floors. */
  lemma TakenEarly(flow: Flow, server: Server, index: nat, first: Journey, taken: seq<Journey>,
                   next: Journey, sample: Sample, history: History)
    requires index < TICKS && server.tickNs == STANDARD_TICKS_NS[index] && Seen(server, next, sample)
    requires Follows(flow, server, index, first, taken) && flow.tickNs == 0
    requires Near(LastOf(first, taken), next) && Takes(server, LastOf(first, taken), next)
    requires Representable(Unbounded, flow, sample)
    requires var now := Updated(Unbounded, flow, sample); now.tickNs == 0 || now.tickIndex == index
    ensures Follows(Updated(Unbounded, flow, sample), server, index, first, taken + [next])
    ensures Extended(Unbounded, flow, sample, history).download == history.download
    ensures Extended(Unbounded, flow, sample, history).upload == history.upload
  {
    TakenIffAccepted(flow, server, index, first, taken, next, sample);
    var advanced := Clocked(flow, sample);
    MeasuringIsTrue(advanced, server, index, first, taken, next, sample);
    MeasuredAllAt(Unbounded, advanced, TICKS, index, sample);
    MeasuredAllStays(Unbounded, advanced, TICKS, sample);
    UpdateKeepsShape(Unbounded, flow, sample);
  }

  /** Once a flow has the server's period a packet taken shows its true queues. */
  lemma TakenLater(flow: Flow, server: Server, index: nat, first: Journey, taken: seq<Journey>,
                   next: Journey, sample: Sample, history: History)
    requires index < TICKS && server.tickNs == STANDARD_TICKS_NS[index] && Seen(server, next, sample)
    requires Follows(flow, server, index, first, taken) && flow.tickNs != 0
    requires Near(LastOf(first, taken), next) && Takes(server, LastOf(first, taken), next)
    requires Representable(Unbounded, flow, sample) && Plausible(taken, next)
    ensures Follows(Updated(Unbounded, flow, sample), server, index, first, taken + [next])
    ensures Shows(Extended(Unbounded, flow, sample, history), history, taken, next, sample)
  {
    TakenIffAccepted(flow, server, index, first, taken, next, sample);
    MeasuringIsTrue(Clocked(flow, sample), server, index, first, taken, next, sample);
    UpdateKeepsShape(Unbounded, flow, sample);
  }

  /** The history has the packet's true queues, and nothing else, more than before. */
  ghost predicate Shows(after: History, before: History, taken: seq<Journey>, next: Journey, sample: Sample)
  {
    && Signed(DownQueue(taken, next)) && (next.upNs.Some? ==> Signed(UpQueue(taken, next)))
    && after.download == before.download + [Observation(DownQueue(taken, next), sample.arrivalNs, Unbounded)]
    && after.upload == (if next.upNs.None? then before.upload
                        else before.upload + [Observation(UpQueue(taken, next), sample.arrivalNs, Unbounded)])
  }

  /** A longer queue than the estimator believes starts the flow over at that packet. */
  lemma ImplausibleStartsOver(flow: Flow, server: Server, index: nat, first: Journey, taken: seq<Journey>,
                              next: Journey, sample: Sample)
    requires index < TICKS && server.tickNs == STANDARD_TICKS_NS[index] && Seen(server, next, sample)
    requires Follows(flow, server, index, first, taken) && flow.tickNs != 0
    requires Near(LastOf(first, taken), next) && Takes(server, LastOf(first, taken), next)
    requires Representable(Unbounded, flow, sample) && !Plausible(taken, next)
    ensures Updated(Unbounded, flow, sample) == FlowStart(sample)
  {
    TakenIffAccepted(flow, server, index, first, taken, next, sample);
    MeasuringIsTrue(Clocked(flow, sample), server, index, first, taken, next, sample);
  }

  // ----- the period a flow adopts

  /** A flow adopts the server's own tick when it is old enough and its delay has changed by little of its age. */
  lemma TrueTickFits(server: Server, index: nat, first: Journey, next: Journey, spanNs: nat)
    requires index < TICKS && server.tickNs == STANDARD_TICKS_NS[index] && next.remote > first.remote
    requires spanNs == ArrivedNs(server, next) - ArrivedNs(server, first)
    requires var ageNs, change := (next.remote - first.remote) * server.tickNs, next.downNs - first.downNs;
      -ageNs <= 20 * change <= ageNs
    ensures Fit(spanNs / (next.remote - first.remote), 0) == Some(index)
  {
    var ticks: nat, tolerance := next.remote - first.remote, server.tickNs / 20;
    TicksApart(next.remote, first.remote, server.tickNs);
    PeriodWithin(spanNs, ticks, server.tickNs, tolerance, next.downNs - first.downNs);
    assert RatioOf(1_000_000, TICK_TOLERANCE_RATIO_E6) == 50_000;
    assert RatioOf(4_000_000, TICK_TOLERANCE_RATIO_E6) == 200_000;
    assert RatioOf(10_000_000, TICK_TOLERANCE_RATIO_E6) == 500_000;
    assert RatioOf(100_000_000, TICK_TOLERANCE_RATIO_E6) == 5_000_000;
    assert Fits(spanNs / ticks, index);
    OnlyFitIsFound(spanNs / ticks, index, 0);
  }

  /** Then a packet taken gives the flow that tick; in the flow's first two seconds it never does. */
  lemma TrueTickIsAdopted(flow: Flow, server: Server, index: nat, first: Journey, taken: seq<Journey>,
                          next: Journey, sample: Sample)
    requires index < TICKS && server.tickNs == STANDARD_TICKS_NS[index] && Seen(server, next, sample)
    requires Follows(flow, server, index, first, taken) && flow.tickNs == 0 && next.remote > first.remote
    requires Near(LastOf(first, taken), next) && Takes(server, LastOf(first, taken), next)
    requires Representable(Unbounded, flow, sample)
    ensures var now, spanNs := Updated(Unbounded, flow, sample), ArrivedNs(server, next) - ArrivedNs(server, first);
      var ageNs, change := (next.remote - first.remote) * server.tickNs, next.downNs - first.downNs;
      && (spanNs < TICK_SPAN_NS ==> now.tickNs == 0)
      && (spanNs >= TICK_SPAN_NS && -ageNs <= 20 * change <= ageNs ==>
            now.tickNs == server.tickNs && now.tickIndex == index)
  {
    var ageNs, change := (next.remote - first.remote) * server.tickNs, next.downNs - first.downNs;
    TakenIffAccepted(flow, server, index, first, taken, next, sample);
    MeasuredAllStays(Unbounded, Clocked(flow, sample), TICKS, sample);
    if -ageNs <= 20 * change <= ageNs {
      TrueTickFits(server, index, first, next, sample.arrivalNs - flow.firstArrivalNs);
    }
  }

  lemma PeriodWithin(spanNs: nat, ticks: nat, tickNs: int, tolerance: int, change: int)
    requires ticks > 0 && tickNs == 20 * tolerance && tolerance > 0
    requires spanNs == ticks * tickNs + change && -(ticks * tickNs) <= 20 * change <= ticks * tickNs
    ensures tickNs - tolerance <= spanNs / ticks <= tickNs + tolerance
  {
    assert ticks * tickNs == 20 * (ticks * tolerance);
    Spread(ticks, tickNs, tolerance);
    QuotientMonotone((tickNs - tolerance) * ticks, spanNs, ticks);
    QuotientMonotone(spanNs, (tickNs + tolerance) * ticks, ticks);
    QuotientIs((tickNs - tolerance) * ticks, ticks, tickNs - tolerance);
    QuotientIs((tickNs + tolerance) * ticks, ticks, tickNs + tolerance);
  }

  lemma Spread(ticks: int, tickNs: int, tolerance: int)
    ensures (tickNs - tolerance) * ticks == ticks * tickNs - ticks * tolerance
    ensures (tickNs + tolerance) * ticks == ticks * tickNs + ticks * tolerance
  {}

  lemma {:induction false} OnlyFitIsFound(periodNs: nat, index: nat, start: nat)
    requires start <= index < TICKS && Fits(periodNs, index)
    ensures Fit(periodNs, start) == Some(index)
    decreases TICKS - start
  {
    if start == index {
    } else {
      if Fits(periodNs, start) { AtMostOneFits(periodNs, start, index); }
      OnlyFitIsFound(periodNs, index, start + 1);
    }
  }

  // ----- whole runs

  /** A packet, and what was seen of it. */
  datatype Packet = Packet(journey: Journey, sample: Sample)

  /** The packets taken of those offered, in order. */
  ghost function Taken(server: Server, first: Journey, packets: seq<Packet>): seq<Journey>
  {
    if packets == [] then []
    else
      var before, last := Taken(server, first, packets[..|packets| - 1]), packets[|packets| - 1].journey;
      if Takes(server, LastOf(first, before), last) then before + [last] else before
  }

  /**
   A run of packets of one server through one flow, which began with the first of them, is
   never bounded, adopts no period but the server's and shows no implausible queue.
   */
  ghost predicate Steady(server: Server, index: nat, first: Packet, packets: seq<Packet>)
    requires index < TICKS
    decreases |packets|, 0
  {
    packets == [] ||
    var front, last := packets[..|packets| - 1], packets[|packets| - 1];
    && Steady(server, index, first, front) && Seen(server, last.journey, last.sample)
    && var flow, taken := FlowOver(server, index, first, front), Taken(server, first.journey, front);
       && Near(LastOf(first.journey, taken), last.journey)
       && Shaped(flow) && Representable(Unbounded, flow, last.sample)
       && (flow.tickNs != 0 && Takes(server, LastOf(first.journey, taken), last.journey) ==>
             Plausible(taken, last.journey))
       && var now := Updated(Unbounded, flow, last.sample); now.tickNs == 0 || now.tickIndex == index
  }

  ghost function FlowOver(server: Server, index: nat, first: Packet, packets: seq<Packet>): Flow
    requires index < TICKS && Steady(server, index, first, packets)
    decreases |packets|, 1
  {
    if packets == [] then FlowStart(first.sample)
    else
      Updated(Unbounded, FlowOver(server, index, first, packets[..|packets| - 1]), packets[|packets| - 1].sample)
  }

  ghost function HistoryOver(server: Server, index: nat, first: Packet, packets: seq<Packet>): History
    requires index < TICKS && Steady(server, index, first, packets)
    decreases |packets|, 1
  {
    if packets == [] then NewHistory(first.sample)
    else
      var front := packets[..|packets| - 1];
      Extended(Unbounded, FlowOver(server, index, first, front), packets[|packets| - 1].sample,
               HistoryOver(server, index, first, front))
  }

  lemma {:induction false} SteadyFollows(server: Server, index: nat, first: Packet, packets: seq<Packet>)
    requires index < TICKS && server.tickNs == STANDARD_TICKS_NS[index]
    requires Seen(server, first.journey, first.sample) && Steady(server, index, first, packets)
    ensures Follows(FlowOver(server, index, first, packets), server, index, first.journey,
                    Taken(server, first.journey, packets))
  {
    if packets == [] {
    } else {
      var front, last := packets[..|packets| - 1], packets[|packets| - 1];
      SteadyFollows(server, index, first, front);
      var flow, taken := FlowOver(server, index, first, front), Taken(server, first.journey, front);
      var history := HistoryOver(server, index, first, front);
      if !Takes(server, LastOf(first.journey, taken), last.journey) {
        NotTaken(flow, server, index, first.journey, taken, last.journey, last.sample, history);
      } else if flow.tickNs == 0 {
        TakenEarly(flow, server, index, first.journey, taken, last.journey, last.sample, history);
      } else {
        TakenLater(flow, server, index, first.journey, taken, last.journey, last.sample, history);
      }
    }
  }

  /**
   Over every such run, what the last packet adds to the queues shown is nothing before
   the flow has a period or when the packet is out of order, and else exactly its delay
   down less the least since the flow began, and, when it answers a departure, its delay up
   less the least of those.
   */
  lemma QueuesAreTrue(server: Server, index: nat, first: Packet, packets: seq<Packet>)
    requires index < TICKS && server.tickNs == STANDARD_TICKS_NS[index] && packets != []
    requires Seen(server, first.journey, first.sample) && Steady(server, index, first, packets)
    ensures var front, last := packets[..|packets| - 1], packets[|packets| - 1];
      var taken := Taken(server, first.journey, front);
      var before, after := HistoryOver(server, index, first, front), HistoryOver(server, index, first, packets);
      if FlowOver(server, index, first, front).tickNs == 0
         || !Takes(server, LastOf(first.journey, taken), last.journey)
      then after.download == before.download && after.upload == before.upload
      else Shows(after, before, taken, last.journey, last.sample)
  {
    var front, last := packets[..|packets| - 1], packets[|packets| - 1];
    SteadyFollows(server, index, first, front);
    var flow, taken := FlowOver(server, index, first, front), Taken(server, first.journey, front);
    var history := HistoryOver(server, index, first, front);
    if !Takes(server, LastOf(first.journey, taken), last.journey) {
      NotTaken(flow, server, index, first.journey, taken, last.journey, last.sample, history);
    } else if flow.tickNs == 0 {
      TakenEarly(flow, server, index, first.journey, taken, last.journey, last.sample, history);
    } else {
      TakenLater(flow, server, index, first.journey, taken, last.journey, last.sample, history);
    }
  }

  /** A sample recorded for a slot that holds such a run continues it; one that starts a slot begins one. */
  lemma RecordingContinues(server: Server, index: nat, first: Packet, packets: seq<Packet>, next: Packet,
                           flows: seq<Flow>, histories: seq<History>, slot: nat,
                           flowsNow: seq<Flow>, historiesNow: seq<History>)
    requires index < TICKS && Steady(server, index, first, packets + [next])
    requires Recorded(Unbounded, next.sample, flows, histories, slot, flowsNow, historiesNow)
    requires (packets + [next])[..|packets|] == packets
    requires if Known(flows[slot], next.sample)
             then flows[slot] == FlowOver(server, index, first, packets)
                  && histories[slot] == HistoryOver(server, index, first, packets)
             else packets == [] && first == next
    ensures flowsNow[slot] == FlowOver(server, index, first, packets + [next])
    ensures historiesNow[slot] == HistoryOver(server, index, first, packets + [next])
  {}
}
