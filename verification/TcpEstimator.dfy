/**
 The TCP-timestamp queue estimator: a table of flows, each with floors for every
 standard clock period and recent-minimum windows in both directions.
 */
module TcpEstimator {
  import opened Arith
  import opened Clock32
  import opened TcpWindow
  import opened Wrappers

  const FLOWS: nat := 32
  const TICKS: nat := 4
  const TICK_SPAN_NS: int := 2_000_000_000
  const IMPLAUSIBLE_QUEUE_NS: int := 10_000_000_000
  const TICK_TOLERANCE_RATIO_E6: int := 50_000
  const NANOSECONDS_PER_MICROSECOND: int := 1000
  const STANDARD_TICKS_NS: seq<int> := [1_000_000, 4_000_000, 10_000_000, 100_000_000]
  /** Times and remote times below this keep every difference in 64 bits. */
  const TIME_LIMIT: int := 0x2000_0000_0000_0000

  type FlowKey = seq<byte>

  datatype Sample = Sample(flow: FlowKey, arrivalNs: u64, departureNs: u64, tsval: u32)

  datatype Flow = Flow(
    key: FlowKey, used: bool, firstArrivalNs: u64, clock: Clock,
    tickNs: int, tickIndex: nat,
    downloadFloors: seq<Floor>, uploadFloors: seq<Floor>,
    download: Window, upload: Window)

  datatype Estimate = Estimate(downloadValid: bool, downloadUs: int, uploadValid: bool, uploadUs: int)

  const NO_FLOORS: seq<Floor> := [Floor(0, false), Floor(0, false), Floor(0, false), Floor(0, false)]
  const UNUSED := Flow([], false, 0, Clock(0, 0, 0), 0, 0, NO_FLOORS, NO_FLOORS, NO_WINDOW, NO_WINDOW)

  function FlowStart(sample: Sample): Flow
  {
    Flow(sample.flow, true, sample.arrivalNs, Clock(sample.tsval, 0, sample.arrivalNs), 0, 0,
         NO_FLOORS, NO_FLOORS, NO_WINDOW, NO_WINDOW)
  }

  // ----- one sample of one flow

  /** The tables have their sizes, and the period is none or the one at its index. */
  ghost predicate Shaped(flow: Flow)
  {
    && |flow.downloadFloors| == |flow.uploadFloors| == TICKS
    && flow.firstArrivalNs <= flow.clock.lastAcceptedNs
    && flow.tickIndex < TICKS
    && (flow.tickNs == 0 || flow.tickNs == STANDARD_TICKS_NS[flow.tickIndex])
  }

  /** What a sample shows of the way down, up to the difference of the two clocks. */
  function DownloadRaw(flow: Flow, sample: Sample, index: nat): int
    requires index < TICKS
  {
    sample.arrivalNs - flow.firstArrivalNs - flow.clock.ticks * STANDARD_TICKS_NS[index]
  }

  /** What it shows of the way up, from the departure it answers, up to the same difference. */
  function UploadRaw(flow: Flow, sample: Sample, index: nat): int
    requires index < TICKS
  {
    flow.clock.ticks * STANDARD_TICKS_NS[index] - (sample.departureNs - flow.firstArrivalNs)
  }

  datatype Queues = Queues(downloadNs: i64, uploadNs: i64)

  predicate Signed(x: int) { I64_MIN <= x <= I64_MAX }

  /** The differences that updating a floor takes fit 64 bits. */
  predicate FloorComputes(bound: Bound, floor: Floor, valueNs: int)
  {
    && Signed(valueNs) && Signed(QueueAbove(bound, floor, valueNs))
    && (floor.valid && valueNs >= floor.valueNs && bound.AtMost? ==> Signed(valueNs - floor.valueNs))
  }

  /** Every signed number that measuring a sample at one period computes fits 64 bits. */
  ghost predicate Computes(bound: Bound, flow: Flow, index: nat, sample: Sample)
    requires index < TICKS && |flow.downloadFloors| == |flow.uploadFloors| == TICKS
  {
    && Signed(sample.arrivalNs - flow.firstArrivalNs) && Signed(flow.clock.ticks * STANDARD_TICKS_NS[index])
    && FloorComputes(bound, flow.downloadFloors[index], DownloadRaw(flow, sample, index))
    && (sample.departureNs != 0 ==>
          && Signed(sample.departureNs) && Signed(flow.firstArrivalNs)
          && FloorComputes(bound, flow.uploadFloors[index], UploadRaw(flow, sample, index)))
  }

  /** The flow with a sample's clock taken, as it is then measured. */
  function Clocked(flow: Flow, sample: Sample): Flow
  {
    flow.(clock := Advanced(flow.clock, sample.tsval, sample.arrivalNs))
  }

  /**
   The no-overflow premise: what the sample has its flow compute fits 64 bits, at the
   flow's own period, or at every candidate until it has one.
   */
  ghost predicate Representable(bound: Bound, flow: Flow, sample: Sample)
    requires Shaped(flow)
  {
    Accepts(flow.clock, sample.tsval, sample.arrivalNs) ==>
      if flow.tickNs == 0 then
        forall index :: 0 <= index < TICKS ==> Computes(bound, Clocked(flow, sample), index, sample)
      else Computes(bound, Clocked(flow, sample), flow.tickIndex, sample)
  }

  /** The flow with both floors updated for one candidate period. */
  function Measured(bound: Bound, flow: Flow, index: nat, sample: Sample): (measured: Flow)
    requires index < TICKS && |flow.downloadFloors| == |flow.uploadFloors| == TICKS
  {
    var lowered := FloorUpdate(bound, flow.downloadFloors[index], DownloadRaw(flow, sample, index));
    var down := flow.(downloadFloors := flow.downloadFloors[index := lowered]);
    if sample.departureNs == 0 then down
    else down.(uploadFloors := flow.uploadFloors[index :=
      FloorUpdate(bound, flow.uploadFloors[index], UploadRaw(flow, sample, index))])
  }

  /** What both directions queue at one sample; -1 upward when it answers no departure. */
  function QueuesOf(bound: Bound, flow: Flow, index: nat, sample: Sample): (queues: Queues)
    requires index < TICKS && |flow.downloadFloors| == |flow.uploadFloors| == TICKS
    requires Computes(bound, flow, index, sample)
  {
    Queues(QueueAbove(bound, flow.downloadFloors[index], DownloadRaw(flow, sample, index)),
           if sample.departureNs == 0 then -1
           else QueueAbove(bound, flow.uploadFloors[index], UploadRaw(flow, sample, index)))
  }

  function MeasuredAll(bound: Bound, flow: Flow, count: nat, sample: Sample): (measured: Flow)
    requires count <= TICKS && |flow.downloadFloors| == |flow.uploadFloors| == TICKS
    ensures |measured.downloadFloors| == |measured.uploadFloors| == TICKS
  {
    if count == 0 then flow else Measured(bound, MeasuredAll(bound, flow, count - 1, sample), count - 1, sample)
  }

  lemma {:induction false} MeasuredAllStays(bound: Bound, flow: Flow, count: nat, sample: Sample)
    requires count <= TICKS && |flow.downloadFloors| == |flow.uploadFloors| == TICKS
    ensures var measured := MeasuredAll(bound, flow, count, sample);
      measured.(downloadFloors := flow.downloadFloors, uploadFloors := flow.uploadFloors) == flow
  {
    if count == 0 {
    } else {
      MeasuredAllStays(bound, flow, count - 1, sample);
    }
  }

  // ----- the remote clock's period

  predicate Fits(periodNs: nat, index: nat)
    requires index < TICKS
  {
    var standardNs := STANDARD_TICKS_NS[index];
    Max(periodNs, standardNs) - Min(periodNs, standardNs) <= RatioOf(standardNs, TICK_TOLERANCE_RATIO_E6)
  }

  /** The first standard period within tolerance, from start on. */
  function Fit(periodNs: nat, start: nat): Option<nat>
    requires start <= TICKS
    decreases TICKS - start
  {
    if start == TICKS then None else if Fits(periodNs, start) then Some(start) else Fit(periodNs, start + 1)
  }

  /** The tolerances do not overlap, so the order they are tried in does not matter. */
  lemma AtMostOneFits(periodNs: nat, first: nat, second: nat)
    requires first < TICKS && second < TICKS && Fits(periodNs, first) && Fits(periodNs, second)
    ensures first == second
  {
    assert RatioOf(1_000_000, TICK_TOLERANCE_RATIO_E6) == 50_000;
    assert RatioOf(4_000_000, TICK_TOLERANCE_RATIO_E6) == 200_000;
    assert RatioOf(10_000_000, TICK_TOLERANCE_RATIO_E6) == 500_000;
    assert RatioOf(100_000_000, TICK_TOLERANCE_RATIO_E6) == 5_000_000;
  }

  function Fitted(flow: Flow, spanNs: nat): Flow
  {
    if spanNs < TICK_SPAN_NS || flow.clock.ticks == 0 then flow
    else
      var fit := Fit(spanNs / flow.clock.ticks, 0);
      if fit.None? || fit.value >= TICKS then flow
      else flow.(tickNs := STANDARD_TICKS_NS[fit.value], tickIndex := fit.value)
  }

  method FitTick(flow: Flow, spanNs: nat) returns (fitted: Flow)
    ensures fitted == Fitted(flow, spanNs)
  {
    fitted := flow;
    if spanNs < TICK_SPAN_NS || flow.clock.ticks == 0 {
      return;
    }
    var periodNs: nat := spanNs / flow.clock.ticks;
    var index := 0;
    while index < TICKS
      invariant index <= TICKS
      invariant Fit(periodNs, index) == Fit(periodNs, 0)
      invariant fitted == flow
    {
      if Fits(periodNs, index) {
        return flow.(tickNs := STANDARD_TICKS_NS[index], tickIndex := index);
      }
      index := index + 1;
    }
  }

  // ----- what a sample does to its flow, and the history it extends

  /** What one sample measured at one candidate period, under the bound in force; nothing upward without a departure. */
  datatype Measure = Measure(index: nat, bound: Bound, downloadNs: int, uploadNs: Option<int>)

  /** Every calibrated queue a flow has shown since it began, every packet it was offered, and every measurement. */
  datatype History = History(
    download: seq<Observation>, upload: seq<Observation>, first: Offer, offered: seq<Offer>, measured: seq<Measure>)

  const NO_HISTORY := History([], [], Offer(0, 0), [], [])

  function OfferedBy(sample: Sample): Offer { Offer(sample.tsval, sample.arrivalNs) }

  function NewHistory(sample: Sample): History { History([], [], OfferedBy(sample), [], []) }

  function MeasureOf(bound: Bound, flow: Flow, index: nat, sample: Sample): Measure
    requires index < TICKS
  {
    Measure(index, bound, DownloadRaw(flow, sample, index),
            if sample.departureNs == 0 then None else Some(UploadRaw(flow, sample, index)))
  }

  function MeasuresOf(bound: Bound, flow: Flow, count: nat, sample: Sample): seq<Measure>
    requires count <= TICKS
  {
    if count == 0 then []
    else MeasuresOf(bound, flow, count - 1, sample) + [MeasureOf(bound, flow, count - 1, sample)]
  }

  function Updated(bound: Bound, flow: Flow, sample: Sample): (updated: Flow)
    requires Shaped(flow) && Representable(bound, flow, sample)
  {
    if !Accepts(flow.clock, sample.tsval, sample.arrivalNs) then flow
    else
      var advanced := Clocked(flow, sample);
      if advanced.tickNs == 0 then
        Fitted(MeasuredAll(bound, advanced, TICKS, sample), sample.arrivalNs - flow.firstArrivalNs)
      else
        var queues := QueuesOf(bound, advanced, flow.tickIndex, sample);
        if queues.downloadNs > IMPLAUSIBLE_QUEUE_NS || queues.uploadNs > IMPLAUSIBLE_QUEUE_NS then FlowStart(sample)
        else
          var measured := Measured(bound, advanced, flow.tickIndex, sample);
          measured.(download := WindowAdd(flow.download, queues.downloadNs, sample.arrivalNs),
                    upload := if queues.uploadNs >= 0 then WindowAdd(flow.upload, queues.uploadNs, sample.arrivalNs)
                              else flow.upload)
  }

  /** The history with the sample: what it measured, and its queues when calibrated. A restart begins anew. */
  ghost function Extended(bound: Bound, flow: Flow, sample: Sample, history: History): History
    requires Shaped(flow) && Representable(bound, flow, sample)
  {
    var offered := history.(offered := history.offered + [OfferedBy(sample)]);
    var advanced := Clocked(flow, sample);
    if !Accepts(flow.clock, sample.tsval, sample.arrivalNs) then offered
    else if flow.tickNs == 0 then
      offered.(measured := history.measured + MeasuresOf(bound, advanced, TICKS, sample))
    else
      var queues := QueuesOf(bound, advanced, flow.tickIndex, sample);
      if queues.downloadNs > IMPLAUSIBLE_QUEUE_NS || queues.uploadNs > IMPLAUSIBLE_QUEUE_NS then NewHistory(sample)
      else
        offered.(download := history.download + [Observation(queues.downloadNs, sample.arrivalNs, bound)],
                 upload := if sample.departureNs == 0 then history.upload
                           else history.upload + [Observation(queues.uploadNs, sample.arrivalNs, bound)],
                 measured := history.measured + [MeasureOf(bound, advanced, flow.tickIndex, sample)])
  }

  // ----- floors against all measurements

  /** A floor after every measurement at its period, each under the bound then in force. */
  ghost function DownloadFloor(measured: seq<Measure>, index: nat): Floor
  {
    if measured == [] then Floor(0, false)
    else
      var front, last := measured[..|measured| - 1], measured[|measured| - 1];
      if last.index == index then FloorUpdate(last.bound, DownloadFloor(front, index), last.downloadNs)
      else DownloadFloor(front, index)
  }

  ghost function UploadFloor(measured: seq<Measure>, index: nat): Floor
  {
    if measured == [] then Floor(0, false)
    else
      var front, last := measured[..|measured| - 1], measured[|measured| - 1];
      if last.index == index && last.uploadNs.Some? then
        FloorUpdate(last.bound, UploadFloor(front, index), last.uploadNs.value)
      else UploadFloor(front, index)
  }

  ghost predicate FloorsTell(flow: Flow, measured: seq<Measure>)
  {
    && |flow.downloadFloors| == |flow.uploadFloors| == TICKS
    && forall index :: 0 <= index < TICKS ==>
         && flow.downloadFloors[index] == DownloadFloor(measured, index)
         && flow.uploadFloors[index] == UploadFloor(measured, index)
  }

  lemma MeasuringTells(bound: Bound, flow: Flow, index: nat, sample: Sample, measured: seq<Measure>)
    requires index < TICKS && FloorsTell(flow, measured)
    ensures FloorsTell(Measured(bound, flow, index, sample), measured + [MeasureOf(bound, flow, index, sample)])
  {
    assert (measured + [MeasureOf(bound, flow, index, sample)])[..|measured|] == measured;
  }

  lemma {:induction false} MeasuringAllTells(bound: Bound, flow: Flow, count: nat, sample: Sample,
                                             measured: seq<Measure>)
    requires count <= TICKS && FloorsTell(flow, measured)
    ensures FloorsTell(MeasuredAll(bound, flow, count, sample), measured + MeasuresOf(bound, flow, count, sample))
  {
    if count == 0 {
      OneMoreMeasure(measured, [], MeasureOf(bound, flow, 0, sample));
    } else {
      var earlier, added := MeasuresOf(bound, flow, count - 1, sample), MeasureOf(bound, flow, count - 1, sample);
      var before := MeasuredAll(bound, flow, count - 1, sample);
      MeasuringAllTells(bound, flow, count - 1, sample, measured);
      SameMeasure(bound, flow, count - 1, count - 1, sample);
      MeasuringTells(bound, before, count - 1, sample, measured + earlier);
      OneMoreMeasure(measured, earlier, added);
    }
  }

  lemma SameMeasure(bound: Bound, flow: Flow, count: nat, index: nat, sample: Sample)
    requires count <= TICKS && index < TICKS && |flow.downloadFloors| == |flow.uploadFloors| == TICKS
    ensures MeasureOf(bound, MeasuredAll(bound, flow, count, sample), index, sample)
         == MeasureOf(bound, flow, index, sample)
  {
    MeasuredAllStays(bound, flow, count, sample);
  }

  lemma OneMoreMeasure(measured: seq<Measure>, earlier: seq<Measure>, added: Measure)
    ensures measured + [] == measured
    ensures (measured + earlier) + [added] == measured + (earlier + [added])
  {}

  /** The values measured downward at one period, when no bound was in force. */
  ghost function DownloadValues(measured: seq<Measure>, index: nat): seq<int>
  {
    if measured == [] then []
    else
      DownloadValues(measured[..|measured| - 1], index)
      + (if measured[|measured| - 1].index == index then [measured[|measured| - 1].downloadNs] else [])
  }

  ghost function UploadValues(measured: seq<Measure>, index: nat): seq<int>
  {
    if measured == [] then []
    else
      var last := measured[|measured| - 1];
      UploadValues(measured[..|measured| - 1], index)
      + (if last.index == index && last.uploadNs.Some? then [last.uploadNs.value] else [])
  }

  ghost predicate NoBounds(measured: seq<Measure>) { forall m :: m in measured ==> m.bound.Unbounded? }

  lemma {:induction false} UnboundedFloors(measured: seq<Measure>, index: nat)
    requires NoBounds(measured)
    ensures DownloadFloor(measured, index) == FloorAfter(Floor(0, false), DownloadValues(measured, index))
    ensures UploadFloor(measured, index) == FloorAfter(Floor(0, false), UploadValues(measured, index))
  {
    if measured == [] {
    } else {
      var front, last := measured[..|measured| - 1], measured[|measured| - 1];
      assert last in measured && forall m :: m in front ==> m in measured;
      UnboundedFloors(front, index);
      FloorTakes(DownloadValues(front, index), last.downloadNs);
      FloorTakes(UploadValues(front, index), if last.uploadNs.Some? then last.uploadNs.value else 0);
    }
  }

  lemma FloorTakes(values: seq<int>, value: int)
    ensures values + [] == values
    ensures FloorAfter(Floor(0, false), values + [value])
         == FloorUpdate(Unbounded, FloorAfter(Floor(0, false), values), value)
  {
    assert (values + [value])[..|values|] == values;
  }

  ghost predicate IsMinimum(floor: Floor, values: seq<int>)
  {
    floor.valid && floor.valueNs in values && forall v :: v in values ==> floor.valueNs <= v
  }

  /** Without a bound a slot's floors are the least values its flow has measured at their period since it began. */
  lemma FloorsAreMinima(flow: Flow, history: History, index: nat)
    requires Tells(flow, history) && index < TICKS && NoBounds(history.measured)
    ensures DownloadValues(history.measured, index) != [] ==>
      IsMinimum(flow.downloadFloors[index], DownloadValues(history.measured, index))
    ensures UploadValues(history.measured, index) != [] ==>
      IsMinimum(flow.uploadFloors[index], UploadValues(history.measured, index))
  {
    UnboundedFloors(history.measured, index);
    var downward, upward := DownloadValues(history.measured, index), UploadValues(history.measured, index);
    if downward != [] { UnboundedFloorIsMinimum(downward); }
    if upward != [] { UnboundedFloorIsMinimum(upward); }
  }

  // ----- times that never overflow

  ghost predicate InRange(valueNs: int) { -TIME_LIMIT <= valueNs <= 2 * TIME_LIMIT }

  ghost predicate MeasuredInRange(measured: seq<Measure>)
  {
    forall m :: m in measured ==> InRange(m.downloadNs) && (m.uploadNs.Some? ==> InRange(m.uploadNs.value))
  }

  lemma {:induction false} FloorsInRange(measured: seq<Measure>, index: nat)
    requires MeasuredInRange(measured)
    ensures DownloadFloor(measured, index).valid ==> InRange(DownloadFloor(measured, index).valueNs)
    ensures UploadFloor(measured, index).valid ==> InRange(UploadFloor(measured, index).valueNs)
  {
    if measured == [] {
    } else {
      var front, last := measured[..|measured| - 1], measured[|measured| - 1];
      assert last in measured && forall m :: m in front ==> m in measured;
      FloorsInRange(front, index);
    }
  }

  /** A sample whose times, and whose sender's time, stay below 73 years is never too large to measure. */
  lemma SmallTimesCompute(bound: Bound, flow: Flow, history: History, index: nat, sample: Sample)
    requires Shaped(flow) && FloorsTell(flow, history.measured) && MeasuredInRange(history.measured) && index < TICKS
    requires flow.firstArrivalNs <= sample.arrivalNs < TIME_LIMIT && sample.departureNs < TIME_LIMIT
    requires flow.clock.ticks * STANDARD_TICKS_NS[index] < TIME_LIMIT
    ensures Computes(bound, flow, index, sample)
    ensures InRange(DownloadRaw(flow, sample, index)) && InRange(UploadRaw(flow, sample, index))
  {
    FloorsInRange(history.measured, index);
    MulNonNegative(flow.clock.ticks, STANDARD_TICKS_NS[index]);
  }

  // ----- windows against all queues

  /** A window agrees with its history, and no queue in it exceeds its bound. */
  ghost predicate Agrees(window: Window, seen: seq<Observation>)
  {
    Refines(window, seen) && forall o :: o in seen ==> Within(o.queueNs, o.bound)
  }

  ghost predicate Tells(flow: Flow, history: History)
  {
    && Agrees(flow.download, history.download) && Agrees(flow.upload, history.upload)
    && flow.clock == ClockAfter(Started(history.first), history.offered)
    && FloorsTell(flow, history.measured)
  }

  lemma AddAgrees(window: Window, seen: seq<Observation>, added: Observation)
    requires Agrees(window, seen) && Within(added.queueNs, added.bound)
    ensures Agrees(WindowAdd(window, added.queueNs, added.timeNs), seen + [added])
  {
    AddRefines(window, seen, added);
  }

  lemma QueuesWithin(bound: Bound, flow: Flow, index: nat, sample: Sample)
    requires index < TICKS && |flow.downloadFloors| == |flow.uploadFloors| == TICKS
    requires Computes(bound, flow, index, sample)
    ensures Within(QueuesOf(bound, flow, index, sample).downloadNs, bound)
    ensures sample.departureNs != 0 ==> Within(QueuesOf(bound, flow, index, sample).uploadNs, bound)
    ensures sample.departureNs == 0 <==> QueuesOf(bound, flow, index, sample).uploadNs < 0
  {
    QueueIsBounded(bound, flow.downloadFloors[index], DownloadRaw(flow, sample, index));
    QueueIsBounded(bound, flow.uploadFloors[index], UploadRaw(flow, sample, index));
  }

  /** An update keeps windows, clock and floors in agreement with everything that happened to the flow. */
  lemma UpdateTells(bound: Bound, flow: Flow, sample: Sample, history: History)
    requires Shaped(flow) && Representable(bound, flow, sample) && Tells(flow, history)
    ensures Tells(Updated(bound, flow, sample), Extended(bound, flow, sample, history))
  {
    ClockTakes(Started(history.first), history.offered, OfferedBy(sample));
    if Accepts(flow.clock, sample.tsval, sample.arrivalNs) {
      var advanced := Clocked(flow, sample);
      if flow.tickNs == 0 {
        MeasuredAllStays(bound, advanced, TICKS, sample);
        MeasuringAllTells(bound, advanced, TICKS, sample, history.measured);
      } else {
        CalibratedTells(bound, flow, sample, history);
      }
    }
  }

  lemma CalibratedTells(bound: Bound, flow: Flow, sample: Sample, history: History)
    requires Shaped(flow) && Representable(bound, flow, sample) && Tells(flow, history)
    requires Accepts(flow.clock, sample.tsval, sample.arrivalNs) && flow.tickNs != 0
    requires ClockAfter(Started(history.first), history.offered + [OfferedBy(sample)])
          == Advanced(flow.clock, sample.tsval, sample.arrivalNs)
    ensures Tells(Updated(bound, flow, sample), Extended(bound, flow, sample, history))
  {
    CalibratedAgrees(bound, flow, sample, history);
    MeasuringTells(bound, Clocked(flow, sample), flow.tickIndex, sample, history.measured);
  }

  lemma CalibratedAgrees(bound: Bound, flow: Flow, sample: Sample, history: History)
    requires Shaped(flow) && Representable(bound, flow, sample)
    requires Agrees(flow.download, history.download) && Agrees(flow.upload, history.upload)
    requires Accepts(flow.clock, sample.tsval, sample.arrivalNs) && flow.tickNs != 0
    ensures Agrees(Updated(bound, flow, sample).download, Extended(bound, flow, sample, history).download)
    ensures Agrees(Updated(bound, flow, sample).upload, Extended(bound, flow, sample, history).upload)
  {
    var queues := QueuesOf(bound, Clocked(flow, sample), flow.tickIndex, sample);
    QueuesWithin(bound, Clocked(flow, sample), flow.tickIndex, sample);
    AddAgrees(flow.download, history.download, Observation(queues.downloadNs, sample.arrivalNs, bound));
    if sample.departureNs != 0 {
      AddAgrees(flow.upload, history.upload, Observation(queues.uploadNs, sample.arrivalNs, bound));
    }
  }

  lemma UpdateKeepsShape(bound: Bound, flow: Flow, sample: Sample)
    requires Shaped(flow) && Representable(bound, flow, sample)
    ensures var updated := Updated(bound, flow, sample);
      && Shaped(updated)
      && ((updated.key == flow.key && updated.used == flow.used) || updated == FlowStart(sample))
      && updated.firstArrivalNs >= flow.firstArrivalNs
  {
    if Accepts(flow.clock, sample.tsval, sample.arrivalNs) {
      MeasuredAllStays(bound, Clocked(flow, sample), TICKS, sample);
    }
  }

  /**
   A flow's ticks are its sender's true advance since it began, across wraps, as
   long as no packet it was offered lies half the clock away from the last taken.
   */
  lemma FlowTicksAreTrue(flow: Flow, history: History, first: Stamp, stamps: seq<Stamp>)
    requires Tells(flow, history) && history.first == OfferOf(first) && history.offered == OffersOf(stamps)
    requires Near(first, stamps)
    ensures var taken := LastTaken(first, stamps);
      flow.clock.ticks == taken.remote - first.remote && flow.clock.lastAcceptedNs == taken.arrivalNs
  {
    TicksAreTrueAdvance(first, stamps);
  }

  // ----- choosing a slot

  predicate Known(flow: Flow, sample: Sample) { flow.used && flow.key == sample.flow }

  /** The flow's own slot; else the first unused; else the one least recently accepted. */
  ghost predicate Chosen(flows: seq<Flow>, key: FlowKey, slot: nat)
  {
    && slot < |flows|
    && if flows[slot].used && flows[slot].key == key then true
       else
         && (forall i :: 0 <= i < |flows| && flows[i].used ==> flows[i].key != key)
         && (if !flows[slot].used then forall i :: 0 <= i < slot ==> flows[i].used
             else
               && (forall i :: 0 <= i < |flows| ==> flows[i].used)
               && (forall i :: 0 <= i < |flows| ==> flows[slot].clock.lastAcceptedNs <= flows[i].clock.lastAcceptedNs)
               && (forall i :: 0 <= i < slot ==> flows[slot].clock.lastAcceptedNs < flows[i].clock.lastAcceptedNs))
  }

  /** Used slots come first, and each key has one. */
  ghost predicate WellFilled(flows: seq<Flow>)
  {
    && (forall i, j :: 0 <= i < j < |flows| && flows[j].used ==> flows[i].used)
    && (forall i, j :: 0 <= i < j < |flows| && flows[i].used && flows[j].used ==> flows[i].key != flows[j].key)
  }

  lemma ChosenKeepsFilled(flows: seq<Flow>, key: FlowKey, slot: nat, flow: Flow)
    requires WellFilled(flows) && Chosen(flows, key, slot)
    requires flow.used && flow.key == key
    ensures WellFilled(flows[slot := flow])
  {}

  // ----- the result

  ghost predicate Fresh(history: History, nowNs: u64) { Recent(history.download, nowNs).Some? }

  ghost predicate Complete(history: History, nowNs: u64) { Recent(history.upload, nowNs).Some? }

  /** Both directions beat one, then the earlier start, then the lower slot. */
  ghost predicate Preferred(flows: seq<Flow>, histories: seq<History>, nowNs: u64, chosen: nat, other: nat)
    requires |flows| == |histories| && chosen < |flows| && other < |flows|
  {
    var full, otherFull := Complete(histories[chosen], nowNs), Complete(histories[other], nowNs);
    if full != otherFull then full
    else
      flows[chosen].firstArrivalNs < flows[other].firstArrivalNs
      || (flows[chosen].firstArrivalNs == flows[other].firstArrivalNs && chosen <= other)
  }

  /** The flow whose recent queues are reported, among the slots below count. */
  ghost predicate Selected(flows: seq<Flow>, histories: seq<History>, nowNs: u64, count: nat, chosen: nat)
    requires |flows| == |histories| && count <= |flows|
  {
    && chosen < count && flows[chosen].used && Fresh(histories[chosen], nowNs)
    && forall i :: 0 <= i < count && flows[i].used && Fresh(histories[i], nowNs) ==>
         Preferred(flows, histories, nowNs, chosen, i)
  }

  /** Nanoseconds to the nearest microsecond. */
  function NsToUs(ns: i64): i64 { SignedRoundedDivide(ns, NANOSECONDS_PER_MICROSECOND) }

  ghost function EstimateOf(history: History, nowNs: u64): Estimate
    requires Fresh(history, nowNs)
  {
    var full := Complete(history, nowNs);
    Estimate(true, NsToUs(Recent(history.download, nowNs).value), full,
             if full then NsToUs(Recent(history.upload, nowNs).value) else 0)
  }

  const NO_ESTIMATE := Estimate(false, 0, false, 0)

  class Estimator {
    const flows: array<Flow>
    var bound: Bound
    ghost var histories: seq<History>

    ghost predicate Valid()
      reads this, flows
    {
      && flows.Length == |histories| == FLOWS
      && WellFilled(flows[..])
      && forall i :: 0 <= i < FLOWS ==> Shaped(flows[i]) && Tells(flows[i], histories[i])
    }

    constructor ()
      ensures Valid() && fresh(flows) && bound == Unbounded
      ensures forall i :: 0 <= i < FLOWS ==> flows[i] == UNUSED && histories[i] == NO_HISTORY
    {
      flows := new Flow[FLOWS](_ => UNUSED);
      bound := Unbounded;
      histories := seq(FLOWS, _ => NO_HISTORY);
    }

    method SetBound(queueBoundUs: nat)
      requires Valid()
      modifies this`bound
      ensures Valid() && bound == AtMost(queueBoundUs * NANOSECONDS_PER_MICROSECOND)
    {
      bound := AtMost(queueBoundUs * NANOSECONDS_PER_MICROSECOND);
    }

    /** The slot for a flow; a flow without one starts in it. */
    method FlowFor(sample: Sample) returns (slot: nat)
      requires Valid()
      modifies flows, this`histories
      ensures Valid() && Chosen(old(flows[..]), sample.flow, slot)
      ensures flows[..] == (if old(flows[slot]).used && old(flows[slot]).key == sample.flow then old(flows[..])
                            else old(flows[..])[slot := FlowStart(sample)])
      ensures histories == (if old(flows[slot]).used && old(flows[slot]).key == sample.flow then old(histories)
                            else old(histories)[slot := NewHistory(sample)])
    {
      slot := FindSlot(sample.flow);
      if flows[slot].used && flows[slot].key == sample.flow {
        return;
      }
      ChosenKeepsFilled(flows[..], sample.flow, slot, FlowStart(sample));
      flows[slot] := FlowStart(sample);
      histories := histories[slot := NewHistory(sample)];
    }

    /** The flow's slot, else the first unused one, else the least recently accepted flow's. */
    method FindSlot(key: FlowKey) returns (slot: nat)
      requires Valid()
      ensures Chosen(flows[..], key, slot)
    {
      var oldest := 0;
      var index := 0;
      while index < FLOWS
        invariant index <= FLOWS
        invariant forall i :: 0 <= i < index ==> flows[i].used && flows[i].key != key
        invariant index > 0 ==> oldest < index
        invariant forall i :: 0 <= i < index ==> flows[oldest].clock.lastAcceptedNs <= flows[i].clock.lastAcceptedNs
        invariant forall i :: 0 <= i < oldest < index ==>
          flows[oldest].clock.lastAcceptedNs < flows[i].clock.lastAcceptedNs
      {
        if !flows[index].used {
          oldest := index;
          break;
        }
        if flows[index].key == key {
          return index;
        }
        if index == 0 || flows[index].clock.lastAcceptedNs < flows[oldest].clock.lastAcceptedNs {
          oldest := index;
        }
        index := index + 1;
      }
      slot := oldest;
    }

    method Add(sample: Sample)
      requires Valid()
      requires forall i :: 0 <= i < FLOWS && Known(flows[i], sample) ==> Representable(bound, flows[i], sample)
      requires (forall i :: 0 <= i < FLOWS ==> !Known(flows[i], sample)) ==>
        Representable(bound, FlowStart(sample), sample)
      modifies flows, this`histories
      ensures Valid()
      ensures exists slot: nat ::
        Recorded(bound, sample, old(flows[..]), old(histories), slot, flows[..], histories)
    {
      var slot := FlowFor(sample);
      ghost var before, known := flows[..], histories;
      UpdateSlot(slot, sample);
      RecordedFrom(bound, sample, old(flows[..]), old(histories), slot, before, known);
    }

    method UpdateSlot(slot: nat, sample: Sample)
      requires Valid() && slot < FLOWS && Known(flows[slot], sample) && Representable(bound, flows[slot], sample)
      requires Chosen(flows[..], sample.flow, slot)
      modifies flows, this`histories
      ensures Valid()
      ensures flows[..] == old(flows[..])[slot := Updated(bound, old(flows[slot]), sample)]
      ensures histories == old(histories)[slot := Extended(bound, old(flows[slot]), sample, old(histories)[slot])]
    {
      var flow := flows[slot];
      var updated := UpdateFlow(flow, sample);
      UpdateTells(bound, flow, sample, histories[slot]);
      UpdateKeepsShape(bound, flow, sample);
      ChosenKeepsFilled(flows[..], sample.flow, slot, updated);
      histories := histories[slot := Extended(bound, flow, sample, histories[slot])];
      flows[slot] := updated;
    }

    /** What the sample makes of its flow: floors and period until calibrated, then windows, or a restart. */
    method UpdateFlow(flow: Flow, sample: Sample) returns (updated: Flow)
      requires Shaped(flow) && Representable(bound, flow, sample)
      ensures updated == Updated(bound, flow, sample)
    {
      if !Accepts(flow.clock, sample.tsval, sample.arrivalNs) {
        return flow;
      }
      updated := Clocked(flow, sample);
      if flow.tickNs == 0 {
        ghost var advanced := updated;
        var index := 0;
        while index < TICKS
          invariant index <= TICKS
          invariant updated == MeasuredAll(bound, advanced, index, sample)
        {
          updated := Measured(bound, updated, index, sample);
          index := index + 1;
        }
        MeasuredAllStays(bound, advanced, TICKS, sample);
        updated := FitTick(updated, sample.arrivalNs - flow.firstArrivalNs);
        return;
      }
      var queues := QueuesOf(bound, updated, flow.tickIndex, sample);
      if queues.downloadNs > IMPLAUSIBLE_QUEUE_NS || queues.uploadNs > IMPLAUSIBLE_QUEUE_NS {
        return FlowStart(sample);
      }
      updated := Measured(bound, updated, flow.tickIndex, sample);
      updated := updated.(download := WindowAdd(updated.download, queues.downloadNs, sample.arrivalNs));
      if queues.uploadNs >= 0 {
        updated := updated.(upload := WindowAdd(updated.upload, queues.uploadNs, sample.arrivalNs));
      }
    }

    /** The queues of one flow: one that still shows any, both directions before one, then the oldest. */
    method Result(nowUs: u64) returns (estimate: Estimate)
      requires Valid()
      ensures var nowNs := Wrap64(nowUs * NANOSECONDS_PER_MICROSECOND);
        || (estimate == NO_ESTIMATE && NoneFresh(flows[..], histories, nowNs, FLOWS))
        || (exists chosen: nat :: Selected(flows[..], histories, nowNs, FLOWS, chosen)
                                  && estimate == EstimateOf(histories[chosen], nowNs))
    {
      var nowNs := Wrap64(nowUs * NANOSECONDS_PER_MICROSECOND);
      estimate := NO_ESTIMATE;
      var selected: Option<nat> := None;
      var index := 0;
      while index < FLOWS
        invariant index <= FLOWS
        invariant selected.None? ==> estimate == NO_ESTIMATE && NoneFresh(flows[..], histories, nowNs, index)
        invariant selected.Some? ==> Selected(flows[..], histories, nowNs, index, selected.value)
                                     && estimate == EstimateOf(histories[selected.value], nowNs)
      {
        var flow := flows[index];
        if !flow.used {
          break;
        }
        var download := WindowResult(flow.download, nowNs);
        var upload := WindowResult(flow.upload, nowNs);
        ResultIsRecent(flow.download, histories[index].download, nowNs);
        ResultIsRecent(flow.upload, histories[index].upload, nowNs);
        ChooseNext(flows[..], histories, nowNs, index, selected);
        if download.Some? {
          var kept :=
            selected.Some?
            && ((estimate.uploadValid && upload.None?)
                || (estimate.uploadValid == upload.Some?
                    && flows[selected.value].firstArrivalNs <= flow.firstArrivalNs));
          if !kept {
            selected := Some(index);
            estimate := Estimate(true, NsToUs(download.value), upload.Some?,
                                 if upload.Some? then NsToUs(upload.value) else 0);
          }
        }
        index := index + 1;
      }
      if index < FLOWS {
        UnusedRest(flows[..], histories, nowNs, index, selected);
      }
    }
  }

  /** One sample recorded: its flow's slot, updated from a flow already there or from a new one. */
  ghost predicate Recorded(bound: Bound, sample: Sample, flows: seq<Flow>, histories: seq<History>,
                           slot: nat, flowsNow: seq<Flow>, historiesNow: seq<History>)
  {
    && |flows| == |histories|
    && Chosen(flows, sample.flow, slot)
    && var known := flows[slot].used && flows[slot].key == sample.flow;
       var flow := if known then flows[slot] else FlowStart(sample);
       && Shaped(flow) && Representable(bound, flow, sample)
       && flowsNow == flows[slot := Updated(bound, flow, sample)]
       && historiesNow ==
          histories[slot := Extended(bound, flow, sample, if known then histories[slot] else NewHistory(sample))]
  }

  lemma RecordedFrom(bound: Bound, sample: Sample, flows: seq<Flow>, histories: seq<History>, slot: nat,
                     ready: seq<Flow>, readyHistories: seq<History>)
    requires |flows| == |histories| && Chosen(flows, sample.flow, slot)
    requires var known := flows[slot].used && flows[slot].key == sample.flow;
      && ready == (if known then flows else flows[slot := FlowStart(sample)])
      && readyHistories == (if known then histories else histories[slot := NewHistory(sample)])
    requires Shaped(ready[slot]) && Representable(bound, ready[slot], sample)
    ensures Recorded(bound, sample, flows, histories, slot,
                     ready[slot := Updated(bound, ready[slot], sample)],
                     readyHistories[slot := Extended(bound, ready[slot], sample, readyHistories[slot])])
  {}

  ghost predicate NoneFresh(flows: seq<Flow>, histories: seq<History>, nowNs: u64, count: nat)
    requires |flows| == |histories| && count <= |flows|
  {
    forall i :: 0 <= i < count && flows[i].used ==> !Fresh(histories[i], nowNs)
  }

  /** The next used slot displaces the selection exactly when it is preferred to it. */
  lemma ChooseNext(flows: seq<Flow>, histories: seq<History>, nowNs: u64, index: nat, selected: Option<nat>)
    requires |flows| == |histories| && index < |flows| && flows[index].used
    requires selected.None? ==> NoneFresh(flows, histories, nowNs, index)
    requires selected.Some? ==> Selected(flows, histories, nowNs, index, selected.value)
    ensures !Fresh(histories[index], nowNs) && selected.None? ==> NoneFresh(flows, histories, nowNs, index + 1)
    ensures Fresh(histories[index], nowNs) && selected.None? ==> Selected(flows, histories, nowNs, index + 1, index)
    ensures selected.Some? ==>
      Selected(flows, histories, nowNs, index + 1,
        if !Fresh(histories[index], nowNs)
           || (Complete(histories[selected.value], nowNs) && !Complete(histories[index], nowNs))
           || (Complete(histories[selected.value], nowNs) == Complete(histories[index], nowNs)
               && flows[selected.value].firstArrivalNs <= flows[index].firstArrivalNs)
        then selected.value else index)
  {}

  lemma UnusedRest(flows: seq<Flow>, histories: seq<History>, nowNs: u64, index: nat, selected: Option<nat>)
    requires |flows| == |histories| && index < |flows| && WellFilled(flows) && !flows[index].used
    requires selected.None? ==> NoneFresh(flows, histories, nowNs, index)
    requires selected.Some? ==> Selected(flows, histories, nowNs, index, selected.value)
    ensures selected.None? ==> NoneFresh(flows, histories, nowNs, |flows|)
    ensures selected.Some? ==> Selected(flows, histories, nowNs, |flows|, selected.value)
  {}

  /** A reported queue lies between zero and the bound in force for a sample it covers. */
  lemma ReportedQueueIsBounded(window: Window, seen: seq<Observation>, nowNs: u64)
    requires Agrees(window, seen) && Recent(seen, nowNs).Some?
    ensures 0 <= NsToUs(Recent(seen, nowNs).value)
    ensures exists o :: o in seen && Counts(o, Index(nowNs) - 1, Index(nowNs))
                        && KeptBy(o.bound, NsToUs(Recent(seen, nowNs).value))
  {
    ResultIsBounded(seen, nowNs);
    var value := Recent(seen, nowNs).value;
    var o :| o in seen && Counts(o, Index(nowNs) - 1, Index(nowNs)) && o.queueNs == value && Within(value, o.bound);
    RoundingStaysBetween(value, NANOSECONDS_PER_MICROSECOND, 0, value);
    forall limitUs: nat | o.bound == AtMost(limitUs * NANOSECONDS_PER_MICROSECOND)
      ensures NsToUs(value) <= limitUs
    {
      RoundingStaysBetween(value, NANOSECONDS_PER_MICROSECOND, 0, limitUs);
    }
    assert KeptBy(o.bound, NsToUs(value));
  }

  /** Seen in the 100 ms window of a time or the one before it. */
  ghost predicate SeenLately(o: Observation, nowNs: u64)
  {
    nowNs / 100_000_000 - 1 <= o.timeNs / 100_000_000 <= nowNs / 100_000_000
  }

  /** To the nearest microsecond, one of the queues seen lately, and none of those is shorter. */
  ghost predicate IsLeast(o: Observation, seen: seq<Observation>, nowNs: u64, us: int)
  {
    && o in seen && SeenLately(o, nowNs) && Abs(2 * (o.queueNs - 1000 * us)) <= 1000
    && forall p :: p in seen && SeenLately(p, nowNs) ==> o.queueNs <= p.queueNs
  }

  /** An estimate is of the flow's least recent queue down, and up when it has shown one lately. */
  lemma EstimateIsLeast(history: History, nowNs: u64)
    requires Fresh(history, nowNs)
    ensures var estimate := EstimateOf(history, nowNs);
      && estimate.downloadValid && (exists o :: IsLeast(o, history.download, nowNs, estimate.downloadUs))
      && (estimate.uploadValid <==> Complete(history, nowNs))
      && (estimate.uploadValid ==> exists o :: IsLeast(o, history.upload, nowNs, estimate.uploadUs))
  {
    LeastIsRecent(history.download, nowNs);
    if Complete(history, nowNs) { LeastIsRecent(history.upload, nowNs); }
  }

  lemma LeastIsRecent(seen: seq<Observation>, nowNs: u64)
    requires Recent(seen, nowNs).Some?
    ensures exists o :: IsLeast(o, seen, nowNs, NsToUs(Recent(seen, nowNs).value))
  {
    var value := Recent(seen, nowNs).value;
    NaiveIsMinimum(seen, Index(nowNs) - 1, Index(nowNs));
    SignedRoundedDivideNearest(value, NANOSECONDS_PER_MICROSECOND);
    var o :| o in seen && Counts(o, Index(nowNs) - 1, Index(nowNs)) && o.queueNs == value;
    forall p | p in seen && SeenLately(p, nowNs)
      ensures o.queueNs <= p.queueNs
    {
      assert Counts(p, Index(nowNs) - 1, Index(nowNs));
    }
    assert IsLeast(o, seen, nowNs, NsToUs(value));
  }

  ghost predicate KeptBy(bound: Bound, queueUs: int)
  {
    forall limitUs: nat :: bound == AtMost(limitUs * NANOSECONDS_PER_MICROSECOND) ==> queueUs <= limitUs
  }
}
