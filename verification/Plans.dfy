/**
 What an update of both directions plans for each: whose delay it is, who is blamed, what ACKs
 leave room for; and what one direction then makes of its part, from the delays of its run.
 */
module Plans {
  import opened Arith
  import opened Rate
  import opened RateControl
  import opened RateMoves
  import opened Congestion
  import opened Coupling
  import opened Controller

  /** Both delays are split by measured queues that are long enough to explain them. */
  predicate QueuesExplain(config: Config, queue: Queue)
  {
    config.sharedDelay && queue.valid && queue.downloadUs + queue.uploadUs >= 5000
  }

  /** A queue of at least a quarter of both; six digits are given up where both are too long. */
  predicate HoldsQuarter(queueUs: i64, totalUs: i64)
  {
    && queueUs > 0
    && if RatioExact(totalUs) then 4 * queueUs >= totalUs
       else 4 * (queueUs / RATIO_ONE_E6) >= totalUs / RATIO_ONE_E6
  }

  /** Download carries at least 98 per cent of its rate. */
  predicate DeliversAll(rateBps: u64, traffic: Traffic)
  {
    traffic.valid && Exceeds(traffic.trafficBps, rateBps, 979_999)
  }

  // ----- whose delay

  lemma ShareIsNearest(roundTrip: int, part: int, total: i64, share: int)
    requires I64_MIN <= roundTrip * part <= I64_MAX && total > 0
    requires share == SignedRoundedDivide(roundTrip * part, total)
    ensures Abs(2 * (share * total - roundTrip * part)) <= total
    ensures part == 0 ==> share == 0
    ensures part == total ==> share == roundTrip
  {
    SignedRoundedDivideNearest(roundTrip * part, total);
    RestIsNearest(roundTrip, part, total, share);
  }

  lemma RestIsNearest(roundTrip: int, part: int, total: int, share: int)
    requires total > 0 && Abs(2 * (share * total - roundTrip * part)) <= total
    ensures Abs(2 * ((roundTrip - share) * total - roundTrip * (total - part))) <= total
    ensures part == 0 ==> share == 0
    ensures part == total ==> share == roundTrip
  {
    assert (roundTrip - share) * total - roundTrip * (total - part) == -(share * total - roundTrip * part);
    if part == 0 { OnlyMultiple(share, total); }
    if part == total {
      assert share * total - roundTrip * part == (share - roundTrip) * total;
      OnlyMultiple(share - roundTrip, total);
    }
  }

  lemma OnlyMultiple(n: int, d: int)
    requires d > 0 && Abs(2 * (n * d)) <= d
    ensures n == 0
  {
    if n > 0 { MulMonotone(1, n, d); }
    if n < 0 { MulMonotone(n, -1, d); }
  }

  /**
   With queues that explain it, each direction is charged the round trip's share of its own
   queue, to the nearest microsecond: a direction without a queue nothing, and the only one
   with a queue all of it. Otherwise each keeps the delay measured for it.
   */
  lemma DelayFollowsQueues(config: Config, input: Input, downloadBps: u64, uploadBps: u64)
    requires Representable(config, input.queue, input.downloadLatency, input.uploadLatency)
    ensures var (down, up) := Planned(config, input, downloadBps, uploadBps);
      var queue, roundTrip := input.queue, input.downloadLatency.owdDeltaUs + input.uploadLatency.owdDeltaUs;
      var total := queue.downloadUs + queue.uploadUs;
      if QueuesExplain(config, queue) && input.downloadLatency.valid && input.uploadLatency.valid then
        && down.latency.valid && up.latency.valid
        && down.latency.owdDeltaUs + up.latency.owdDeltaUs == roundTrip
        && Abs(2 * (down.latency.owdDeltaUs * total - roundTrip * queue.downloadUs)) <= total
        && Abs(2 * (up.latency.owdDeltaUs * total - roundTrip * queue.uploadUs)) <= total
        && (queue.downloadUs == 0 ==> down.latency.owdDeltaUs == 0)
        && (queue.uploadUs == 0 ==> up.latency.owdDeltaUs == 0)
      else down.latency == input.downloadLatency && up.latency == input.uploadLatency
  {
    var queue, roundTrip := input.queue, input.downloadLatency.owdDeltaUs + input.uploadLatency.owdDeltaUs;
    var total: int := queue.downloadUs + queue.uploadUs;
    if QueuesExplain(config, queue) && input.downloadLatency.valid && input.uploadLatency.valid {
      var (down, up) := Planned(config, input, downloadBps, uploadBps);
      ShareIsNearest(roundTrip, queue.downloadUs, total, down.latency.owdDeltaUs);
      RestIsNearest(roundTrip, queue.downloadUs, total, down.latency.owdDeltaUs);
      assert total - queue.downloadUs == queue.uploadUs;
    }
  }

  // ----- who is blamed

  lemma QuarterIs(queueUs: i64, totalUs: i64)
    requires totalUs > 0
    ensures HoldsQueueShare(queueUs, totalUs) <==> HoldsQuarter(queueUs, totalUs)
  {
    if queueUs <= 0 {
    } else if RatioExact(totalUs) {
      FractionExact(queueUs, totalUs);
      QuotientReaches(queueUs * RATIO_ONE_E6, totalUs, QUEUE_SHARE_RATIO_E6);
    } else {
      FractionOfLargeWhole(queueUs, totalUs);
      QuotientReaches(queueUs / RATIO_ONE_E6 * RATIO_ONE_E6, totalUs / RATIO_ONE_E6, QUEUE_SHARE_RATIO_E6);
    }
  }

  /**
   With queues that explain the delay a direction is blamed exactly for a quarter of them or
   more, so never without a queue of its own. Without them each direction is blamed for its own
   delay; and a shared one is download's unless it delivers its rate, and upload's if it does or
   is not loaded.
   */
  lemma BlameFollowsQueues(config: Config, input: Input, downloadBps: u64, uploadBps: u64)
    requires Representable(config, input.queue, input.downloadLatency, input.uploadLatency)
    ensures var (down, up) := Planned(config, input, downloadBps, uploadBps);
      var queue, total := input.queue, input.queue.downloadUs + input.queue.uploadUs;
      if QueuesExplain(config, queue) then
        && (down.attributed <==> HoldsQuarter(queue.downloadUs, total))
        && (up.attributed <==> HoldsQuarter(queue.uploadUs, total))
      else if !config.sharedDelay then down.attributed && up.attributed
      else
        && (down.attributed <==> !DeliversAll(downloadBps, input.download))
        && (up.attributed <==> DeliversAll(downloadBps, input.download) || !input.download.valid
                               || !Exceeds(input.download.trafficBps, downloadBps, config.highLoadE6))
  {
    if QueuesExplain(config, input.queue) {
      QuarterIs(input.queue.downloadUs, input.queue.downloadUs + input.queue.uploadUs);
      QuarterIs(input.queue.uploadUs, input.queue.downloadUs + input.queue.uploadUs);
    } else {
      LoadExceeds(input.download.trafficBps, downloadBps, FULL_DELIVERY_RATIO_E6 - 1);
      LoadExceeds(input.download.trafficBps, downloadBps, config.highLoadE6);
    }
  }

  // ----- the ceiling

  /**
   ACKs are allowed what the rest of the upload and a twentieth of its rate leave, and at least
   their share of the rate.
   */
  lemma AllowedIsRest(config: Config, roomBps: u64, acks: Acks)
    requires FactorValid(config.ackShareE6)
    requires Max(0, acks.uploadBps - acks.uploadAckBps) + roomBps / 20 <= U64_MAX
    ensures AllowedAckBps(config, roomBps, acks)
         == Max(roomBps - roomBps / 20 - Max(0, acks.uploadBps - acks.uploadAckBps),
                Min(roomBps * config.ackShareE6 / RATIO_ONE_E6, U64_MAX))
  {
    RatioOfExact(roomBps, UPLOAD_ACK_HEADROOM_RATIO_E6);
    Twentieth(roomBps);
    RatioOfExact(roomBps, config.ackShareE6);
    RestOfRoom(roomBps, SaturatingSub(acks.uploadBps, acks.uploadAckBps), roomBps / 20,
               RatioOf(roomBps, config.ackShareE6));
  }

  lemma Twentieth(roomBps: u64)
    ensures Min(roomBps * 50_000 / RATIO_ONE_E6, U64_MAX) == roomBps / 20
  {}

  lemma RestOfRoom(roomBps: u64, otherBps: u64, headroomBps: u64, leastBps: u64)
    requires otherBps + headroomBps <= U64_MAX
    ensures Max(SaturatingSub(roomBps, Wrap64(otherBps + headroomBps)), leastBps)
         == Max(roomBps - headroomBps - otherBps, leastBps)
  {}

  /**
   Upload has no ceiling. Download has one exactly when ACKs have a share, both loads and the
   ACKs are known, upload is loaded and its ACKs take more than they are allowed.
   */
  lemma CeilingIff(config: Config, input: Input, downloadBps: u64, uploadBps: u64)
    requires Representable(config, input.queue, input.downloadLatency, input.uploadLatency)
    ensures var (down, up) := Planned(config, input, downloadBps, uploadBps);
      && up.ceilingBps == U64_MAX
      && (down.ceilingBps != U64_MAX <==>
          && config.ackShareE6 > 0 && input.acks.valid && input.acks.uploadAckBps > 0
          && input.upload.valid && input.download.valid
          && Exceeds(input.upload.trafficBps, uploadBps, config.highLoadE6)
          && input.acks.uploadAckBps > AllowedAckBps(config, uploadBps, input.acks))
      && down.traffic == input.download && up.traffic == input.upload
      && down.timestampUs == up.timestampUs == input.timestampUs
  {
    LoadExceeds(input.upload.trafficBps, uploadBps, config.highLoadE6);
    CeilingPresentIff(config, uploadBps, input.acks, input.download, input.upload);
  }

  lemma CeilingPresentIff(config: Config, roomBps: u64, acks: Acks, download: Traffic, upload: Traffic)
    ensures DownloadCeilingBps(config, roomBps, acks, download, upload) != U64_MAX
       <==> CeilingApplies(config, roomBps, acks, download, upload)
  {
    if CeilingApplies(config, roomBps, acks, download, upload) {
      NeverLargest(MulDiv(download.trafficBps, AllowedAckBps(config, roomBps, acks), acks.uploadAckBps));
    }
  }

  lemma NeverLargest(value: u64)
    ensures Holdable(value) != U64_MAX
  {
    HoldableNear(value);
  }

  // ----- one direction's update

  /** An update adjusts the rate to the average and the count of the window its delay has joined. */
  lemma UpdateSees(run: RunRecord, update: DirectionUpdate, limits: Limits, config: Config)
    returns (seen: RateControl.Update)
    requires ConfigValid(config) && DelayFits(config, run.delays, update.latency)
    ensures var after := RunUpdated(run, update, limits, config);
      var last := LastOf(after.delays, config.window);
      && after.shaper == Adjusted(run.shaper, seen, limits, config)
      && after.delays == run.delays + (if update.latency.valid then
                                         [Delay(update.latency.owdDeltaUs, limits.thresholdUs)]
                                       else [])
      && seen.traffic == update.traffic && seen.attributed == update.attributed
      && seen.ceilingBps == update.ceilingBps && seen.timestampUs == update.timestampUs
      && seen.latencyValid == update.latency.valid
      && (seen.congested <==> update.latency.valid && CountOver(last) >= config.threshold)
      && (update.latency.valid ==> Abs(2 * (SumOf(last) - seen.averageDelayUs * config.window)) <= config.window)
      && ReasonOf(run, update, limits, config) == AdjustReason(run.shaper, seen, limits, config)
  {
    JoinedSumFits(config, run.delays, update.latency, limits);
    seen := SeenAfter(run, update, limits, config);
    if update.latency.valid {
      SignedRoundedDivideNearest(SumOf(LastOf(WithDelay(run.delays, update.latency, limits), config.window)),
                                 config.window);
    }
  }

  /** A cut is recorded exactly when a direction that sees enough delays is blamed for them and has waited. */
  lemma CutIffBlamed(run: RunRecord, update: DirectionUpdate, limits: Limits, config: Config)
    requires ConfigValid(config) && DelayFits(config, run.delays, update.latency)
    ensures var after := RunUpdated(run, update, limits, config);
      var over := CountOver(LastOf(after.delays, config.window));
      if && limits.adjust && !run.shaper.initialPending && update.traffic.valid && update.latency.valid
         && over >= config.threshold && update.attributed
         && update.timestampUs > run.shaper.lastCongestionUs + config.refractoryUs
      then
        && after.cuts == run.cuts + [CutRecord(update.timestampUs, |after.delays|, over)]
        && after.shaper.lastCongestionUs == after.shaper.lastDecayUs == update.timestampUs
      else after.cuts == run.cuts
  {
    JoinedSumFits(config, run.delays, update.latency, limits);
  }

  /** An increase is recorded exactly when a loaded direction sees few enough delays, a new sample, and has waited. */
  lemma IncreaseIffLoaded(run: RunRecord, update: DirectionUpdate, limits: Limits, config: Config)
    requires ConfigValid(config) && DelayFits(config, run.delays, update.latency)
    ensures var after := RunUpdated(run, update, limits, config);
      if && limits.adjust && !run.shaper.initialPending && update.traffic.valid && update.latency.valid
         && CountOver(LastOf(after.delays, config.window)) < config.threshold
         && Exceeds(update.traffic.trafficBps, run.shaper.rateBps, config.highLoadE6)
         && update.traffic.sampleId != run.shaper.lastIncreaseId
         && update.timestampUs > run.shaper.lastCongestionUs + config.refractoryUs
      then
        && after.increases == run.increases + [update.traffic.sampleId]
        && after.shaper.lastIncreaseId == update.traffic.sampleId
      else after.increases == run.increases && after.shaper.lastIncreaseId == run.shaper.lastIncreaseId
  {
    JoinedSumFits(config, run.delays, update.latency, limits);
    LoadExceeds(update.traffic.trafficBps, run.shaper.rateBps, config.highLoadE6);
  }

  // ----- what is reported

  /** An update leaves to report its line, the window with its delay, who was blamed, and whether ACKs limit it. */
  lemma UpdateShows(line: Line, run: RunRecord, update: DirectionUpdate, limits: Limits, config: Config)
    requires ConfigValid(config) && DelayFits(config, run.delays, update.latency)
    ensures var shown := JudgedAfter(line, run, update, limits, config);
      var last := LastOf(RunUpdated(run, update, limits, config).delays, config.window);
      && shown.line == line.state && shown.attributed == update.attributed
      && shown.delayedCount == CountOver(last)
      && (shown.congestion.NotKnown? <==> !update.latency.valid)
      && (shown.congestion.Detected? <==> update.latency.valid && CountOver(last) >= config.threshold)
      && (if update.latency.valid then Abs(2 * (SumOf(last) - shown.averageDelayUs * config.window)) <= config.window
          else shown.averageDelayUs == 0)
      && (shown.ackShareActive <==> update.ceilingBps < U64_MAX)
  {
    var seen := UpdateSees(run, update, limits, config);
    JoinedSumFits(config, run.delays, update.latency, limits);
    if update.latency.valid {
      SignedRoundedDivideNearest(SumOf(LastOf(WithDelay(run.delays, update.latency, limits), config.window)),
                                 config.window);
    }
  }

  /** An output shows what its update left, and a change exactly when that differs from the output before. */
  lemma ChangesAreDifferences(limits: Limits, shaper: Shaper, start: Judged, middle: Judged, now: Judged,
                              earlier: DirectionUpdate, later: DirectionUpdate, earlierReason: Reason, reason: Reason)
    ensures var first, second := Report(limits, shaper, start, middle, earlier, earlierReason),
                                 Report(limits, shaper, middle, now, later, reason);
      && now == Judged(second.line, second.congestion, second.averageDelayUs, second.delayedCount, second.attributed,
                       second.ackShareActive)
      && second.ackShareCeilingBps == later.ceilingBps
      && (second.lineChanged <==> second.line != first.line)
      && (second.congestionChanged <==> second.congestion != first.congestion)
      && (second.attributionChanged <==> second.attributed != first.attributed)
      && (second.ackShareChanged <==> second.ackShareActive != first.ackShareActive)
  {}

  /**
   A CAKE that is set to every rate reported as changed holds the shaper's rate after an
   adjusted direction's update, and keeps its own with any other. The first rate is always
   reported, a later one only when CAKE has another; a change always has a reason.
   */
  lemma ChangedRateIsSet(limits: Limits, shaper: Shaper, before: Judged, now: Judged, update: DirectionUpdate,
                         reason: Reason)
    ensures var output := Report(limits, shaper, before, now, update, reason);
      var held := if output.rateChanged then output.rateBps else update.traffic.cakeBps;
      && held == (if limits.adjust && update.traffic.valid then shaper.rateBps else update.traffic.cakeBps)
      && output.rateBps == (if limits.adjust then shaper.rateBps else update.traffic.cakeBps)
      && (limits.adjust && update.traffic.valid && reason.Initial? ==> output.rateChanged)
      && (output.rateChanged && !reason.Initial? ==> update.traffic.cakeBps != shaper.rateBps)
      && (output.rateChanged ==> output.reason != Unchanged)
      && (!limits.adjust ==> output.reason == Unchanged)
      && (limits.adjust && reason != Unchanged ==> output.reason == reason)
      && (output.reason == Reconcile && reason != Reconcile ==> reason == Unchanged && output.rateChanged)
  {}
}
