/** What one direction owes the other: who is blamed, whose delay it is, and what ACKs leave. */
module Coupling {
  import opened Arith
  import opened Rate
  import opened RateControl

  const FULL_DELIVERY_RATIO_E6: int := 980_000
  const QUEUE_ATTRIBUTION_MINIMUM_US: int := 5000
  const QUEUE_SHARE_RATIO_E6: int := 250_000
  const UPLOAD_ACK_HEADROOM_RATIO_E6: int := 50_000

  datatype Latency = Latency(valid: bool, owdDeltaUs: i64)

  datatype Queue = Queue(valid: bool, downloadUs: i64, uploadUs: i64)

  datatype Acks = Acks(valid: bool, uploadAckBps: u64, uploadBps: u64)

  // ----- attribution

  function DeliveryE6(shaperBps: u64, traffic: Traffic): u64
  {
    if !traffic.valid then 0 else LoadRatioE6(traffic.trafficBps, shaperBps)
  }

  predicate HoldsQueueShare(queueUs: i64, totalUs: i64)
    requires totalUs > 0
  {
    queueUs > 0 && FractionToRatioE6(queueUs, totalUs) >= QUEUE_SHARE_RATIO_E6
  }

  /** The sum of both queues is one a signed 64-bit integer holds. */
  predicate TotalFits(queue: Queue) { I64_MIN <= queue.downloadUs + queue.uploadUs <= I64_MAX }

  predicate Measured(config: Config, queue: Queue)
  {
    config.sharedDelay && queue.valid && queue.downloadUs + queue.uploadUs >= QUEUE_ATTRIBUTION_MINIMUM_US
  }

  /** Every product and sum a split of the delay would compute fits in 64 bits. */
  ghost predicate SplitFits(queue: Queue, download: Latency, upload: Latency)
  {
    var total, roundTrip := queue.downloadUs + queue.uploadUs, download.owdDeltaUs + upload.owdDeltaUs;
    && 0 < total <= I64_MAX && I64_MIN <= roundTrip <= I64_MAX
    && I64_MIN <= roundTrip * queue.downloadUs <= I64_MAX
    && I64_MIN <= roundTrip - SignedRoundedDivide(roundTrip * queue.downloadUs, total) <= I64_MAX
  }

  /** The sum of the queues fits, computed whether they are valid or not; and a split, when there is one. */
  ghost predicate Representable(config: Config, queue: Queue, download: Latency, upload: Latency)
  {
    TotalFits(queue) && (Splits(config, queue, download, upload) ==> SplitFits(queue, download, upload))
  }

  predicate Splits(config: Config, queue: Queue, download: Latency, upload: Latency)
  {
    Measured(config, queue) && download.valid && upload.valid
  }

  /** Download's share is the nearest to what its queue is of both; upload has the rest. */
  function SplitDelay(queue: Queue, download: Latency, upload: Latency): (r: (i64, i64))
    requires SplitFits(queue, download, upload)
    ensures r.0 + r.1 == download.owdDeltaUs + upload.owdDeltaUs
    ensures var total := queue.downloadUs + queue.uploadUs;
      Abs(2 * (r.0 * total - (download.owdDeltaUs + upload.owdDeltaUs) * queue.downloadUs)) <= total
  {
    var total, roundTrip := queue.downloadUs + queue.uploadUs, download.owdDeltaUs + upload.owdDeltaUs;
    SignedRoundedDivideNearest(roundTrip * queue.downloadUs, total);
    var share := SignedRoundedDivide(roundTrip * queue.downloadUs, total);
    (share, roundTrip - share)
  }

  /** With queues that are not negative a split that multiplies without overflow fits throughout. */
  lemma PositiveQueuesSplit(queue: Queue, download: Latency, upload: Latency)
    requires 0 <= queue.downloadUs && 0 <= queue.uploadUs && 0 < queue.downloadUs + queue.uploadUs <= I64_MAX
    requires var roundTrip := download.owdDeltaUs + upload.owdDeltaUs;
      I64_MIN <= roundTrip <= I64_MAX && I64_MIN <= roundTrip * queue.downloadUs <= I64_MAX
    ensures SplitFits(queue, download, upload)
    ensures var (down, up), roundTrip := SplitDelay(queue, download, upload), download.owdDeltaUs + upload.owdDeltaUs;
      && Min(0, roundTrip) <= down <= Max(0, roundTrip) && Min(0, roundTrip) <= up <= Max(0, roundTrip)
  {
    ShareOfRoundTrip(download.owdDeltaUs + upload.owdDeltaUs, queue.downloadUs, queue.downloadUs + queue.uploadUs);
  }

  /** The share a part of the total takes of a round trip lies between nothing and all of it. */
  lemma ShareOfRoundTrip(roundTrip: int, part: int, total: i64)
    requires 0 <= part <= total && 0 < total
    requires I64_MIN <= roundTrip * part <= I64_MAX
    ensures var share := SignedRoundedDivide(roundTrip * part, total);
      Min(0, roundTrip) <= share <= Max(0, roundTrip)
  {
    if roundTrip >= 0 {
      MulMonotone(part, total, roundTrip);
      MulNonNegative(roundTrip, part);
      RoundingStaysBetween(roundTrip * part, total, 0, roundTrip);
    } else {
      MulMonotone(part, total, -roundTrip);
      assert -roundTrip * part == -(roundTrip * part) && -roundTrip * total == -(roundTrip * total);
      MulNonNegative(-roundTrip, part);
      RoundingStaysBetween(roundTrip * part, total, roundTrip, 0);
    }
  }

  /** The heuristic from delivery, replaced by measured queues large enough to explain the delay. */
  function DownloadAttributed(config: Config, deliveryE6: u64, queue: Queue): bool
    requires TotalFits(queue)
  {
    if Measured(config, queue) then HoldsQueueShare(queue.downloadUs, queue.downloadUs + queue.uploadUs)
    else !config.sharedDelay || deliveryE6 < FULL_DELIVERY_RATIO_E6
  }

  function UploadAttributed(config: Config, deliveryE6: u64, queue: Queue): bool
    requires TotalFits(queue)
  {
    if Measured(config, queue) then HoldsQueueShare(queue.uploadUs, queue.downloadUs + queue.uploadUs)
    else !config.sharedDelay || deliveryE6 <= config.highLoadE6 || deliveryE6 >= FULL_DELIVERY_RATIO_E6
  }

  /** The delays each direction is judged by: split by the measured shares when both are known. */
  function Delays(config: Config, queue: Queue, download: Latency, upload: Latency): (r: (Latency, Latency))
    requires Representable(config, queue, download, upload)
    ensures r.0.valid == download.valid && r.1.valid == upload.valid
    ensures r.0.owdDeltaUs + r.1.owdDeltaUs == download.owdDeltaUs + upload.owdDeltaUs
  {
    if Splits(config, queue, download, upload) then
      var (down, up) := SplitDelay(queue, download, upload);
      (Latency(true, down), Latency(true, up))
    else (download, upload)
  }

  lemma QuarterIsEnough(part: u64, whole: u64)
    requires whole >= QUEUE_ATTRIBUTION_MINIMUM_US && 2 * part >= whole
    ensures FractionToRatioE6(part, whole) >= QUEUE_SHARE_RATIO_E6
  {
    if whole <= U64_MAX / RATIO_ONE_E6 {
      FractionExact(part, whole);
      AtLeastQuarter(part, whole);
    } else {
      FractionOfLargeWhole(part, whole);
      DivisionParts(part, RATIO_ONE_E6);
      DivisionParts(whole, RATIO_ONE_E6);
      AtLeastQuarter(part / RATIO_ONE_E6, whole / RATIO_ONE_E6);
    }
  }

  lemma AtLeastQuarter(part: int, whole: int)
    requires whole > 0 && 4 * part >= whole
    ensures part * RATIO_ONE_E6 / whole >= QUEUE_SHARE_RATIO_E6
  {
    QuotientMonotone(QUEUE_SHARE_RATIO_E6 * whole, part * RATIO_ONE_E6, whole);
    QuotientIs(QUEUE_SHARE_RATIO_E6 * whole, whole, QUEUE_SHARE_RATIO_E6);
  }

  /** Bufferbloat is always attributed to at least one direction, by heuristic or by measured queues. */
  lemma SomeDirectionIsBlamed(config: Config, deliveryE6: u64, queue: Queue)
    requires TotalFits(queue)
    ensures DownloadAttributed(config, deliveryE6, queue) || UploadAttributed(config, deliveryE6, queue)
  {
    if Measured(config, queue) {
      var total := queue.downloadUs + queue.uploadUs;
      if queue.downloadUs >= queue.uploadUs {
        QuarterIsEnough(queue.downloadUs, total);
      } else {
        QuarterIsEnough(queue.uploadUs, total);
      }
    }
  }

  // ----- the ACK ceiling

  /** The room for ACKs: the rest of the rate after other traffic and headroom, at least their share. */
  function AllowedAckBps(config: Config, roomBps: u64, acks: Acks): u64
  {
    var other := SaturatingSub(acks.uploadBps, acks.uploadAckBps);
    var taken := Wrap64(other + RatioOf(roomBps, UPLOAD_ACK_HEADROOM_RATIO_E6));
    Max(SaturatingSub(roomBps, taken), RatioOf(roomBps, config.ackShareE6))
  }

  predicate CeilingApplies(config: Config, roomBps: u64, acks: Acks, download: Traffic, upload: Traffic)
  {
    && config.ackShareE6 != 0 && acks.valid && acks.uploadAckBps != 0
    && upload.valid && download.valid
    && LoadRatioE6(upload.trafficBps, roomBps) > config.highLoadE6
    && acks.uploadAckBps > AllowedAckBps(config, roomBps, acks)
  }

  function DownloadCeilingBps(config: Config, roomBps: u64, acks: Acks, download: Traffic, upload: Traffic): u64
  {
    if !CeilingApplies(config, roomBps, acks, download, upload) then U64_MAX
    else Holdable(MulDiv(download.trafficBps, AllowedAckBps(config, roomBps, acks), acks.uploadAckBps))
  }

  /**
   While it applies, the ceiling is the largest holdable download rate whose ACKs, at the
   measured ratio, fit in what is allowed; and ACKs are always allowed their share.
   */
  lemma CeilingIsExact(config: Config, roomBps: u64, acks: Acks, download: Traffic, upload: Traffic)
    requires CeilingApplies(config, roomBps, acks, download, upload)
    requires download.trafficBps % acks.uploadAckBps * AllowedAckBps(config, roomBps, acks) <= U64_MAX
    ensures var ceiling, allowed :=
        DownloadCeilingBps(config, roomBps, acks, download, upload), AllowedAckBps(config, roomBps, acks);
      && ceiling % RATE_STEP_BPS == 0
      && ceiling * acks.uploadAckBps <= download.trafficBps * allowed < (ceiling + RATE_STEP_BPS) * acks.uploadAckBps
      && allowed >= RatioOf(roomBps, config.ackShareE6)
  {
    var allowed := AllowedAckBps(config, roomBps, acks);
    MulDivExactIff(download.trafficBps, allowed, acks.uploadAckBps);
    HoldableNear(MulDiv(download.trafficBps, allowed, acks.uploadAckBps));
    CeilingBrackets(download.trafficBps * allowed, acks.uploadAckBps,
                    DownloadCeilingBps(config, roomBps, acks, download, upload));
  }

  lemma CeilingBrackets(product: nat, ackBps: u64, ceiling: u64)
    requires ackBps > 0 && ceiling <= product / ackBps < ceiling + RATE_STEP_BPS
    ensures ceiling * ackBps <= product < (ceiling + RATE_STEP_BPS) * ackBps
  {
    DivisionParts(product, ackBps);
    MulMonotone(ceiling, product / ackBps, ackBps);
    MulMonotone(product / ackBps + 1, ceiling + RATE_STEP_BPS, ackBps);
  }

  lemma CeilingIsHoldable(config: Config, roomBps: u64, acks: Acks, download: Traffic, upload: Traffic)
    ensures CeilingHoldable(DownloadCeilingBps(config, roomBps, acks, download, upload))
  {
    if CeilingApplies(config, roomBps, acks, download, upload) {
      HoldableNear(MulDiv(download.trafficBps, AllowedAckBps(config, roomBps, acks), acks.uploadAckBps));
    }
  }
}
