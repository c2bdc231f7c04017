/**
 A native session's request ring: requests indexed by a 64-bit serial, each with one
 fate, expired oldest first.
 */
module NativeRing {
  import opened Arith
  import opened NativeSchedule

  datatype Request = Request(serial: u64, sentUs: u64, originateMs: u32, target: nat, pending: bool)

  /** What has become of each request since the session opened. */
  datatype Fate = Pending | Accepted | TimedOut

  lemma SlotsDiffer(first: nat, second: nat, capacity: nat)
    requires 0 < capacity && first < second < first + capacity
    ensures first % capacity != second % capacity
  {
    DivisionParts(first, capacity);
    DivisionParts(second, capacity);
    var q, r := first / capacity, second / capacity;
    if first % capacity == second % capacity {
      assert second - first == (r - q) * capacity by { assert r * capacity - q * capacity == (r - q) * capacity; }
      if r - q >= 1 { MulMonotone(1, r - q, capacity); } else { MulMonotone(r - q, 0, capacity); }
    }
  }

  // ----- fates

  ghost function CountFate(fates: seq<Fate>, fate: Fate): nat
  {
    if fates == [] then 0
    else CountFate(fates[..|fates| - 1], fate) + (if fates[|fates| - 1] == fate then 1 else 0)
  }

  lemma {:induction false} FatesAddUp(fates: seq<Fate>)
    ensures |fates| == CountFate(fates, Accepted) + CountFate(fates, TimedOut) + CountFate(fates, Pending)
  {
    if fates == [] {
    } else {
      FatesAddUp(fates[..|fates| - 1]);
    }
  }

  lemma {:induction false} FateChanges(fates: seq<Fate>, serial: nat, now: Fate, counted: Fate)
    requires serial < |fates|
    ensures CountFate(fates[serial := now], counted)
         == CountFate(fates, counted) - (if fates[serial] == counted then 1 else 0) + (if now == counted then 1 else 0)
  {
    var last := |fates| - 1;
    if serial < last {
      FateChanges(fates[..last], serial, now, counted);
      assert fates[serial := now][..last] == fates[..last][serial := now];
    } else {
      assert fates[serial := now][..last] == fates[..last];
    }
  }

  lemma FateAppends(fates: seq<Fate>, now: Fate, counted: Fate)
    ensures CountFate(fates + [now], counted) == CountFate(fates, counted) + (if now == counted then 1 else 0)
  {
    assert (fates + [now])[..|fates|] == fates;
  }

  /** Fates settle once: an accepted or timed-out request stays so. */
  ghost predicate OnlySettles(before: seq<Fate>, after: seq<Fate>)
  {
    |before| <= |after| && forall s :: 0 <= s < |before| ==> before[s] == Pending || after[s] == before[s]
  }

  // ----- what every step keeps, over the session's values

  function Slot(serial: nat, capacity: nat): (slot: nat)
    requires capacity > 0
    ensures slot < capacity
  {
    serial % capacity
  }

  /** The session's fields as values, with every request's fate and the latest clock reading. */
  datatype View = View(
    ring: seq<Request>, targetCount: nat, expired: nat, next: nat,
    timeoutCount: nat, fates: seq<Fate>, clock: u64)

  ghost predicate Live(v: View, s: int) { v.expired <= s < v.next }

  ghost function At(v: View, s: nat): Request
    requires |v.ring| > 0
  {
    v.ring[Slot(s, |v.ring|)]
  }

  ghost predicate Consistent(v: View)
  {
    && |v.ring| > 0
    && |v.fates| == v.next
    && v.expired <= v.next <= v.expired + |v.ring|
    && v.timeoutCount == CountFate(v.fates, TimedOut)
    // each live serial owns its ring slot
    && (forall s: nat :: Live(v, s) ==> OwnsSlot(v, s))
    // in sending order
    && (forall s: nat, t: nat :: Live(v, s) && Live(v, t) && s <= t ==> At(v, s).sentUs <= At(v, t).sentUs)
    // and nothing else is pending
    && (forall s :: 0 <= s < v.expired ==> v.fates[s] != Pending)
    && (forall i :: 0 <= i < |v.ring| && v.ring[i].pending ==>
          Live(v, v.ring[i].serial) && Slot(v.ring[i].serial, |v.ring|) == i)
  }

  ghost predicate OwnsSlot(v: View, s: nat)
    requires |v.ring| > 0 && |v.fates| == v.next && s < v.next
  {
    var request := At(v, s);
    && request.serial == s && request.target < v.targetCount && request.sentUs <= v.clock
    && (request.pending <==> v.fates[s] == Pending)
  }

  lemma OtherSlots(v: View, s: nat)
    requires |v.ring| > 0
    ensures forall t {:trigger Slot(t, |v.ring|)} :: s < t < s + |v.ring| ==> Slot(t, |v.ring|) != Slot(s, |v.ring|)
    ensures forall t {:trigger Slot(t, |v.ring|)} ::
      t < s < t + |v.ring| && t >= 0 ==> Slot(t, |v.ring|) != Slot(s, |v.ring|)
  {
    forall t: nat | s < t < s + |v.ring|
      ensures Slot(t, |v.ring|) != Slot(s, |v.ring|)
    {
      SlotsDiffer(s, t, |v.ring|);
    }
    forall t: nat | t < s < t + |v.ring|
      ensures Slot(t, |v.ring|) != Slot(s, |v.ring|)
    {
      SlotsDiffer(t, s, |v.ring|);
    }
  }

  /** A live request settles: its slot is no longer pending and its fate is decided. */
  ghost function SettledAs(v: View, s: nat, fate: Fate): View
    requires |v.ring| > 0 && s < |v.fates|
  {
    v.(ring := v.ring[Slot(s, |v.ring|) := At(v, s).(pending := false)],
       fates := v.fates[s := fate],
       timeoutCount := v.timeoutCount + (if fate == TimedOut then 1 else 0))
  }

  lemma SettlingKeeps(v: View, s: nat, fate: Fate)
    requires Consistent(v) && Live(v, s) && At(v, s).pending && fate != Pending
    ensures Consistent(SettledAs(v, s, fate))
    ensures OnlySettles(v.fates, SettledAs(v, s, fate).fates)
    ensures CountFate(SettledAs(v, s, fate).fates, Accepted)
         == CountFate(v.fates, Accepted) + (if fate == Accepted then 1 else 0)
  {
    assert OwnsSlot(v, s);
    FateChanges(v.fates, s, fate, TimedOut);
    FateChanges(v.fates, s, fate, Accepted);
    OtherSlots(v, s);
    var w := SettledAs(v, s, fate);
    forall t: nat | Live(w, t)
      ensures OwnsSlot(w, t) && At(w, t).sentUs == At(v, t).sentUs
    {
      assert Live(v, t) && OwnsSlot(v, t);
    }
  }

  lemma AdvancingKeeps(v: View)
    requires Consistent(v) && v.expired < v.next && !At(v, v.expired).pending
    ensures Consistent(v.(expired := v.expired + 1))
  {
    var gone := v.expired;
    assert Live(v, gone) && OwnsSlot(v, gone);
    var w := v.(expired := gone + 1);
    forall t: nat | Live(w, t)
      ensures OwnsSlot(w, t)
    {
      assert Live(v, t) && OwnsSlot(v, t);
    }
    forall t: nat, u: nat | Live(w, t) && Live(w, u) && t <= u
      ensures At(w, t).sentUs <= At(w, u).sentUs
    {
      assert Live(v, t) && Live(v, u);
    }
    forall i | 0 <= i < |w.ring| && w.ring[i].pending
      ensures Live(w, w.ring[i].serial)
    {
      assert Live(v, v.ring[i].serial) && Slot(v.ring[i].serial, |v.ring|) == i;
    }
  }

  /** What expiry needs of a session's values, sound or not. */
  ghost predicate Shaped(v: View) { |v.ring| > 0 && |v.fates| == v.next && v.expired <= v.next }

  /** The oldest live request leaves the live range, timed out if it was still pending. */
  ghost function OldestExpired(v: View): (w: View)
    requires Shaped(v) && v.expired < v.next
    ensures Shaped(w) && w.next == v.next && w.expired == v.expired + 1
  {
    (if At(v, v.expired).pending then SettledAs(v, v.expired, TimedOut) else v).(expired := v.expired + 1)
  }

  lemma OldestExpiredKeeps(v: View)
    requires Consistent(v) && v.expired < v.next
    ensures Consistent(OldestExpired(v))
  {
    assert Live(v, v.expired);
    var settled := if At(v, v.expired).pending then SettledAs(v, v.expired, TimedOut) else v;
    if At(v, v.expired).pending { SettlingKeeps(v, v.expired, TimedOut); }
    AdvancingKeeps(settled);
  }

  ghost function ExpiredAt(v: View, nowUs: u64): (w: View)
    requires Shaped(v)
    ensures Shaped(w) && w.next == v.next && w.expired >= v.expired
    decreases v.next - v.expired
  {
    if v.expired < v.next && nowUs >= Deadline(At(v, v.expired).sentUs)
    then ExpiredAt(OldestExpired(v), nowUs)
    else v
  }

  lemma {:induction false} ExpiredKeeps(v: View, nowUs: u64)
    requires Consistent(v)
    ensures Consistent(ExpiredAt(v, nowUs))
    decreases v.next - v.expired
  {
    if v.expired >= v.next || nowUs < Deadline(At(v, v.expired).sentUs) {
    } else {
      OldestExpiredKeeps(v);
      ExpiredKeeps(OldestExpired(v), nowUs);
    }
  }

  ghost function FateAt(v: View, s: nat, nowUs: u64): Fate
    requires |v.ring| > 0 && s < |v.fates|
  {
    if Live(v, s) && v.fates[s] == Pending && nowUs >= Deadline(At(v, s).sentUs) then TimedOut else v.fates[s]
  }

  /** Expiry times out exactly the pending requests whose deadline has passed, and nothing else changes. */
  lemma {:induction false} ExpiryIsExact(v: View, nowUs: u64)
    requires Consistent(v)
    ensures var w := ExpiredAt(v, nowUs);
      && |w.ring| == |v.ring| && w.targetCount == v.targetCount && w.clock == v.clock
      && (forall s: nat :: Live(w, s) ==> Live(v, s) && At(w, s) == At(v, s) && nowUs < Deadline(At(w, s).sentUs))
      && (forall s: nat :: s < v.next ==> w.fates[s] == FateAt(v, s, nowUs))
      && CountFate(w.fates, Accepted) == CountFate(v.fates, Accepted)
    decreases v.next - v.expired
  {
    if v.expired < v.next {
      assert Live(v, v.expired) && OwnsSlot(v, v.expired);
      if nowUs >= Deadline(At(v, v.expired).sentUs) {
        var w := OldestExpired(v);
        OldestExpiredKeeps(v);
        OldestExpires(v, nowUs);
        ExpiryIsExact(w, nowUs);
      } else {
        forall s: nat | Live(v, s)
          ensures nowUs < Deadline(At(v, s).sentUs)
        {}
      }
    }
  }

  lemma OldestExpires(v: View, nowUs: u64)
    requires Consistent(v) && v.expired < v.next && nowUs >= Deadline(At(v, v.expired).sentUs)
    ensures var w := OldestExpired(v);
      && |w.ring| == |v.ring| && w.targetCount == v.targetCount && w.clock == v.clock
      && (forall s: nat :: Live(w, s) ==> Live(v, s) && At(w, s) == At(v, s))
      && (forall s: nat :: s < v.next ==> FateAt(w, s, nowUs) == FateAt(v, s, nowUs))
      && CountFate(w.fates, Accepted) == CountFate(v.fates, Accepted)
  {
    assert Live(v, v.expired) && OwnsSlot(v, v.expired);
    if At(v, v.expired).pending { SettlingKeeps(v, v.expired, TimedOut); }
    OtherSlots(v, v.expired);
  }

  /** The next request's slot is free, so sending it overwrites no live request. */
  ghost function SentAs(v: View, request: Request): View
    requires |v.ring| > 0
  {
    v.(ring := v.ring[Slot(v.next, |v.ring|) := request],
       next := v.next + 1,
       clock := if request.sentUs > v.clock then request.sentUs else v.clock,
       fates := v.fates + [if request.pending then Pending else TimedOut],
       timeoutCount := v.timeoutCount + (if request.pending then 0 else 1))
  }

  lemma SendingKeeps(v: View, request: Request)
    requires Consistent(v) && v.next < v.expired + |v.ring|
    requires request.serial == v.next && request.target < v.targetCount && request.sentUs >= v.clock
    ensures Consistent(SentAs(v, request))
    ensures OnlySettles(v.fates, SentAs(v, request).fates)
    ensures CountFate(SentAs(v, request).fates, Accepted) == CountFate(v.fates, Accepted)
    ensures forall s: nat :: Live(v, s) ==> At(SentAs(v, request), s) == At(v, s)
  {
    var fate := if request.pending then Pending else TimedOut;
    FateAppends(v.fates, fate, TimedOut);
    FateAppends(v.fates, fate, Accepted);
    OtherSlots(v, v.next);
    var w := SentAs(v, request);
    forall t: nat | Live(w, t)
      ensures OwnsSlot(w, t)
    {
      if t < v.next { assert Live(v, t) && OwnsSlot(v, t); }
    }
    forall t: nat, u: nat | Live(w, t) && Live(w, u) && t <= u
      ensures At(w, t).sentUs <= At(w, u).sentUs
    {
      if u < v.next {
        assert Live(v, t) && Live(v, u);
      } else if t < v.next {
        assert Live(v, t) && OwnsSlot(v, t);
      }
    }
    forall i | 0 <= i < |w.ring| && w.ring[i].pending
      ensures Live(w, w.ring[i].serial) && Slot(w.ring[i].serial, |w.ring|) == i
    {
      if i != Slot(v.next, |v.ring|) { assert v.ring[i].pending; }
    }
  }

  /** A slot no live request owns holds nothing that is waited for. */
  lemma FreeSlotLosesNothing(v: View)
    requires Consistent(v) && v.next < v.expired + |v.ring|
    ensures !At(v, v.next).pending
  {
    var slot := Slot(v.next, |v.ring|);
    if v.ring[slot].pending {
      assert Slot(v.ring[slot].serial, |v.ring|) == slot;
      OtherSlots(v, v.next);
    }
  }

  /** Expiry stops at the first request that may still be answered. */
  lemma {:induction false} ExpiryStops(v: View, s: nat, nowUs: u64)
    requires Consistent(v) && Live(v, s) && nowUs < Deadline(At(v, s).sentUs)
    ensures Live(ExpiredAt(v, nowUs), s)
    decreases v.next - v.expired
  {
    if nowUs < Deadline(At(v, v.expired).sentUs) {
    } else {
      OldestExpiredKeeps(v);
      OtherSlots(v, v.expired);
      ExpiryStops(OldestExpired(v), s, nowUs);
    }
  }
}
