/** The recent added delay over the pinger slots: per-second maxima and their lower median. */
module RecentDelay {
  import opened Arith
  import opened Wrappers

  const MICROSECONDS_PER_SECOND: u64 := 1_000_000

  /** A slot's largest delay in the second of its last reply, and in the second before. */
  datatype Recent = Recent(sec: nat, current: i64, previous: i64)

  const NEVER := Recent(0, 0, 0)

  function Added(recent: Recent, delay: i64, sec: nat): Recent
  {
    if sec != recent.sec then Recent(sec, delay, if sec == recent.sec + 1 then recent.current else 0)
    else recent.(current := Max(recent.current, delay))
  }

  function ValueAt(recent: Recent, sec: nat): Option<i64>
  {
    if recent.sec == sec then Some(Max(recent.current, recent.previous))
    else if recent.sec + 1 == sec then Some(recent.current)
    else None
  }

  // ----- a slot against all its replies

  /** A reply's added delay, never negative, and the second it came in. */
  datatype Reply = Reply(delay: i64, sec: nat)

  ghost predicate History(replies: seq<Reply>)
  {
    && (forall i :: 0 <= i < |replies| ==> replies[i].delay >= 0)
    && (forall i, j :: 0 <= i <= j < |replies| ==> replies[i].sec <= replies[j].sec)
  }

  function Recorded(replies: seq<Reply>): Recent
  {
    if replies == [] then NEVER
    else Added(Recorded(replies[..|replies| - 1]), replies[|replies| - 1].delay, replies[|replies| - 1].sec)
  }

  /** The largest delay among the replies of a second, or -1 without one. */
  ghost function LargestIn(replies: seq<Reply>, sec: int): (r: int)
    ensures r >= -1
    ensures forall i :: 0 <= i < |replies| && replies[i].sec == sec ==> replies[i].delay <= r
    ensures r >= 0 ==> exists i :: 0 <= i < |replies| && replies[i].sec == sec && replies[i].delay == r
  {
    if replies == [] then -1
    else
      var front, last := replies[..|replies| - 1], replies[|replies| - 1];
      var r := LargestIn(front, sec);
      assert forall i :: 0 <= i < |front| ==> front[i] == replies[i];
      if last.sec == sec then Max(Max(r, last.delay), -1) else r
  }

  /** The two fields are the maxima of the last reply's second and the one before. */
  lemma {:induction false} RecordedMaxima(replies: seq<Reply>)
    requires History(replies) && replies != []
    ensures var r, sec := Recorded(replies), replies[|replies| - 1].sec;
      r.sec == sec && r.current == LargestIn(replies, sec) && r.previous == Max(0, LargestIn(replies, sec - 1))
  {
    var front, last := replies[..|replies| - 1], replies[|replies| - 1];
    if front == [] {
    } else {
      assert History(front);
      RecordedMaxima(front);
      var sec := front[|front| - 1].sec;
      assert sec == replies[|front| - 1].sec;
      if sec < last.sec { NothingAfter(front, last.sec); }
      if sec < last.sec - 1 { NothingAfter(front, last.sec - 1); }
    }
  }

  lemma NothingAfter(replies: seq<Reply>, sec: int)
    requires History(replies) && replies != [] && replies[|replies| - 1].sec < sec
    ensures LargestIn(replies, sec) == -1
  {}

  /** The largest delay over a second and the one before. */
  ghost function RecentMaximum(replies: seq<Reply>, sec: nat): int
  {
    Max(LargestIn(replies, sec), LargestIn(replies, sec - 1))
  }

  /**
   A slot's value is its largest delay of the current and previous second, and
   nothing when it has none; but a slot that never replied reads as having
   replied with no delay in the first two seconds.
   */
  lemma ValueIsRecentMaximum(replies: seq<Reply>, sec: nat)
    requires History(replies) && (replies != [] ==> replies[|replies| - 1].sec <= sec)
    ensures var largest := RecentMaximum(replies, sec);
      ValueAt(Recorded(replies), sec) ==
        (if largest >= 0 then Some(largest) else if replies == [] && sec <= 1 then Some(0) else None)
  {
    if replies == [] {
    } else if replies[|replies| - 1].sec == sec {
      LatestRepliesValue(replies, sec);
    } else {
      OlderRepliesValue(replies, sec);
    }
  }

  lemma LatestRepliesValue(replies: seq<Reply>, sec: nat)
    requires History(replies) && replies != [] && replies[|replies| - 1].sec == sec
    ensures RecentMaximum(replies, sec) >= 0 && ValueAt(Recorded(replies), sec) == Some(RecentMaximum(replies, sec))
  {
    RecordedMaxima(replies);
    assert replies[|replies| - 1].delay <= LargestIn(replies, sec);
  }

  lemma OlderRepliesValue(replies: seq<Reply>, sec: nat)
    requires History(replies) && replies != [] && replies[|replies| - 1].sec < sec
    ensures var largest := RecentMaximum(replies, sec);
      ValueAt(Recorded(replies), sec) == (if largest >= 0 then Some(largest) else None)
  {
    RecordedMaxima(replies);
    NothingAfter(replies, sec);
    if replies[|replies| - 1].sec < sec - 1 { NothingAfter(replies, sec - 1); }
  }

  // ----- ranks

  function CountBelow(values: seq<int>, x: int): nat
  {
    if values == [] then 0 else CountBelow(values[..|values| - 1], x) + (if values[|values| - 1] < x then 1 else 0)
  }

  function CountAtMost(values: seq<int>, x: int): nat { CountBelow(values, x + 1) }

  /** The value with no more than half of the others before it: fewer than half are smaller, and half are no larger. */
  predicate IsLowerMedian(values: seq<int>, r: int)
    requires values != []
  {
    r in values && CountBelow(values, r) <= (|values| - 1) / 2 < CountAtMost(values, r)
  }

  predicate IsMedianOrNone(values: seq<int>, r: int)
  {
    if values == [] then r == -1 else IsLowerMedian(values, r)
  }

  lemma {:induction false} CountsJoin(a: seq<int>, b: seq<int>, x: int)
    ensures CountBelow(a + b, x) == CountBelow(a, x) + CountBelow(b, x)
  {
    if b == [] {
      assert a + b == a;
    } else {
      CountsJoin(a, b[..|b| - 1], x);
      assert (a + b)[..|a + b| - 1] == a + b[..|b| - 1];
    }
  }

  lemma {:induction false} CountIsSmall(values: seq<int>, x: int)
    ensures CountBelow(values, x) <= |values|
  {
    if values == [] {
    } else {
      CountIsSmall(values[..|values| - 1], x);
    }
  }

  lemma {:induction false} NoneBelow(values: seq<int>, x: int)
    requires forall i :: 0 <= i < |values| ==> values[i] >= x
    ensures CountBelow(values, x) == 0
  {
    if values == [] {
    } else {
      NoneBelow(values[..|values| - 1], x);
    }
  }

  lemma {:induction false} AllBelow(values: seq<int>, x: int)
    requires forall i :: 0 <= i < |values| ==> values[i] < x
    ensures CountBelow(values, x) == |values|
  {
    if values == [] {
    } else {
      AllBelow(values[..|values| - 1], x);
    }
  }

  predicate Sorted(values: seq<int>) { forall i, j :: 0 <= i <= j < |values| ==> values[i] <= values[j] }

  /** Where an insertion stops: the values from there on are all larger. */
  function Place(values: seq<int>, value: int): (p: nat)
    ensures p <= |values| && (p > 0 ==> values[p - 1] <= value)
    ensures forall k :: p <= k < |values| ==> values[k] > value
  {
    if values == [] || values[|values| - 1] <= value then |values| else Place(values[..|values| - 1], value)
  }

  function Inserted(values: seq<int>, value: int): seq<int>
  {
    values[..Place(values, value)] + [value] + values[Place(values, value)..]
  }

  lemma InsertedIsSorted(values: seq<int>, value: int)
    requires Sorted(values)
    ensures Sorted(Inserted(values, value))
  {}

  lemma InsertedCounts(values: seq<int>, value: int, x: int)
    ensures CountBelow(Inserted(values, value), x) == CountBelow(values + [value], x)
  {
    var a, b := values[..Place(values, value)], values[Place(values, value)..];
    CountsJoin(a + [value], b, x);
    CountsJoin(a, [value], x);
    assert values == a + b;
    CountsJoin(a, b, x);
    CountsJoin(values, [value], x);
  }

  /** The same values in another order. */
  ghost predicate SameRanks(a: seq<int>, b: seq<int>)
  {
    |a| == |b| && (forall x :: CountBelow(a, x) == CountBelow(b, x)) && (forall v :: v in a <==> v in b)
  }

  lemma InsertedSame(sorted: seq<int>, values: seq<int>, value: int)
    requires SameRanks(sorted, values)
    ensures SameRanks(Inserted(sorted, value), values + [value])
  {
    forall x
      ensures CountBelow(Inserted(sorted, value), x) == CountBelow(values + [value], x)
    {
      InsertedCounts(sorted, value, x);
      CountsJoin(sorted, [value], x);
      CountsJoin(values, [value], x);
    }
  }

  /** The middle of the sorted values is the lower median. */
  lemma MiddleIsMedian(sorted: seq<int>, values: seq<int>)
    requires Sorted(sorted) && SameRanks(sorted, values) && values != []
    ensures IsLowerMedian(values, sorted[(|values| - 1) / 2])
  {
    var k := (|values| - 1) / 2;
    FewerBelow(sorted, k);
    MoreAtMost(sorted, k);
    assert sorted[k] in sorted;
  }

  lemma FewerBelow(sorted: seq<int>, k: nat)
    requires Sorted(sorted) && k < |sorted|
    ensures CountBelow(sorted, sorted[k]) <= k
  {
    var head, tail := sorted[..k], sorted[k..];
    assert sorted == head + tail;
    CountsJoin(head, tail, sorted[k]);
    CountIsSmall(head, sorted[k]);
    NoneBelow(tail, sorted[k]);
  }

  lemma MoreAtMost(sorted: seq<int>, k: nat)
    requires Sorted(sorted) && k < |sorted|
    ensures CountAtMost(sorted, sorted[k]) > k
  {
    var head, tail := sorted[..k + 1], sorted[k + 1..];
    assert sorted == head + tail;
    CountsJoin(head, tail, sorted[k] + 1);
    AllBelow(head, sorted[k] + 1);
  }

  /** One value is the lower median of a list. */
  lemma MedianIsUnique(values: seq<int>, r: int, s: int)
    requires values != [] && IsLowerMedian(values, r) && IsLowerMedian(values, s)
    ensures r == s
  {
    if r < s { CountGrows(values, r + 1, s); }
    if s < r { CountGrows(values, s + 1, r); }
  }

  lemma {:induction false} CountGrows(values: seq<int>, x: int, y: int)
    requires x <= y
    ensures CountBelow(values, x) <= CountBelow(values, y)
  {
    if values == [] {
    } else {
      CountGrows(values[..|values| - 1], x, y);
    }
  }

  /** With two values or more at least two are no smaller; with three or more at least two are no larger. */
  lemma MedianIgnoresAnOutlier(values: seq<int>, r: int)
    requires |values| >= 2 && IsLowerMedian(values, r)
    ensures |values| - CountBelow(values, r) >= 2
    ensures |values| >= 3 ==> CountAtMost(values, r) >= 2
  {}

  // ----- the slots

  function ValuesAt(slots: seq<Recent>, sec: nat): (values: seq<int>)
    ensures |values| <= |slots|
  {
    if slots == [] then []
    else
      var front, value := ValuesAt(slots[..|slots| - 1], sec), ValueAt(slots[|slots| - 1], sec);
      if value.Some? then front + [value.value] else front
  }

  // ----- all slots against all replies

  /** The recent maxima of the slots that replied within the current or previous second. */
  ghost function MaximaAt(histories: seq<seq<Reply>>, sec: nat): seq<int>
  {
    if histories == [] then []
    else
      var front, largest := MaximaAt(histories[..|histories| - 1], sec), RecentMaximum(histories[|histories| - 1], sec);
      if largest >= 0 then front + [largest] else front
  }

  /** Every slot holds what its replies record. */
  ghost predicate Tells(slots: seq<Recent>, histories: seq<seq<Reply>>)
  {
    |slots| == |histories| && forall i :: 0 <= i < |slots| ==> slots[i] == Recorded(histories[i])
  }

  /** Delays are never negative, the clock never goes back, and no reply is from a later second than this. */
  ghost predicate Orderly(histories: seq<seq<Reply>>, sec: nat)
  {
    forall i :: 0 <= i < |histories| ==> OrderlySlot(histories[i], sec)
  }

  ghost predicate OrderlySlot(replies: seq<Reply>, sec: nat)
  {
    History(replies) && (replies != [] ==> replies[|replies| - 1].sec <= sec)
  }

  /** Past the first two seconds the values read are exactly the recent maxima of the slots that replied. */
  lemma {:induction false} ValuesAreMaxima(slots: seq<Recent>, histories: seq<seq<Reply>>, sec: nat)
    requires Tells(slots, histories) && Orderly(histories, sec) && sec >= 2
    ensures ValuesAt(slots, sec) == MaximaAt(histories, sec)
  {
    if slots == [] {
    } else {
      var last := |slots| - 1;
      ValuesAreMaxima(slots[..last], histories[..last], sec);
      assert OrderlySlot(histories[last], sec);
      ValueIsRecentMaximum(histories[last], sec);
    }
  }

  /** What a slot has recorded once another reply comes in. */
  lemma RecordedGrows(replies: seq<Reply>, delay: i64, sec: nat)
    ensures Recorded(replies + [Reply(delay, sec)]) == Added(Recorded(replies), delay, sec)
  {
    var all := replies + [Reply(delay, sec)];
    assert all[..|replies|] == replies;
  }

  lemma TellsGrows(slots: seq<Recent>, histories: seq<seq<Reply>>, slot: nat, delay: i64, sec: nat)
    requires Tells(slots, histories) && slot < |slots|
    ensures Tells(slots[slot := Added(slots[slot], delay, sec)],
                  histories[slot := histories[slot] + [Reply(delay, sec)]])
  {
    RecordedGrows(histories[slot], delay, sec);
  }

  lemma MiddleOfRecent(slots: seq<Recent>, histories: seq<seq<Reply>>, sec: nat, sorted: seq<int>)
    requires Tells(slots, histories) && Sorted(sorted) && SameRanks(sorted, ValuesAt(slots, sec))
    ensures var r := if sorted == [] then -1 else sorted[(|sorted| - 1) / 2];
      && IsMedianOrNone(ValuesAt(slots, sec), r)
      && (Orderly(histories, sec) && sec >= 2 ==> IsMedianOrNone(MaximaAt(histories, sec), r))
  {
    if sorted != [] { MiddleIsMedian(sorted, ValuesAt(slots, sec)); }
    if Orderly(histories, sec) && sec >= 2 { ValuesAreMaxima(slots, histories, sec); }
  }

  // ----- the slots in place

  method AddToSlot(recent: array<Recent>, slot: nat, delay: i64, sec: nat)
    requires slot < recent.Length
    modifies recent
    ensures recent[..] == old(recent[..])[slot := Added(old(recent[slot]), delay, sec)]
  {
    var was := recent[slot];
    if sec != was.sec {
      recent[slot] := was.(previous := if sec == was.sec + 1 then was.current else 0);
      recent[slot] := recent[slot].(current := delay);
      recent[slot] := recent[slot].(sec := sec);
    } else {
      recent[slot] := was.(current := Max(was.current, delay));
    }
  }

  /** The slots, and a record of every reply each of them got. */
  class Slots {
    const recent: array<Recent>
    ghost var histories: seq<seq<Reply>>

    constructor (count: nat)
      ensures Valid() && fresh(recent) && recent.Length == count && histories == seq(count, _ => [])
    {
      recent := new Recent[count](_ => NEVER);
      histories := seq(count, _ => []);
    }

    ghost predicate Valid()
      reads this, recent
    {
      Tells(recent[..], histories)
    }

    /** Adds a reply's delay to its slot. */
    method Add(slot: nat, delay: i64, timestampUs: u64)
      requires Valid() && slot < recent.Length
      modifies this, recent
      ensures Valid()
      ensures var reply := Reply(delay, timestampUs / MICROSECONDS_PER_SECOND);
        histories == old(histories)[slot := old(histories)[slot] + [reply]]
      ensures var sec: nat := timestampUs / MICROSECONDS_PER_SECOND;
        recent[..] == old(recent[..])[slot := Added(old(recent[slot]), delay, sec)]
    {
      var sec: nat := timestampUs / MICROSECONDS_PER_SECOND;
      TellsGrows(recent[..], histories, slot, delay, sec);
      AddToSlot(recent, slot, delay, sec);
      histories := histories[slot := histories[slot] + [Reply(delay, sec)]];
    }

    /**
     The lower median of the slots' recent delays, or -1 without one; past the
     first two seconds that is the median of what the slots' replies of the current
     and previous second were at most.
     */
    method RecentDelayUs(timestampUs: u64) returns (r: int)
      requires Valid()
      ensures IsMedianOrNone(ValuesAt(recent[..], timestampUs / MICROSECONDS_PER_SECOND), r)
      ensures var sec: nat := timestampUs / MICROSECONDS_PER_SECOND;
        Orderly(histories, sec) && sec >= 2 ==> IsMedianOrNone(MaximaAt(histories, sec), r)
    {
      var sec: nat := timestampUs / MICROSECONDS_PER_SECOND;
      var values, count := SortedValues(recent, sec);
      MiddleOfRecent(recent[..], histories, sec, values[..count]);
      if count == 0 {
        return -1;
      }
      r := values[(count - 1) / 2];
    }
  }

  /** The values of the slots, sorted in as they are read. */
  method SortedValues(recent: array<Recent>, sec: nat) returns (values: array<int>, count: nat)
    ensures fresh(values) && count <= values.Length
    ensures Sorted(values[..count]) && SameRanks(values[..count], ValuesAt(recent[..], sec))
  {
    values, count := new int[recent.Length], 0;
    ghost var taken: seq<int> := [];
    for slot := 0 to recent.Length
      invariant count <= slot && count == |taken|
      invariant taken == ValuesAt(recent[..slot], sec)
      invariant Sorted(values[..count]) && SameRanks(values[..count], taken)
    {
      assert recent[..slot + 1][..slot] == recent[..slot];
      var value := ValueAt(recent[slot], sec);
      if value.Some? {
        Keep(values, count, value.value, taken);
        count := count + 1;
        taken := taken + [value.value];
      }
    }
    assert recent[..recent.Length] == recent[..];
  }

  /** Sorts one more value in. */
  method Keep(values: array<int>, count: nat, value: int, ghost taken: seq<int>)
    requires count < values.Length && Sorted(values[..count]) && SameRanks(values[..count], taken)
    modifies values
    ensures Sorted(values[..count + 1]) && SameRanks(values[..count + 1], taken + [value])
  {
    InsertedIsSorted(values[..count], value);
    InsertedSame(values[..count], taken, value);
    Insert(values, count, value);
  }

  /** One round of the insertion sort, in place. */
  method Insert(values: array<int>, count: nat, value: int)
    requires count < values.Length
    modifies values
    ensures values[..count + 1] == Inserted(old(values[..count]), value)
  {
    ghost var was := values[..count];
    var position := count;
    while position > 0 && values[position - 1] > value
      invariant position <= count
      invariant forall k :: 0 <= k < position ==> values[k] == was[k]
      invariant forall k :: position <= k < count ==> values[k + 1] == was[k] && was[k] > value
    {
      values[position] := values[position - 1];
      position := position - 1;
    }
    values[position] := value;
    PlaceIs(was, value, position);
    InsertedIs(values[..count + 1], was, value, position);
  }

  lemma InsertedIs(all: seq<int>, values: seq<int>, value: int, p: nat)
    requires p <= |values| && |all| == |values| + 1 && all[p] == value
    requires forall k :: 0 <= k < p ==> all[k] == values[k]
    requires forall k :: p <= k < |values| ==> all[k + 1] == values[k]
    ensures all == values[..p] + [value] + values[p..]
  {
    var whole := values[..p] + [value] + values[p..];
    forall k | p < k < |all|
      ensures all[k] == whole[k]
    {
      assert all[k - 1 + 1] == values[k - 1];
    }
  }

  lemma PlaceIs(values: seq<int>, value: int, p: nat)
    requires p <= |values| && (p > 0 ==> values[p - 1] <= value)
    requires forall k :: p <= k < |values| ==> values[k] > value
    ensures Place(values, value) == p
  {}
}
