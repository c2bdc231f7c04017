/** The last values of a history, and a ring that holds them. */
module Windows {

  /** The last window values of a history that began with padding. */
  ghost function LastOf<T>(values: seq<T>, window: nat, padding: T): (last: seq<T>)
    ensures |last| == window
  {
    (seq(window, _ => padding) + values)[|values|..]
  }

  lemma LastShifts<T>(values: seq<T>, window: nat, padding: T, added: T)
    requires window > 0
    ensures LastOf(values + [added], window, padding) == LastOf(values, window, padding)[1..] + [added]
  {
    var padded := seq(window, _ => padding) + values;
    assert seq(window, _ => padding) + (values + [added]) == padded + [added];
  }

  /** The ring read from its next slot on: oldest to newest. */
  ghost function Unrolled<T>(ring: seq<T>, next: nat): (s: seq<T>)
    requires next < |ring|
    ensures |s| == |ring|
  {
    seq(|ring|, i requires 0 <= i < |ring| => ring[if next + i < |ring| then next + i else next + i - |ring|])
  }

  lemma RingShifts<T>(ring: seq<T>, next: nat, added: T)
    requires next < |ring|
    ensures Unrolled(ring[next := added], if next + 1 == |ring| then 0 else next + 1)
         == Unrolled(ring, next)[1..] + [added]
  {
    var after := Unrolled(ring[next := added], if next + 1 == |ring| then 0 else next + 1);
    forall i | 0 <= i < |ring|
      ensures after[i] == (Unrolled(ring, next)[1..] + [added])[i]
    {}
  }
}
