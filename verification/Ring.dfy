/** Reading and writing a fixed byte ring: runs of bytes that may wrap past its end. */
module Ring {
  import opened Arith

  /** An index less than two ring lengths, brought back into the ring. */
  function Wrapped(index: nat, size: nat): (r: nat)
    requires index < 2 * size
    ensures r < size
  {
    if index < size then index else index - size
  }

  /** How far an index lies past a starting one, going round. */
  function Offset(index: nat, at: nat, size: nat): (r: nat)
    requires index < size && at < size
    ensures r < size && Wrapped(at + r, size) == index
  {
    if index >= at then index - at else index + size - at
  }

  function Read(ring: seq<byte>, at: nat, count: nat): (run: seq<byte>)
    requires at < |ring| && count <= |ring|
    ensures |run| == count
  {
    seq(count, i requires 0 <= i < count => ring[Wrapped(at + i, |ring|)])
  }

  function Write(ring: seq<byte>, at: nat, run: seq<byte>): (r: seq<byte>)
    requires at < |ring| && |run| <= |ring|
    ensures |r| == |ring|
  {
    seq(|ring|, j requires 0 <= j < |ring| =>
      var offset := Offset(j, at, |ring|);
      if offset < |run| then run[offset] else ring[j])
  }

  /** The remainder the code takes is one wrap. */
  lemma RemainderWraps(index: nat, size: nat)
    requires index < 2 * size
    ensures index % size == Wrapped(index, size)
  {
    QuotientIs(index, size, if index < size then 0 else 1);
    DivisionParts(index, size);
  }

  /** A run is at most two pieces: up to the ring's end, then from its start. */
  lemma ReadPieces(ring: seq<byte>, at: nat, count: nat, head: nat)
    requires at < |ring| && count <= |ring|
    requires head == if count < |ring| - at then count else |ring| - at
    ensures Read(ring, at, count) == ring[at..at + head] + ring[..count - head]
  {
    var pieces := ring[at..at + head] + ring[..count - head];
    forall i | 0 <= i < count
      ensures Read(ring, at, count)[i] == pieces[i]
    {
      assert Read(ring, at, count)[i] == ring[Wrapped(at + i, |ring|)];
      if i >= head { assert pieces[i] == ring[..count - head][i - head]; }
    }
  }

  /** A run read back is the run written. */
  lemma ReadBack(ring: seq<byte>, at: nat, run: seq<byte>)
    requires at < |ring| && |run| <= |ring|
    ensures Read(Write(ring, at, run), at, |run|) == run
  {
    var written := Write(ring, at, run);
    forall i | 0 <= i < |run|
      ensures Read(written, at, |run|)[i] == run[i]
    {
      assert Offset(Wrapped(at + i, |ring|), at, |ring|) == i;
    }
  }

  /** Consecutive runs are read one after the other, wherever the boundary wraps. */
  lemma ReadSplits(ring: seq<byte>, at: nat, first: nat, second: nat)
    requires at < |ring| && first + second <= |ring|
    ensures Read(ring, at, first + second)
         == Read(ring, at, first) + Read(ring, Wrapped(at + first, |ring|), second)
  {
    var next := Wrapped(at + first, |ring|);
    var parts := Read(ring, at, first) + Read(ring, next, second);
    forall i | 0 <= i < first + second
      ensures Read(ring, at, first + second)[i] == parts[i]
    {
      if i >= first { assert Wrapped(next + (i - first), |ring|) == Wrapped(at + i, |ring|); }
    }
  }

  /** Writing after a run extends it and leaves it as it was. */
  lemma WriteExtends(ring: seq<byte>, at: nat, used: nat, run: seq<byte>)
    requires at < |ring| && used + |run| <= |ring|
    ensures var end := Wrapped(at + used, |ring|);
      Read(Write(ring, end, run), at, used + |run|) == Read(ring, at, used) + run
  {
    var end := Wrapped(at + used, |ring|);
    var written := Write(ring, end, run);
    ReadSplits(written, at, used, |run|);
    ReadBack(ring, end, run);
    forall i | 0 <= i < used
      ensures Read(written, at, used)[i] == Read(ring, at, used)[i]
    {
      assert Offset(Wrapped(at + i, |ring|), end, |ring|) >= |run|;
    }
    assert Read(written, at, used) == Read(ring, at, used);
  }

  /** Advancing in two steps is advancing once. */
  lemma WrapTwice(at: nat, first: nat, second: nat, size: nat)
    requires at < size && first + second <= size
    ensures Wrapped(Wrapped(at + first, size) + second, size) == Wrapped(at + first + second, size)
  {}

  lemma ReadsThree(ring: seq<byte>, at: nat, first: nat, second: nat, third: nat)
    requires at < |ring| && first + second + third <= |ring|
    ensures Read(ring, at, first + second + third)
         == Read(ring, at, first)
          + (Read(ring, Wrapped(at + first, |ring|), second)
           + Read(ring, Wrapped(at + first + second, |ring|), third))
  {
    ReadSplits(ring, at, first, second + third);
    ReadSplits(ring, Wrapped(at + first, |ring|), second, third);
  }

  /** The byte before a run's end is its last one. */
  lemma WrapBack(at: nat, count: nat, size: nat)
    requires at < size && 0 < count <= size
    ensures Wrapped(Wrapped(at + count, size) + size - 1, size) == Wrapped(at + count - 1, size)
  {}

  /** Changing a written run's last byte in place is writing the changed run. */
  lemma WriteLast(ring: seq<byte>, at: nat, run: seq<byte>, last: byte)
    requires at < |ring| && 0 < |run| <= |ring|
    ensures var end := Wrapped(at + |run| - 1, |ring|);
      Write(ring, at, run)[end := last] == Write(ring, at, run[|run| - 1 := last])
  {}
}
