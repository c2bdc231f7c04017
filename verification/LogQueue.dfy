/**
 The log writer's bounded FIFO: a byte ring of variable-length entries, kept in
 step with the sequence of entries it stands for.
 */
module LogQueue {
  import opened Arith
  import Ring

  const QUEUE_BYTES: nat := 131072
  const WAKE_BYTES: nat := QUEUE_BYTES / 2
  const MESSAGE_SIZE: nat := 2048
  const HEADER_BYTES: nat := 4

  datatype Kind = Line | Syslog | Export | Reset

  /** A stored text leaves room for its terminating NUL. */
  type Text = t: seq<byte> | |t| < 2048

  datatype Entry = Entry(kind: Kind, priority: byte, text: Text)

  /** What the writer and the main thread share under the lock. */
  datatype Shared = Shared(
    entries: seq<Entry>,
    overwrittenLines: nat,
    overwrittenSyslog: nat,
    exportPending: bool,
    resetPending: bool)

  datatype Header = Header(kind: Kind, priority: byte, bytes: u16)

  // ----- the stored form

  function KindCode(kind: Kind): byte
  {
    match kind
    case Line => 0
    case Syslog => 1
    case Export => 2
    case Reset => 3
  }

  function KindOf(code: byte): Kind
  {
    if code == 1 then Syslog else if code == 2 then Export else if code == 3 then Reset else Line
  }

  function HeaderBytes(header: Header): (bytes: seq<byte>)
    ensures |bytes| == HEADER_BYTES
  {
    [KindCode(header.kind), header.priority, header.bytes % 256, header.bytes / 256]
  }

  function HeaderOf(bytes: seq<byte>): Header
    requires |bytes| == HEADER_BYTES
  {
    var high: int := bytes[3];
    Header(KindOf(bytes[0]), bytes[1], bytes[2] + 256 * high)
  }

  lemma HeaderRoundTrip(header: Header)
    ensures HeaderOf(HeaderBytes(header)) == header
  {}

  /** The characters kept of a text: all that fit before the terminating NUL. */
  function Cut(text: seq<byte>): (kept: Text)
    ensures kept <= text && (kept == text || |kept| == MESSAGE_SIZE - 1)
  {
    if |text| < MESSAGE_SIZE then text else text[..MESSAGE_SIZE - 1]
  }

  /** An entry as submitted: its priority in one byte, its text cut to 2047 characters. */
  function NewEntry(kind: Kind, priority: int, text: seq<byte>): (e: Entry)
    ensures e.kind == kind && (e.priority - priority) % 256 == 0
    ensures e.text <= text && |e.text| == if |text| < 2048 then |text| else 2047
  {
    Entry(kind, priority % 256, Cut(text))
  }

  function HeaderFor(e: Entry): Header
  {
    Header(e.kind, e.priority, |e.text| + 1)
  }

  function Encoded(e: Entry): (bytes: seq<byte>)
    ensures |bytes| == Size(e)
  {
    HeaderBytes(HeaderFor(e)) + (e.text + [0])
  }

  function Size(e: Entry): nat { HEADER_BYTES + |e.text| + 1 }

  ghost function EncodedAll(entries: seq<Entry>): (bytes: seq<byte>)
    ensures |bytes| == TotalSize(entries)
  {
    if entries == [] then [] else Encoded(entries[0]) + EncodedAll(entries[1..])
  }

  function TotalSize(entries: seq<Entry>): nat
  {
    if entries == [] then 0 else Size(entries[0]) + TotalSize(entries[1..])
  }

  lemma {:induction false} EncodedAllAppends(entries: seq<Entry>, e: Entry)
    ensures EncodedAll(entries + [e]) == EncodedAll(entries) + Encoded(e)
    ensures TotalSize(entries + [e]) == TotalSize(entries) + Size(e)
  {
    if entries == [] {
      assert [e][1..] == [];
      assert entries + [e] == [e];
    } else {
      EncodedAllAppends(entries[1..], e);
      assert (entries + [e])[1..] == entries[1..] + [e];
    }
  }

  // ----- the queue as a sequence of entries

  function Overwritten(q: Shared): Shared
    requires q.entries != []
  {
    var kind := q.entries[0].kind;
    q.(entries := q.entries[1..],
       exportPending := q.exportPending || kind.Export?,
       resetPending := q.resetPending || kind.Reset?,
       overwrittenSyslog := q.overwrittenSyslog + (if kind.Syslog? then 1 else 0),
       overwrittenLines := q.overwrittenLines + (if kind.Line? then 1 else 0))
  }

  /** Drops from the head until the new entry fits. */
  function RoomMade(q: Shared, bytes: nat): Shared
    requires bytes <= QUEUE_BYTES
    decreases |q.entries|
  {
    if TotalSize(q.entries) + bytes <= QUEUE_BYTES then q
    else RoomMade(Overwritten(q), bytes)
  }

  function Submitted(q: Shared, e: Entry): Shared
    requires Size(e) <= QUEUE_BYTES
  {
    var room := RoomMade(q, Size(e));
    room.(entries := room.entries + [e])
  }

  /** What one writer round takes: the counts of what went missing and the oldest entry left. */
  datatype Batch = Batch(
    overwrittenLines: nat,
    overwrittenSyslog: nat,
    exportPending: bool,
    resetPending: bool,
    taken: seq<Entry>)

  function BatchOf(q: Shared): Batch
  {
    Batch(q.overwrittenLines, q.overwrittenSyslog, q.exportPending, q.resetPending,
          if q.entries == [] then [] else [q.entries[0]])
  }

  function AfterBatch(q: Shared): Shared
  {
    Shared(if q.entries == [] then [] else q.entries[1..], 0, 0, false, false)
  }

  ghost function Count(entries: seq<Entry>, kind: Kind): nat
  {
    if entries == [] then 0
    else (if entries[0].kind == kind then 1 else 0) + Count(entries[1..], kind)
  }

  /**
   Making room drops the shortest sufficient run of oldest entries, so the newest
   are always kept, and accounts for each entry dropped by its kind.
   */
  lemma {:induction false} RoomDropsOldest(q: Shared, bytes: nat) returns (dropped: nat)
    requires bytes <= QUEUE_BYTES
    ensures dropped <= |q.entries|
    ensures var room, lost := RoomMade(q, bytes), q.entries[..dropped];
      && room.entries == q.entries[dropped..]
      && TotalSize(room.entries) + bytes <= QUEUE_BYTES
      && (dropped > 0 ==> TotalSize(q.entries[dropped - 1..]) + bytes > QUEUE_BYTES)
      && room.overwrittenLines == q.overwrittenLines + Count(lost, Line)
      && room.overwrittenSyslog == q.overwrittenSyslog + Count(lost, Syslog)
      && room.exportPending == (q.exportPending || Count(lost, Export) > 0)
      && room.resetPending == (q.resetPending || Count(lost, Reset) > 0)
    decreases |q.entries|
  {
    if TotalSize(q.entries) + bytes <= QUEUE_BYTES {
      dropped := 0;
    } else {
      var later := RoomDropsOldest(Overwritten(q), bytes);
      dropped := later + 1;
      var lost := q.entries[..dropped];
      assert lost[1..] == q.entries[1..][..later];
      assert q.entries[1..][later..] == q.entries[dropped..];
      if later > 0 { assert q.entries[1..][later - 1..] == q.entries[dropped - 1..]; }
    }
  }

  // ----- the byte ring that holds it

  /** From first on, the ring's used bytes are the entries' stored forms, oldest first. */
  ghost predicate Holds(ring: seq<byte>, first: nat, used: nat, entries: seq<Entry>)
  {
    && |ring| == QUEUE_BYTES
    && first < QUEUE_BYTES
    && used == TotalSize(entries) <= QUEUE_BYTES
    && Ring.Read(ring, first, used) == EncodedAll(entries)
  }

  /** An entry's header and text written after the used bytes, at any wrap position, append it. */
  lemma WriteAppends(ring: seq<byte>, first: nat, used: nat, entries: seq<Entry>, e: Entry)
    requires Holds(ring, first, used, entries) && used + Size(e) <= QUEUE_BYTES
    ensures var end := Ring.Wrapped(first + used, QUEUE_BYTES);
      var ringWithHeader := Ring.Write(ring, end, HeaderBytes(HeaderFor(e)));
      var textAt := Ring.Wrapped(end + HEADER_BYTES, QUEUE_BYTES);
      Holds(Ring.Write(ringWithHeader, textAt, e.text + [0]), first, used + Size(e), entries + [e])
  {
    var end := Ring.Wrapped(first + used, QUEUE_BYTES);
    var ringWithHeader := Ring.Write(ring, end, HeaderBytes(HeaderFor(e)));
    Ring.WriteExtends(ring, first, used, HeaderBytes(HeaderFor(e)));
    Ring.WrapTwice(first, used, HEADER_BYTES, QUEUE_BYTES);
    Ring.WriteExtends(ringWithHeader, first, used + HEADER_BYTES, e.text + [0]);
    EncodedAllAppends(entries, e);
    assert EncodedAll(entries) + HeaderBytes(HeaderFor(e)) + (e.text + [0])
        == EncodedAll(entries) + Encoded(e);
  }

  /** At the first byte stands a header, then its text, and past both lies the rest of the queue. */
  lemma OldestSplits(ring: seq<byte>, first: nat, used: nat, entries: seq<Entry>)
    requires Holds(ring, first, used, entries) && entries != []
    ensures var length := |entries[0].text| + 1;
      && used >= HEADER_BYTES + length
      && Ring.Read(ring, first, HEADER_BYTES) == HeaderBytes(HeaderFor(entries[0]))
      && Ring.Read(ring, Ring.Wrapped(first + HEADER_BYTES, QUEUE_BYTES), length) == entries[0].text + [0]
      && Holds(ring, Ring.Wrapped(first + HEADER_BYTES + length, QUEUE_BYTES), used - HEADER_BYTES - length,
               entries[1..])
  {
    var length := |entries[0].text| + 1;
    var rest := used - HEADER_BYTES - length;
    Ring.ReadsThree(ring, first, HEADER_BYTES, length, rest);
    Pieces(Ring.Read(ring, first, HEADER_BYTES),
           Ring.Read(ring, Ring.Wrapped(first + HEADER_BYTES, QUEUE_BYTES), length),
           Ring.Read(ring, Ring.Wrapped(first + HEADER_BYTES + length, QUEUE_BYTES), rest),
           HeaderBytes(HeaderFor(entries[0])), entries[0].text + [0], EncodedAll(entries[1..]));
  }

  lemma TerminatedText(text: seq<byte>, length: nat)
    requires length == |Cut(text)| + 1
    ensures (text + [0])[..length][length - 1 := 0] == Cut(text) + [0]
  {}

  /** Header and cut text written one after the other are the new entry appended. */
  lemma PutAppends(ring: seq<byte>, first: nat, used: nat, entries: seq<Entry>,
                   kind: Kind, priority: int, text: seq<byte>, length: u16, after: seq<byte>)
    requires Holds(ring, first, used, entries) && length == |Cut(text)| + 1
    requires used + Size(NewEntry(kind, priority, text)) <= QUEUE_BYTES
    requires var end := Ring.Wrapped(first + used, QUEUE_BYTES);
      after == Ring.Write(Ring.Write(ring, end, HeaderBytes(Header(kind, priority % 256, length))),
                          Ring.Wrapped(end + HEADER_BYTES, QUEUE_BYTES), (text + [0])[..length][length - 1 := 0])
    ensures Holds(after, first, used + HEADER_BYTES + length, entries + [NewEntry(kind, priority, text)])
  {
    TerminatedText(text, length);
    WriteAppends(ring, first, used, entries, NewEntry(kind, priority, text));
  }

  lemma TerminateText(ring: seq<byte>, at: nat, text: seq<byte>, end: nat)
    requires |ring| == QUEUE_BYTES && at < QUEUE_BYTES && 0 < |text| <= QUEUE_BYTES
    requires end == Ring.Wrapped(at + |text|, QUEUE_BYTES)
    ensures var last := (end + QUEUE_BYTES - 1) % QUEUE_BYTES;
      Ring.Write(ring, at, text)[last := 0] == Ring.Write(ring, at, text[|text| - 1 := 0])
  {
    Ring.RemainderWraps(end + QUEUE_BYTES - 1, QUEUE_BYTES);
    Ring.WrapBack(at, |text|, QUEUE_BYTES);
    Ring.WriteLast(ring, at, text, 0);
  }

  class LogWriter {
    const queue: array<byte>
    var first: nat
    var used: nat
    var overwrittenLines: nat
    var overwrittenSyslog: nat
    var exportPending: bool
    var resetPending: bool
    ghost var entries: seq<Entry>

    ghost predicate Valid()
      reads this, queue
    {
      && queue.Length == QUEUE_BYTES
      && Holds(queue[..], first, used, entries)
    }

    ghost function Contents(): Shared
      reads this
    {
      Shared(entries, overwrittenLines, overwrittenSyslog, exportPending, resetPending)
    }

    constructor ()
      ensures Valid() && fresh(queue)
      ensures Contents() == Shared([], 0, 0, false, false)
    {
      queue := new byte[QUEUE_BYTES](_ => 0);
      first, used := 0, 0;
      overwrittenLines, overwrittenSyslog := 0, 0;
      exportPending, resetPending := false, false;
      entries := [];
    }

    /** memcpy into the ring: up to its end, then from its start. */
    method CopyIn(at: nat, run: seq<byte>)
      requires queue.Length == QUEUE_BYTES && at < QUEUE_BYTES && |run| <= QUEUE_BYTES
      modifies queue
      ensures queue[..] == Ring.Write(old(queue[..]), at, run)
    {
      ghost var before := queue[..];
      var room := QUEUE_BYTES - at;
      var head := if |run| < room then |run| else room;
      forall i | 0 <= i < head {
        queue[at + i] := run[i];
      }
      forall i | 0 <= i < |run| - head {
        queue[i] := run[head + i];
      }
      forall j | 0 <= j < QUEUE_BYTES
        ensures queue[j] == Ring.Write(before, at, run)[j]
      {
        assert Ring.Offset(j, at, QUEUE_BYTES) == if j >= at then j - at else j + QUEUE_BYTES - at;
      }
    }

    /** memcpy out of the ring, likewise in two pieces. */
    method CopyOut(at: nat, count: nat) returns (run: seq<byte>)
      requires queue.Length == QUEUE_BYTES && at < QUEUE_BYTES && count <= QUEUE_BYTES
      ensures run == Ring.Read(queue[..], at, count)
    {
      var head := if count < QUEUE_BYTES - at then count else QUEUE_BYTES - at;
      run := queue[at..at + head] + queue[..count - head];
      Ring.ReadPieces(queue[..], at, count, head);
      assert queue[at..at + head] == queue[..][at..at + head] && queue[..count - head] == queue[..][..count - head];
    }

    method PutEntry(kind: Kind, priority: int, text: seq<byte>)
      requires Valid()
      requires used + Size(NewEntry(kind, priority, text)) <= QUEUE_BYTES
      modifies this`used, this`entries, queue
      ensures Valid()
      ensures Contents() == old(Contents()).(entries := old(entries) + [NewEntry(kind, priority, text)])
    {
      ghost var before := queue[..];
      var length: u16 := (if |text| < MESSAGE_SIZE - 1 then |text| else MESSAGE_SIZE - 1) + 1;
      Ring.RemainderWraps(first + used, QUEUE_BYTES);
      var end := (first + used) % QUEUE_BYTES;
      // the first length bytes of the text and its NUL
      WriteParts(end, Header(kind, priority % 256, length), (text + [0])[..length]);
      PutAppends(before, first, used, entries, kind, priority, text, length, queue[..]);
      used := used + HEADER_BYTES + length;
      entries := entries + [NewEntry(kind, priority, text)];
    }

    /** Copies the header and the text one after the other; the text's last byte becomes its NUL. */
    method WriteParts(at: nat, header: Header, characters: seq<byte>)
      requires queue.Length == QUEUE_BYTES && at < QUEUE_BYTES
      requires 0 < |characters| <= MESSAGE_SIZE
      modifies queue
      ensures queue[..] == Ring.Write(Ring.Write(old(queue[..]), at, HeaderBytes(header)),
                                      Ring.Wrapped(at + HEADER_BYTES, QUEUE_BYTES),
                                      characters[|characters| - 1 := 0])
    {
      CopyIn(at, HeaderBytes(header));
      ghost var withHeader := queue[..];
      Ring.RemainderWraps(at + HEADER_BYTES, QUEUE_BYTES);
      var textAt := (at + HEADER_BYTES) % QUEUE_BYTES;
      CopyIn(textAt, characters);
      Ring.RemainderWraps(textAt + |characters|, QUEUE_BYTES);
      var end := (textAt + |characters|) % QUEUE_BYTES;
      // the last byte is always a NUL, so a cut text ends properly
      TerminateText(withHeader, textAt, characters, end);
      queue[(end + QUEUE_BYTES - 1) % QUEUE_BYTES] := 0;
    }

    method OldestHeader() returns (header: Header)
      requires Valid() && entries != []
      ensures header == HeaderFor(entries[0])
    {
      var bytes := CopyOut(first, HEADER_BYTES);
      OldestSplits(queue[..], first, used, entries);
      HeaderRoundTrip(HeaderFor(entries[0]));
      header := HeaderOf(bytes);
    }

    method OverwriteOldest()
      requires Valid() && entries != []
      modifies this
      ensures Valid() && Contents() == Overwritten(old(Contents()))
    {
      OldestSplits(queue[..], first, used, entries);
      var header := OldestHeader();
      var bytes := HEADER_BYTES + header.bytes;
      if header.kind == Export {
        exportPending := true;
      } else if header.kind == Reset {
        resetPending := true;
      } else if header.kind == Syslog {
        overwrittenSyslog := overwrittenSyslog + 1;
      } else {
        overwrittenLines := overwrittenLines + 1;
      }
      Ring.RemainderWraps(first + bytes, QUEUE_BYTES);
      first := (first + bytes) % QUEUE_BYTES;
      used := used - bytes;
      entries := entries[1..];
    }

    /** Appends an entry, overwriting the oldest ones as needed; says whether the writer is woken. */
    method Queue(kind: Kind, priority: int, text: seq<byte>, bufferTimeoutUs: u64, toStdout: bool)
      returns (wakes: bool)
      requires Valid()
      modifies this, queue
      ensures Valid()
      ensures Contents() == Submitted(old(Contents()), NewEntry(kind, priority, text))
      ensures wakes <==> kind != Line || bufferTimeoutUs == 0 || toStdout || TotalSize(entries) >= WAKE_BYTES
    {
      ghost var e := NewEntry(kind, priority, text);
      var bytes := HEADER_BYTES + (if |text| < MESSAGE_SIZE - 1 then |text| else MESSAGE_SIZE - 1) + 1;
      while QUEUE_BYTES - used < bytes
        invariant Valid()
        invariant RoomMade(Contents(), Size(e)) == RoomMade(old(Contents()), Size(e))
        decreases used
      {
        OverwriteOldest();
      }
      PutEntry(kind, priority, text);
      wakes := kind != Line || bufferTimeoutUs == 0 || toStdout || used >= WAKE_BYTES;
    }

    /** Reads the head of the queue off the ring, its text terminated, and leaves the rest. */
    method TakeEntry() returns (header: Header, text: seq<byte>)
      requires Valid() && entries != []
      modifies this
      ensures Valid()
      ensures Contents() == old(Contents()).(entries := old(entries)[1..])
      ensures header == HeaderFor(old(entries)[0]) && text == old(entries)[0].text + [0]
    {
      OldestSplits(queue[..], first, used, entries);
      HeaderRoundTrip(HeaderFor(entries[0]));
      var bytes := CopyOut(first, HEADER_BYTES);
      header := HeaderOf(bytes);
      Ring.WrapTwice(first, HEADER_BYTES, header.bytes, QUEUE_BYTES);
      Ring.RemainderWraps(first + HEADER_BYTES, QUEUE_BYTES);
      first := (first + HEADER_BYTES) % QUEUE_BYTES;
      used := used - HEADER_BYTES;
      text := CopyOut(first, header.bytes);
      Ring.RemainderWraps(first + header.bytes, QUEUE_BYTES);
      first := (first + header.bytes) % QUEUE_BYTES;
      used := used - header.bytes;
      entries := entries[1..];
    }

    /** One locked section of the writer thread: the counts are read and cleared, one entry taken. */
    method TakeBatch() returns (batch: Batch)
      requires Valid()
      modifies this
      ensures Valid()
      ensures batch == BatchOf(old(Contents())) && Contents() == AfterBatch(old(Contents()))
    {
      var lines, syslog, exported, wasReset := overwrittenLines, overwrittenSyslog, exportPending, resetPending;
      overwrittenLines, overwrittenSyslog := 0, 0;
      exportPending, resetPending := false, false;
      var taken: seq<Entry> := [];
      if used > 0 {
        var header, text := TakeEntry();
        taken := [Entry(header.kind, header.priority, text[..|text| - 1])];
      }
      batch := Batch(lines, syslog, exported, wasReset, taken);
    }
  }

  lemma Pieces(a: seq<byte>, b: seq<byte>, c: seq<byte>, x: seq<byte>, y: seq<byte>, z: seq<byte>)
    requires a + (b + c) == (x + y) + z && |a| == |x| && |b| == |y|
    ensures a == x && b == y && c == z
  {
    var whole := a + (b + c);
    assert a == whole[..|a|] && x == ((x + y) + z)[..|a|];
    assert b == whole[|a|..][..|b|] && y == ((x + y) + z)[|a|..][..|b|];
    assert c == whole[|a| + |b|..] && z == ((x + y) + z)[|a| + |b|..];
  }
}
