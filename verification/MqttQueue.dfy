/**
 The MQTT sender's bounded line queue, and why waking the sender only for the
 first line of an empty queue loses no wake-up.
 */
module MqttQueue {
  import opened Wrappers

  const QUEUE_RECORDS: nat := 32
  const LINE_SIZE: nat := 2048

  type Line = seq<char>

  /** The circular array of lines; every method runs with the lock held. */
  class LineQueue {
    const lines: array<Line>
    var first: nat
    var count: nat
    var online: bool

    ghost predicate Valid()
      reads this
    {
      lines.Length == QUEUE_RECORDS && first < QUEUE_RECORDS && count <= QUEUE_RECORDS
    }

    ghost function Contents(): (s: seq<Line>)
      requires Valid()
      reads this, lines
      ensures |s| == count
    {
      seq(count, i requires 0 <= i < count <= QUEUE_RECORDS && lines.Length == QUEUE_RECORDS && first < QUEUE_RECORDS
          reads this, lines =>
        lines[if first + i < QUEUE_RECORDS then first + i else first + i - QUEUE_RECORDS])
    }

    constructor ()
      ensures Valid() && fresh(lines) && Contents() == [] && !online
    {
      lines := new Line[QUEUE_RECORDS](_ => []);
      first, count, online := 0, 0, false;
    }

    /** Takes a line only while online and not full; the first one of an empty queue wakes the sender. */
    method Submit(line: Line, locked: bool) returns (wake: bool)
      requires Valid()
      modifies this`count, lines
      ensures Valid()
      ensures var taken := online && |line| < LINE_SIZE && locked && |old(Contents())| < QUEUE_RECORDS;
        && Contents() == (if taken then old(Contents()) + [line] else old(Contents()))
        && (wake <==> taken && old(Contents()) == [])
    {
      wake := false;
      if !online || |line| >= LINE_SIZE || !locked {
        return;
      }
      if count < QUEUE_RECORDS {
        var slot := (first + count) % QUEUE_RECORDS;
        lines[slot] := line;
        wake := count == 0;
        count := count + 1;
      }
    }

    /** The oldest line, unless one is still on its way or none is queued. */
    method Take(pending: bool) returns (line: Option<Line>)
      requires Valid()
      modifies this`first, this`count
      ensures Valid()
      ensures if pending || old(Contents()) == [] then line.None? && Contents() == old(Contents())
              else line == Some(old(Contents())[0]) && Contents() == old(Contents())[1..]
    {
      if pending || count == 0 {
        return None;
      }
      line := Some(lines[first]);
      first := (first + 1) % QUEUE_RECORDS;
      count := count - 1;
    }

    method Discard()
      requires Valid()
      modifies this
      ensures Valid() && Contents() == [] && !online
    {
      online := false;
      first, count := 0, 0;
    }
  }

  // ----- wake-ups

  /** The sender's position in its round, with the connection in place. */
  datatype Sender =
    | AtTop
    | Sending
    | Publishing
    | CheckingOnline
    | CheckingPending
    | CheckingQueue
    | Polling

  /** The shared flags, the event counter, and who has a wake-up still to write. */
  datatype State = State(
    queued: nat, accepting: bool, online: bool, pending: bool, signalled: bool,
    mainWakes: bool, networkWakes: bool, sender: Sender)

  datatype Step =
    | Submit
    | MainWakes
    | Connected(ok: bool)
    | Disconnected
    | Published
    | NetworkWakes
    | ClockUnread           // the round goes straight to its wait
    | ReadOnline            // accepts lines exactly while the connection was seen online
    | Discarded
    | TakeLine
    | Publish(ok: bool)
    | CheckOnline
    | CheckPending
    | CheckQueue
    | PollEnds              // signalled, or timed out

  const INITIAL := State(0, false, false, false, false, false, false, AtTop)

  predicate Enabled(s: State, step: Step)
  {
    match step
    // one thread writes its wake-up before it does anything else
    case Submit => !s.mainWakes
    case MainWakes => s.mainWakes
    case Connected(_) => !s.networkWakes
    case Disconnected => !s.networkWakes
    case Published => !s.networkWakes
    case NetworkWakes => s.networkWakes
    case ClockUnread => s.sender.AtTop?
    case ReadOnline => s.sender.AtTop?
    case Discarded => s.sender.AtTop?
    case TakeLine => s.sender.Sending?
    case Publish(_) => s.sender.Publishing?
    case CheckOnline => s.sender.CheckingOnline?
    case CheckPending => s.sender.CheckingPending?
    case CheckQueue => s.sender.CheckingQueue?
    case PollEnds => s.sender.Polling?
  }

  function Next(s: State, step: Step): State
    requires Enabled(s, step)
  {
    match step
    case Submit =>
      if s.accepting && s.queued < QUEUE_RECORDS
      then s.(queued := s.queued + 1, mainWakes := s.queued == 0) else s
    case MainWakes => s.(signalled := true, mainWakes := false)
    case Connected(ok) => s.(online := ok, networkWakes := true)
    case Disconnected => s.(online := false, networkWakes := true)
    case Published => s.(pending := false, networkWakes := true)
    case NetworkWakes => s.(signalled := true, networkWakes := false)
    case ClockUnread => s.(sender := Polling)
    case ReadOnline => s.(accepting := s.online, sender := if s.online then Sending else CheckingOnline)
    // the next connection starts with its own flags
    case Discarded => s.(accepting := false, queued := 0, online := false, pending := false, sender := Polling)
    case TakeLine =>
      if s.pending || s.queued == 0 then s.(sender := CheckingOnline)
      else s.(queued := s.queued - 1, pending := true, sender := Publishing)
    case Publish(ok) =>
      if ok then s.(sender := CheckingOnline)
      else s.(pending := false, online := false, accepting := false, sender := CheckingOnline)
    case CheckOnline => s.(sender := if s.online then CheckingPending else Polling)
    case CheckPending => s.(sender := if s.pending then Polling else CheckingQueue)
    case CheckQueue => s.(sender := if s.queued != 0 then AtTop else Polling)
    case PollEnds => s.(signalled := false, sender := AtTop)
  }

  ghost predicate Sendable(s: State) { s.online && !s.pending && s.queued > 0 }

  ghost predicate WakeUpDue(s: State) { s.signalled || s.mainWakes || s.networkWakes }

  /** The sender waits with a line it could send, and nothing is set or about to be set that wakes it. */
  ghost predicate Lost(s: State) { s.sender.Polling? && Sendable(s) && !WakeUpDue(s) }

  ghost predicate Possible(s: State, steps: seq<Step>)
    decreases |steps|, 0
  {
    steps == [] || (Possible(s, steps[..|steps| - 1]) && Enabled(After(s, steps[..|steps| - 1]), steps[|steps| - 1]))
  }

  ghost function After(s: State, steps: seq<Step>): State
    requires Possible(s, steps)
    decreases |steps|, 1
  {
    if steps == [] then s else Next(After(s, steps[..|steps| - 1]), steps[|steps| - 1])
  }

  // ----- which runs lose a wake-up

  /** A wake-up is lost by exactly one kind of step: a round that cannot read its clock, at a line it could send. */
  lemma OnlyAnUnreadClockLoses(s: State, step: Step)
    requires Enabled(s, step) && s.queued <= QUEUE_RECORDS
    ensures Next(s, step).queued <= QUEUE_RECORDS
    ensures !Lost(s) ==> (Lost(Next(s, step)) <==> step.ClockUnread? && Sendable(s) && !WakeUpDue(s))
    ensures Lost(s) ==> (Lost(Next(s, step)) <==> step.Submit?)
  {}

  /** The round of a step could not read its clock and went past a line it could send; since then only lines came. */
  ghost predicate LosesAt(steps: seq<Step>, k: nat)
    requires k < |steps| && Possible(INITIAL, steps)
  {
    && steps[k].ClockUnread?
    && (PrefixPossible(INITIAL, steps, k);
        var before := After(INITIAL, steps[..k]);
        Sendable(before) && !WakeUpDue(before))
    && forall j :: k < j < |steps| ==> steps[j].Submit?
  }

  lemma {:induction false} PrefixPossible(s: State, steps: seq<Step>, k: nat)
    requires Possible(s, steps) && k <= |steps|
    ensures Possible(s, steps[..k])
    decreases |steps|
  {
    if k == |steps| {
      assert steps[..k] == steps;
    } else {
      PrefixPossible(s, steps[..|steps| - 1], k);
      assert steps[..|steps| - 1][..k] == steps[..k];
    }
  }

  lemma LosesAtFront(steps: seq<Step>, k: nat)
    requires k < |steps| - 1 && Possible(INITIAL, steps)
    ensures LosesAt(steps, k) <==> LosesAt(steps[..|steps| - 1], k) && steps[|steps| - 1].Submit?
  {
    var front := steps[..|steps| - 1];
    PrefixPossible(INITIAL, steps, k);
    assert front[..k] == steps[..k] && front[k] == steps[k];
    if LosesAt(front, k) && steps[|steps| - 1].Submit? {
      forall j | k < j < |steps|
        ensures steps[j].Submit?
      {
        if j < |front| { assert steps[j] == front[j]; }
      }
    }
    if LosesAt(steps, k) {
      forall j | k < j < |front|
        ensures front[j].Submit?
      {
        assert front[j] == steps[j];
      }
    }
  }

  /**
   Over every interleaving, though only the first line of an empty queue wakes, a wake-up
   is lost exactly when a round could not read its clock while a line could be sent, and
   nothing but more lines has come since: the next answer, connection change or the end of
   the wait's time sends the line.
   */
  lemma {:induction false} WakeUpIsLostIff(steps: seq<Step>)
    requires Possible(INITIAL, steps)
    ensures After(INITIAL, steps).queued <= QUEUE_RECORDS
    ensures Lost(After(INITIAL, steps)) <==> exists k: nat :: k < |steps| && LosesAt(steps, k)
    decreases |steps|
  {
    if steps == [] {
    } else {
      var front, last := steps[..|steps| - 1], steps[|steps| - 1];
      WakeUpIsLostIff(front);
      OnlyAnUnreadClockLoses(After(INITIAL, front), last);
      if k: nat :| k < |front| && LosesAt(front, k) {
        LosesAtFront(steps, k);
      }
      if k: nat :| k < |steps| && LosesAt(steps, k) {
        if k < |front| { LosesAtFront(steps, k); }
      }
      LosesAtLast(steps);
    }
  }

  lemma LosesAtLast(steps: seq<Step>)
    requires steps != [] && Possible(INITIAL, steps)
    ensures var s, last := After(INITIAL, steps[..|steps| - 1]), steps[|steps| - 1];
      LosesAt(steps, |steps| - 1) <==> last.ClockUnread? && Sendable(s) && !WakeUpDue(s)
  {}

  /** So none is lost in any interleaving whose rounds all read their clock. */
  lemma WakeUpsAreNeverLost(steps: seq<Step>)
    requires Possible(INITIAL, steps)
    ensures Lost(After(INITIAL, steps)) ==> ClockUnread in steps
  {
    WakeUpIsLostIff(steps);
    if k: nat :| k < |steps| && LosesAt(steps, k) { assert steps[k] in steps; }
  }

  // ----- such a run exists

  ghost predicate Reachable(s: State) { exists steps :: Possible(INITIAL, steps) && After(INITIAL, steps) == s }

  lemma StaysReachable(s: State, step: Step)
    requires Reachable(s) && Enabled(s, step)
    ensures Reachable(Next(s, step))
  {
    var steps :| Possible(INITIAL, steps) && After(INITIAL, steps) == s;
    assert (steps + [step])[..|steps|] == steps;
    assert Possible(INITIAL, steps + [step]) && After(INITIAL, steps + [step]) == Next(s, step);
  }

  /** Connected, and waiting with nothing queued. */
  lemma WaitingOnline() returns (s: State)
    ensures Reachable(s) && s == State(0, true, true, false, true, false, false, Polling)
  {
    assert Possible(INITIAL, []) && After(INITIAL, []) == INITIAL;
    s := INITIAL;
    StaysReachable(s, Connected(true));
    s := Next(s, Connected(true));
    StaysReachable(s, NetworkWakes);
    s := Next(s, NetworkWakes);
    StaysReachable(s, ReadOnline);
    s := Next(s, ReadOnline);
    StaysReachable(s, TakeLine);
    s := Next(s, TakeLine);
    StaysReachable(s, CheckOnline);
    s := Next(s, CheckOnline);
    StaysReachable(s, CheckPending);
    s := Next(s, CheckPending);
    StaysReachable(s, CheckQueue);
    s := Next(s, CheckQueue);
  }

  /** The wake-up of a line ends one wait; the round it starts cannot read its clock and waits again. */
  lemma AnUnreadClockLosesAWakeUp() returns (s: State)
    ensures Reachable(s) && Lost(s)
  {
    s := WaitingOnline();
    StaysReachable(s, Submit);
    s := Next(s, Submit);
    StaysReachable(s, MainWakes);
    s := Next(s, MainWakes);
    StaysReachable(s, PollEnds);
    s := Next(s, PollEnds);
    StaysReachable(s, ClockUnread);
    s := Next(s, ClockUnread);
  }
}
