/**
 The main thread and the writer thread as interleaved steps, one per locked
 section of the queue and one for the writing done outside it.
 */
module WriterThreads {
  import opened Arith
  import opened LogQueue

  /** What the writing side does, in order. */
  datatype Event =
    | ExportRun
    | ResetRun
    | Note(lines: nat, syslog: nat)
    | Carried(entry: Entry)

  /** Where the writer thread stands. */
  datatype Position =
    | AtTop
    | Waiting
    | Writing(batch: Batch)
    | Exited

  datatype State = State(
    shared: Shared,
    stop: bool,
    writer: Position,
    submitted: seq<Entry>,
    output: seq<Event>)

  datatype Step =
    | Submit(kind: Kind, priority: int, text: seq<byte>)
    | Stop
    | Begin
    | WakeUp
    | CarryOut

  const INITIAL := State(Shared([], 0, 0, false, false), false, AtTop, [], [])

  function RequestsRun(batch: Batch): seq<Event>
  {
    if batch.exportPending && batch.resetPending then [ExportRun, ResetRun]
    else if batch.exportPending then [ExportRun]
    else if batch.resetPending then [ResetRun]
    else []
  }

  function NoteOf(batch: Batch): seq<Event>
  {
    if batch.overwrittenLines > 0 || batch.overwrittenSyslog > 0
    then [Note(batch.overwrittenLines, batch.overwrittenSyslog)] else []
  }

  function CarriedOf(batch: Batch): seq<Event>
  {
    if batch.taken == [] then [] else [Carried(batch.taken[0])]
  }

  /** Overwritten requests first, then the note, then the entry. */
  function Rendered(batch: Batch): seq<Event>
  {
    RequestsRun(batch) + NoteOf(batch) + CarriedOf(batch)
  }

  predicate Enabled(s: State, step: Step)
  {
    match step
    // after a stop the main thread no longer knows the writer
    case Submit(_, _, _) => !s.stop
    case Stop => true
    case Begin => s.writer.AtTop?
    // woken by a signal, by its timer or for no reason
    case WakeUp => s.writer.Waiting?
    case CarryOut => s.writer.Writing?
  }

  function TakeStep(s: State): State
  {
    s.(shared := AfterBatch(s.shared), writer := Writing(BatchOf(s.shared)))
  }

  function Next(s: State, step: Step): State
    requires Enabled(s, step)
  {
    match step
    case Submit(kind, priority, text) =>
      var e := NewEntry(kind, priority, text);
      s.(shared := Submitted(s.shared, e), submitted := s.submitted + [e])
    case Stop => s.(stop := true)
    case Begin =>
      if s.shared.entries == [] && s.stop then s.(writer := Exited)
      else if s.shared.entries == [] then s.(writer := Waiting)
      else TakeStep(s)
    case WakeUp => TakeStep(s)
    case CarryOut => s.(writer := AtTop, output := s.output + Rendered(s.writer.batch))
  }

  predicate Possible(s: State, steps: seq<Step>)
    decreases |steps|
  {
    steps == [] || (Enabled(s, steps[0]) && Possible(Next(s, steps[0]), steps[1..]))
  }

  function After(s: State, steps: seq<Step>): State
    requires Possible(s, steps)
    decreases |steps|
  {
    if steps == [] then s else After(Next(s, steps[0]), steps[1..])
  }

  // ----- the account every state can give of everything submitted

  /** One writer round: the entries lost before it, then the entry it took, if any. */
  datatype Round = Round(lost: seq<Entry>, taken: seq<Entry>)

  ghost function AllOf(rounds: seq<Round>): seq<Entry>
  {
    if rounds == [] then []
    else
      var last := rounds[|rounds| - 1];
      AllOf(rounds[..|rounds| - 1]) + (last.lost + last.taken)
  }

  /** The counts and pending requests a run of lost entries must have left. */
  ghost function BatchFor(round: Round): Batch
  {
    Batch(Count(round.lost, Line), Count(round.lost, Syslog),
          Count(round.lost, Export) > 0, Count(round.lost, Reset) > 0, round.taken)
  }

  ghost function Told(rounds: seq<Round>): seq<Event>
  {
    if rounds == [] then []
    else Told(rounds[..|rounds| - 1]) + Rendered(BatchFor(rounds[|rounds| - 1]))
  }

  /** What the writer has written, and what it holds and will write next. */
  ghost function OutputToCome(s: State): seq<Event>
  {
    s.output + (if s.writer.Writing? then Rendered(s.writer.batch) else [])
  }

  ghost predicate Account(s: State, rounds: seq<Round>, lost: seq<Entry>)
  {
    && s.submitted == AllOf(rounds) + lost + s.shared.entries
    && OutputToCome(s) == Told(rounds)
    && BatchFor(Round(lost, [])) == BatchOf(s.shared).(taken := [])
    && (s.shared.entries == [] ==> lost == [])
    && (s.writer.Exited? ==> s.stop && s.shared.entries == [])
    && forall r :: r in rounds ==> |r.taken| <= 1 && (r.taken == [] ==> r.lost == [])
  }

  lemma {:induction false} CountAppends(a: seq<Entry>, b: seq<Entry>, kind: Kind)
    ensures Count(a + b, kind) == Count(a, kind) + Count(b, kind)
  {
    if a == [] {
      assert a + b == b;
    } else {
      CountAppends(a[1..], b, kind);
      assert (a + b)[1..] == a[1..] + b;
    }
  }

  lemma SubmitAccounts(s: State, rounds: seq<Round>, lost: seq<Entry>, step: Step) returns (lostNow: seq<Entry>)
    requires Account(s, rounds, lost) && step.Submit? && Enabled(s, step)
    ensures Account(Next(s, step), rounds, lostNow)
  {
    var e := NewEntry(step.kind, step.priority, step.text);
    var dropped := RoomDropsOldest(s.shared, Size(e));
    var gone, kept := s.shared.entries[..dropped], s.shared.entries[dropped..];
    lostNow := lost + gone;
    CountAppends(lost, gone, Line);
    CountAppends(lost, gone, Syslog);
    CountAppends(lost, gone, Export);
    CountAppends(lost, gone, Reset);
    assert s.shared.entries == gone + kept;
    Regrouped(AllOf(rounds), lost, gone, kept, [e]);
  }

  lemma Regrouped(a: seq<Entry>, b: seq<Entry>, c: seq<Entry>, d: seq<Entry>, e: seq<Entry>)
    ensures a + b + (c + d) + e == a + (b + c) + (d + e)
  {}

  lemma OneMore(rounds: seq<Round>, round: Round)
    ensures AllOf(rounds + [round]) == AllOf(rounds) + (round.lost + round.taken)
    ensures Told(rounds + [round]) == Told(rounds) + Rendered(BatchFor(round))
  {
    assert (rounds + [round])[..|rounds|] == rounds;
  }

  lemma TakeAccounts(s: State, rounds: seq<Round>, lost: seq<Entry>) returns (roundsNow: seq<Round>)
    requires Account(s, rounds, lost) && (s.writer.AtTop? || s.writer.Waiting?)
    ensures Account(TakeStep(s), roundsNow, [])
  {
    var round := Round(lost, BatchOf(s.shared).taken);
    var left := AfterBatch(s.shared).entries;
    roundsNow := rounds + [round];
    OneMore(rounds, round);
    assert s.shared.entries == round.taken + left;
    TakenRegroups(AllOf(rounds), lost, round.taken, left);
    TakingShows(s);
  }

  lemma TakingShows(s: State)
    requires s.writer.AtTop? || s.writer.Waiting?
    ensures OutputToCome(TakeStep(s)) == OutputToCome(s) + Rendered(BatchOf(s.shared))
  {
    assert s.output + [] == s.output;
  }

  lemma TakenRegroups(a: seq<Entry>, lost: seq<Entry>, taken: seq<Entry>, left: seq<Entry>)
    ensures a + lost + (taken + left) == a + (lost + taken) + [] + left
  {}

  lemma StepAccounts(s: State, rounds: seq<Round>, lost: seq<Entry>, step: Step)
    returns (roundsNow: seq<Round>, lostNow: seq<Entry>)
    requires Account(s, rounds, lost) && Enabled(s, step)
    ensures Account(Next(s, step), roundsNow, lostNow)
  {
    roundsNow, lostNow := rounds, lost;
    match step
    case Submit(_, _, _) => lostNow := SubmitAccounts(s, rounds, lost, step);
    case Stop =>
    case Begin =>
      if s.shared.entries != [] {
        roundsNow := TakeAccounts(s, rounds, lost);
        lostNow := [];
      }
    case WakeUp =>
      roundsNow := TakeAccounts(s, rounds, lost);
      lostNow := [];
    case CarryOut =>
      assert OutputToCome(Next(s, step)) == OutputToCome(s);
  }

  /**
   In every interleaving everything submitted is, in order, the rounds already
   told (lost entries, then the entry taken), what was lost since, and the queue.
   */
  lemma {:induction false} EveryRunAccounts(s: State, rounds: seq<Round>, lost: seq<Entry>, steps: seq<Step>)
    returns (roundsNow: seq<Round>, lostNow: seq<Entry>)
    requires Account(s, rounds, lost) && Possible(s, steps)
    ensures Account(After(s, steps), roundsNow, lostNow)
    decreases |steps|
  {
    if steps == [] {
      return rounds, lost;
    }
    var r, l := StepAccounts(s, rounds, lost, steps[0]);
    roundsNow, lostNow := EveryRunAccounts(Next(s, steps[0]), r, l, steps[1..]);
  }

  ghost predicate Reachable(s: State)
  {
    exists steps :: Possible(INITIAL, steps) && s == After(INITIAL, steps)
  }

  lemma ReachableAccounts(s: State) returns (rounds: seq<Round>, lost: seq<Entry>)
    requires Reachable(s)
    ensures Account(s, rounds, lost)
  {
    var steps :| Possible(INITIAL, steps) && s == After(INITIAL, steps);
    rounds, lost := EveryRunAccounts(INITIAL, [], [], steps);
  }

  // ----- what that account means for an observer of the output

  ghost function Written(output: seq<Event>): seq<Entry>
  {
    if output == [] then []
    else
      var last := output[|output| - 1];
      Written(output[..|output| - 1]) + (if last.Carried? then [last.entry] else [])
  }

  ghost function Noted(output: seq<Event>, kind: Kind): nat
  {
    if output == [] then 0
    else
      var last := output[|output| - 1];
      Noted(output[..|output| - 1], kind)
      + (if last.Note? && kind.Line? then last.lines else if last.Note? && kind.Syslog? then last.syslog else 0)
  }

  lemma {:induction false} WrittenAppends(a: seq<Event>, b: seq<Event>)
    ensures Written(a + b) == Written(a) + Written(b)
    ensures forall kind :: Noted(a + b, kind) == Noted(a, kind) + Noted(b, kind)
    decreases |b|
  {
    if b == [] {
      assert a + b == a;
    } else {
      var front := b[..|b| - 1];
      WrittenAppends(a, front);
      assert (a + b)[..|a + b| - 1] == a + front;
    }
  }

  lemma RenderedMeans(batch: Batch)
    requires |batch.taken| <= 1
    ensures Written(Rendered(batch)) == batch.taken
    ensures Noted(Rendered(batch), Line) == batch.overwrittenLines
    ensures Noted(Rendered(batch), Syslog) == batch.overwrittenSyslog
  {
    WrittenAppends(RequestsRun(batch), NoteOf(batch));
    WrittenAppends(RequestsRun(batch) + NoteOf(batch), CarriedOf(batch));
    RequestsAreNeither(batch);
    SingleEvent(NoteOf(batch));
    SingleEvent(CarriedOf(batch));
  }

  lemma RequestsAreNeither(batch: Batch)
    ensures Written(RequestsRun(batch)) == []
    ensures forall kind :: Noted(RequestsRun(batch), kind) == 0
  {
    var run := RequestsRun(batch);
    if |run| == 2 {
      assert run == [ExportRun] + [ResetRun];
      WrittenAppends([ExportRun], [ResetRun]);
      SingleRequest(ExportRun);
      SingleRequest(ResetRun);
    } else if |run| == 1 {
      SingleRequest(run[0]);
    }
  }

  lemma SingleRequest(event: Event)
    requires event.ExportRun? || event.ResetRun?
    ensures Written([event]) == [] && forall kind :: Noted([event], kind) == 0
  {
    assert [event][..0] == [];
  }

  lemma SingleEvent(output: seq<Event>)
    requires |output| <= 1
    ensures Written(output) == if output != [] && output[0].Carried? then [output[0].entry] else []
    ensures Noted(output, Line) == if output != [] && output[0].Note? then output[0].lines else 0
    ensures Noted(output, Syslog) == if output != [] && output[0].Note? then output[0].syslog else 0
  {
    if output != [] { assert output[..0] == []; }
  }

  ghost predicate Subsequence(a: seq<Entry>, b: seq<Entry>)
  {
    a == [] || (b != [] &&
      ((a[|a| - 1] == b[|b| - 1] && Subsequence(a[..|a| - 1], b[..|b| - 1]))
       || Subsequence(a, b[..|b| - 1])))
  }

  lemma {:induction false} SubsequenceExtends(a: seq<Entry>, b: seq<Entry>, more: seq<Entry>)
    requires Subsequence(a, b)
    ensures Subsequence(a, b + more)
    decreases |more|
  {
    if more == [] {
      assert b + more == b;
    } else {
      SubsequenceExtends(a, b, more[..|more| - 1]);
      assert (b + more)[..|b + more| - 1] == b + more[..|more| - 1];
    }
  }

  /** What the rounds tell: entries in submission order, and the counts of all others. */
  lemma {:induction false} ToldMeans(rounds: seq<Round>)
    requires forall r :: r in rounds ==> |r.taken| <= 1
    ensures Subsequence(Written(Told(rounds)), AllOf(rounds))
    ensures Count(AllOf(rounds), Line) == Count(Written(Told(rounds)), Line) + Noted(Told(rounds), Line)
    ensures Count(AllOf(rounds), Syslog) == Count(Written(Told(rounds)), Syslog) + Noted(Told(rounds), Syslog)
  {
    if rounds == [] {
    } else {
      var front, round := rounds[..|rounds| - 1], rounds[|rounds| - 1];
      ToldMeans(front);
      RenderedMeans(BatchFor(round));
      WrittenAppends(Told(front), Rendered(BatchFor(round)));
      var written := Written(Told(front));
      forall kind: Kind
        ensures Count(AllOf(rounds), kind)
             == Count(AllOf(front), kind) + Count(round.lost, kind) + Count(round.taken, kind)
        ensures Count(written + round.taken, kind) == Count(written, kind) + Count(round.taken, kind)
      {
        CountAppends(AllOf(front), round.lost + round.taken, kind);
        CountAppends(round.lost, round.taken, kind);
        CountAppends(written, round.taken, kind);
      }
      SubsequenceExtends(written, AllOf(front), round.lost);
      SubsequenceJoins(written, AllOf(front) + round.lost, round.taken);
      Assoc(AllOf(front), round.lost, round.taken);
    }
  }

  lemma SubsequenceJoins(a: seq<Entry>, b: seq<Entry>, taken: seq<Entry>)
    requires Subsequence(a, b) && |taken| <= 1
    ensures Subsequence(a + taken, b + taken)
  {
    if taken == [] {
      assert a + taken == a && b + taken == b;
    } else {
      assert (a + taken)[..|a|] == a && (b + taken)[..|b|] == b;
    }
  }

  /**
   Delivery is in submission order, and each line or syslog entry submitted is
   exactly one of written, noted as overwritten, overwritten since, or queued.
   */
  lemma EachEntryHasOneFate(s: State)
    requires Reachable(s)
    ensures var told := OutputToCome(s);
      && Subsequence(Written(told), s.submitted)
      && Count(s.submitted, Line) ==
         Count(Written(told), Line) + Noted(told, Line) + s.shared.overwrittenLines + Count(s.shared.entries, Line)
      && Count(s.submitted, Syslog) ==
         Count(Written(told), Syslog) + Noted(told, Syslog) + s.shared.overwrittenSyslog
         + Count(s.shared.entries, Syslog)
  {
    var rounds, lost := ReachableAccounts(s);
    ToldMeans(rounds);
    SubsequenceExtends(Written(Told(rounds)), AllOf(rounds), lost);
    SubsequenceExtends(Written(Told(rounds)), AllOf(rounds) + lost, s.shared.entries);
    CountAppends(AllOf(rounds), lost, Line);
    CountAppends(AllOf(rounds) + lost, s.shared.entries, Line);
    CountAppends(AllOf(rounds), lost, Syslog);
    CountAppends(AllOf(rounds) + lost, s.shared.entries, Syslog);
  }

  /** The thread exits only after a stop, with nothing queued, unreported or pending. */
  lemma ExitLeavesNothing(s: State)
    requires Reachable(s) && s.writer.Exited?
    ensures s.stop && s.shared == Shared([], 0, 0, false, false)
    ensures Count(s.submitted, Line) == Count(Written(s.output), Line) + Noted(s.output, Line)
    ensures Count(s.submitted, Syslog) == Count(Written(s.output), Syslog) + Noted(s.output, Syslog)
  {
    var rounds, lost := ReachableAccounts(s);
    EachEntryHasOneFate(s);
    assert OutputToCome(s) == s.output;
  }

  lemma SplitAt<T>(s: seq<T>, index: nat)
    requires index < |s|
    ensures s == s[..index] + [s[index]] + s[index + 1..]
  {}

  lemma Assoc<T>(a: seq<T>, b: seq<T>, c: seq<T>)
    ensures a + b + c == a + (b + c)
  {}

  lemma {:induction false} AllOfAppends(a: seq<Round>, b: seq<Round>)
    ensures AllOf(a + b) == AllOf(a) + AllOf(b)
    decreases |b|
  {
    if b == [] {
      assert a + b == a;
    } else {
      var front, last := b[..|b| - 1], b[|b| - 1];
      AllOfAppends(a, front);
      assert (a + b)[..|a + b| - 1] == a + front && (a + b)[|a + b| - 1] == last;
      Assoc(AllOf(a), AllOf(front), last.lost + last.taken);
    }
  }

  lemma {:induction false} ToldAppends(a: seq<Round>, b: seq<Round>)
    ensures Told(a + b) == Told(a) + Told(b)
    decreases |b|
  {
    if b == [] {
      assert a + b == a;
    } else {
      var front, last := b[..|b| - 1], b[|b| - 1];
      ToldAppends(a, front);
      assert (a + b)[..|a + b| - 1] == a + front && (a + b)[|a + b| - 1] == last;
      Assoc(Told(a), Told(front), Rendered(BatchFor(last)));
    }
  }

  lemma RoundSplits(rounds: seq<Round>, index: nat)
    requires index < |rounds|
    ensures Told(rounds) == Told(rounds[..index]) + Rendered(BatchFor(rounds[index])) + Told(rounds[index + 1..])
    ensures AllOf(rounds)
         == AllOf(rounds[..index]) + (rounds[index].lost + rounds[index].taken) + AllOf(rounds[index + 1..])
  {
    var front, rest := rounds[..index] + [rounds[index]], rounds[index + 1..];
    SplitAt(rounds, index);
    AllOfAppends(front, rest);
    ToldAppends(front, rest);
    OneMore(rounds[..index], rounds[index]);
  }

  /**
   One round of a state: its requests, its note and its entry stand in the output
   in one piece, between what the earlier and the later rounds tell; and its lost
   entries and the one taken stand in one piece in what was submitted.
   */
  ghost predicate RoundIsTold(s: State, rounds: seq<Round>, since: seq<Entry>, index: nat)
    requires index < |rounds|
  {
    var earlier, round, later := rounds[..index], rounds[index], rounds[index + 1..];
    && OutputToCome(s) == Told(earlier) + Rendered(BatchFor(round)) + Told(later)
    && s.submitted == AllOf(earlier) + (round.lost + round.taken) + AllOf(later) + since
  }

  /**
   In every reachable state the output is rounds, and what precedes each entry in
   it is about exactly the entries lost between it and the entry taken before:
   their counts, and the requests among them.
   */
  lemma RoundsAreTold(s: State) returns (rounds: seq<Round>, since: seq<Entry>)
    requires Reachable(s)
    ensures OutputToCome(s) == Told(rounds) && s.submitted == AllOf(rounds) + since
    ensures forall index :: 0 <= index < |rounds| ==> |rounds[index].taken| <= 1 && RoundIsTold(s, rounds, since, index)
  {
    var lost;
    rounds, lost := ReachableAccounts(s);
    since := lost + s.shared.entries;
    Assoc(AllOf(rounds), lost, s.shared.entries);
    forall index | 0 <= index < |rounds|
      ensures RoundIsTold(s, rounds, since, index)
    {
      RoundSplits(rounds, index);
    }
  }

  // ----- the order of the output, event by event

  /** Where requests, note and entry stand among each other. */
  function Rank(event: Event): nat
  {
    match event
    case ExportRun => 0
    case ResetRun => 1
    case Note(_, _) => 2
    case Carried(_) => 3
  }

  /**
   What stands before an entry, for the entries lost since the one carried before: at
   most one export, one reset and one note, in this order; a request exactly when one of
   its kind was lost; and a note, with the exact counts, exactly when a line or a syslog
   message was.
   */
  ghost predicate Tells(block: seq<Event>, lost: seq<Entry>)
  {
    && (forall i, j :: 0 <= i < j < |block| ==> Rank(block[i]) < Rank(block[j]))
    && (forall i :: 0 <= i < |block| ==> !block[i].Carried?)
    && (ExportRun in block <==> exists e :: e in lost && e.kind.Export?)
    && (ResetRun in block <==> exists e :: e in lost && e.kind.Reset?)
    && (forall i :: 0 <= i < |block| && block[i].Note? ==> block[i] == Note(Count(lost, Line), Count(lost, Syslog)))
    && ((exists i :: 0 <= i < |block| && block[i].Note?) <==> exists e :: e in lost && (e.kind.Line? || e.kind.Syslog?))
  }

  /** An entry carried, what stands before it in the output, and what was lost before it. */
  datatype Delivery = Delivery(told: seq<Event>, lost: seq<Entry>, entry: Entry)

  ghost function Output(deliveries: seq<Delivery>): seq<Event>
  {
    if deliveries == [] then []
    else
      var last := deliveries[|deliveries| - 1];
      Output(deliveries[..|deliveries| - 1]) + (last.told + [Carried(last.entry)])
  }

  ghost function Entries(deliveries: seq<Delivery>): seq<Entry>
  {
    if deliveries == [] then []
    else
      var last := deliveries[|deliveries| - 1];
      Entries(deliveries[..|deliveries| - 1]) + (last.lost + [last.entry])
  }

  ghost predicate AllTell(deliveries: seq<Delivery>)
  {
    forall k :: 0 <= k < |deliveries| ==> Tells(deliveries[k].told, deliveries[k].lost)
  }

  lemma {:induction false} CountIsPresence(entries: seq<Entry>, kind: Kind)
    ensures Count(entries, kind) > 0 <==> exists e :: e in entries && e.kind == kind
  {
    if entries == [] {
    } else {
      CountIsPresence(entries[1..], kind);
      assert forall e :: e in entries <==> e == entries[0] || e in entries[1..];
    }
  }

  lemma BlockTells(round: Round)
    ensures Tells(RequestsRun(BatchFor(round)) + NoteOf(BatchFor(round)), round.lost)
  {
    var batch := BatchFor(round);
    var requests, note := RequestsRun(batch), NoteOf(batch);
    CountIsPresence(round.lost, Export);
    CountIsPresence(round.lost, Reset);
    CountIsPresence(round.lost, Line);
    CountIsPresence(round.lost, Syslog);
    RequestsAre(batch);
    PresentInBoth(requests, note, ExportRun);
    PresentInBoth(requests, note, ResetRun);
    NoteStands(requests, note);
  }

  lemma RequestsAre(batch: Batch)
    ensures var requests := RequestsRun(batch);
      && (ExportRun in requests <==> batch.exportPending) && (ResetRun in requests <==> batch.resetPending)
      && (forall i :: 0 <= i < |requests| ==> Rank(requests[i]) < 2)
      && (forall i, j :: 0 <= i < j < |requests| ==> Rank(requests[i]) < Rank(requests[j]))
  {}

  lemma NoteStands(requests: seq<Event>, note: seq<Event>)
    requires |note| <= 1 && (note != [] ==> note[0].Note?)
    requires forall i :: 0 <= i < |requests| ==> Rank(requests[i]) < 2
    requires forall i, j :: 0 <= i < j < |requests| ==> Rank(requests[i]) < Rank(requests[j])
    ensures var block := requests + note;
      && (forall i, j :: 0 <= i < j < |block| ==> Rank(block[i]) < Rank(block[j]))
      && (forall i :: 0 <= i < |block| ==> !block[i].Carried? && (block[i].Note? ==> note != [] && block[i] == note[0]))
      && (note != [] ==> block[|requests|].Note?)
  {}

  lemma PresentInBoth<T>(a: seq<T>, b: seq<T>, x: T)
    ensures x in a + b <==> x in a || x in b
  {}

  lemma DeliveryJoins(deliveries: seq<Delivery>, last: Delivery)
    requires AllTell(deliveries) && Tells(last.told, last.lost)
    ensures AllTell(deliveries + [last])
    ensures Output(deliveries + [last]) == Output(deliveries) + (last.told + [Carried(last.entry)])
    ensures Entries(deliveries + [last]) == Entries(deliveries) + (last.lost + [last.entry])
  {
    assert (deliveries + [last])[..|deliveries|] == deliveries;
  }

  lemma EmptyRound(round: Round)
    requires round.taken == [] && round.lost == []
    ensures Rendered(BatchFor(round)) == [] && round.lost + round.taken == []
  {}

  lemma RoundJoins(deliveries: seq<Delivery>, round: Round) returns (now: seq<Delivery>)
    requires AllTell(deliveries) && |round.taken| <= 1 && (round.taken == [] ==> round.lost == [])
    ensures AllTell(now) && Output(now) == Output(deliveries) + Rendered(BatchFor(round))
    ensures Entries(now) == Entries(deliveries) + (round.lost + round.taken)
  {
    if round.taken == [] {
      EmptyRound(round);
      now := deliveries;
    } else {
      var last := Delivery(RequestsRun(BatchFor(round)) + NoteOf(BatchFor(round)), round.lost, round.taken[0]);
      assert round.taken == [last.entry];
      BlockTells(round);
      DeliveryJoins(deliveries, last);
      now := deliveries + [last];
    }
  }

  lemma {:induction false} RoundsDeliver(rounds: seq<Round>) returns (deliveries: seq<Delivery>)
    requires forall r :: r in rounds ==> |r.taken| <= 1 && (r.taken == [] ==> r.lost == [])
    ensures AllTell(deliveries) && Told(rounds) == Output(deliveries) && AllOf(rounds) == Entries(deliveries)
  {
    if rounds == [] {
      deliveries := [];
    } else {
      var front := RoundsDeliver(rounds[..|rounds| - 1]);
      deliveries := RoundJoins(front, rounds[|rounds| - 1]);
    }
  }

  /**
   In every interleaving the output is a sequence of deliveries and nothing else: each an
   entry, and before it what is told of the entries lost since the one delivered before.
   The submissions are those lost and delivered entries in the same order, then entries
   lost and not told of yet, then the queue; and nothing is untold behind an empty queue.
   */
  lemma OutputIsInOrder(s: State) returns (deliveries: seq<Delivery>, untold: seq<Entry>)
    requires Reachable(s)
    ensures AllTell(deliveries) && OutputToCome(s) == Output(deliveries)
    ensures s.submitted == Entries(deliveries) + untold + s.shared.entries
    ensures s.shared.entries == [] ==> untold == []
    ensures s.shared.overwrittenLines == Count(untold, Line) && s.shared.overwrittenSyslog == Count(untold, Syslog)
    ensures s.shared.exportPending <==> exists e :: e in untold && e.kind.Export?
    ensures s.shared.resetPending <==> exists e :: e in untold && e.kind.Reset?
  {
    var rounds;
    rounds, untold := ReachableAccounts(s);
    deliveries := RoundsDeliver(rounds);
    CountIsPresence(untold, Export);
    CountIsPresence(untold, Reset);
  }

  // ----- requests are never lost

  /** The output shows that a request of this kind was carried out. */
  ghost predicate Ran(output: seq<Event>, kind: Kind)
  {
    exists i :: 0 <= i < |output| &&
      (match output[i]
       case ExportRun => kind.Export?
       case ResetRun => kind.Reset?
       case Carried(e) => e.kind == kind
       case Note(_, _) => false)
  }

  lemma RanExtends(before: seq<Event>, output: seq<Event>, kind: Kind)
    requires Ran(output, kind) || Ran(before, kind)
    ensures Ran(before + output, kind)
  {
    var whole := before + output;
    if Ran(before, kind) {
      var i :| 0 <= i < |before| && (match before[i]
                                     case ExportRun => kind.Export?
                                     case ResetRun => kind.Reset?
                                     case Carried(e) => e.kind == kind
                                     case Note(_, _) => false);
      assert whole[i] == before[i];
    } else {
      var i :| 0 <= i < |output| && (match output[i]
                                     case ExportRun => kind.Export?
                                     case ResetRun => kind.Reset?
                                     case Carried(e) => e.kind == kind
                                     case Note(_, _) => false);
      assert whole[|before| + i] == output[i];
    }
  }

  lemma RoundRunsRequests(round: Round, kind: Kind)
    requires |round.taken| <= 1 && (kind.Export? || kind.Reset?)
    requires Count(round.lost + round.taken, kind) > 0
    ensures Ran(Rendered(BatchFor(round)), kind)
  {
    var batch := BatchFor(round);
    CountAppends(round.lost, round.taken, kind);
    var requests, rest := RequestsRun(batch), NoteOf(batch) + CarriedOf(batch);
    assert Rendered(batch) == requests + NoteOf(batch) + CarriedOf(batch) == requests + rest;
    if Count(round.lost, kind) > 0 {
      assert requests[if kind.Reset? && batch.exportPending then 1 else 0] ==
             (if kind.Export? then ExportRun else ResetRun);
      assert Ran(requests, kind);
      RanExtends(requests, rest, kind);
    } else {
      assert round.taken != [] && round.taken == [round.taken[0]];
      assert CarriedOf(batch)[0] == Carried(round.taken[0]);
      assert Ran(CarriedOf(batch), kind);
      RanExtends(requests + NoteOf(batch), CarriedOf(batch), kind);
    }
  }

  lemma {:induction false} RoundsRunRequests(rounds: seq<Round>, kind: Kind)
    requires forall r :: r in rounds ==> |r.taken| <= 1
    requires kind.Export? || kind.Reset?
    requires Count(AllOf(rounds), kind) > 0
    ensures Ran(Told(rounds), kind)
  {
    var front, round := rounds[..|rounds| - 1], rounds[|rounds| - 1];
    CountAppends(AllOf(front), round.lost + round.taken, kind);
    if Count(AllOf(front), kind) > 0 {
      RoundsRunRequests(front, kind);
    } else {
      RoundRunsRequests(round, kind);
    }
    RanExtends(Told(front), Rendered(BatchFor(round)), kind);
  }

  /** No request is lost: exported or reset has been by the time the thread ends, even if overwritten. */
  lemma RequestsSurviveOverwriting(s: State, kind: Kind)
    requires Reachable(s) && s.writer.Exited?
    requires kind.Export? || kind.Reset?
    requires Count(s.submitted, kind) > 0
    ensures Ran(s.output, kind)
  {
    var rounds, lost := ReachableAccounts(s);
    assert s.submitted == AllOf(rounds);
    assert OutputToCome(s) == s.output;
    RoundsRunRequests(rounds, kind);
  }

  // ----- after a stop

  predicate OfWriter(step: Step) { step.Begin? || step.WakeUp? || step.CarryOut? }

  /** How many more steps the writer takes at most, once nothing more is submitted. */
  function WriterLeft(s: State): nat
  {
    2 * |s.shared.entries| + (match s.writer
                              case AtTop => 1
                              case Writing(_) => 2
                              case Waiting => 3
                              case Exited => 0)
  }

  function CountWriter(steps: seq<Step>): nat
  {
    if steps == [] then 0 else (if OfWriter(steps[0]) then 1 else 0) + CountWriter(steps[1..])
  }

  lemma WriterGetsOn(s: State, step: Step)
    requires s.stop && Enabled(s, step)
    ensures Next(s, step).stop
    ensures WriterLeft(Next(s, step)) + (if OfWriter(step) then 1 else 0) <= WriterLeft(s)
  {}

  lemma {:induction false} WriterDrains(s: State, steps: seq<Step>)
    requires s.stop && Possible(s, steps)
    ensures CountWriter(steps) + WriterLeft(After(s, steps)) <= WriterLeft(s)
    decreases |steps|
  {
    if steps == [] {
    } else {
      WriterGetsOn(s, steps[0]);
      WriterDrains(Next(s, steps[0]), steps[1..]);
    }
  }

  /** After a stop the writer takes no more than two steps for each entry still queued, and three. */
  lemma StopDrains(s: State, steps: seq<Step>)
    requires Possible(Next(s, Stop), steps)
    ensures CountWriter(steps) <= 2 * |s.shared.entries| + 3
  {
    WriterDrains(Next(s, Stop), steps);
  }

  /** And it always has a step to take until it exits, so it does, with everything carried or told. */
  lemma WriterCanGo(s: State)
    requires !s.writer.Exited?
    ensures exists step :: OfWriter(step) && Enabled(s, step)
  {
    var step := if s.writer.AtTop? then Begin else if s.writer.Waiting? then WakeUp else CarryOut;
    assert OfWriter(step) && Enabled(s, step);
  }
}
