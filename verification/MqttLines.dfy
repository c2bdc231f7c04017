/**
 What becomes of the lines given to the MQTT sender, and what its flags say of a run:
 the connection's state, whether lines are accepted, and whether one is on its way.
 */
module MqttLines {
  import opened MqttQueue

  // ----- flags

  /** What a step says of a flag. */
  datatype Say = Raises | Lowers | Keeps

  /** Raised, and only kept since. */
  ghost predicate Up(says: seq<Say>)
  {
    exists k :: 0 <= k < |says| && RaisedAt(says, k)
  }

  ghost predicate RaisedAt(says: seq<Say>, k: nat)
    requires k < |says|
  {
    says[k].Raises? && forall j :: k < j < |says| ==> says[j].Keeps?
  }

  lemma UpGoesOn(says: seq<Say>, say: Say)
    ensures Up(says + [say]) <==> say.Raises? || (say.Keeps? && Up(says))
  {
    var all := says + [say];
    if say.Raises? { assert RaisedAt(all, |says|); }
    if k :| 0 <= k < |says| && RaisedAt(says, k) && say.Keeps? { assert RaisedAt(all, k); }
    if k :| 0 <= k < |all| && RaisedAt(all, k) {
      if k < |says| {
        assert all[|says|].Keeps?;
        forall j | k < j < |says|
          ensures says[j].Keeps?
        {
          assert all[j] == says[j];
        }
        assert RaisedAt(says, k);
      }
    }
  }

  /** The connection is up once connected, until it ends, a publish fails, or it is given up. */
  function OnlineSays(s: State, step: Step): Say
  {
    match step
    case Connected(ok) => if ok then Raises else Lowers
    case Disconnected => Lowers
    case Publish(ok) => if ok then Keeps else Lowers
    case Discarded => Lowers
    case _ => Keeps
  }

  /** Lines are accepted once a round has seen the connection up, until one sees it down, fails or gives up. */
  function AcceptingSays(s: State, step: Step): Say
  {
    match step
    case ReadOnline => if s.online then Raises else Lowers
    case Publish(ok) => if ok then Keeps else Lowers
    case Discarded => Lowers
    case _ => Keeps
  }

  /** A line is on its way once taken, until it is published, fails, or the connection is given up. */
  function PendingSays(s: State, step: Step): Say
  {
    match step
    case TakeLine => if TakesLine(s) then Raises else Keeps
    case Published => Lowers
    case Publish(ok) => if ok then Keeps else Lowers
    case Discarded => Lowers
    case _ => Keeps
  }

  /** The sender was woken, by main's first line or by the network, since its wait last ended. */
  function SignalledSays(s: State, step: Step): Say
  {
    match step
    case MainWakes => Raises
    case NetworkWakes => Raises
    case PollEnds => Lowers
    case _ => Keeps
  }

  ghost function Says(says: (State, Step) -> Say, steps: seq<Step>): seq<Say>
    requires Possible(INITIAL, steps)
  {
    if steps == [] then []
    else
      var front := steps[..|steps| - 1];
      Says(says, front) + [says(After(INITIAL, front), steps[|steps| - 1])]
  }

  ghost predicate Follows(before: bool, after: bool, say: Say)
  {
    after == (say.Raises? || (say.Keeps? && before))
  }

  /** Each flag is up exactly when a step raised it and no step since lowered it. */
  lemma {:induction false} FlagsTell(steps: seq<Step>)
    requires Possible(INITIAL, steps)
    ensures After(INITIAL, steps).online <==> Up(Says(OnlineSays, steps))
    ensures After(INITIAL, steps).accepting <==> Up(Says(AcceptingSays, steps))
    ensures After(INITIAL, steps).pending <==> Up(Says(PendingSays, steps))
    ensures After(INITIAL, steps).signalled <==> Up(Says(SignalledSays, steps))
    decreases |steps|
  {
    if steps == [] {
    } else {
      var front, last := steps[..|steps| - 1], steps[|steps| - 1];
      var s := After(INITIAL, front);
      FlagsTell(front);
      StepSays(s, last);
      UpGoesOn(Says(OnlineSays, front), OnlineSays(s, last));
      UpGoesOn(Says(AcceptingSays, front), AcceptingSays(s, last));
      UpGoesOn(Says(PendingSays, front), PendingSays(s, last));
      UpGoesOn(Says(SignalledSays, front), SignalledSays(s, last));
    }
  }

  lemma StepSays(s: State, step: Step)
    requires Enabled(s, step)
    ensures Follows(s.online, Next(s, step).online, OnlineSays(s, step))
    ensures Follows(s.accepting, Next(s, step).accepting, AcceptingSays(s, step))
    ensures Follows(s.pending, Next(s, step).pending, PendingSays(s, step))
    ensures Follows(s.signalled, Next(s, step).signalled, SignalledSays(s, step))
  {
    match step
    case Connected(ok) =>
    case Publish(ok) =>
    case TakeLine =>
    case ReadOnline =>
    case _ =>
  }

  // ----- lines

  predicate TakesLine(s: State) { !s.pending && s.queued > 0 }

  predicate QueuesLine(s: State) { s.accepting && s.queued < 32 }

  /** Lines accepted, taken for publishing, and given up with a connection. */
  datatype Tally = Tally(accepted: nat, taken: nat, dropped: nat)

  ghost function TallyOf(steps: seq<Step>): Tally
    requires Possible(INITIAL, steps)
  {
    if steps == [] then Tally(0, 0, 0)
    else
      var front, last := steps[..|steps| - 1], steps[|steps| - 1];
      var s, t := After(INITIAL, front), TallyOf(front);
      if last.Submit? && QueuesLine(s) then t.(accepted := t.accepted + 1)
      else if last.TakeLine? && TakesLine(s) then t.(taken := t.taken + 1)
      else if last.Discarded? then t.(dropped := t.dropped + s.queued)
      else t
  }

  lemma LinesMove(s: State, step: Step)
    requires Enabled(s, step) && s.queued <= 32
    ensures var t := Next(s, step);
      && t.queued <= 32
      && t.queued == (if step.Discarded? then 0
                      else s.queued + (if step.Submit? && QueuesLine(s) then 1 else 0)
                                    - (if step.TakeLine? && TakesLine(s) then 1 else 0))
  {
    match step
    case Submit =>
    case TakeLine =>
    case _ =>
  }

  /** Over every interleaving each accepted line is taken once, given up with its connection, or still queued. */
  lemma {:induction false} LinesAddUp(steps: seq<Step>)
    requires Possible(INITIAL, steps)
    ensures var s, t := After(INITIAL, steps), TallyOf(steps);
      t.accepted == t.taken + t.dropped + s.queued && s.queued <= 32
    decreases |steps|
  {
    if steps == [] {
    } else {
      LinesAddUp(steps[..|steps| - 1]);
      LinesMove(After(INITIAL, steps[..|steps| - 1]), steps[|steps| - 1]);
    }
  }

  /** Main has a wake-up to write exactly after the first line of an empty queue, until it has written it. */
  lemma MainWakesForFirst(s: State, step: Step)
    requires Enabled(s, step)
    ensures Next(s, step).mainWakes <==>
      if step.Submit? then QueuesLine(s) && s.queued == 0 else s.mainWakes && !step.MainWakes?
    ensures Next(s, step).networkWakes <==>
      step.Connected? || step.Disconnected? || step.Published? || (s.networkWakes && !step.NetworkWakes?)
  {}

  /** A line is published right after it is taken, and taken only in a round that saw the connection up. */
  lemma RoundsTakeWhileOnline(s: State, step: Step)
    requires Enabled(s, step)
    ensures step.TakeLine? ==> (Next(s, step).sender.Publishing? <==> TakesLine(s))
    ensures step.ReadOnline? ==> (Next(s, step).sender.Sending? <==> s.online)
    ensures Next(s, step).sender.Polling? && !s.sender.Polling? <==>
      || step.ClockUnread? || step.Discarded? || (step.CheckOnline? && !s.online)
      || (step.CheckPending? && s.pending) || (step.CheckQueue? && s.queued == 0)
  {}
}
