/**
 How the MQTT sender ends: once main has told it to stop, each thread has only so many steps
 left, none is ever stuck before its end, and every network thread has been told to stop.
 */
module MqttEnding {
  import opened MqttOwners
  import opened Wrappers

  predicate OfSender(step: Step) { !OfMain(step) && !OfNetwork(step) }

  // ----- how far each thread is from its end

  function SenderLeft(sender: Sender): nat
  {
    match sender
    case Exited => 0
    case ReleasingState => 1
    case Top(current) => if current.Some? then 5 else 2
    case Releasing(_, exiting) => if exiting then 2 else 3
    case Joining(_, exiting) => if exiting then 3 else 4
    case Destroying(_, exiting) => if exiting then 4 else 5
    case Failing(_) => 3
    case Uncounted(_) => 4
    case Body(current) => if current.Some? then 6 else 10
    case CountedBoth(_) => 7
    case CountedConnection(_) => 8
    case Preparing(_) => 9
  }

  function NetworkLeft(network: Network): nat
  {
    match network
    case NotCreated => 0
    case Serving => 4
    case Checking => 3
    case Closing => 2
    case Leaving => 1
    case Over => 0
  }

  function MainLeft(main: Main): nat
  {
    match main
    case Running => 3
    case JoiningSender => 2
    case ReleasingLast => 1
    case Gone => 0
  }

  // ----- who has been told

  predicate Created(connection: Connection) { !connection.network.NotCreated? }

  /** The sender is past telling the connection it stands at to stop. */
  predicate HasTold(sender: Sender) { sender.Joining? || sender.Releasing? }

  /** The connection's thread has been created by the time the sender keeps it. */
  predicate Keeps(sender: Sender)
  {
    sender.Top? || sender.Body? || sender.Destroying? || HasTold(sender)
  }

  ghost predicate ConnectionTold(s: State, c: nat)
    requires c < |s.connections|
  {
    var connection, own := s.connections[c], SendersConnection(s.sender) == Some(c);
    && (connection.stop ==> Created(connection))
    && (own && HasTold(s.sender) ==> connection.stop)
    && (own && !HasTold(s.sender) ==> !connection.stop)
    && (!own && Created(connection) ==> connection.stop)
    && (own ==> (Created(connection) <==> Keeps(s.sender)))
  }

  ghost predicate ToldWhenLeft(s: State)
  {
    && (forall c :: 0 <= c < |s.connections| ==> ConnectionTold(s, c))
    && (SendersConnection(s.sender).Some? ==> SendersConnection(s.sender).value < |s.connections|)
    && (s.main.JoiningSender? ==> s.stopping)
  }

  lemma OthersStayTold(s: State, t: State, c: nat)
    requires c < |s.connections| && c < |t.connections| && ConnectionTold(s, c)
    requires t.connections[c].stop == s.connections[c].stop && Created(t.connections[c]) == Created(s.connections[c])
    requires SendersConnection(s.sender) == Some(c) || SendersConnection(t.sender) == Some(c) ==>
      && SendersConnection(s.sender) == SendersConnection(t.sender)
      && HasTold(s.sender) == HasTold(t.sender) && Keeps(s.sender) == Keeps(t.sender)
    ensures ConnectionTold(t, c)
  {}

  lemma StepKeepsTold(s: State, step: Step)
    requires ToldWhenLeft(s) && Enabled(s, step)
    ensures ToldWhenLeft(Next(s, step))
  {
    var t := Next(s, step);
    forall c | 0 <= c < |t.connections|
      ensures ConnectionTold(t, c)
    {
      if c < |s.connections| { assert ConnectionTold(s, c); }
    }
  }

  lemma {:induction false} RunKeepsTold(s: State, steps: seq<Step>)
    requires ToldWhenLeft(s) && Possible(s, steps)
    ensures ToldWhenLeft(After(s, steps))
    decreases |steps|
  {
    if steps == [] {
    } else {
      StepKeepsTold(s, steps[0]);
      RunKeepsTold(Next(s, steps[0]), steps[1..]);
    }
  }

  lemma ReachableTold(s: State)
    requires Reachable(s)
    ensures ToldWhenLeft(s)
  {
    var steps :| (Possible(STARTED, steps) && s == After(STARTED, steps))
                 || (Possible(NOT_STARTED, steps) && s == After(NOT_STARTED, steps));
    if Possible(STARTED, steps) && s == After(STARTED, steps) {
      RunKeepsTold(STARTED, steps);
    } else {
      RunKeepsTold(NOT_STARTED, steps);
    }
  }

  /**
   In every interleaving a network thread has been told to stop exactly when the sender is
   past telling it: while it keeps the connection the thread runs on, and it is never left
   behind untold.
   */
  lemma LeftMeansTold(s: State, c: nat)
    requires Reachable(s) && c < |s.connections| && Created(s.connections[c])
    ensures s.connections[c].stop <==> SendersConnection(s.sender) != Some(c) || HasTold(s.sender)
    ensures s.sender.Exited? ==> s.connections[c].stop
  {
    ReachableTold(s);
    assert ConnectionTold(s, c);
  }

  // ----- each step brings its thread nearer to its end

  lemma SenderGetsOn(s: State, step: Step)
    requires s.stopping && Enabled(s, step) && OfSender(step)
    ensures SenderLeft(Next(s, step).sender) < SenderLeft(s.sender)
  {}

  lemma OthersLeaveSender(s: State, step: Step)
    requires Enabled(s, step) && !OfSender(step)
    ensures Next(s, step).sender == s.sender
    ensures s.stopping ==> Next(s, step).stopping
  {}

  lemma StaysStopping(s: State, step: Step)
    requires s.stopping && Enabled(s, step)
    ensures Next(s, step).stopping
  {}

  function CountSender(steps: seq<Step>): nat
  {
    if steps == [] then 0 else (if OfSender(steps[0]) then 1 else 0) + CountSender(steps[1..])
  }

  /** Once told to stop the sender takes at most ten more steps, however the threads interleave. */
  lemma {:induction false} SenderEnds(s: State, steps: seq<Step>)
    requires s.stopping && Possible(s, steps)
    ensures CountSender(steps) + SenderLeft(After(s, steps).sender) <= SenderLeft(s.sender) <= 10
    decreases |steps|
  {
    if steps == [] {
    } else {
      StaysStopping(s, steps[0]);
      if OfSender(steps[0]) { SenderGetsOn(s, steps[0]); } else { OthersLeaveSender(s, steps[0]); }
      SenderEnds(Next(s, steps[0]), steps[1..]);
    }
  }

  function CountNetwork(steps: seq<Step>, c: nat): nat
  {
    if steps == [] then 0
    else (if OfNetwork(steps[0]) && steps[0].connection == c then 1 else 0) + CountNetwork(steps[1..], c)
  }

  lemma NetworkGetsOn(s: State, step: Step, c: nat)
    requires Enabled(s, step) && c < |s.connections| && s.connections[c].stop && Created(s.connections[c])
    requires SendersConnection(s.sender) == Some(c) ==> !s.sender.CountedBoth?
    ensures c < |Next(s, step).connections|
    ensures var before, after := s.connections[c], Next(s, step).connections[c];
      && after.stop && Created(after)
      && NetworkLeft(after.network) + (if OfNetwork(step) && step.connection == c then 1 else 0)
         <= NetworkLeft(before.network)
  {}

  /** And a network thread told to stop at most four: it finishes its round, looks, and closes. */
  lemma {:induction false} NetworkEnds(s: State, steps: seq<Step>, c: nat)
    requires ToldWhenLeft(s) && Possible(s, steps) && c < |s.connections| && s.connections[c].stop
    ensures c < |After(s, steps).connections|
    ensures CountNetwork(steps, c) + NetworkLeft(After(s, steps).connections[c].network)
         <= NetworkLeft(s.connections[c].network) <= 4
    decreases |steps|
  {
    if steps == [] {
    } else {
      assert ConnectionTold(s, c);
      NetworkGetsOn(s, steps[0], c);
      StepKeepsTold(s, steps[0]);
      NetworkEnds(Next(s, steps[0]), steps[1..], c);
    }
  }

  /** A network thread leaves its loop exactly when a round fails, or when it looks and finds itself told. */
  lemma LoopEndsIff(s: State, step: Step, c: nat)
    requires Enabled(s, step) && c < |s.connections| && NetworkHoldsConnection(s.connections[c])
    requires SendersConnection(s.sender) == Some(c) ==> !s.sender.CountedBoth?
    ensures c < |Next(s, step).connections|
    ensures !s.connections[c].network.Closing? ==>
      (Next(s, step).connections[c].network.Closing? <==>
       step == NetworkServes(c, false) || (step == NetworkChecks(c) && s.connections[c].stop))
  {}

  // ----- and nobody is stuck

  /** No thread can take a step. */
  ghost predicate Quiet(s: State) { forall step :: !Enabled(s, step) }

  lemma SenderCanGo(s: State)
    requires Reachable(s) && !s.sender.Exited?
    ensures exists step :: OfSender(step) && Enabled(s, step)
  {
    ReachableInv(s);
    var step :=
      match s.sender
      case Top(_) => SenderLoops
      case Body(_) => SenderSkips
      case Preparing(_) => SenderPrepares(true)
      case CountedConnection(_) => SenderCounts
      case CountedBoth(_) => SenderCreates(true)
      case Uncounted(_) => SenderUncounts
      case Failing(_) => SenderFails
      case Destroying(_, _) => SenderStops
      case Joining(_, _) => SenderJoins(false)
      case Releasing(_, _) => SenderReleases
      case ReleasingState => SenderLeaves
      case Exited => SenderLeaves;
    assert OfSender(step) && Enabled(s, step);
  }

  lemma NetworkCanGo(s: State, c: nat)
    requires c < |s.connections| && Created(s.connections[c]) && !s.connections[c].network.Over?
    ensures exists step :: Enabled(s, step)
  {
    var step :=
      match s.connections[c].network
      case Serving => NetworkServes(c, true)
      case Checking => NetworkChecks(c)
      case Closing => NetworkReleases(c)
      case _ => NetworkLeaves(c);
    assert Enabled(s, step);
  }

  lemma MainCanGo(s: State)
    requires !s.main.Gone?
    ensures exists step :: Enabled(s, step)
  {
    var step :=
      match s.main
      case Running => MainStops
      case JoiningSender => MainJoins(false)
      case _ => MainReleases;
    assert Enabled(s, step);
  }

  /** When no thread can take a step all of them have ended, and all they shared is freed, once. */
  lemma QuietMeansFreed(s: State)
    requires Reachable(s) && Quiet(s)
    ensures s.main.Gone? && s.sender.Exited? && s.frees == 1
    ensures forall c :: 0 <= c < |s.connections| ==> s.connections[c].frees == 1
  {
    if !s.main.Gone? { MainCanGo(s); }
    if !s.sender.Exited? { SenderCanGo(s); }
    forall c | 0 <= c < |s.connections|
      ensures s.connections[c].network.Over? || s.connections[c].network.NotCreated?
    {
      if Created(s.connections[c]) && !s.connections[c].network.Over? { NetworkCanGo(s, c); }
    }
    EverythingIsFreed(s);
  }

  // ----- what ends nothing too early

  /** The sender is on its way out. */
  predicate IsLeaving(sender: Sender)
  {
    match sender
    case Destroying(_, exiting) => exiting
    case Joining(_, exiting) => exiting
    case Releasing(_, exiting) => exiting
    case ReleasingState => true
    case Exited => true
    case _ => false
  }

  lemma LeavesOnceTold(s: State, step: Step)
    requires Enabled(s, step) && (IsLeaving(s.sender) ==> s.stopping)
    ensures IsLeaving(Next(s, step).sender) ==> Next(s, step).stopping
  {}

  /** A sender that was started leaves only after main has told it to. */
  lemma {:induction false} LeavesOnlyWhenTold(s: State, steps: seq<Step>)
    requires Possible(s, steps) && (IsLeaving(s.sender) ==> s.stopping)
    ensures IsLeaving(After(s, steps).sender) ==> After(s, steps).stopping
    decreases |steps|
  {
    if steps == [] {
    } else {
      LeavesOnceTold(s, steps[0]);
      LeavesOnlyWhenTold(Next(s, steps[0]), steps[1..]);
    }
  }

  /** Releasing a connection whose thread was joined frees it; one left behind stays its thread's. */
  lemma JoiningFrees(s: State, joined: bool)
    requires Reachable(s) && Enabled(s, SenderJoins(joined))
    ensures Enabled(Next(s, SenderJoins(joined)), SenderReleases)
    ensures var c := s.sender.connection;
      var t := Next(Next(s, SenderJoins(joined)), SenderReleases);
      && c < |t.connections|
      && (joined ==> t.connections[c].frees == 1)
      && (NetworkHoldsConnection(s.connections[c]) ==> t.connections[c].frees == 0 && t.connections[c].owners == 1)
  {
    ReachableInv(s);
    assert ConnectionCounted(s, s.sender.connection);
  }

  /** And the state that main releases after joining the sender is freed unless a network thread has it. */
  lemma MainJoiningFrees(s: State, joined: bool)
    requires Reachable(s) && Enabled(s, MainJoins(joined))
    ensures Enabled(Next(s, MainJoins(joined)), MainReleases)
    ensures var t := Next(Next(s, MainJoins(joined)), MainReleases);
      && (joined && NetworksAlive(s.connections) == 0 ==> t.frees == 1)
      && (!s.sender.Exited? || NetworksAlive(s.connections) > 0 ==> t.frees == 0)
  {
    ReachableInv(s);
    AliveIsCount(s.connections);
  }

  // ----- main

  function CountMain(steps: seq<Step>): nat
  {
    if steps == [] then 0 else (if OfMain(steps[0]) then 1 else 0) + CountMain(steps[1..])
  }

  /** Main takes two more steps after telling the sender to stop, and waits for nobody without a limit. */
  lemma {:induction false} MainEnds(s: State, steps: seq<Step>)
    requires !s.main.Running? && Possible(s, steps)
    ensures CountMain(steps) + MainLeft(After(s, steps).main) == MainLeft(s.main) <= 2
    decreases |steps|
  {
    if steps == [] {
    } else {
      MainEnds(Next(s, steps[0]), steps[1..]);
    }
  }
}
