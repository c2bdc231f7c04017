/**
 Ownership in the MQTT sender: reference counts on the sender's state and on each
 connection, shared by the main, sender and network threads in any interleaving.
 */
module MqttOwners {
  import opened Wrappers

  /** References at the start: one for main, one for the sender. */
  const SENDER_OWNERS: int := 2

  /** A connection's network thread. */
  datatype Network =
    | NotCreated
    | Serving     // connecting, or in one round of the library's loop
    | Checking    // between rounds, about to look whether it is told to stop
    | Closing     // the loop ended; its last writes are due
    | Leaving     // the connection is released, the state not yet
    | Over

  datatype Connection = Connection(owners: int, frees: nat, network: Network, stop: bool)

  datatype Main = Running | JoiningSender | ReleasingLast | Gone

  datatype Sender =
    | Top(current: Option<nat>)
    | Body(current: Option<nat>)
    | Preparing(connection: nat)
    | CountedConnection(connection: nat)
    | CountedBoth(connection: nat)
    | Uncounted(connection: nat)
    | Failing(connection: nat)
    | Destroying(connection: nat, exiting: bool)
    | Joining(connection: nat, exiting: bool)
    | Releasing(connection: nat, exiting: bool)
    | ReleasingState
    | Exited

  datatype State = State(
    owners: int, frees: nat, stopping: bool, main: Main, sender: Sender, connections: seq<Connection>)

  /** Started with both threads, or with only the starter's reference when its thread could not be created. */
  const STARTED := State(SENDER_OWNERS, 0, false, Running, Top(None), [])
  const NOT_STARTED := State(1, 0, false, ReleasingLast, Exited, [])

  datatype Step =
    | MainSubmits
    | MainStops
    | MainJoins(joined: bool)
    | MainReleases
    | SenderLoops
    | SenderSkips            // keeps its connection, or none is due
    | SenderConnects(made: bool)
    | SenderDestroys
    | SenderPrepares(ok: bool)
    | SenderCounts
    | SenderCreates(ok: bool)
    | SenderUncounts
    | SenderFails
    | SenderStops
    | SenderJoins(joined: bool)
    | SenderReleases
    | SenderLeaves
    | NetworkServes(connection: nat, ok: bool)
    | NetworkChecks(connection: nat)
    | NetworkReleases(connection: nat)
    | NetworkLeaves(connection: nat)

  // ----- steps

  function StateReleased(s: State): State
  {
    s.(owners := s.owners - 1, frees := s.frees + (if s.owners == 1 then 1 else 0))
  }

  function ConnectionReleased(s: State, c: nat): State
    requires c < |s.connections|
  {
    var connection := s.connections[c];
    s.(connections := s.connections[c := connection.(
      owners := connection.owners - 1, frees := connection.frees + (if connection.owners == 1 then 1 else 0))])
  }

  function WithOwners(s: State, c: nat, owners: int): State
    requires c < |s.connections|
  {
    s.(connections := s.connections[c := s.connections[c].(owners := owners)])
  }

  function WithNetwork(s: State, c: nat, network: Network): State
    requires c < |s.connections|
  {
    s.(connections := s.connections[c := s.connections[c].(network := network)])
  }

  /** The connection the sender stands at, if it exists. */
  predicate AtConnection(s: State) {
    match s.sender
    case Preparing(c) => c < |s.connections|
    case CountedConnection(c) => c < |s.connections|
    case CountedBoth(c) => c < |s.connections|
    case Uncounted(c) => c < |s.connections|
    case Failing(c) => c < |s.connections|
    case Destroying(c, _) => c < |s.connections|
    case Joining(c, _) => c < |s.connections|
    case Releasing(c, _) => c < |s.connections|
    case Body(current) => current.Some? ==> current.value < |s.connections|
    case _ => true
  }

  predicate Enabled(s: State, step: Step)
  {
    match step
    case MainSubmits => s.main.Running?
    case MainStops => s.main.Running?
    // a join succeeds only once the thread has ended; a timed one may give up any time
    case MainJoins(joined) => s.main.JoiningSender? && (joined ==> s.sender.Exited?)
    case MainReleases => s.main.ReleasingLast?
    case SenderLoops => s.sender.Top?
    case SenderSkips => s.sender.Body?
    // refused while some network thread still has the state
    case SenderConnects(_) => s.sender == Body(None) && s.owners <= SENDER_OWNERS
    case SenderDestroys => s.sender.Body? && s.sender.current.Some?
    case SenderPrepares(_) => s.sender.Preparing? && AtConnection(s)
    case SenderCounts => s.sender.CountedConnection?
    case SenderCreates(_) => s.sender.CountedBoth? && AtConnection(s)
    case SenderUncounts => s.sender.Uncounted? && AtConnection(s)
    case SenderFails => s.sender.Failing? && AtConnection(s)
    case SenderStops => s.sender.Destroying? && AtConnection(s)
    case SenderJoins(joined) => s.sender.Joining? && AtConnection(s) &&
                                (joined ==> s.connections[s.sender.connection].network.Over?)
    case SenderReleases => s.sender.Releasing? && AtConnection(s)
    case SenderLeaves => s.sender.ReleasingState?
    case NetworkServes(c, _) => c < |s.connections| && s.connections[c].network.Serving?
    case NetworkChecks(c) => c < |s.connections| && s.connections[c].network.Checking?
    case NetworkReleases(c) => c < |s.connections| && s.connections[c].network.Closing?
    case NetworkLeaves(c) => c < |s.connections| && s.connections[c].network.Leaving?
  }

  function Next(s: State, step: Step): State
    requires Enabled(s, step)
  {
    match step
    case MainSubmits => s
    case MainStops => s.(stopping := true, main := JoiningSender)
    case MainJoins(_) => s.(main := ReleasingLast)
    case MainReleases => StateReleased(s).(main := Gone)
    case SenderLoops =>
      if !s.stopping then s.(sender := Body(s.sender.current))
      else if s.sender.current.Some? then s.(sender := Destroying(s.sender.current.value, true))
      else s.(sender := ReleasingState)
    case SenderSkips => s.(sender := Top(s.sender.current))
    case SenderConnects(made) =>
      if !made then s.(sender := Top(None))
      else s.(connections := s.connections + [Connection(1, 0, NotCreated, false)],
              sender := Preparing(|s.connections|))
    case SenderDestroys => s.(sender := Destroying(s.sender.current.value, false))
    case SenderPrepares(ok) =>
      var c := s.sender.connection;
      if ok then WithOwners(s, c, s.connections[c].owners + 1).(sender := CountedConnection(c))
      else s.(sender := Failing(c))
    case SenderCounts => s.(owners := s.owners + 1, sender := CountedBoth(s.sender.connection))
    case SenderCreates(ok) =>
      var c := s.sender.connection;
      if ok then WithNetwork(s, c, Serving).(sender := Body(Some(c)))
      else s.(owners := s.owners - 1, sender := Uncounted(c))
    case SenderUncounts =>
      var c := s.sender.connection;
      WithOwners(s, c, s.connections[c].owners - 1).(sender := Failing(c))
    case SenderFails => ConnectionReleased(s, s.sender.connection).(sender := Top(None))
    case SenderStops =>
      var c := s.sender.connection;
      s.(connections := s.connections[c := s.connections[c].(stop := true)],
         sender := Joining(c, s.sender.exiting))
    case SenderJoins(_) => s.(sender := Releasing(s.sender.connection, s.sender.exiting))
    case SenderReleases =>
      ConnectionReleased(s, s.sender.connection).(sender := if s.sender.exiting then ReleasingState else Top(None))
    case SenderLeaves => StateReleased(s).(sender := Exited)
    case NetworkServes(c, ok) => WithNetwork(s, c, if ok then Checking else Closing)
    case NetworkChecks(c) => WithNetwork(s, c, if s.connections[c].stop then Closing else Serving)
    case NetworkReleases(c) => WithNetwork(ConnectionReleased(s, c), c, Leaving)
    case NetworkLeaves(c) => WithNetwork(StateReleased(s), c, Over)
  }

  /** The connection a step reads or writes; every step uses the shared state. */
  function TouchedConnection(s: State, step: Step): Option<nat>
    requires Enabled(s, step)
  {
    match step
    case SenderSkips => s.sender.current
    case SenderDestroys => s.sender.current
    case SenderPrepares(_) => Some(s.sender.connection)
    case SenderCounts => Some(s.sender.connection)
    case SenderCreates(_) => Some(s.sender.connection)
    case SenderUncounts => Some(s.sender.connection)
    case SenderFails => Some(s.sender.connection)
    case SenderStops => Some(s.sender.connection)
    case SenderJoins(_) => Some(s.sender.connection)
    case SenderReleases => Some(s.sender.connection)
    case NetworkServes(c, _) => Some(c)
    case NetworkChecks(c) => Some(c)
    case NetworkReleases(c) => Some(c)
    case _ => None
  }

  // ----- holders

  function One(holds: bool): int { if holds then 1 else 0 }

  predicate MainHolds(s: State) { !s.main.Gone? }

  predicate SenderHolds(s: State) { !s.sender.Exited? }

  predicate NetworkHoldsConnection(connection: Connection)
  {
    connection.network.Serving? || connection.network.Checking? || connection.network.Closing?
  }

  predicate NetworkHoldsState(connection: Connection)
  {
    NetworkHoldsConnection(connection) || connection.network.Leaving?
  }

  /** The network threads that still hold the state: the ones alive. */
  function NetworksAlive(connections: seq<Connection>): int
  {
    if connections == [] then 0
    else NetworksAlive(connections[..|connections| - 1]) + One(NetworkHoldsState(connections[|connections| - 1]))
  }

  /** The connection the sender holds a reference to. */
  function SendersConnection(sender: Sender): Option<nat>
  {
    match sender
    case Top(current) => current
    case Body(current) => current
    case Preparing(c) => Some(c)
    case CountedConnection(c) => Some(c)
    case CountedBoth(c) => Some(c)
    case Uncounted(c) => Some(c)
    case Failing(c) => Some(c)
    case Destroying(c, _) => Some(c)
    case Joining(c, _) => Some(c)
    case Releasing(c, _) => Some(c)
    case ReleasingState => None
    case Exited => None
  }

  /** References taken ahead for a network thread about to be created. */
  predicate AheadForConnection(sender: Sender)
  {
    sender.CountedConnection? || sender.CountedBoth? || sender.Uncounted?
  }

  predicate AheadForState(sender: Sender) { sender.CountedBoth? }

  function StateHolders(s: State): int
  {
    One(MainHolds(s)) + One(SenderHolds(s)) + One(AheadForState(s.sender)) + NetworksAlive(s.connections)
  }

  function ConnectionHolders(s: State, c: nat): int
    requires c < |s.connections|
  {
    One(SendersConnection(s.sender) == Some(c))
    + One(SendersConnection(s.sender) == Some(c) && AheadForConnection(s.sender))
    + One(NetworkHoldsConnection(s.connections[c]))
  }

  /** Between the check of the owners and the thread's creation. */
  predicate Attempting(sender: Sender)
  {
    sender.Preparing? || sender.CountedConnection? || sender.CountedBoth? || sender.Uncounted? || sender.Failing?
  }

  // ----- the invariant

  ghost predicate ConnectionCounted(s: State, c: nat)
    requires c < |s.connections|
  {
    var connection := s.connections[c];
    && connection.owners == ConnectionHolders(s, c)
    && connection.frees == One(connection.owners == 0)
    && (SendersConnection(s.sender) == Some(c) && Attempting(s.sender) ==> connection.network.NotCreated?)
  }

  ghost predicate Inv(s: State)
  {
    && s.owners == StateHolders(s)
    && s.frees == One(s.owners == 0)
    && (forall c :: 0 <= c < |s.connections| ==> ConnectionCounted(s, c))
    && (SendersConnection(s.sender).Some? ==> SendersConnection(s.sender).value < |s.connections|)
    && (MainHolds(s) ==> NetworksAlive(s.connections) + One(Attempting(s.sender)) <= 1)
    && NetworksAlive(s.connections) + One(Attempting(s.sender)) <= 2
    && (s.main.Gone? || s.main.ReleasingLast? || s.main.JoiningSender? ==> s.stopping || s.sender.Exited?)
  }

  lemma {:induction false} AliveChanges(connections: seq<Connection>, c: nat, connection: Connection)
    requires c < |connections|
    ensures NetworksAlive(connections[c := connection])
         == NetworksAlive(connections) - One(NetworkHoldsState(connections[c])) + One(NetworkHoldsState(connection))
  {
    var last := |connections| - 1;
    if c == last {
      assert connections[c := connection][..last] == connections[..last];
    } else {
      AliveChanges(connections[..last], c, connection);
      assert connections[c := connection][..last] == connections[..last][c := connection];
    }
  }

  lemma AliveAppends(connections: seq<Connection>, connection: Connection)
    ensures NetworksAlive(connections + [connection])
         == NetworksAlive(connections) + One(NetworkHoldsState(connection))
  {
    assert (connections + [connection])[..|connections|] == connections;
  }

  lemma {:induction false} AliveIsCount(connections: seq<Connection>)
    ensures NetworksAlive(connections) >= 0
    ensures forall c :: 0 <= c < |connections| && NetworkHoldsState(connections[c]) ==> NetworksAlive(connections) >= 1
    ensures NetworksAlive(connections) == 0 ==>
      forall c :: 0 <= c < |connections| ==> !NetworkHoldsState(connections[c])
  {
    if connections == [] {
    } else {
      AliveIsCount(connections[..|connections| - 1]);
    }
  }

  lemma InitiallyCounted()
    ensures Inv(STARTED) && Inv(NOT_STARTED)
  {
    NothingCounted(STARTED);
    NothingCounted(NOT_STARTED);
  }

  lemma NothingCounted(s: State)
    requires s.connections == [] && !Attempting(s.sender) && SendersConnection(s.sender) == None
    requires s.owners == StateHolders(s) > 0 && s.frees == 0
    requires s.main.Running? || s.stopping || s.sender.Exited?
    ensures Inv(s)
  {}

  /** A connection whose record and holders a step leaves alone stays counted. */
  lemma UntouchedStays(s: State, t: State, c: nat)
    requires c < |s.connections| && c < |t.connections| && ConnectionCounted(s, c)
    requires t.connections[c] == s.connections[c]
    requires SendersConnection(s.sender) == Some(c) || SendersConnection(t.sender) == Some(c) ==>
      && SendersConnection(s.sender) == SendersConnection(t.sender)
      && AheadForConnection(s.sender) == AheadForConnection(t.sender)
      && Attempting(s.sender) == Attempting(t.sender)
    ensures ConnectionCounted(t, c)
  {}

  predicate OfMain(step: Step) { step.MainSubmits? || step.MainStops? || step.MainJoins? || step.MainReleases? }

  predicate OfNetwork(step: Step)
  {
    step.NetworkServes? || step.NetworkChecks? || step.NetworkReleases? || step.NetworkLeaves?
  }

  lemma MainKeepsInv(s: State, step: Step)
    requires Inv(s) && Enabled(s, step) && OfMain(step)
    ensures Inv(Next(s, step))
  {
    var t := Next(s, step);
    AliveIsCount(s.connections);
    forall c | 0 <= c < |t.connections|
      ensures ConnectionCounted(t, c)
    {
      UntouchedStays(s, t, c);
    }
  }

  lemma NetworkKeepsInv(s: State, step: Step)
    requires Inv(s) && Enabled(s, step) && OfNetwork(step)
    ensures Inv(Next(s, step))
  {
    var t, n := Next(s, step), step.connection;
    AliveIsCount(s.connections);
    AliveIsCount(t.connections);
    assert ConnectionCounted(s, n);
    assert t.connections == s.connections[n := t.connections[n]];
    AliveChanges(s.connections, n, t.connections[n]);
    forall c | 0 <= c < |t.connections|
      ensures ConnectionCounted(t, c)
    {
      if c != n { UntouchedStays(s, t, c); }
    }
  }

  /** Sender steps that leave every connection's record and holders alone. */
  predicate SenderMoves(step: Step)
  {
    step.SenderLoops? || step.SenderSkips? || step.SenderDestroys? || step.SenderJoins? || step.SenderLeaves?
  }

  lemma SenderMoveKeepsInv(s: State, step: Step)
    requires Inv(s) && Enabled(s, step) && SenderMoves(step)
    ensures Inv(Next(s, step))
  {
    var t := Next(s, step);
    AliveIsCount(s.connections);
    forall c | 0 <= c < |t.connections|
      ensures ConnectionCounted(t, c)
    {
      UntouchedStays(s, t, c);
    }
  }

  lemma ConnectingKeepsInv(s: State, step: Step)
    requires Inv(s) && Enabled(s, step) && step.SenderConnects?
    ensures Inv(Next(s, step))
  {
    var t := Next(s, step);
    AliveIsCount(s.connections);
    AliveAppends(s.connections, Connection(1, 0, NotCreated, false));
    forall c | 0 <= c < |t.connections|
      ensures ConnectionCounted(t, c)
    {
      if c < |s.connections| { UntouchedStays(s, t, c); }
    }
  }

  /** A sender step that changes the record of its own connection alone: the others stay counted. */
  lemma OneConnectionChanges(s: State, t: State, n: nat)
    requires Inv(s) && n < |s.connections| == |t.connections| && t.connections == s.connections[n := t.connections[n]]
    requires SendersConnection(s.sender) == None || SendersConnection(s.sender) == Some(n)
    requires SendersConnection(t.sender) == None || SendersConnection(t.sender) == Some(n)
    ensures ConnectionCounted(s, n)
    ensures forall c :: 0 <= c < |t.connections| && c != n ==> ConnectionCounted(t, c)
    ensures NetworksAlive(t.connections) ==
      NetworksAlive(s.connections) - One(NetworkHoldsState(s.connections[n])) + One(NetworkHoldsState(t.connections[n]))
    ensures NetworksAlive(s.connections) >= 0 && NetworksAlive(t.connections) >= 0
  {
    AliveIsCount(s.connections);
    AliveIsCount(t.connections);
    AliveChanges(s.connections, n, t.connections[n]);
    forall c | 0 <= c < |t.connections| && c != n
      ensures ConnectionCounted(t, c)
    {
      UntouchedStays(s, t, c);
    }
  }

  /** Sender steps that take a connection's reference ahead for its network thread, or give it back. */
  lemma CountingKeepsInv(s: State, step: Step)
    requires Inv(s) && Enabled(s, step) && (step.SenderPrepares? || step.SenderUncounts?)
    ensures Inv(Next(s, step))
  {
    var t, n := Next(s, step), s.sender.connection;
    OneConnectionChanges(s, t, n);
  }

  /** Sender steps that take the state's reference ahead and hand both over, or give it back. */
  lemma CreatingKeepsInv(s: State, step: Step)
    requires Inv(s) && Enabled(s, step) && (step.SenderCounts? || step.SenderCreates?)
    ensures Inv(Next(s, step))
  {
    var t, n := Next(s, step), s.sender.connection;
    OneConnectionChanges(s, t, n);
  }

  lemma GivingUpKeepsInv(s: State, step: Step)
    requires Inv(s) && Enabled(s, step) && (step.SenderFails? || step.SenderStops? || step.SenderReleases?)
    ensures Inv(Next(s, step))
  {
    var t, n := Next(s, step), s.sender.connection;
    OneConnectionChanges(s, t, n);
  }

  /** Every step keeps the counts equal to the holders, frees what nobody holds, and only that. */
  lemma StepKeepsInv(s: State, step: Step)
    requires Inv(s) && Enabled(s, step)
    ensures Inv(Next(s, step))
  {
    if OfMain(step) { MainKeepsInv(s, step); }
    else if OfNetwork(step) { NetworkKeepsInv(s, step); }
    else if SenderMoves(step) { SenderMoveKeepsInv(s, step); }
    else if step.SenderConnects? { ConnectingKeepsInv(s, step); }
    else if step.SenderPrepares? || step.SenderUncounts? { CountingKeepsInv(s, step); }
    else if step.SenderCounts? || step.SenderCreates? { CreatingKeepsInv(s, step); }
    else { GivingUpKeepsInv(s, step); }
  }

  // ----- runs

  ghost predicate Possible(s: State, steps: seq<Step>)
    decreases |steps|
  {
    steps == [] || (Enabled(s, steps[0]) && Possible(Next(s, steps[0]), steps[1..]))
  }

  ghost function After(s: State, steps: seq<Step>): State
    requires Possible(s, steps)
    decreases |steps|
  {
    if steps == [] then s else After(Next(s, steps[0]), steps[1..])
  }

  lemma {:induction false} RunKeepsInv(s: State, steps: seq<Step>)
    requires Inv(s) && Possible(s, steps)
    ensures Inv(After(s, steps))
    decreases |steps|
  {
    if steps == [] {
    } else {
      StepKeepsInv(s, steps[0]);
      RunKeepsInv(Next(s, steps[0]), steps[1..]);
    }
  }

  ghost predicate Reachable(s: State)
  {
    exists steps :: (Possible(STARTED, steps) && s == After(STARTED, steps))
                 || (Possible(NOT_STARTED, steps) && s == After(NOT_STARTED, steps))
  }

  lemma ReachableInv(s: State)
    requires Reachable(s)
    ensures Inv(s)
  {
    InitiallyCounted();
    var steps :| (Possible(STARTED, steps) && s == After(STARTED, steps))
                 || (Possible(NOT_STARTED, steps) && s == After(NOT_STARTED, steps));
    if Possible(STARTED, steps) && s == After(STARTED, steps) {
      RunKeepsInv(STARTED, steps);
    } else {
      RunKeepsInv(NOT_STARTED, steps);
    }
  }

  // ----- what the invariant means

  /** In every interleaving each count is the number of live holders, and nothing is freed while held or twice. */
  lemma CountsAreHolders(s: State)
    requires Reachable(s)
    ensures s.owners == StateHolders(s) && s.frees == One(StateHolders(s) == 0)
    ensures forall c :: 0 <= c < |s.connections| ==>
      s.connections[c].owners == ConnectionHolders(s, c) && s.connections[c].frees == One(ConnectionHolders(s, c) == 0)
  {
    ReachableInv(s);
    forall c | 0 <= c < |s.connections|
      ensures s.connections[c].owners == ConnectionHolders(s, c)
      ensures s.connections[c].frees == One(ConnectionHolders(s, c) == 0)
    {
      assert ConnectionCounted(s, c);
    }
  }

  /** The thread that takes a step has a reference to the state. */
  predicate StepperHoldsState(s: State, step: Step)
  {
    if OfMain(step) then MainHolds(s)
    else if OfNetwork(step) then step.connection < |s.connections| && NetworkHoldsState(s.connections[step.connection])
    else SenderHolds(s)
  }

  /** The thread that takes a step has a reference of its own to a connection. */
  predicate StepperHoldsConnection(s: State, step: Step, c: nat)
    requires c < |s.connections|
  {
    if OfNetwork(step) then c == step.connection && NetworkHoldsConnection(s.connections[c])
    else !OfMain(step) && SendersConnection(s.sender) == Some(c)
  }

  /** Every access is by a holder, to something not freed. */
  lemma AccessesAreLive(s: State, step: Step)
    requires Reachable(s) && Enabled(s, step)
    ensures StepperHoldsState(s, step) && s.frees == 0 && s.owners > 0
    ensures var touched := TouchedConnection(s, step); touched.Some? ==>
      && touched.value < |s.connections| && StepperHoldsConnection(s, step, touched.value)
      && s.connections[touched.value].frees == 0 && s.connections[touched.value].owners > 0
  {
    ReachableInv(s);
    AliveIsCount(s.connections);
    var touched := TouchedConnection(s, step);
    if touched.Some? { assert ConnectionCounted(s, touched.value); }
  }

  /** While main holds its reference at most one network thread is alive; afterwards at most two. */
  lemma FewNetworksAlive(s: State)
    requires Reachable(s)
    ensures NetworksAlive(s.connections) <= 2
    ensures MainHolds(s) ==> NetworksAlive(s.connections) <= 1
  {
    ReachableInv(s);
  }

  /**
   A new connection is attempted exactly while no more than one reference beside the
   sender's own is held: by main, or by one network thread. So an attempt beside a live
   network thread needs main to have released its own, and that thread to be the only one.
   */
  lemma AttemptsIff(s: State, made: bool)
    requires Reachable(s) && s.sender == Body(None)
    ensures Enabled(s, SenderConnects(made)) <==> NetworksAlive(s.connections) + One(MainHolds(s)) <= 1
    ensures Enabled(s, SenderConnects(made)) && NetworksAlive(s.connections) > 0 <==>
      s.main.Gone? && NetworksAlive(s.connections) == 1
  {
    ReachableInv(s);
    AliveIsCount(s.connections);
  }

  /** Once every thread has ended, the state and every connection have been freed exactly once. */
  lemma EverythingIsFreed(s: State)
    requires Reachable(s) && s.main.Gone? && s.sender.Exited?
    requires forall c :: 0 <= c < |s.connections| ==>
      s.connections[c].network.Over? || s.connections[c].network.NotCreated?
    ensures s.frees == 1
    ensures forall c :: 0 <= c < |s.connections| ==> s.connections[c].frees == 1
  {
    ReachableInv(s);
    NoneAlive(s.connections);
    forall c | 0 <= c < |s.connections|
      ensures s.connections[c].frees == 1
    {
      assert ConnectionCounted(s, c);
    }
  }

  lemma {:induction false} NoneAlive(connections: seq<Connection>)
    requires forall c :: 0 <= c < |connections| ==> connections[c].network.Over? || connections[c].network.NotCreated?
    ensures NetworksAlive(connections) == 0
  {
    if connections == [] {
    } else {
      NoneAlive(connections[..|connections| - 1]);
    }
  }

  lemma StaysReachable(s: State, step: Step)
    requires Reachable(s) && Enabled(s, step)
    ensures Reachable(Next(s, step))
  {
    var steps :| (Possible(STARTED, steps) && s == After(STARTED, steps))
                 || (Possible(NOT_STARTED, steps) && s == After(NOT_STARTED, steps));
    if Possible(STARTED, steps) && s == After(STARTED, steps) {
      OneMoreStep(STARTED, steps, step);
    } else {
      OneMoreStep(NOT_STARTED, steps, step);
    }
  }

  lemma {:induction false} OneMoreStep(s: State, steps: seq<Step>, step: Step)
    requires Possible(s, steps) && Enabled(After(s, steps), step)
    ensures Possible(s, steps + [step]) && After(s, steps + [step]) == Next(After(s, steps), step)
    decreases |steps|
  {
    if steps == [] {
      assert [step][1..] == [];
      assert steps + [step] == [step];
    } else {
      OneMoreStep(Next(s, steps[0]), steps[1..], step);
      assert (steps + [step])[1..] == steps[1..] + [step];
    }
  }

  /** The four steps of a successful connection attempt. */
  lemma ConnectReachable(s: State) returns (t: State)
    requires Reachable(s) && s.sender == Body(None) && s.owners <= SENDER_OWNERS
    ensures Reachable(t)
    ensures t == s.(owners := s.owners + 1, sender := Body(Some(|s.connections|)),
                    connections := s.connections + [Connection(2, 0, Serving, false)])
  {
    StaysReachable(s, SenderConnects(true));
    t := Next(s, SenderConnects(true));
    StaysReachable(t, SenderPrepares(true));
    t := Next(t, SenderPrepares(true));
    StaysReachable(t, SenderCounts);
    t := Next(t, SenderCounts);
    StaysReachable(t, SenderCreates(true));
    t := Next(t, SenderCreates(true));
    assert t.connections == s.connections + [Connection(2, 0, Serving, false)];
  }

  lemma ConnectedIsReachable()
    ensures Reachable(State(3, 0, false, Running, Body(Some(0)), [Connection(2, 0, Serving, false)]))
  {
    assert Possible(STARTED, []) && STARTED == After(STARTED, []);
    StaysReachable(STARTED, SenderLoops);
    var s := ConnectReachable(Next(STARTED, SenderLoops));
    assert s.connections == [Connection(2, 0, Serving, false)];
  }

  lemma GivenUpIsReachable()
    ensures Reachable(State(3, 0, false, Running, Joining(0, false), [Connection(2, 0, Serving, true)]))
  {
    ConnectedIsReachable();
    var s := State(3, 0, false, Running, Body(Some(0)), [Connection(2, 0, Serving, false)]);
    StaysReachable(s, SenderDestroys);
    s := Next(s, SenderDestroys);
    StaysReachable(s, SenderStops);
    s := Next(s, SenderStops);
    assert s == State(3, 0, false, Running, Joining(0, false), [Connection(2, 0, Serving, true)]);
  }

  lemma LeftBehindIsReachable()
    ensures Reachable(State(3, 0, false, Running, Body(None), [Connection(1, 0, Serving, true)]))
  {
    GivenUpIsReachable();
    var s := State(3, 0, false, Running, Joining(0, false), [Connection(2, 0, Serving, true)]);
    StaysReachable(s, SenderJoins(false));
    s := Next(s, SenderJoins(false));
    StaysReachable(s, SenderReleases);
    s := Next(s, SenderReleases);
    assert s == State(3, 0, false, Running, Top(None), [Connection(1, 0, Serving, true)]);
    StaysReachable(s, SenderLoops);
  }

  /**
   The bound of two is met: once main has given up its reference, the owners no longer
   show a thread left behind, and the sender's last round may connect beside it.
   */
  lemma TwoNetworksAreReachable() returns (s: State)
    ensures Reachable(s) && !MainHolds(s) && NetworksAlive(s.connections) == 2
  {
    LeftBehindIsReachable();
    s := State(3, 0, false, Running, Body(None), [Connection(1, 0, Serving, true)]);
    StaysReachable(s, MainStops);
    s := Next(s, MainStops);
    StaysReachable(s, MainJoins(false));
    s := Next(s, MainJoins(false));
    StaysReachable(s, MainReleases);
    s := Next(s, MainReleases);
    var before := s.connections;
    s := ConnectReachable(s);
    AliveAppends(before, Connection(2, 0, Serving, false));
    AliveAppends([], Connection(1, 0, Serving, true));
    assert [] + [Connection(1, 0, Serving, true)] == before;
  }
}
