/**
 When the link is stalled, idle, or reported as timed out: after any updates, from what
 they brought and the clock readings they came with.
 */
module ActivityPhases {
  import opened Activity
  import opened Arith

  /** No response for longer than a time. */
  predicate SilentFor(i: Input, us: u64) { i.timestampUs > i.lastResponseUs + us }

  /** No response for as long as a time, or longer. */
  predicate SilentAtLeast(i: Input, us: u64) { Max(0, i.timestampUs - i.lastResponseUs) >= us }

  predicate Carries(d: Direction, bps: u64) { d.valid && d.trafficBps > bps }

  /** Silent past the stall timeout, and not known to carry more than the stall rate both ways. */
  predicate Deaf(c: Config, i: Input)
  {
    SilentFor(i, c.stallTimeoutUs) && !(Carries(i.download, c.stallBps) && Carries(i.upload, c.stallBps))
  }

  /** Neither direction is known to carry more than the active rate. */
  predicate Still(c: Config, i: Input)
  {
    !Carries(i.download, c.activeBps) && !Carries(i.upload, c.activeBps)
  }

  // ----- stalls

  /** Stalled by an update outside a grace period, while running, and deaf from then on. */
  ghost predicate DeafSince(c: Config, inputs: seq<Input>, k: nat)
  {
    && k < |inputs| && After(c, inputs[..k]).phase.Running? && !InGrace(inputs[k])
    && forall j :: k <= j < |inputs| ==> Deaf(c, inputs[j])
  }

  lemma DeafGoesOn(c: Config, inputs: seq<Input>, k: nat)
    requires inputs != [] && k < |inputs| - 1
    ensures DeafSince(c, inputs, k) <==> DeafSince(c, inputs[..|inputs| - 1], k) && Deaf(c, inputs[|inputs| - 1])
  {
    var front := inputs[..|inputs| - 1];
    assert front[..k] == inputs[..k];
    if DeafSince(c, front, k) && Deaf(c, inputs[|inputs| - 1]) {
      forall j | k <= j < |inputs|
        ensures Deaf(c, inputs[j])
      {
        if j < |front| { assert inputs[j] == front[j]; }
      }
    }
    if DeafSince(c, inputs, k) {
      forall j | k <= j < |front|
        ensures Deaf(c, front[j])
      {
        assert front[j] == inputs[j];
      }
    }
  }

  lemma StallStep(c: Config, s: State, i: Input)
    ensures Next(c, s, i).phase.Stall? <==> Deaf(c, i) && (s.phase.Stall? || (s.phase.Running? && !InGrace(i)))
  {}

  /** The link is stalled exactly when a running one turned deaf outside a grace period and has been deaf since. */
  lemma {:induction false} StalledIff(c: Config, inputs: seq<Input>)
    ensures After(c, inputs).phase.Stall? <==> exists k: nat :: DeafSince(c, inputs, k)
  {
    if inputs == [] {
    } else {
      var front, last := inputs[..|inputs| - 1], inputs[|inputs| - 1];
      StalledIff(c, front);
      StallStep(c, After(c, front), last);
      if k: nat :| DeafSince(c, front, k) { DeafGoesOn(c, inputs, k); }
      if k: nat :| DeafSince(c, inputs, k) {
        if k < |front| { DeafGoesOn(c, inputs, k); }
      }
      if After(c, front).phase.Running? && !InGrace(last) && Deaf(c, last) {
        assert DeafSince(c, inputs, |front|);
      }
    }
  }

  // ----- idle times

  /** Turned idle by an update, and still from then on. */
  ghost predicate StillSince(c: Config, inputs: seq<Input>, k: nat)
  {
    && k < |inputs| && After(c, inputs[..k]).phase.Running? && After(c, inputs[..k + 1]).phase.Idle?
    && forall j :: k < j < |inputs| ==> Still(c, inputs[j])
  }

  lemma StillGoesOn(c: Config, inputs: seq<Input>, k: nat)
    requires inputs != [] && k < |inputs| - 1
    ensures StillSince(c, inputs, k) <==> StillSince(c, inputs[..|inputs| - 1], k) && Still(c, inputs[|inputs| - 1])
  {
    var front := inputs[..|inputs| - 1];
    assert front[..k] == inputs[..k] && front[..k + 1] == inputs[..k + 1];
    if StillSince(c, front, k) && Still(c, inputs[|inputs| - 1]) {
      forall j | k < j < |inputs|
        ensures Still(c, inputs[j])
      {
        if j < |front| { assert inputs[j] == front[j]; }
      }
    }
    if StillSince(c, inputs, k) {
      forall j | k < j < |front|
        ensures Still(c, front[j])
      {
        assert front[j] == inputs[j];
      }
    }
  }

  lemma IdleStep(c: Config, s: State, i: Input)
    ensures s.phase.Idle? ==> (Next(c, s, i).phase.Idle? <==> Still(c, i))
    ensures s.phase.Idle? ==> Next(c, s, i).phase.Idle? || Next(c, s, i).phase.Running?
    ensures s.phase.Stall? ==> !Next(c, s, i).phase.Idle?
  {}

  /** The link is idle exactly when an update turned a running one idle and it has been still since. */
  lemma {:induction false} IdleIff(c: Config, inputs: seq<Input>)
    ensures After(c, inputs).phase.Idle? <==> exists k: nat :: StillSince(c, inputs, k)
  {
    if inputs == [] {
    } else {
      var front, last := inputs[..|inputs| - 1], inputs[|inputs| - 1];
      assert inputs[..|front|] == front && inputs[..|front| + 1] == inputs;
      IdleIff(c, front);
      IdleStep(c, After(c, front), last);
      if k: nat :| StillSince(c, front, k) { StillGoesOn(c, inputs, k); }
      if k: nat :| StillSince(c, inputs, k) {
        if k < |front| { StillGoesOn(c, inputs, k); }
      }
      if After(c, inputs).phase.Idle? && !After(c, front).phase.Idle? {
        assert StillSince(c, inputs, |front|);
      }
    }
  }

  // ----- the global timeout

  /** An update that looks for the timeout, deaf outside grace or stalled, and finds it past. */
  ghost predicate OverdueAt(c: Config, inputs: seq<Input>, k: nat)
  {
    && k < |inputs| && SilentAtLeast(inputs[k], c.globalTimeoutUs)
    && var phase := After(c, inputs[..k]).phase;
       phase.Stall? || (phase.Running? && !InGrace(inputs[k]) && SilentFor(inputs[k], c.stallTimeoutUs))
  }

  /** The timeout was found past, and no response has been recent since. */
  ghost predicate OverdueSince(c: Config, inputs: seq<Input>, k: nat)
  {
    OverdueAt(c, inputs, k) && forall j :: k < j < |inputs| ==> SilentAtLeast(inputs[j], c.globalTimeoutUs)
  }

  lemma OverdueGoesOn(c: Config, inputs: seq<Input>, k: nat)
    requires inputs != [] && k < |inputs| - 1
    ensures OverdueSince(c, inputs, k) <==>
      OverdueSince(c, inputs[..|inputs| - 1], k) && SilentAtLeast(inputs[|inputs| - 1], c.globalTimeoutUs)
  {
    var front := inputs[..|inputs| - 1];
    assert front[..k] == inputs[..k] && front[k] == inputs[k];
    if OverdueSince(c, front, k) && SilentAtLeast(inputs[|inputs| - 1], c.globalTimeoutUs) {
      forall j | k < j < |inputs|
        ensures SilentAtLeast(inputs[j], c.globalTimeoutUs)
      {
        if j < |front| { assert inputs[j] == front[j]; }
      }
    }
    if OverdueSince(c, inputs, k) {
      forall j | k < j < |front|
        ensures SilentAtLeast(front[j], c.globalTimeoutUs)
      {
        assert front[j] == inputs[j];
      }
    }
  }

  lemma ReportStep(c: Config, inputs: seq<Input>)
    requires inputs != []
    ensures var n := |inputs| - 1;
      After(c, inputs).reported <==>
        OverdueAt(c, inputs, n)
        || (After(c, inputs[..n]).reported && SilentAtLeast(inputs[n], c.globalTimeoutUs))
  {}

  /** The timeout counts as reported exactly while it was found past and no response has been recent since. */
  lemma {:induction false} ReportedIff(c: Config, inputs: seq<Input>)
    ensures After(c, inputs).reported <==> exists k: nat :: OverdueSince(c, inputs, k)
  {
    if inputs == [] {
    } else {
      var n := |inputs| - 1;
      ReportedIff(c, inputs[..n]);
      ReportStep(c, inputs);
      if k: nat :| OverdueSince(c, inputs[..n], k) { OverdueGoesOn(c, inputs, k); }
      if k: nat :| OverdueSince(c, inputs, k) {
        if k < n { OverdueGoesOn(c, inputs, k); }
      }
      if OverdueAt(c, inputs, n) { assert OverdueSince(c, inputs, n); }
    }
  }

  /**
   An update reports the timeout exactly when it finds it past, and none since the last recent
   response did. It says the phase changed exactly when it did, has the loads looked at when a
   running link is silent, and restarts the pingers when they were last started long enough ago.
   */
  lemma OutputIff(c: Config, inputs: seq<Input>, k: nat)
    requires k < |inputs|
    ensures var output, front := OutputOf(c, After(c, inputs[..k]), inputs[k]), inputs[..k];
      var phase, i := After(c, front).phase, inputs[k];
      && (output.globalTimeoutStarted <==>
          OverdueAt(c, inputs, k) && forall j: nat :: !OverdueSince(c, front, j))
      && (output.restartPingers <==>
          OverdueAt(c, inputs, k) && i.timestampUs - i.lastPingerStartUs >= c.globalTimeoutUs)
      && (output.checkStallLoads <==> phase.Running? && !InGrace(i) && SilentFor(i, c.stallTimeoutUs))
      && (output.stateChanged <==> After(c, inputs[..k + 1]).phase != phase)
  {
    ReportedIff(c, inputs[..k]);
    assert inputs[..k + 1][..k] == inputs[..k];
  }
}
