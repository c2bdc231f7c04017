/** The three states of the link, with their timeouts and grace periods: running, idle, stalled. */
module Activity {
  import opened Arith

  datatype Config = Config(
    enableSleep: bool, activeBps: u64, stallBps: u64, sustainedIdleUs: u64, stallTimeoutUs: u64, globalTimeoutUs: u64)

  datatype Direction = Direction(valid: bool, trafficBps: u64)

  datatype Input = Input(
    download: Direction, upload: Direction, timestampUs: u64, lastResponseUs: u64, lastPingerStartUs: u64,
    graceUntilUs: u64)

  datatype Phase = Running | Idle | Stall

  datatype State = State(phase: Phase, idleStartedUs: u64, reported: bool)

  const STARTED := State(Running, 0, false)

  datatype Output = Output(stateChanged: bool, checkStallLoads: bool, globalTimeoutStarted: bool, restartPingers: bool)

  const NOTHING := Output(false, false, false, false)

  predicate Above(d: Direction, thresholdBps: u64) { d.valid && d.trafficBps > thresholdBps }

  predicate EitherAbove(i: Input, thresholdBps: u64)
  {
    Above(i.download, thresholdBps) || Above(i.upload, thresholdBps)
  }

  predicate BothAbove(i: Input, thresholdBps: u64) { Above(i.download, thresholdBps) && Above(i.upload, thresholdBps) }

  function ResponseAge(i: Input): u64 { SaturatingSub(i.timestampUs, i.lastResponseUs) }

  predicate InGrace(i: Input) { i.timestampUs < i.graceUntilUs }

  predicate Healthy(c: Config, i: Input) { ResponseAge(i) <= c.stallTimeoutUs }

  /** A quiet link known to be quiet: both counters read, neither above the threshold. */
  predicate Quiet(c: Config, i: Input)
  {
    i.download.valid && i.upload.valid && !EitherAbove(i, c.activeBps)
  }

  // ----- the update as a function

  function Settled(c: Config, s: State, i: Input): State
  {
    if ResponseAge(i) < c.globalTimeoutUs then s.(reported := false) else s
  }

  function Moved(c: Config, s: State, i: Input): State
  {
    match s.phase
    case Running =>
      if InGrace(i) then s
      else if !Healthy(c, i) then s.(idleStartedUs := 0, phase := if BothAbove(i, c.stallBps) then Running else Stall)
      else if !c.enableSleep || !Quiet(c, i) then s.(idleStartedUs := 0)
      else if s.idleStartedUs == 0 then s.(idleStartedUs := i.timestampUs)
      else if Wrap64(i.timestampUs - s.idleStartedUs) > c.sustainedIdleUs then s.(phase := Idle, idleStartedUs := 0)
      else s
    case Idle => if EitherAbove(i, c.activeBps) then s.(phase := Running) else s
    case Stall => if Healthy(c, i) || BothAbove(i, c.stallBps) then s.(phase := Running) else s
  }

  predicate ChecksTimeout(c: Config, s: State, i: Input)
  {
    (s.phase.Running? && !InGrace(i) && !Healthy(c, i)) || s.phase.Stall?
  }

  predicate Reports(c: Config, s: State, i: Input)
  {
    ChecksTimeout(c, s, i) && ResponseAge(i) >= c.globalTimeoutUs
  }

  function Next(c: Config, s: State, i: Input): State
  {
    var moved := Moved(c, Settled(c, s, i), i);
    if Reports(c, s, i) then moved.(reported := true) else moved
  }

  function OutputOf(c: Config, s: State, i: Input): Output
  {
    if s.phase.Running? && InGrace(i) then NOTHING
    else
      Output(Next(c, s, i).phase != s.phase,
             s.phase.Running? && !Healthy(c, i),
             Reports(c, s, i) && !s.reported,
             Reports(c, s, i) && i.timestampUs >= i.lastPingerStartUs
             && i.timestampUs - i.lastPingerStartUs >= c.globalTimeoutUs)
  }

  class Activity {
    const config: Config
    var phase: Phase
    var idleStartedUs: u64
    var reported: bool

    function Values(): State
      reads this
    {
      State(phase, idleStartedUs, reported)
    }

    constructor (config: Config)
      ensures this.config == config && Values() == STARTED
    {
      this.config := config;
      phase, idleStartedUs, reported := Running, 0, false;
    }

    method CountAbove(input: Input, thresholdBps: u64) returns (count: nat)
      ensures count ==
        (if Above(input.download, thresholdBps) then 1 else 0) + (if Above(input.upload, thresholdBps) then 1 else 0)
    {
      count := 0;
      if Above(input.download, thresholdBps) {
        count := count + 1;
      }
      if Above(input.upload, thresholdBps) {
        count := count + 1;
      }
    }

    method Update(input: Input) returns (output: Output)
      modifies this
      ensures Values() == Next(config, old(Values()), input)
      ensures output == OutputOf(config, old(Values()), input)
    {
      var previous := phase;
      var age := SaturatingSub(input.timestampUs, input.lastResponseUs);
      var checkTimeout := false;
      var active := CountAbove(input, config.activeBps);
      var moving := CountAbove(input, config.stallBps);
      output := NOTHING;
      if age < config.globalTimeoutUs {
        reported := false;
      }
      match phase {
        case Running =>
          if input.timestampUs < input.graceUntilUs {
            return;
          }
          if age > config.stallTimeoutUs {
            idleStartedUs := 0;
            output := output.(checkStallLoads := true);
            checkTimeout := true;
            if moving != 2 {
              phase := Stall;
            }
          } else if config.enableSleep && input.download.valid && input.upload.valid && active == 0 {
            if idleStartedUs == 0 {
              idleStartedUs := input.timestampUs;
            } else if Wrap64(input.timestampUs - idleStartedUs) > config.sustainedIdleUs {
              phase := Idle;
              idleStartedUs := 0;
            }
          } else {
            idleStartedUs := 0;
          }
        case Idle =>
          if active > 0 {
            phase := Running;
          }
        case Stall =>
          if age <= config.stallTimeoutUs || moving == 2 {
            phase := Running;
          }
          checkTimeout := true;
      }
      if checkTimeout && age >= config.globalTimeoutUs {
        output := output.(globalTimeoutStarted := !reported);
        reported := true;
        output := output.(restartPingers := input.timestampUs >= input.lastPingerStartUs
                            && input.timestampUs - input.lastPingerStartUs >= config.globalTimeoutUs);
      }
      output := output.(stateChanged := previous != phase);
    }
  }

  // ----- runs

  function After(c: Config, inputs: seq<Input>): State
  {
    if inputs == [] then STARTED else Next(c, After(c, inputs[..|inputs| - 1]), inputs[|inputs| - 1])
  }

  ghost predicate Clocked(inputs: seq<Input>)
  {
    forall i, j :: 0 <= i < j < |inputs| ==> inputs[i].timestampUs <= inputs[j].timestampUs
  }

  /** Healthy and quiet with sleep enabled: the only kind of update idle time is made of. */
  predicate Resting(c: Config, i: Input) { c.enableSleep && Healthy(c, i) && Quiet(c, i) }

  /** From an update on, everything outside a grace period is rest, and that update is itself rest. */
  ghost predicate RestsSince(c: Config, inputs: seq<Input>, from: nat)
  {
    && from < |inputs| && !InGrace(inputs[from])
    && forall k :: from <= k < |inputs| && !InGrace(inputs[k]) ==> Resting(c, inputs[k])
  }

  /** The link has been running and resting since an update that a clock can start at. */
  ghost predicate RunsIdle(c: Config, inputs: seq<Input>, from: nat)
  {
    && RestsSince(c, inputs, from) && inputs[from].timestampUs > 0
    && forall k: nat :: from <= k <= |inputs| ==> RunningAt(c, inputs, k)
  }

  predicate RunningAt(c: Config, inputs: seq<Input>, k: nat)
    requires k <= |inputs|
  {
    After(c, inputs[..k]).phase.Running?
  }

  /** A set idle clock was started at such an update. */
  ghost predicate IdleClockSince(c: Config, inputs: seq<Input>, startedUs: u64)
  {
    exists from: nat :: RunsIdle(c, inputs, from) && inputs[from].timestampUs == startedUs
  }

  lemma RestGoesOn(c: Config, inputs: seq<Input>, next: Input, from: nat)
    requires RestsSince(c, inputs, from) && (InGrace(next) || Resting(c, next))
    ensures RestsSince(c, inputs + [next], from)
  {
    var all := inputs + [next];
    forall k | from <= k < |all| && !InGrace(all[k])
      ensures Resting(c, all[k])
    {
      if k < |inputs| { assert all[k] == inputs[k]; }
    }
  }

  lemma ClockGoesOn(c: Config, inputs: seq<Input>, next: Input, startedUs: u64)
    requires IdleClockSince(c, inputs, startedUs) && (InGrace(next) || Resting(c, next))
    requires RunningAt(c, inputs + [next], |inputs| + 1)
    ensures IdleClockSince(c, inputs + [next], startedUs)
  {
    var all := inputs + [next];
    var from: nat :| RunsIdle(c, inputs, from) && inputs[from].timestampUs == startedUs;
    RestGoesOn(c, inputs, next, from);
    forall k: nat | from <= k <= |all|
      ensures RunningAt(c, all, k)
    {
      if k <= |inputs| {
        assert all[..k] == inputs[..k];
        assert RunningAt(c, inputs, k);
      }
    }
    assert RunsIdle(c, all, from) && all[from].timestampUs == startedUs;
  }

  lemma ClockStarts(c: Config, inputs: seq<Input>, next: Input)
    requires !InGrace(next) && Resting(c, next) && next.timestampUs > 0
    requires RunningAt(c, inputs, |inputs|) && RunningAt(c, inputs + [next], |inputs| + 1)
    ensures IdleClockSince(c, inputs + [next], next.timestampUs)
  {
    var all := inputs + [next];
    assert all[..|inputs|] == inputs[..|inputs|];
    assert RunsIdle(c, all, |inputs|);
  }

  /** Over every run a set idle clock means the link has been running and resting since. */
  lemma {:induction false} IdleClockMeansRest(c: Config, inputs: seq<Input>)
    ensures var s := After(c, inputs);
      s.idleStartedUs != 0 ==> s.phase.Running? && IdleClockSince(c, inputs, s.idleStartedUs)
  {
    if inputs == [] {
    } else {
      var front, next := inputs[..|inputs| - 1], inputs[|inputs| - 1];
      var before, after := After(c, front), After(c, inputs);
      assert front + [next] == inputs && inputs[..|inputs|] == inputs && front[..|front|] == front;
      IdleClockMeansRest(c, front);
      if after.idleStartedUs != 0 {
        if before.idleStartedUs != 0 {
          ClockGoesOn(c, front, next, before.idleStartedUs);
        } else {
          ClockStarts(c, front, next);
        }
      }
    }
  }

  lemma FrontIsClocked(inputs: seq<Input>, next: Input)
    requires Clocked(inputs + [next])
    ensures Clocked(inputs)
  {
    assert forall k :: 0 <= k < |inputs| ==> (inputs + [next])[k] == inputs[k];
  }

  /** One update of a link that keeps running: rest leaves a set clock alone, and sets an unset one outside grace. */
  lemma RestKeepsClock(c: Config, s: State, i: Input)
    requires Next(c, s, i).phase.Running? && (InGrace(i) || Resting(c, i))
    ensures s.phase.Running? && s.idleStartedUs != 0 ==> Next(c, s, i).idleStartedUs == s.idleStartedUs
    ensures s.phase.Running? && s.idleStartedUs == 0 && !InGrace(i) ==> Next(c, s, i).idleStartedUs == i.timestampUs
  {}

  /** And a link that has been running and resting has its idle clock set, no later than that. */
  lemma {:induction false} RestSetsClock(c: Config, inputs: seq<Input>, from: nat)
    requires Clocked(inputs) && RunsIdle(c, inputs, from)
    ensures 0 < After(c, inputs).idleStartedUs <= inputs[from].timestampUs
    decreases |inputs|
  {
    var front, next := inputs[..|inputs| - 1], inputs[|inputs| - 1];
    RunsAtEnd(c, inputs, from);
    RestKeepsClock(c, After(c, front), next);
    if from == |front| {
      assert front + [next] == inputs;
      ClockIsPast(c, front, next);
    } else {
      RestBefore(c, inputs, from);
      RunsAtEnd(c, front, from);
      assert front + [next] == inputs;
      FrontIsClocked(front, next);
      RestSetsClock(c, front, from);
    }
  }

  lemma RunsAtEnd(c: Config, inputs: seq<Input>, from: nat)
    requires RunsIdle(c, inputs, from)
    ensures After(c, inputs).phase.Running? && After(c, inputs[..from]).phase.Running?
    ensures InGrace(inputs[|inputs| - 1]) || Resting(c, inputs[|inputs| - 1])
  {
    assert inputs[..|inputs|] == inputs;
    assert RunningAt(c, inputs, |inputs|) && RunningAt(c, inputs, from);
  }

  lemma ClockIsPast(c: Config, inputs: seq<Input>, next: Input)
    requires Clocked(inputs + [next])
    ensures After(c, inputs).idleStartedUs <= next.timestampUs
  {
    var all := inputs + [next];
    IdleClockMeansRest(c, inputs);
    if After(c, inputs).idleStartedUs != 0 {
      var from: nat :| RunsIdle(c, inputs, from) && inputs[from].timestampUs == After(c, inputs).idleStartedUs;
      assert all[from].timestampUs <= all[|inputs|].timestampUs;
    }
  }

  lemma RestBefore(c: Config, inputs: seq<Input>, from: nat)
    requires from < |inputs| - 1 && RunsIdle(c, inputs, from)
    ensures RunsIdle(c, inputs[..|inputs| - 1], from)
  {
    var front := inputs[..|inputs| - 1];
    forall k: nat | from <= k <= |front|
      ensures RunningAt(c, front, k)
    {
      assert front[..k] == inputs[..k];
      assert RunningAt(c, inputs, k);
    }
    forall k | from <= k < |front| && !InGrace(front[k])
      ensures Resting(c, front[k])
    {
      assert front[k] == inputs[k];
    }
  }

  /** One update turns the link idle exactly when it rests past the limit of a set idle clock. */
  lemma OneUpdateTurns(c: Config, s: State, i: Input)
    ensures !s.phase.Idle? && Next(c, s, i).phase.Idle? <==>
      Overdue(c, s, i.timestampUs) && !InGrace(i) && Resting(c, i)
  {}

  /** The link has been running and resting since more than the limit ago. */
  ghost predicate RestedFor(c: Config, inputs: seq<Input>, nowUs: u64)
  {
    exists from: nat :: RunsIdle(c, inputs, from) && nowUs - inputs[from].timestampUs > c.sustainedIdleUs
  }

  /** A set idle clock further back than the limit. */
  predicate Overdue(c: Config, s: State, nowUs: u64)
  {
    s.phase.Running? && s.idleStartedUs != 0 && Wrap64(nowUs - s.idleStartedUs) > c.sustainedIdleUs
  }

  lemma RestIsOverdue(c: Config, inputs: seq<Input>, next: Input, from: nat)
    requires Clocked(inputs + [next])
    requires RunsIdle(c, inputs, from) && next.timestampUs - inputs[from].timestampUs > c.sustainedIdleUs
    ensures Overdue(c, After(c, inputs), next.timestampUs)
  {
    RunsAtEnd(c, inputs, from);
    FrontIsClocked(inputs, next);
    RestSetsClock(c, inputs, from);
  }

  lemma RestedForIff(c: Config, inputs: seq<Input>, next: Input)
    requires Clocked(inputs + [next])
    ensures RestedFor(c, inputs, next.timestampUs) <==> Overdue(c, After(c, inputs), next.timestampUs)
  {
    ClockIsPast(c, inputs, next);
    IdleClockMeansRest(c, inputs);
    if from: nat :| RunsIdle(c, inputs, from) && next.timestampUs - inputs[from].timestampUs > c.sustainedIdleUs {
      RestIsOverdue(c, inputs, next, from);
    }
  }

  /**
   Over every run with a clock that never goes back the link turns idle exactly at an
   update that rests, outside a grace period, more than the limit after one since which
   the link has been running and every update outside a grace period has rested.
   */
  lemma TurnsIdleIff(c: Config, inputs: seq<Input>, next: Input)
    requires Clocked(inputs + [next])
    ensures !After(c, inputs).phase.Idle? && After(c, inputs + [next]).phase.Idle? <==>
      !InGrace(next) && Resting(c, next) && RestedFor(c, inputs, next.timestampUs)
  {
    assert (inputs + [next])[..|inputs|] == inputs;
    OneUpdateTurns(c, After(c, inputs), next);
    RestedForIff(c, inputs, next);
  }

  /** Whether an update reports that the global timeout started. */
  ghost predicate Started(c: Config, inputs: seq<Input>, k: nat)
    requires k < |inputs|
  {
    OutputOf(c, After(c, inputs[..k]), inputs[k]).globalTimeoutStarted
  }

  ghost predicate Answered(c: Config, inputs: seq<Input>, after: int, before: nat)
    requires before <= |inputs|
  {
    exists k :: after < k < before && 0 <= k && ResponseAge(inputs[k]) < c.globalTimeoutUs
  }

  /** A report outlasts every update until a response is recent again. */
  lemma {:induction false} ReportedUntilAnswered(c: Config, inputs: seq<Input>, from: nat)
    requires from < |inputs| && Started(c, inputs, from)
    ensures After(c, inputs).reported || Answered(c, inputs, from, |inputs|)
    decreases |inputs|
  {
    var front := inputs[..|inputs| - 1];
    var last := inputs[|inputs| - 1];
    if from < |front| {
      assert front[..from] == inputs[..from];
      ReportedUntilAnswered(c, front, from);
      if Answered(c, front, from, |front|) {
        var k :| from < k < |front| && 0 <= k && ResponseAge(front[k]) < c.globalTimeoutUs;
        assert inputs[k] == front[k];
      } else if ResponseAge(last) < c.globalTimeoutUs {
        assert inputs[|front|] == last;
      }
    }
  }

  /** One timeout report per outage: between two reports some response was recent. */
  lemma OneReportPerOutage(c: Config, inputs: seq<Input>, first: nat, second: nat)
    requires first < second < |inputs| && Started(c, inputs, first) && Started(c, inputs, second)
    ensures Answered(c, inputs, first, second)
  {
    var front := inputs[..second];
    assert front[..first] == inputs[..first];
    ReportedUntilAnswered(c, front, first);
    if Answered(c, front, first, |front|) {
      var k :| first < k < second && 0 <= k && ResponseAge(front[k]) < c.globalTimeoutUs;
      assert inputs[k] == front[k];
    }
  }

  /** The rest that turns the link idle can span a busy update: a grace period hides it and the idle clock runs on. */
  lemma GraceHidesTraffic(c: Config, first: Input, busy: Input, last: Input)
    requires first.timestampUs > 0 && !InGrace(first) && Resting(c, first)
    requires InGrace(busy) && EitherAbove(busy, c.activeBps)
    requires !InGrace(last) && Resting(c, last) && last.timestampUs - first.timestampUs > c.sustainedIdleUs
    ensures After(c, [first] + [busy] + [last]).phase.Idle?
  {
    var one, two, three := [first], [first] + [busy], [first] + [busy] + [last];
    assert one[..0] == [] && two[..1] == one && three[..2] == two;
    assert After(c, one) == Next(c, STARTED, first);
    assert After(c, two) == Next(c, After(c, one), busy);
  }
}
