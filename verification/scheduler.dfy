/** The polling loop (`run`), one iteration at a time.

    A tick takes the instant it runs at, as the wall clock reads it after the
    wait, and the values the enabled probes return. It
    detects a missed period, runs the enabled checks, and requests sleep once
    the system has been idle for strictly more than the wanted duration. */
module Scheduler {
  import opened Wrappers
  import opened NetStats
  import opened Tracker
  import opened Clock
  import opened Wakeup

  /** The daemon's settings, durations in microseconds. `cpuMax` is the maximum
      CPU usage in percent, `netLimit` the maximum packets per period, `xUser`
      whether X input is watched; an absent option disables that check. */
  datatype Config = Config(
    wanted: nat,
    period: nat,
    threads: int,
    cpuMax: Option<int>,
    netLimit: Option<int>,
    xUser: bool,
    wakeUp: Option<Time>,
    mode: SleepMode,
    pretend: bool)

  predicate ValidConfig(cfg: Config) {
    cfg.threads > 0 && (cfg.wakeUp.Some? ==> InRange(cfg.wakeUp.value))
  }

  /** What the probes report at a tick: the cumulated CPU idle seconds, the
      network statistics of the first UP interface, and the X idle time in ms. */
  datatype Probes = Probes(cpuIdleCounter: real, net: NetStat, xIdleMs: int)

  /** The tracker after the tick, whether sleep was requested, the wake-up
      instant computed for it, and the calls made to the power controller. */
  datatype TickOut = TickOut(state: State, sleep: bool, wake: Option<int>, actions: seq<PowerAction>)

  /** Start-up: a fresh context, and the alarm disarmed when a wake-up time is configured. */
  function Start(cfg: Config, now: int): (r: (State, seq<PowerAction>))
    ensures r.0 == Reset(now)
    ensures |r.1| <= 1 && forall k | 0 <= k < |r.1| :: r.1[k] == DisarmAlarm
    ensures forall alarm :: AlarmAfter(alarm, r.1) == if cfg.wakeUp.Some? && !cfg.pretend then None else alarm
  {
    (Reset(now), ResetActions(cfg.wakeUp, cfg.pretend))
  }

  /** More than two periods since the previous tick: the machine was asleep. */
  function MissedPeriod(cfg: Config, s: State, now: int): (b: bool)
    ensures b <==> now - s.prevCheck > 2 * cfg.period
    ensures b ==> now > s.prevCheck + cfg.period
  {
    now > s.prevCheck + cfg.period + cfg.period
  }

  /** A tick's reasons to consider the system not idle, the X input aside: a
      missed period, a busy CPU or a busy network, each measured against the
      incoming context. */
  predicate SignalsBusy(cfg: Config, s: State, now: int, p: Probes) {
    || MissedPeriod(cfg, s, now)
    || (cfg.cpuMax.Some? && CpuBusy(p.cpuIdleCounter - s.prevCpuIdleCounter, cfg.threads, cfg.cpuMax.value, now - s.prevCheck))
    || (cfg.netLimit.Some? && NetBusy(s.prevNetStat, p.net, cfg.netLimit.value))
  }

  /** The idle clock a tick computes before its sleep decision: `now` when a
      signal is busy, else the incoming one; then, only when that already leaves
      the system idle for strictly more than the wanted duration, moved forward
      to the user's last X input if that is more recent than the wanted duration. */
  function IdleAfterChecks(cfg: Config, s: State, now: int, p: Probes): int {
    var base := if SignalsBusy(cfg, s, now, p) then now else s.lastIdle;
    var xIdle := p.xIdleMs * MicrosPerMilli;
    if cfg.xUser && now > base + cfg.wanted && xIdle < cfg.wanted then now - xIdle else base
  }

  /** The checks of one tick, up to the sleep decision. */
  function Evaluate(cfg: Config, s: State, now: int, p: Probes): (r: Result<State, Fault>)
    requires ValidConfig(cfg)
    ensures r.Failure? <==> cfg.cpuMax.Some? && now == s.prevCheck
    ensures r.Success? ==> r.value.now == now && r.value.prevCheck == s.prevCheck
    ensures r.Success? ==> r.value.prevCpuIdleCounter == if cfg.cpuMax.Some? then p.cpuIdleCounter else s.prevCpuIdleCounter
    ensures r.Success? ==> r.value.prevNetStat == if cfg.netLimit.Some? then p.net else s.prevNetStat
    ensures r.Success? ==> r.value.lastIdle == IdleAfterChecks(cfg, s, now, p)
  {
    var s0 := s.(now := now);
    var s1 := if MissedPeriod(cfg, s, now) then ResetIdle(s0) else s0;
    var checked := if cfg.cpuMax.Some? then CheckCpu(s1, p.cpuIdleCounter, cfg.threads, cfg.cpuMax.value) else Success(s1);
    match checked
    case Failure(e) => Failure(e)
    case Success(s2) =>
      var s3 := if cfg.netLimit.Some? then CheckNet(s2, p.net, cfg.netLimit.value) else s2;
      var s4 := if cfg.xUser && now > s3.lastIdle + cfg.wanted then CheckX(s3, p.xIdleMs, cfg.wanted) else s3;
      Success(s4)
  }

  /** One iteration of the polling loop, with `go_to_sleep` as written: the
      alarm it programs is disarmed again before sleep is requested. */
  function Tick(cfg: Config, s: State, now: int, p: Probes): (r: Result<TickOut, Fault>)
    requires ValidConfig(cfg)
    ensures r.Failure? <==> cfg.cpuMax.Some? && now == s.prevCheck
    ensures r.Success? ==> r.value.state.now == now && r.value.state.prevCheck == now
    ensures r.Success? ==> (r.value.sleep <==> now > IdleAfterChecks(cfg, s, now, p) + cfg.wanted)
    ensures r.Success? && r.value.sleep ==> now > s.lastIdle + cfg.wanted
    ensures r.Success? && r.value.sleep ==> r.value.state == Reset(now)
    ensures r.Success? && !r.value.sleep ==> r.value.state == Evaluate(cfg, s, now, p).value.(prevCheck := now)
    ensures r.Success? && !r.value.sleep ==> r.value.actions == []
    ensures r.Success? ==> r.value.wake == if r.value.sleep && cfg.wakeUp.Some? then Some(NextWakeup(now, cfg.wakeUp.value)) else None
    ensures r.Success? && r.value.sleep ==> r.value.actions == GoToSleepAsWritten(now, cfg.wakeUp, cfg.mode, cfg.pretend)
    ensures r.Success? && r.value.sleep && !cfg.pretend ==> |r.value.actions| > 0 && r.value.actions[|r.value.actions| - 1] == RequestSleep(cfg.mode)
    ensures r.Success? && cfg.pretend ==> r.value.actions == []
    ensures r.Success? ==> forall alarm :: AlarmAfter(alarm, r.value.actions) == if r.value.sleep && cfg.wakeUp.Some? && !cfg.pretend then None else alarm
  {
    match Evaluate(cfg, s, now, p)
    case Failure(e) => Failure(e)
    case Success(checked) =>
      if now > checked.lastIdle + cfg.wanted then
        var wake := if cfg.wakeUp.Some? then Some(NextWakeup(now, cfg.wakeUp.value)) else None;
        var actions := GoToSleepAsWritten(now, cfg.wakeUp, cfg.mode, cfg.pretend);
        Success(TickOut(Reset(now).(prevCheck := now), true, wake, actions))
      else
        Success(TickOut(checked.(prevCheck := now), false, None, []))
  }

  /** The same iteration with the corrected `go_to_sleep`: it differs from
      `Tick` only in the power calls, and leaves the next wake-up armed. */
  function TickCorrected(cfg: Config, s: State, now: int, p: Probes): (r: Result<TickOut, Fault>)
    requires ValidConfig(cfg)
    ensures r.Success? <==> Tick(cfg, s, now, p).Success?
    ensures r.Success? ==> r.value.(actions := Tick(cfg, s, now, p).value.actions) == Tick(cfg, s, now, p).value
    ensures r.Success? && r.value.wake.Some? ==> now <= r.value.wake.value < now + MicrosPerDay
    ensures r.Success? ==> forall alarm :: AlarmAfter(alarm, r.value.actions) == if r.value.wake.Some? && !cfg.pretend then r.value.wake else alarm
  {
    match Tick(cfg, s, now, p)
    case Failure(e) => Failure(e)
    case Success(out) =>
      if out.sleep then Success(out.(actions := GoToSleep(now, cfg.wakeUp, cfg.mode, cfg.pretend)))
      else Success(out)
  }

  /** A tick that requests sleep with a wake-up time configured, not pretending,
      leaves no alarm armed as written, while the corrected tick leaves the
      wake-up it computed armed. */
  lemma TickLosesWakeup(cfg: Config, s: State, now: int, p: Probes, alarm: Option<int>)
    requires ValidConfig(cfg)
    requires Tick(cfg, s, now, p).Success? && Tick(cfg, s, now, p).value.sleep
    requires cfg.wakeUp.Some? && !cfg.pretend
    ensures AlarmAfter(alarm, Tick(cfg, s, now, p).value.actions) == None
    ensures AlarmAfter(alarm, TickCorrected(cfg, s, now, p).value.actions) == Some(NextWakeup(now, cfg.wakeUp.value))
  {
  }

  /** A tick that finds a missed period never requests sleep, and leaves the
      system idle since that tick; the enabled checks still run and still take
      their new baselines. */
  lemma TickAfterMissedPeriod(cfg: Config, s: State, now: int, p: Probes)
    requires ValidConfig(cfg)
    requires MissedPeriod(cfg, s, now)
    ensures Tick(cfg, s, now, p).Success?
    ensures !Tick(cfg, s, now, p).value.sleep
    ensures Tick(cfg, s, now, p).value.state.lastIdle == now
    ensures Tick(cfg, s, now, p).value.state.prevCpuIdleCounter
            == if cfg.cpuMax.Some? then p.cpuIdleCounter else s.prevCpuIdleCounter
    ensures Tick(cfg, s, now, p).value.state.prevNetStat == if cfg.netLimit.Some? then p.net else s.prevNetStat
  {
    assert now > s.prevCheck;
  }

  /** A busy CPU or a busy network at a tick restarts the idle clock and rules out sleep. */
  lemma TickBusySignal(cfg: Config, s: State, now: int, p: Probes)
    requires ValidConfig(cfg)
    requires Tick(cfg, s, now, p).Success?
    requires || (cfg.cpuMax.Some? && CpuBusy(p.cpuIdleCounter - s.prevCpuIdleCounter, cfg.threads, cfg.cpuMax.value, now - s.prevCheck))
             || (cfg.netLimit.Some? && NetBusy(s.prevNetStat, p.net, cfg.netLimit.value))
    ensures !Tick(cfg, s, now, p).value.sleep
    ensures Tick(cfg, s, now, p).value.state.lastIdle == now
  {
  }

  /** With X input watched, no sleep is requested while the user's last input is
      more recent than the wanted idle duration. */
  lemma TickRecentInput(cfg: Config, s: State, now: int, p: Probes)
    requires ValidConfig(cfg)
    requires Tick(cfg, s, now, p).Success?
    requires cfg.xUser && p.xIdleMs * MicrosPerMilli < cfg.wanted
    ensures !Tick(cfg, s, now, p).value.sleep
  {
  }

  /** When no period was missed and every enabled signal is quiet, the idle clock
      is left alone and sleep is requested exactly when strictly more than the
      wanted duration has passed since the system was last considered busy. */
  lemma TickQuiet(cfg: Config, s: State, now: int, p: Probes)
    requires ValidConfig(cfg)
    requires Tick(cfg, s, now, p).Success?
    requires !MissedPeriod(cfg, s, now)
    requires cfg.cpuMax.Some? ==> !CpuBusy(p.cpuIdleCounter - s.prevCpuIdleCounter, cfg.threads, cfg.cpuMax.value, now - s.prevCheck)
    requires cfg.netLimit.Some? ==> !NetBusy(s.prevNetStat, p.net, cfg.netLimit.value)
    requires cfg.xUser ==> p.xIdleMs * MicrosPerMilli >= cfg.wanted
    ensures Tick(cfg, s, now, p).value.sleep <==> now > s.lastIdle + cfg.wanted
    ensures !Tick(cfg, s, now, p).value.sleep ==> Tick(cfg, s, now, p).value.state.lastIdle == s.lastIdle
  {
  }

  /** The X probe is only consulted once the other signals leave the system idle
      for strictly more than the wanted duration: below that, its value cannot
      change the tick. */
  lemma XCheckGated(cfg: Config, s: State, now: int, p: Probes, xIdleMs: int)
    requires ValidConfig(cfg)
    requires !MissedPeriod(cfg, s, now)
    requires cfg.cpuMax.Some? ==> !CpuBusy(p.cpuIdleCounter - s.prevCpuIdleCounter, cfg.threads, cfg.cpuMax.value, now - s.prevCheck)
    requires cfg.netLimit.Some? ==> !NetBusy(s.prevNetStat, p.net, cfg.netLimit.value)
    requires now <= s.lastIdle + cfg.wanted
    ensures Tick(cfg, s, now, p) == Tick(cfg, s, now, p.(xIdleMs := xIdleMs))
  {
  }

  /** One loop iteration: the instant it runs at and what the probes report. */
  datatype Step = Step(now: int, probes: Probes)

  /** Each step runs no earlier than one period after the one before it. The
      loop waits until then, but it reads the wall clock again after the wait
      and does not check it: a clock stepped backward breaks this. */
  predicate OnSchedule(prevCheck: int, period: nat, steps: seq<Step>)
    decreases |steps|
  {
    steps == [] || (steps[0].now >= prevCheck + period && OnSchedule(steps[0].now, period, steps[1..]))
  }

  /** The instants at which the loop requests sleep over a run of steps; the run
      ends early when a tick raises. */
  function SleepTimes(cfg: Config, s: State, steps: seq<Step>): (r: seq<int>)
    requires ValidConfig(cfg)
    ensures |r| <= |steps|
    ensures InstantsInOrder(steps, r)
    ensures (steps != [] && Tick(cfg, s, steps[0].now, steps[0].probes).Success?
             && Tick(cfg, s, steps[0].now, steps[0].probes).value.sleep)
            ==> |r| > 0 && r[0] == steps[0].now
    decreases |steps|
  {
    if steps == [] then []
    else
      match Tick(cfg, s, steps[0].now, steps[0].probes)
      case Failure(_) => []
      case Success(out) =>
        var head := if out.sleep then [steps[0].now] else [];
        var rest := SleepTimes(cfg, out.state, steps[1..]);
        InstantsFromSteps(steps, head, rest);
        head + rest
  }

  /** Each instant of `xs` is that of a step at its own position or later. */
  predicate InstantsInOrder(steps: seq<Step>, xs: seq<int>) {
    forall i | 0 <= i < |xs| :: exists k | i <= k < |steps| :: steps[k].now == xs[i]
  }

  /** Putting the first step's instant, or nothing, ahead of instants drawn in
      order from the later steps keeps them in order. */
  lemma InstantsFromSteps(steps: seq<Step>, head: seq<int>, rest: seq<int>)
    requires |steps| > 0 && (head == [] || head == [steps[0].now])
    requires InstantsInOrder(steps[1..], rest)
    ensures InstantsInOrder(steps, head + rest)
  {
    var xs := head + rest;
    forall i | 0 <= i < |xs|
      ensures exists k | i <= k < |steps| :: steps[k].now == xs[i]
    {
      if i < |head| {
        assert steps[0].now == xs[i];
      } else {
        var j := i - |head|;
        assert 0 <= j < |rest| && xs[i] == rest[j];
        assert exists k | j <= k < |steps[1..]| :: steps[1..][k].now == rest[j];
        var k :| j <= k < |steps[1..]| && steps[1..][k].now == rest[j];
        assert steps[k + 1].now == xs[i];
      }
    }
  }

  /** Sleep requests are spaced by strictly more than the wanted idle duration,
      and the first comes strictly more than that after `floor`, any instant not
      later than the idle clock and the previous tick. */
  lemma {:induction false} SleepsSpacedOut(cfg: Config, s: State, steps: seq<Step>, floor: int)
    requires ValidConfig(cfg) && OnSchedule(s.prevCheck, cfg.period, steps)
    requires floor <= s.lastIdle && floor <= s.prevCheck
    ensures var xs := SleepTimes(cfg, s, steps);
            (|xs| > 0 ==> xs[0] > floor + cfg.wanted)
            && forall i | 0 <= i < |xs| - 1 :: xs[i + 1] > xs[i] + cfg.wanted
    decreases |steps|
  {
    if steps != [] {
      var now := steps[0].now;
      var r := Tick(cfg, s, now, steps[0].probes);
      if r.Success? {
        var out := r.value;
        var e := Evaluate(cfg, s, now, steps[0].probes);
        assert e.Success?;
        var rest := SleepTimes(cfg, out.state, steps[1..]);
        if out.sleep {
          SleepsSpacedOut(cfg, out.state, steps[1..], now);
          var xs := [now] + rest;
          assert SleepTimes(cfg, s, steps) == xs;
          forall i | 0 <= i < |xs| - 1
            ensures xs[i + 1] > xs[i] + cfg.wanted
          {
            if i > 0 {
              assert xs[i] == rest[i - 1] && xs[i + 1] == rest[i];
            }
          }
        } else {
          assert out.state.lastIdle == e.value.lastIdle;
          SleepsSpacedOut(cfg, out.state, steps[1..], floor);
          assert SleepTimes(cfg, s, steps) == rest;
        }
      }
    }
  }

  /** From start-up at `t0`, the daemon first requests sleep strictly more than
      the wanted duration after `t0`, and never twice within the wanted duration:
      the reset after each request blocks the next one until the system has been
      idle that long again. */
  lemma DaemonSleepsSpacedOut(cfg: Config, t0: int, steps: seq<Step>)
    requires ValidConfig(cfg) && OnSchedule(t0, cfg.period, steps)
    ensures var xs := SleepTimes(cfg, Start(cfg, t0).0, steps);
            (|xs| > 0 ==> xs[0] > t0 + cfg.wanted)
            && forall i | 0 <= i < |xs| - 1 :: xs[i + 1] > xs[i] + cfg.wanted
  {
    SleepsSpacedOut(cfg, Start(cfg, t0).0, steps, t0);
  }

  /** With no check enabled, a 10 s idle requirement and a 5 s period, ticks
      exactly on schedule request sleep at the third tick, 15 s after start-up:
      at 10 s the idle time equals the requirement, which is not enough. */
  lemma NoSignalsScenario(t0: int, mode: SleepMode, p: Probes)
    ensures var cfg := Config(10_000_000, 5_000_000, 1, None, None, false, None, mode, true);
            var steps := [Step(t0 + 5_000_000, p), Step(t0 + 10_000_000, p), Step(t0 + 15_000_000, p)];
            OnSchedule(t0, cfg.period, steps)
            && SleepTimes(cfg, Start(cfg, t0).0, steps) == [t0 + 15_000_000]
  {
    var cfg := Config(10_000_000, 5_000_000, 1, None, None, false, None, mode, true);
    var steps := [Step(t0 + 5_000_000, p), Step(t0 + 10_000_000, p), Step(t0 + 15_000_000, p)];
    var s0 := Reset(t0);
    assert steps[1..] == [steps[1], steps[2]];
    assert steps[1..][1..] == [steps[2]];
    assert [steps[2]][1..] == [];
    assert OnSchedule(steps[2].now, cfg.period, []);
    assert OnSchedule(steps[1].now, cfg.period, [steps[2]]);
    assert OnSchedule(steps[0].now, cfg.period, steps[1..]);
    assert OnSchedule(t0, cfg.period, steps);
    var r1 := Tick(cfg, s0, steps[0].now, p);
    var s1 := r1.value.state;
    assert !r1.value.sleep && s1.lastIdle == t0 && s1.prevCheck == steps[0].now;
    var r2 := Tick(cfg, s1, steps[1].now, p);
    var s2 := r2.value.state;
    assert !r2.value.sleep && s2.lastIdle == t0 && s2.prevCheck == steps[1].now;
    var r3 := Tick(cfg, s2, steps[2].now, p);
    assert r3.value.sleep;
    assert SleepTimes(cfg, r3.value.state, []) == [];
    assert SleepTimes(cfg, s2, [steps[2]]) == [t0 + 15_000_000];
    assert SleepTimes(cfg, s1, steps[1..]) == [t0 + 15_000_000];
    assert SleepTimes(cfg, s0, steps) == [t0 + 15_000_000];
  }

  /** The same daemon with ticks that each come one microsecond late, as the
      re-read clock normally makes them: the second tick, just past 10 s after
      start-up, already requests sleep. */
  lemma LateTicksScenario(t0: int, mode: SleepMode, p: Probes)
    ensures var cfg := Config(10_000_000, 5_000_000, 1, None, None, false, None, mode, true);
            var steps := [Step(t0 + 5_000_001, p), Step(t0 + 10_000_002, p)];
            OnSchedule(t0, cfg.period, steps)
            && SleepTimes(cfg, Start(cfg, t0).0, steps) == [t0 + 10_000_002]
  {
    var cfg := Config(10_000_000, 5_000_000, 1, None, None, false, None, mode, true);
    var steps := [Step(t0 + 5_000_001, p), Step(t0 + 10_000_002, p)];
    var s0 := Reset(t0);
    assert steps[1..] == [steps[1]];
    assert [steps[1]][1..] == [];
    assert OnSchedule(steps[1].now, cfg.period, []);
    assert OnSchedule(steps[0].now, cfg.period, steps[1..]);
    var r1 := Tick(cfg, s0, steps[0].now, p);
    var s1 := r1.value.state;
    assert !r1.value.sleep && s1.lastIdle == t0 && s1.prevCheck == steps[0].now;
    var r2 := Tick(cfg, s1, steps[1].now, p);
    assert r2.value.sleep;
    assert SleepTimes(cfg, r2.value.state, []) == [];
    assert SleepTimes(cfg, s1, [steps[1]]) == [t0 + 10_000_002];
    assert SleepTimes(cfg, s0, steps) == [t0 + 10_000_002];
  }
}
