/** The idle tracker: the dynamic context of the daemon and the checks that
    move its idle clock (`reset`, `reset_idle`, `check_cpu`, `check_net`,
    `check_x_user_input`).

    Instants and durations are integers counting microseconds, the resolution
    of the source's date-times and time deltas. */
module Tracker {
  import opened Wrappers
  import opened NetStats

  const MicrosPerSecond: int := 1_000_000
  const MicrosPerMilli: int := 1_000

  /** The dynamic context: the current tick's instant, the last instant the
      system was considered idle, the previous tick's instant, and the CPU and
      network baselines sampled at the previous tick. */
  datatype State = State(
    now: int,
    lastIdle: int,
    prevCheck: int,
    prevCpuIdleCounter: real,
    prevNetStat: NetStat)

  /** The source raises instead of returning when the CPU check would divide
      by a zero elapsed time. */
  datatype Fault = ZeroElapsedTime

  /** The context at start-up and right after a sleep request, at instant `now`. */
  function Reset(now: int): (r: State)
    ensures r.now == now && r.prevCheck == now && r.lastIdle == now
    ensures r.prevCpuIdleCounter == 0.0 && r.prevNetStat == NoInterface()
  {
    State(now, now, now, 0.0, NoInterface())
  }

  /** Full reset of the idle clock: the system is not idle at this tick. */
  function ResetIdle(s: State): (r: State)
    ensures r.lastIdle == s.now
    ensures r.(lastIdle := s.lastIdle) == s
  {
    s.(lastIdle := s.now)
  }

  /** Partial reset: the system was last idle `delta` ago, unless the idle clock
      already says later. */
  function ResetIdleBy(s: State, delta: int): (r: State)
    ensures r.lastIdle >= s.lastIdle && r.lastIdle >= s.now - delta
    ensures r.lastIdle == s.lastIdle || r.lastIdle == s.now - delta
    ensures r.(lastIdle := s.lastIdle) == s
  {
    var candidate := s.now - delta;
    if candidate > s.lastIdle then s.(lastIdle := candidate) else s
  }

  lemma ResetIdleIdempotent(s: State)
    ensures ResetIdle(ResetIdle(s)) == ResetIdle(s)
    ensures ResetIdle(s).lastIdle == s.now
  {
  }

  /** A partial reset never moves the idle clock earlier, and repeating it changes nothing. */
  lemma ResetIdleByForwardOnly(s: State, delta: int)
    ensures ResetIdleBy(s, delta).lastIdle >= s.lastIdle
    ensures ResetIdleBy(ResetIdleBy(s, delta), delta) == ResetIdleBy(s, delta)
  {
  }

  /** The idle fraction below which the CPU counts as busy, for a maximum usage in percent. */
  function IdleThreshold(maxCpuPercent: int): (t: real)
    ensures t * 100.0 == (100 - maxCpuPercent) as real
    ensures 0 <= maxCpuPercent <= 100 ==> 0.0 <= t <= 1.0
  {
    1.0 - maxCpuPercent as real / 100.0
  }

  /** Average idle fraction per hardware thread over `elapsed` microseconds,
      computed by division as the source does. */
  function AverageCpuIdle(idleDelta: real, threads: int, elapsed: int): real
    requires threads > 0 && elapsed != 0
  {
    idleDelta / threads as real / (elapsed as real / MicrosPerSecond as real)
  }

  /** The busy test without division: `idleDelta / threads / seconds < 1 - max / 100`,
      multiplied out; a negative elapsed time (clock stepped back) flips the comparison. */
  predicate CpuBusy(idleDelta: real, threads: int, maxCpuPercent: int, elapsed: int) {
    var lhs := idleDelta * 100.0 * MicrosPerSecond as real;
    var rhs := (100 - maxCpuPercent) as real * threads as real * elapsed as real;
    if elapsed > 0 then lhs < rhs else lhs > rhs
  }

  lemma DivLess(x: real, y: real, t: real)
    requires y != 0.0
    ensures y > 0.0 ==> (x / y < t <==> x < t * y)
    ensures y > 0.0 ==> (x / y > t <==> x > t * y)
    ensures y < 0.0 ==> (x / y < t <==> x > t * y)
  {
    assert x / y * y == x;
    if y > 0.0 {
      if x / y > t {
        assert (x / y) * y > t * y;
      }
      if x > t * y {
        assert (x / y) * y > t * y;
      }
      if x / y < t {
        assert (x / y) * y < t * y;
      }
      if x < t * y {
        assert (x / y) * y < t * y;
      }
    } else {
      if x / y < t {
        assert (x / y) * y > t * y;
      }
      if x > t * y {
        assert (x / y) * y > t * y;
      }
    }
  }

  /** The source's division form and the multiplied-out form agree. */
  lemma {:induction false} CpuRatioCrossMultiplied(idleDelta: real, threads: int, maxCpuPercent: int, elapsed: int)
    requires threads > 0 && elapsed != 0
    ensures AverageCpuIdle(idleDelta, threads, elapsed) < IdleThreshold(maxCpuPercent)
            <==> CpuBusy(idleDelta, threads, maxCpuPercent, elapsed)
  {
    var n := threads as real;
    var secs := elapsed as real / 1_000_000.0;
    var t := IdleThreshold(maxCpuPercent);
    var perThread := idleDelta / n;
    DivLess(perThread, secs, t);
    DivLess(idleDelta, n, t * secs);
    assert idleDelta == perThread * n;
    var lhs := idleDelta * 100.0 * 1_000_000.0;
    var rhs := (100 - maxCpuPercent) as real * n * elapsed as real;
    assert rhs == t * secs * n * 100.0 * 1_000_000.0;
    if elapsed > 0 {
      assert secs > 0.0;
      assert perThread < t * secs <==> idleDelta < t * secs * n;
      assert idleDelta < t * secs * n <==> lhs < rhs;
    } else {
      assert secs < 0.0;
      assert perThread > t * secs <==> idleDelta > t * secs * n;
      assert idleDelta > t * secs * n <==> lhs > rhs;
    }
  }

  /** CPU check: a full reset when the average idle fraction since the previous
      tick falls below the threshold; the counter becomes the new baseline. */
  function CheckCpu(s: State, cpuIdleCounter: real, threads: int, maxCpuPercent: int): (r: Result<State, Fault>)
    requires threads > 0
    ensures r.Failure? <==> s.now == s.prevCheck
    ensures r.Success? ==> r.value.prevCpuIdleCounter == cpuIdleCounter
    ensures r.Success? ==> r.value.(lastIdle := s.lastIdle, prevCpuIdleCounter := s.prevCpuIdleCounter) == s
    ensures r.Success? ==>
              r.value.lastIdle == if CpuBusy(cpuIdleCounter - s.prevCpuIdleCounter, threads, maxCpuPercent, s.now - s.prevCheck)
                                  then s.now else s.lastIdle
  {
    var elapsed := s.now - s.prevCheck;
    if elapsed == 0 then Failure(ZeroElapsedTime)
    else
      var idleDelta := cpuIdleCounter - s.prevCpuIdleCounter;
      var averageCpuIdle := AverageCpuIdle(idleDelta, threads, elapsed);
      CpuRatioCrossMultiplied(idleDelta, threads, maxCpuPercent, elapsed);
      var checked := if averageCpuIdle < IdleThreshold(maxCpuPercent) then ResetIdle(s) else s;
      Success(checked.(prevCpuIdleCounter := cpuIdleCounter))
  }

  /** With at most 5% CPU usage allowed, 4 threads and 10 s since the previous
      tick: an idle counter that grew by 39.6 s (99% idle) keeps the idle clock,
      one that grew by 20 s (50% idle) resets it. */
  lemma CpuExamples(s: State)
    requires s.now == s.prevCheck + 10 * MicrosPerSecond
    ensures CheckCpu(s, s.prevCpuIdleCounter + 39.6, 4, 5).value.lastIdle == s.lastIdle
    ensures CheckCpu(s, s.prevCpuIdleCounter + 20.0, 4, 5).value.lastIdle == s.now
  {
  }

  /** The network test in terms of packet deltas: interface churn, or more than
      `limit` packets received or sent since the previous sample. */
  predicate NetBusy(prev: NetStat, cur: NetStat, limit: int) {
    || cur.ifname != prev.ifname
    || cur.rxPackets - prev.rxPackets > limit
    || cur.txPackets - prev.txPackets > limit
  }

  /** Network check: a full reset on interface change or too much traffic; the
      sample becomes the new baseline. */
  function CheckNet(s: State, cur: NetStat, limit: int): (r: State)
    ensures r.prevNetStat == cur
    ensures r.(lastIdle := s.lastIdle, prevNetStat := s.prevNetStat) == s
    ensures r.lastIdle == if NetBusy(s.prevNetStat, cur, limit) then s.now else s.lastIdle
  {
    var prev := s.prevNetStat;
    var checked :=
      if cur.ifname != prev.ifname || cur.rxPackets > prev.rxPackets + limit || cur.txPackets > prev.txPackets + limit
      then ResetIdle(s) else s;
    checked.(prevNetStat := cur)
  }

  /** A change of interface forces a full reset whatever the counters say,
      including counters that went down. */
  lemma InterfaceChangeResets(s: State, cur: NetStat, limit: int)
    requires cur.ifname != s.prevNetStat.ifname
    ensures CheckNet(s, cur, limit).lastIdle == s.now
  {
  }

  /** After a reset the baseline carries the sentinel name, so the first network
      check resets the idle clock whenever some interface is UP (and is not itself
      named like the sentinel); with no interface UP and a non-negative limit it does not. */
  lemma FirstNetCheckAfterReset(s: State, ifaces: seq<Interface>, limit: int, k: nat)
    requires s.prevNetStat == NoInterface()
    requires k < |ifaces| && IsUp(ifaces[k]) && ifaces[k].ifname != NoUpInterface
    requires forall j | 0 <= j < k :: !IsUp(ifaces[j])
    ensures CheckNet(s, FirstUp(ifaces), limit).lastIdle == s.now
  {
  }

  lemma NoUpInterfaceAfterReset(s: State, ifaces: seq<Interface>, limit: int)
    requires s.prevNetStat == NoInterface() && limit >= 0
    requires forall j | 0 <= j < |ifaces| :: !IsUp(ifaces[j])
    ensures CheckNet(s, FirstUp(ifaces), limit) == s
  {
  }

  /** Input check under X: when the user's idle time `xIdleMs` (milliseconds) is
      shorter than the wanted idle duration, the idle clock moves forward to the
      user's last input; otherwise nothing changes. */
  function CheckX(s: State, xIdleMs: int, wanted: int): (r: State)
    ensures r.(lastIdle := s.lastIdle) == s
    ensures r.lastIdle >= s.lastIdle
    ensures xIdleMs * MicrosPerMilli >= wanted ==> r == s
    ensures xIdleMs * MicrosPerMilli < wanted ==> r.lastIdle >= s.now - xIdleMs * MicrosPerMilli
    ensures r.lastIdle == s.lastIdle || r.lastIdle == s.now - xIdleMs * MicrosPerMilli
  {
    var xIdle := xIdleMs * MicrosPerMilli;
    if xIdle < wanted then ResetIdleBy(s, xIdle) else s
  }
}
