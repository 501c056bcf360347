/** Sleep requests and the wake-up alarm (`go_to_sleep`, `program_wakeup`, and
    the alarm handling of `reset`).

    Instants are microseconds counted from a local midnight, so an instant's
    day index is `now / MicrosPerDay` and its time of day `now % MicrosPerDay`. */
module Wakeup {
  import opened Wrappers
  import opened Clock

  const MicrosPerDay: int := 86_400_000_000

  function TimeOfDayMicros(t: Time): (m: nat)
    requires InRange(t)
    ensures m < MicrosPerDay
  {
    ((t.hour * 60 + t.minute) * 60 + t.second) * 1_000_000
  }

  lemma DayDecomposition(day: int, offset: int)
    requires 0 <= offset < MicrosPerDay
    ensures (day * MicrosPerDay + offset) % MicrosPerDay == offset
    ensures (day * MicrosPerDay + offset) / MicrosPerDay == day
  {
  }

  /** The wake-up instant: the configured time of day on the date of `now`, or
      on the next date when that is already strictly in the past. */
  function NextWakeup(now: int, t: Time): (w: int)
    requires InRange(t)
    ensures now <= w < now + MicrosPerDay
    ensures w % MicrosPerDay == TimeOfDayMicros(t)
  {
    var day := now / MicrosPerDay;
    var today := day * MicrosPerDay + TimeOfDayMicros(t);
    DayDecomposition(day, TimeOfDayMicros(t));
    DayDecomposition(day + 1, TimeOfDayMicros(t));
    if today < now then today + MicrosPerDay else today
  }

  /** No instant at or after `now` with the configured time of day comes earlier. */
  lemma NextWakeupIsEarliest(now: int, t: Time, w: int)
    requires InRange(t)
    requires now <= w && w % MicrosPerDay == TimeOfDayMicros(t)
    ensures NextWakeup(now, t) <= w
  {
    var n := NextWakeup(now, t);
    var tod := TimeOfDayMicros(t);
    DayDecomposition(n / MicrosPerDay, tod);
    DayDecomposition(w / MicrosPerDay, tod);
    assert n == (n / MicrosPerDay) * MicrosPerDay + tod;
    assert w == (w / MicrosPerDay) * MicrosPerDay + tod;
  }

  /** Wake-up at 06:00: from 23:00 it is the next morning, from 05:00 the same morning. */
  lemma WakeupExamples(day: int)
    ensures NextWakeup(day * MicrosPerDay + 23 * 3_600_000_000, Time(6, 0, 0))
            == (day + 1) * MicrosPerDay + 6 * 3_600_000_000
    ensures NextWakeup(day * MicrosPerDay + 5 * 3_600_000_000, Time(6, 0, 0))
            == day * MicrosPerDay + 6 * 3_600_000_000
  {
    DayDecomposition(day, 23 * 3_600_000_000);
    DayDecomposition(day, 5 * 3_600_000_000);
  }

  datatype SleepMode = Suspend | Hibernate | HybridSleep

  /** Calls into the power controller: `rtcwake -m no -t …`, `rtcwake -m disable`
      and `systemctl <mode>`. */
  datatype PowerAction = ArmAlarm(at: int) | DisarmAlarm | RequestSleep(mode: SleepMode)

  /** The alarm left armed once `actions` have been carried out, from `alarm`. */
  function AlarmAfter(alarm: Option<int>, actions: seq<PowerAction>): Option<int>
    decreases |actions|
  {
    if actions == [] then alarm
    else
      var next := match actions[0]
        case ArmAlarm(at) => Some(at)
        case DisarmAlarm => None
        case RequestSleep(_) => alarm;
      AlarmAfter(next, actions[1..])
  }

  lemma {:induction false} AlarmAfterAppend(alarm: Option<int>, a: seq<PowerAction>, b: seq<PowerAction>)
    ensures AlarmAfter(alarm, a + b) == AlarmAfter(AlarmAfter(alarm, a), b)
    decreases |a|
  {
    if a != [] {
      assert (a + b)[1..] == a[1..] + b;
      var next := match a[0]
        case ArmAlarm(at) => Some(at)
        case DisarmAlarm => None
        case RequestSleep(_) => alarm;
      AlarmAfterAppend(next, a[1..], b);
    } else {
      assert a + b == b;
    }
  }

  /** What `reset` asks of the power controller: disarm any alarm when a wake-up
      time is configured, unless pretending. */
  function ResetActions(wakeUp: Option<Time>, pretend: bool): (r: seq<PowerAction>)
    ensures |r| <= 1 && forall k | 0 <= k < |r| :: r[k] == DisarmAlarm
    ensures forall alarm :: AlarmAfter(alarm, r) == if wakeUp.Some? && !pretend then None else alarm
  {
    if wakeUp.Some? && !pretend then [DisarmAlarm] else []
  }

  /** What `program_wakeup` asks of the power controller. */
  function ProgramActions(now: int, wakeUp: Option<Time>, pretend: bool): (r: seq<PowerAction>)
    requires wakeUp.Some? ==> InRange(wakeUp.value)
    ensures |r| <= 1 && forall k | 0 <= k < |r| :: r[k].ArmAlarm?
    ensures forall alarm :: AlarmAfter(alarm, r) == if wakeUp.Some? && !pretend then Some(NextWakeup(now, wakeUp.value)) else alarm
  {
    if wakeUp.Some? && !pretend then [ArmAlarm(NextWakeup(now, wakeUp.value))] else []
  }

  /** What the sleep request itself asks of the power controller: `systemctl <mode>`
      unless pretending. It leaves the alarm alone. */
  function SleepActions(mode: SleepMode, pretend: bool): (r: seq<PowerAction>)
    ensures pretend ==> r == []
    ensures !pretend ==> r == [RequestSleep(mode)]
    ensures forall alarm :: AlarmAfter(alarm, r) == alarm
  {
    if pretend then [] else [RequestSleep(mode)]
  }

  /** `go_to_sleep` as written: program the alarm, then reset (which disarms it),
      then request sleep. */
  function GoToSleepAsWritten(now: int, wakeUp: Option<Time>, mode: SleepMode, pretend: bool): (r: seq<PowerAction>)
    requires wakeUp.Some? ==> InRange(wakeUp.value)
    ensures pretend ==> r == []
    ensures !pretend ==> |r| > 0 && r[|r| - 1] == RequestSleep(mode)
    ensures forall k | 0 <= k < |r| - 1 :: !r[k].RequestSleep?
    ensures forall alarm :: AlarmAfter(alarm, r) == if wakeUp.Some? && !pretend then None else alarm
  {
    var program := ProgramActions(now, wakeUp, pretend);
    var reset := ResetActions(wakeUp, pretend);
    var sleep := SleepActions(mode, pretend);
    forall alarm
      ensures AlarmAfter(alarm, program + reset + sleep) == AlarmAfter(AlarmAfter(AlarmAfter(alarm, program), reset), sleep)
    {
      AlarmAfterAppend(alarm, program + reset, sleep);
      AlarmAfterAppend(alarm, program, reset);
    }
    program + reset + sleep
  }

  /** As written, the alarm just programmed is disarmed before the sleep request,
      so no wake-up is pending when the machine goes to sleep, whereas the
      corrected order leaves the next wake-up armed. */
  lemma AsWrittenDisarmsWakeup(now: int, t: Time, mode: SleepMode, alarm: Option<int>)
    requires InRange(t)
    ensures AlarmAfter(alarm, GoToSleepAsWritten(now, Some(t), mode, false)) == None
    ensures AlarmAfter(alarm, GoToSleep(now, Some(t), mode, false)) == Some(NextWakeup(now, t))
    ensures GoToSleepAsWritten(now, Some(t), mode, false)
            == [ArmAlarm(NextWakeup(now, t)), DisarmAlarm, RequestSleep(mode)]
  {
  }

  /** `go_to_sleep` with the reset's disarm moved ahead of programming the alarm:
      when the sleep request is issued, the alarm pending is the next wake-up. */
  function GoToSleep(now: int, wakeUp: Option<Time>, mode: SleepMode, pretend: bool): (r: seq<PowerAction>)
    requires wakeUp.Some? ==> InRange(wakeUp.value)
    ensures pretend ==> r == []
    ensures !pretend ==> |r| > 0 && r[|r| - 1] == RequestSleep(mode)
    ensures forall k | 0 <= k < |r| - 1 :: !r[k].RequestSleep?
    ensures forall alarm :: AlarmAfter(alarm, r) == if wakeUp.Some? && !pretend then Some(NextWakeup(now, wakeUp.value)) else alarm
  {
    var reset := ResetActions(wakeUp, pretend);
    var program := ProgramActions(now, wakeUp, pretend);
    var sleep := SleepActions(mode, pretend);
    forall alarm
      ensures AlarmAfter(alarm, reset + program + sleep) == AlarmAfter(AlarmAfter(AlarmAfter(alarm, reset), program), sleep)
    {
      AlarmAfterAppend(alarm, reset + program, sleep);
      AlarmAfterAppend(alarm, reset, program);
    }
    reset + program + sleep
  }
}
