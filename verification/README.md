# sleep-when-idle, idle-decision core in Dafny

`sleep-when-idle` is a daemon that puts a Linux machine to sleep once it has been
idle long enough. At a fixed measurement period it samples the enabled activity
signals: the cumulated CPU idle time, the packet counters of the first UP network
interface, and the X server's idle time for one user. Each busy signal moves the
"last idle" instant forward. When the system has been idle for strictly more than
the wanted duration, the daemon requests sleep. It can first arm an RTC alarm so
the machine wakes at a configured time of day.

This project models that decision logic as pure functions over an explicit tracker
state:

- `Digits`, `Duration`, `Clock`: the two command-line parsers (`parse_duration`,
  `parse_time`). They are recognisers over `seq<char>` that stand in for the
  source's regular expressions. Each parser has a rendering function and is proved
  to accept exactly the strings those renderings produce.
- `NetStats`: the network sample `NetStat` and the first-UP-interface selection of
  `get_net_stat`.
- `Tracker`: the dynamic context (`reset`, `reset_idle`) and the three checks
  (`check_cpu`, `check_net`, `check_x_user_input`). The probe values are passed in
  as parameters.
- `Wakeup`: the wake-up instant (`program_wakeup`) and the calls the daemon makes
  to the power controller. These calls are arming the alarm, disarming it, and
  requesting sleep.
- `Scheduler`: one iteration of the `run` loop as `Tick`. `SleepTimes` runs a
  sequence of ticks and lists the instants at which sleep is requested.

Instants and durations are integers counting microseconds, which is the resolution
of the source's `datetime` and `timedelta`. The X idle time stays in milliseconds,
as `xprintidle` reports it, and is multiplied by 1000. The CPU idle counter is an
exact `real`. Wake-up instants count from a local midnight. So the day index of an
instant is `now / MicrosPerDay`.

Points of the code's behaviour the model follows:

- A tick that detects a missed period only resets the idle clock. The CPU and
  network checks still run in that tick, against their previous baselines.
- The sleep threshold is strict (`now > last_idle + wanted`). So with no signal
  enabled, a 10 s requirement and a 5 s period, ticks exactly on schedule request
  sleep at the third tick, 15 s after start-up (`Scheduler.NoSignalsScenario`).
  A second tick later than 10 s, which the re-read clock normally gives, already
  requests sleep (`Scheduler.LateTicksScenario`).
- A failing probe raises out of the loop.
- A zero elapsed time in the CPU check raises a division error (`Fault`). A
  negative elapsed time, which a tick sees when the wall clock was stepped back
  during the wait, is divided through, which flips the comparison.
- Nothing disarms the alarm when the daemon terminates.

## Model

| member | source | states |
|---|---|---|
| `Digits.DigitRun` | sleep-when-idle.py:52 | The greedy `\d+` run: its length is at most the string's length, everything before it is a digit, and the character after it is not a digit |
| `Duration.Split` | sleep-when-idle.py:51-54 | Any cut of a string into `(\d+)<unit>` terms consists of valid terms and renders back to the string |
| `Duration.SplitRender` | sleep-when-idle.py:51-54 | Valid terms written out in any order are cut back into exactly those terms, so the cut is unique |
| `Duration.MatchUnits` | sleep-when-idle.py:51-55 | A unit-form match consists of valid terms whose units strictly follow the order y, M, w, d, h, m, s, and it renders back to the input |
| `Duration.CascadeSeconds` | sleep-when-idle.py:60-67 | The cascade as the source writes it (years, months and weeks into days, then days into hours, hours into minutes, minutes into seconds) equals the flat sum of each group times its length in seconds: 31 536 000, 2 592 000, 604 800, 86 400, 3 600, 60 and 1 |
| `Duration.CascadeIsWeightedSum` | sleep-when-idle.py:60-67 | The source's cascade (larger units into days, then days into hours, hours into minutes, minutes into seconds) equals the sum of each count times its unit's weight: y=365 d, M=30 d, w=7 d, d=24 h, h=60 m, m=60 s |
| `Duration.ParseDuration` | sleep-when-idle.py:35-67 | Every accepted duration is at least 0 seconds. The empty string matches the all-optional unit form and gives 0 whole seconds. A rejection is a ValueError carrying the input |
| `Duration.ParseUnitForm` | sleep-when-idle.py:51-67 | A string written in unit form, units in order, parses to whole seconds equal to the weighted sum of its counts. Lower-case `m` counts minutes and upper-case `M` counts months |
| `Duration.ParseWholeIsUnitForm` | sleep-when-idle.py:51-67 | Conversely, every whole-seconds result comes from a unit form in order, and its value is that form's weighted sum |
| `Duration.OutOfOrderRejected` | sleep-when-idle.py:51-58 | Units out of the fixed order, or a unit given twice, fail the unit form and the number form, so the string is rejected |
| `Duration.MatchDecimalRender` | sleep-when-idle.py:57 | The number form `\d+(?:\.\d*)?` recovers the whole part and the optional fraction it was written from |
| `Duration.MatchDecimal` | sleep-when-idle.py:57 | A string the number form `\d+(?:\.\d*)?` accepts is cut into a non-empty digit run and an optional all-digit fraction that render back to the string |
| `Duration.ParseDecimalForm` | sleep-when-idle.py:55-59 | A plain number with an optional `.` and fraction parses to its exact decimal value in seconds |
| `Duration.ParseDecimalIsDecimalForm` | sleep-when-idle.py:55-59 | Conversely, every decimal result comes from a string in the number form, and it is that string's value |
| `Duration.ParseDurationRejects` | sleep-when-idle.py:51-59 | The parser rejects a string if and only if the string is in neither the ordered unit form nor the number form |
| `Clock.ParseTime` | sleep-when-idle.py:70-84 | Every accepted time lies in range: hour below 24, minute below 60, second below 60 |
| `Clock.MatchTime` | sleep-when-idle.py:75-81 | A string the form `(\d{1,2}):(\d{2})(?::(\d{2}))?` accepts has 4, 5, 7 or 8 characters with a `:` three from the end, every field it yields is below 100, and without a seconds field the seconds read as 0 |
| `Clock.FormatMatches` | sleep-when-idle.py:75-81 | The `H:MM`, `HH:MM`, `H:MM:SS` and `HH:MM:SS` writings of a time match the form and give back its fields. A missing seconds field reads as 0 |
| `Clock.MatchIsFormatted` | sleep-when-idle.py:75-81 | Every string the form accepts is one of those four writings of the time it yields: 1-2 digit hour, `:`, 2-digit minute, optionally `:` and a 2-digit second |
| `Clock.ParseTimeRoundTrip` | sleep-when-idle.py:75-84 | An in-range time in any accepted writing parses back to itself |
| `Clock.ParseTimeRejectsRange` | sleep-when-idle.py:82-83 | A well-formed time with hour 24 or more, or minute or second 60 or more, is rejected as out of range |
| `Clock.ParseTimeAccepts` | sleep-when-idle.py:75-84 | The parser returns a time if and only if the time is in range and the input is one of its four writings |
| `NetStats.FirstUp` | sleep-when-idle.py:99-120 | The result is the statistics of the first interface in listing order whose state is UP. With none UP it is the default sample: name "No UP interface", zero counters |
| `Tracker.Reset` | sleep-when-idle.py:230-237 | A fresh context. The current instant, the idle clock and the previous tick are all the reset instant. The CPU baseline is 0 and the network baseline is the sentinel sample |
| `Tracker.ResetIdle` | sleep-when-idle.py:293-299 | A full reset puts the idle clock at the current instant and changes nothing else |
| `Tracker.ResetIdleIdempotent` | sleep-when-idle.py:293-299 | Applying a full reset twice gives the same context as applying it once |
| `Tracker.ResetIdleBy` | sleep-when-idle.py:300-304 | A partial reset by `delta` makes the idle clock the later of its old value and `now - delta`. It never moves the clock earlier and changes nothing else |
| `Tracker.ResetIdleByForwardOnly` | sleep-when-idle.py:300-304 | A partial reset never moves the idle clock earlier, and repeating it changes nothing |
| `Tracker.IdleThreshold` | sleep-when-idle.py:215-217 | The idle threshold is `1 - max/100`: a hundred times it is `100 - max`, and for a percentage between 0 and 100 it lies between 0 and 1. This restates the formula in the scaled form; its use in the CPU test is stated by `Tracker.CpuRatioCrossMultiplied` |
| `Tracker.CpuRatioCrossMultiplied` | sleep-when-idle.py:306-317 | For a positive elapsed time, the source's test `(cur - prev) / threads / seconds < 1 - max/100` holds if and only if `(cur - prev)·100 < (100 - max)·threads·seconds`. For a negative elapsed time the comparison is reversed |
| `Tracker.CheckCpu` | sleep-when-idle.py:306-321 | It raises exactly when no time has elapsed since the previous tick. Otherwise it does a full reset exactly when the multiplied-out test says busy. The new counter becomes the CPU baseline, and nothing else changes |
| `Tracker.CpuExamples` | sleep-when-idle.py:306-321 | With at most 5% usage allowed, 4 threads and 10 s elapsed, a 99% idle period keeps the idle clock and a 50% idle period resets it |
| `Tracker.CheckNet` | sleep-when-idle.py:323-336 | It does a full reset exactly when the interface name changed or the received or sent packets grew by more than the limit. The sample always becomes the new baseline, and nothing else changes |
| `Tracker.InterfaceChangeResets` | sleep-when-idle.py:328-334 | A change of interface name forces a full reset whatever the counters do, including counters that went down |
| `Tracker.FirstNetCheckAfterReset` | sleep-when-idle.py:328-336 | After a reset the baseline is the sentinel sample. So the first network check does a full reset whenever some interface is UP, unless that interface is itself named "No UP interface" |
| `Tracker.NoUpInterfaceAfterReset` | sleep-when-idle.py:328-336 | After a reset, if no interface is UP, a network check with a non-negative limit leaves the context unchanged |
| `Tracker.CheckX` | sleep-when-idle.py:354-361 | If the user's X idle time is below the wanted duration, the idle clock moves forward to the user's last input (never earlier). Otherwise the context is unchanged |
| `Wakeup.NextWakeup` | sleep-when-idle.py:374-384 | The wake-up instant has the configured time of day and lies in `[now, now + 1 day)`. It is on today's date unless that time is strictly before `now`, and then on tomorrow's |
| `Wakeup.NextWakeupIsEarliest` | sleep-when-idle.py:377-384 | No instant at or after `now` with the configured time of day is earlier than the computed wake-up |
| `Wakeup.WakeupExamples` | sleep-when-idle.py:377-384 | With a wake time of 06:00: from 23:00 the wake-up is 06:00 the next day, and from 05:00 it is 06:00 the same day |
| `Wakeup.ResetActions` | sleep-when-idle.py:239-248 | A reset makes at most one call, and only a disarm: it disarms any alarm when a wake-up time is configured and the daemon is not pretending. Otherwise it makes no call and the alarm is left alone |
| `Wakeup.ProgramActions` | sleep-when-idle.py:386-396 | Programming the wake-up makes at most one call, and only an arm: it arms the alarm at the computed wake-up instant unless the daemon is pretending, and otherwise makes no call |
| `Wakeup.SleepActions` | sleep-when-idle.py:370-372 | Unless pretending, the sleep request is exactly one `systemctl <mode>` call; when pretending no call is made. Either way the alarm is left as it was |
| `Wakeup.GoToSleepAsWritten` | sleep-when-idle.py:363-372 | As written: when pretending no call is made. Otherwise the sleep request is made once, as the last call. With a wake-up time configured and not pretending, no alarm is left armed; otherwise the alarm is left as it was |
| `Wakeup.AsWrittenDisarmsWakeup` | sleep-when-idle.py:363-372 | As written, a sleep with a wake-up time configured is the call sequence arm, disarm, sleep, and leaves no alarm armed, whereas the corrected order leaves the next wake-up armed |
| `Wakeup.GoToSleep` | sleep-when-idle.py:363-372 | Corrected sequence: the sleep request comes last and only once, and the alarm then armed is the next wake-up. When pretending, no calls are made |
| `Scheduler.Start` | sleep-when-idle.py:230-248 | Start-up gives a fresh context. Its only possible power call is a disarm, made when a wake-up time is configured and the daemon is not pretending; otherwise the alarm is left alone |
| `Scheduler.MissedPeriod` | sleep-when-idle.py:258-266 | A period counts as missed exactly when more than two periods have elapsed since the previous tick. This restates the test; what a missed period does is stated by `Scheduler.TickAfterMissedPeriod` |
| `Scheduler.Evaluate` | sleep-when-idle.py:265-282 | The checks raise exactly when the CPU check would divide by zero. Each enabled check takes its new baseline and each disabled one keeps the old baseline. The idle clock becomes `now` on a missed period, a busy CPU or a busy network, and otherwise keeps its value; only if that leaves the system idle for strictly more than the wanted duration and X is watched, it then moves to the last X input when that is more recent than the wanted duration |
| `Scheduler.Tick` | sleep-when-idle.py:255-289 | Every tick ends with the previous tick set to `now`, whatever the clock read, backward steps included. Sleep is requested exactly when `now` is strictly past the idle clock the checks leave plus the wanted duration, and the context is then reset. Without sleep, the context is the checks' result with the previous tick set to `now` and no power call is made. The wake-up instant is computed exactly when sleep is requested with a wake time configured. A sleeping tick makes exactly the calls of `go_to_sleep` as written: one sleep request, last, unless pretending, which makes no call; a wake-up alarm is disarmed again before that request |
| `Scheduler.TickCorrected` | sleep-when-idle.py:363-372 | With the corrected `go_to_sleep`, a tick differs from `Tick` only in its power calls, and the alarm left armed is the wake-up it computed, within a day of `now` |
| `Scheduler.TickLosesWakeup` | sleep-when-idle.py:363-372 | A tick that sleeps with a wake-up time and without pretending leaves no alarm as written, while the corrected tick leaves its wake-up armed |
| `Scheduler.TickAfterMissedPeriod` | sleep-when-idle.py:265-275 | When more than two periods have passed, the tick does a full reset, requests no sleep, and still runs the enabled CPU and network checks and takes their baselines |
| `Scheduler.TickBusySignal` | sleep-when-idle.py:269-286 | A busy CPU or a busy network restarts the idle clock at `now` and rules out sleep in that tick |
| `Scheduler.TickRecentInput` | sleep-when-idle.py:277-286 | With X input watched, a tick requests no sleep while the user's idle time is below the wanted duration |
| `Scheduler.XCheckGated` | sleep-when-idle.py:277-282 | While the other signals do not yet leave the system idle for strictly more than the wanted duration, the X idle value has no effect on the tick, because the probe is not consulted |
| `Scheduler.SleepTimes` | sleep-when-idle.py:253-289 | Running the loop over a sequence of steps yields no more sleep instants than steps, and the i-th sleep instant is the instant of a step at position i or later. When the first tick succeeds and requests sleep, its instant comes first |
| `Scheduler.TickQuiet` | sleep-when-idle.py:265-286 | With no missed period and every enabled signal quiet, the idle clock is kept. Sleep is requested if and only if `now > last_idle + wanted` |
| `Scheduler.SleepsSpacedOut` | sleep-when-idle.py:284-289 | Over any on-schedule run, consecutive sleep requests are more than the wanted duration apart. The first is more than that after any instant not later than the idle clock and the previous tick |
| `Scheduler.DaemonSleepsSpacedOut` | sleep-when-idle.py:250-289 | From start-up at `t0`, the first sleep request comes more than the wanted duration after `t0`, and sleep is never requested twice within the wanted duration |
| `Scheduler.NoSignalsScenario` | sleep-when-idle.py:284-286 | With no signal, a 10 s requirement and a 5 s period, ticks exactly on schedule request sleep only at 15 s. At 10 s the idle time only equals the requirement |
| `Scheduler.LateTicksScenario` | sleep-when-idle.py:255-289 | With the same settings and ticks each a microsecond late, as the re-read clock gives, the second tick (just past 10 s) already requests sleep |

`Scheduler.Tick` follows the code and calls `Wakeup.GoToSleepAsWritten`.
`Scheduler.TickCorrected` calls the corrected `Wakeup.GoToSleep` instead (see
Findings). The two agree on everything but the power calls, so the properties of
the loop's sleep decisions hold for both.

## Left out

- Argument parsing and logging set-up (`argparse`, `logging.basicConfig`), as plumbing. A `Config` record stands in for the parsed options.
- Conversion of a parsed duration into a `timedelta`. `Config` takes the wanted duration and the period already in microseconds, and the rounding of fractional seconds to microseconds is not modelled.
- Signal handlers, the interruptible `threading.Event` wait and loop termination, because they are concurrency. A tick takes as input whatever instant the clock reads after the wait.
- `Scheduler.SleepsSpacedOut`, `Scheduler.DaemonSleepsSpacedOut`: proved only for on-schedule runs, where each tick comes at least one period after the previous one. The loop re-reads the wall clock after its wait without checking it, so a clock stepped backward (an NTP step, a manual change) can bring two sleep requests closer than the wanted duration by that clock; `Tick` itself accepts such instants.
- All subprocess and file I/O. This covers `/proc/uptime`, `ip -j -s link` with its JSON decoding, `runuser … xprintidle`, `rtcwake` and `systemctl`. Probe results are parameters, and power calls are returned as a list of `PowerAction`s.
- Probe failures. A failing command raises out of `run` and ends the daemon; the model only takes successful probe values.
- The start-up check that `xprintidle` is reachable, because it is a probe call whose result is discarded.
- `multiprocessing.cpu_count`, a foreign call. The thread count is a positive `Config` field.
- Bounded date arithmetic. The source's `datetime` and `timedelta` values have a limited range, and sums such as `last_idle + wanted` (lines 280 and 285), `prev_check + period` (255) and `next_check + period` (266) raise `OverflowError` past it, ending the daemon. Instants and durations here are unbounded integers, so a huge wanted duration (`-t 8000y`) makes the model's ticks never sleep instead of failing.
- Time zones and DST. The local timeline is taken as uniform. `reset` re-reads the clock rather than reusing the tick's instant, but the model uses the tick's instant.
- IEEE floating point. The CPU ratio and unitless durations are exact reals.
- Non-ASCII decimal digits, which Python's `\d` and `int` also accept. The recognisers take ASCII digits only.
- `Tracker.FirstNetCheckAfterReset`: assumes the first UP interface is not itself named "No UP interface". With that name, the first check compares counters instead.

## Findings

| source | as written | input that shows it | evidently intended | confidence | as-written member | corrected member |
|---|---|---|---|---|---|---|
| sleep-when-idle.py:363-372 | `go_to_sleep` arms the RTC alarm (`rtcwake -m no -t …`). It then calls `reset()`, which runs `rtcwake -m disable`, and only then requests sleep | any tick that requests sleep with `--wake-up` set and without `--pretend` | the alarm just programmed is still armed when sleep is requested, so the machine wakes at the configured time | medium, not executed | `Wakeup.AsWrittenDisarmsWakeup` | `Wakeup.GoToSleep` |
