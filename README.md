# go-clock: the day-boundary elapsed-time calculator

A Dafny model of `DayElapsed` from the Go package `clock`. `DayElapsed` is a
duration in nanoseconds. It measures how much of the current day has passed
since a daily reset time-of-day. `NewDayElapsed(current, shift)` computes it
from an instant and a reset offset. `FullHours`, `HourPart` and `Remaining`
give the whole hours, the fraction of the current hour and the time left
until the end of the day.

Modules:

- `GoTime` (gotime.dfy): the parts of Go's `time` package that the calculator
  uses. A `Duration` is an `int` count of nanoseconds. An `Instant` is an `int`
  count of nanoseconds since Go's zero time, 0001-01-01 UTC. `Truncate(t, d)`
  is `t - t % d`; Dafny's `%` is never negative, as in Go's `Truncate`, which
  works on the absolute instant. `Add`, `Sub` and `Hours` are plain definitions of
  Go's `Time.Add`, `Time.Sub` and `Duration.Hours`, the last as an exact real.
- `Clock` (clock.dfy): the constant `Day`, 24 hours.
- `Elapsed` (elapsed.dfy): the `DayElapsed` datatype and its operations,
  `NewDayElapsed`, and the properties proved about them.
- `ElapsedExamples` (elapsed_examples.dfy): the package's table tests as
  lemmas.

An instant carries no time zone in this model. Truncation works on the
absolute instant, so two representations of the same UTC moment give the same
value by construction.

`NewDayElapsed` does not wrap to the previous day. When the reset offset is
later than the current UTC time of day, the value is negative, and
`Remaining` is then more than a day. `NewDayElapsedNegativeIff` and
`ResetLaterThanNow` state this behaviour.

## Model

| member | source | states |
|---|---|---|
| `GoTime.Truncate` | elapsed.go:13 | the truncated instant is a multiple of the period, at most the instant and less than one period below it; a non-positive period leaves the instant as it is |
| `GoTime.TruncateUnique` | elapsed.go:13 | any multiple of the period within one period below the instant is the truncated instant |
| `Elapsed.TimeOfDay` | elapsed.go:13-16 | the time since UTC midnight lies in [0, Day) and takes the instant back to a whole number of days |
| `Elapsed.TimeOfDayUnique` | elapsed.go:13-16 | only one duration in [0, Day) takes the instant back to a whole number of days |
| `Elapsed.NewDayElapsed` | elapsed.go:12-18 | the value plus the shift lies in [0, Day), and the instant minus the value plus the shift is a whole number of days |
| `Elapsed.NewDayElapsedIsTimeOfDayMinusShift` | elapsed.go:13-17 | the value is the UTC time of day minus the reset offset |
| `Elapsed.NewDayElapsedWithinDay` | elapsed.go:13-17 | with 0 <= shift <= time of day, the value lies in [0, Day) |
| `Elapsed.NewDayElapsedNegativeIff` | elapsed.go:13-17 | the value is negative if and only if the shift is later than the time of day: there is no wraparound |
| `Elapsed.NewDayElapsedPeriodic` | elapsed.go:13-16 | moving the instant by any whole number of days, forward or back, leaves the value unchanged |
| `Elapsed.NewDayElapsedEqualIff` | elapsed.go:13-17 | two instants give the same value for a reset offset if and only if they lie a whole number of days apart |
| `Elapsed.NewDayElapsedRange` | elapsed.go:12-18 | every duration in [-shift, Day - shift) is the value of some instant, so the bounds of `NewDayElapsed` are exact |
| `Elapsed.NewDayElapsedAtReset` | elapsed.go:12-18 | at the reset instant the value is 0, the full hours are 0 and a whole day remains |
| `Elapsed.NewDayElapsedRemaining` | elapsed.go:36-42 | with 0 <= shift <= time of day, the value and what remains add up to a day, and what remains is in (0, Day] |
| `Elapsed.NewDayElapsedRemainingBeforeReset` | elapsed.go:36-42 | with a shift later than the time of day, what remains is Day minus the time of day plus the shift, more than a day |
| `Elapsed.DayElapsed.FullHours` | elapsed.go:25-27 | the full hours h satisfy h hours <= value < h + 1 hours (the floor, also for negative values) |
| `Elapsed.FullHoursUnique` | elapsed.go:25-27 | any h with h hours <= value < h + 1 hours is the full-hour count |
| `Elapsed.FullHoursWithinDay` | elapsed.go:25-27 | a value in [0, Day) has between 0 and 23 full hours |
| `Elapsed.DayElapsed.HourPart` | elapsed.go:30-33 | the hour part is in [0, 1) for a non-negative value and in (-1, 0] for a negative one, and the value in hours minus it is a whole number |
| `Elapsed.FullHoursPlusHourPart` | elapsed.go:25-33 | for a non-negative value, the full hours plus the hour part are the value in hours |
| `Elapsed.FullHoursPlusHourPartNegative` | elapsed.go:25-33 | for -90 minutes the full hours are -2 and the hour part is -0.5, which do not add up to the -1.5 hours of the value |
| `Elapsed.DayElapsed.Remaining` | elapsed.go:36-42 | what remains is never negative, is 0 exactly when the value is at least a day, and otherwise adds up with the value to a day |
| `Elapsed.RemainingOverdue` | elapsed.go:37-40 | a value of a day or more leaves 0 remaining |
| `Elapsed.RemainingComplement` | elapsed.go:37 | a value in [0, Day] and what remains add up to a day |
| `Elapsed.RemainingNegative` | elapsed.go:37-40 | a negative value leaves Day minus the value, more than a day: only the lower bound is clamped |
| `ElapsedExamples.DirectValues` | elapsed_test.go:19-67 | full hours, hour part and remaining time of the table's directly built values, from midnight to 23:59 |
| `ElapsedExamples.OverdueValue` | elapsed_test.go:68-74 | 25h30m has 25 full hours, an hour part of 0.5 and nothing remaining |
| `ElapsedExamples.ConstructedValues` | elapsed_test.go:95-112 | on 2020-12-30 UTC, 12:00 with reset 0 gives 12h, 12:00 with reset 3h gives 9h, 20:00 with reset 15h gives 5h |
| `ElapsedExamples.ResetLaterThanNow` | elapsed.go:13-17 | on 2020-12-30 UTC, 00:30 with a 03:00 reset gives -2h30m and leaves 26h30m |

## Left out

- The global clock of clock.go (`Clock`, `After`, `AfterFunc`, `Now`, `Since`, `Sleep`, `Tick`, `Ticker`, `Timer`, `Mock`, `Restore`, `init`): each is a one-line call into, or assignment of, an object from the library `github.com/benbjohnson/clock`, which is not part of this model; they hold no logic of their own.
- Concurrent `Mock` and `Restore` on the global clock: concurrency is not modelled.
- `Elapsed.DayElapsed.FullHours`: computed on exact reals, not on float64. Go computes the hours as `float64(d/Hour) + float64(d%Hour)/3.6e12`, and the floor of that agrees with the exact floor for every value under 4096 hours in size.
- `Elapsed.DayElapsed.HourPart`: computed on exact reals, not on float64, so its results are the exact fractions (59/60, not 0.98333…) that the tests compare within a tolerance.
- `time.Duration` and `time.Time` are 64-bit in Go; the model uses unbounded integers, so overflow of durations and of instants far from the zero time is not modelled.
- Go's `time.Time` details: locations, the displayed zone and the monotonic clock reading are not modelled; an instant is only its count of nanoseconds since the zero time.
