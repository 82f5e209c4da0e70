/**
 * The day-boundary elapsed-time calculator: how much of the current day has
 * passed since a daily reset time, in whole hours, as a fraction of the
 * current hour, and how much of the day is left.
 */
module Elapsed {
  import opened GoTime
  import opened Clock

  /** Elapsed time during a day; a `time.Duration` in nanoseconds. Built by
      `NewDayElapsed`, or directly from any duration (an "overdue" value when
      it is a day or more). */
  datatype DayElapsed = DayElapsed(nanos: Duration) {

    /** Full hours of the current day: the floor of the value in hours. */
    function FullHours(): (h: int)
      ensures h * Hour <= nanos < (h + 1) * Hour
    {
      Hours(nanos).Floor
    }

    /** The fraction of the current hour that has elapsed: the fractional part
        of the value in hours, as `math.Modf` gives it (it keeps the sign of
        the value, so a negative value gives a fraction in (-1, 0]). */
    function HourPart(): (f: real)
      ensures 0 <= nanos ==> 0.0 <= f < 1.0
      ensures nanos < 0 ==> -1.0 < f <= 0.0
      ensures (Hours(nanos) - f).Floor as real == Hours(nanos) - f
    {
      var h := Hours(nanos);
      var whole := if h >= 0.0 then h.Floor else -((-h).Floor);
      h - whole as real
    }

    /** Remaining time of the day, never below zero. */
    function Remaining(): (r: Duration)
      ensures r >= 0
      ensures r == 0 <==> nanos >= Day
      ensures r > 0 ==> r + nanos == Day
    {
      var remaining := Day - nanos;
      if remaining < 0 then 0 else remaining
    }
  }

  /** Time since the most recent UTC midnight: the unique duration in
      [0, Day) that takes `t` back to a whole number of days. */
  function TimeOfDay(t: Instant): (d: Duration)
    ensures 0 <= d < Day
    ensures (t - d) % Day == 0
  {
    t - Truncate(t, Day)
  }

  /** `NewDayElapsed(current, shift)`: the time elapsed since the reset
      time-of-day `shift` on the UTC day of `current`. Midnight is found by
      truncating the absolute instant; the result is not wrapped to the
      previous day, so a reset later than the time of day gives a negative
      value. */
  function NewDayElapsed(current: Instant, shift: Duration): (e: DayElapsed)
    ensures 0 <= e.nanos + shift < Day
    ensures (current - (e.nanos + shift)) % Day == 0
  {
    var midnight := Truncate(current, Day);
    var nowWithoutElapsed := Add(current, -shift);
    DayElapsed(Sub(nowWithoutElapsed, midnight))
  }

  /** There is only one time of day for an instant. */
  lemma TimeOfDayUnique(t: Instant, d: Duration)
    requires 0 <= d < Day && (t - d) % Day == 0
    ensures TimeOfDay(t) == d
  {
    TruncateUnique(t, Day, t - d);
  }

  /** The calculator is the UTC time of day minus the reset offset. */
  lemma NewDayElapsedIsTimeOfDayMinusShift(current: Instant, shift: Duration)
    ensures NewDayElapsed(current, shift).nanos == TimeOfDay(current) - shift
  {
    TimeOfDayUnique(current, NewDayElapsed(current, shift).nanos + shift);
  }

  /** With a reset in [0, time of day], the value lies within the day. */
  lemma NewDayElapsedWithinDay(current: Instant, shift: Duration)
    requires 0 <= shift <= TimeOfDay(current)
    ensures 0 <= NewDayElapsed(current, shift).nanos < Day
  {
    NewDayElapsedIsTimeOfDayMinusShift(current, shift);
  }

  /** There is no wraparound: the value is negative exactly when the reset
      lies later in the day than the current time of day. */
  lemma NewDayElapsedNegativeIff(current: Instant, shift: Duration)
    ensures NewDayElapsed(current, shift).nanos < 0 <==> shift > TimeOfDay(current)
  {
    NewDayElapsedIsTimeOfDayMinusShift(current, shift);
  }

  /** Moving the instant by whole days does not change the value. */
  lemma NewDayElapsedPeriodic(current: Instant, shift: Duration, days: int)
    ensures NewDayElapsed(current + days * Day, shift) == NewDayElapsed(current, shift)
  {
    var d := TimeOfDay(current);
    var t := current + days * Day;
    assert t - d == (current - d) + days * Day;
    ModShift(current - d, days);
    TimeOfDayUnique(t, d);
    NewDayElapsedIsTimeOfDayMinusShift(current, shift);
    NewDayElapsedIsTimeOfDayMinusShift(t, shift);
  }

  /** Two instants give the same value for a reset offset exactly when they
      lie a whole number of days apart. */
  lemma NewDayElapsedEqualIff(a: Instant, b: Instant, shift: Duration)
    ensures NewDayElapsed(a, shift) == NewDayElapsed(b, shift) <==> exists days :: b == a + days * Day
  {
    NewDayElapsedIsTimeOfDayMinusShift(a, shift);
    NewDayElapsedIsTimeOfDayMinusShift(b, shift);
    if NewDayElapsed(a, shift) == NewDayElapsed(b, shift) {
      var days := (b - a) / Day;
      assert b == a + days * Day;
    } else if exists days :: b == a + days * Day {
      var days :| b == a + days * Day;
      NewDayElapsedPeriodic(a, shift, days);
      assert false;
    }
  }

  /** For a reset offset `shift`, the values the calculator gives are exactly
      those in [-shift, Day - shift): each of them is reached by an instant. */
  lemma NewDayElapsedRange(shift: Duration, v: Duration)
    requires 0 <= v + shift < Day
    ensures exists current :: NewDayElapsed(current, shift).nanos == v
  {
    var current := v + shift;
    TimeOfDayUnique(current, current);
    NewDayElapsedIsTimeOfDayMinusShift(current, shift);
    assert NewDayElapsed(current, shift).nanos == v;
  }

  /** Adding whole days keeps a whole number of days whole. */
  lemma ModShift(x: int, days: int)
    requires x % Day == 0
    ensures (x + days * Day) % Day == 0
  {
    MultipleMod(x / Day + days, Day);
    assert x + days * Day == (x / Day + days) * Day;
  }

  /** At the reset instant itself the day starts afresh. */
  lemma NewDayElapsedAtReset(current: Instant)
    ensures NewDayElapsed(current, TimeOfDay(current)) == DayElapsed(0)
    ensures NewDayElapsed(current, TimeOfDay(current)).Remaining() == Day
    ensures NewDayElapsed(current, TimeOfDay(current)).FullHours() == 0
  {
    NewDayElapsedIsTimeOfDayMinusShift(current, TimeOfDay(current));
  }

  /** With a reset in [0, time of day], the value and what remains make a
      day, and some of the day always remains. */
  lemma NewDayElapsedRemaining(current: Instant, shift: Duration)
    requires 0 <= shift <= TimeOfDay(current)
    ensures 0 < NewDayElapsed(current, shift).Remaining() <= Day
    ensures NewDayElapsed(current, shift).nanos + NewDayElapsed(current, shift).Remaining() == Day
  {
    NewDayElapsedWithinDay(current, shift);
  }

  /** With a reset later than the time of day, more than a day remains. */
  lemma NewDayElapsedRemainingBeforeReset(current: Instant, shift: Duration)
    requires shift > TimeOfDay(current)
    ensures NewDayElapsed(current, shift).Remaining() == Day - TimeOfDay(current) + shift
    ensures NewDayElapsed(current, shift).Remaining() > Day
  {
    NewDayElapsedIsTimeOfDayMinusShift(current, shift);
  }

  /** Within the day, the full hours count from 0 to 23. */
  lemma FullHoursWithinDay(e: DayElapsed)
    requires 0 <= e.nanos < Day
    ensures 0 <= e.FullHours() <= 23
  {
  }

  /** The full hours are the only whole number of hours the value lies in. */
  lemma FullHoursUnique(e: DayElapsed, h: int)
    requires h * Hour <= e.nanos < (h + 1) * Hour
    ensures e.FullHours() == h
  {
  }

  /** For a non-negative value, the full hours and the hour part together
      are the value in hours. */
  lemma FullHoursPlusHourPart(e: DayElapsed)
    requires e.nanos >= 0
    ensures e.FullHours() as real + e.HourPart() == Hours(e.nanos)
  {
  }

  /** For a negative value the two disagree: `FullHours` rounds down, while
      the hour part is signed like the value, so they add up to a whole hour
      less than the value in hours. */
  lemma FullHoursPlusHourPartNegative()
    ensures DayElapsed(-90 * Minute).FullHours() == -2
    ensures DayElapsed(-90 * Minute).HourPart() == -0.5
    ensures Hours(-90 * Minute) == -1.5
  {
  }

  /** Overdue values, a day or more, leave nothing remaining. */
  lemma RemainingOverdue(e: DayElapsed)
    requires e.nanos >= Day
    ensures e.Remaining() == 0
  {
  }

  /** Within [0, Day], the value and what remains add up to a day. */
  lemma RemainingComplement(e: DayElapsed)
    requires 0 <= e.nanos <= Day
    ensures e.Remaining() + e.nanos == Day
  {
  }

  /** Only the lower bound is clamped: a negative value leaves more than a
      day. */
  lemma RemainingNegative(e: DayElapsed)
    requires e.nanos < 0
    ensures e.Remaining() == Day - e.nanos
    ensures e.Remaining() > Day
  {
  }
}
