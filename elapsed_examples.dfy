/** The table cases of the package's tests, stated as lemmas. */
module ElapsedExamples {
  import opened GoTime
  import opened Clock
  import opened Elapsed

  /** 2020-12-30 00:00:00 UTC: 737788 days after the zero time
      (2020 years of 365 days, 490 leap days, less the two last days). */
  const Dec30of2020: Instant := 737788 * Day

  /** Full hours, hour part and remaining time of directly built values. */
  lemma DirectValues()
    ensures DayElapsed(0).FullHours() == 0 && DayElapsed(0).HourPart() == 0.0
    ensures DayElapsed(0).Remaining() == Day
    ensures DayElapsed(30 * Minute).FullHours() == 0
    ensures DayElapsed(30 * Minute).HourPart() == 0.5
    ensures DayElapsed(30 * Minute).Remaining() == 23 * Hour + 30 * Minute
    ensures DayElapsed(60 * Minute).FullHours() == 1
    ensures DayElapsed(60 * Minute).HourPart() == 0.0
    ensures DayElapsed(60 * Minute).Remaining() == 23 * Hour
    ensures DayElapsed(90 * Minute).FullHours() == 1
    ensures DayElapsed(90 * Minute).HourPart() == 0.5
    ensures DayElapsed(90 * Minute).Remaining() == 22 * Hour + 30 * Minute
    ensures DayElapsed(1379 * Minute).FullHours() == 22
    ensures DayElapsed(1379 * Minute).HourPart() == 59.0 / 60.0
    ensures DayElapsed(1379 * Minute).Remaining() == 1 * Hour + 1 * Minute
    ensures DayElapsed(1439 * Minute).FullHours() == 23
    ensures DayElapsed(1439 * Minute).HourPart() == 59.0 / 60.0
    ensures DayElapsed(1439 * Minute).Remaining() == 1 * Minute
    ensures DayElapsed(997 * Minute).FullHours() == 16
    ensures DayElapsed(997 * Minute).HourPart() == 37.0 / 60.0
    ensures DayElapsed(997 * Minute).Remaining() == 7 * Hour + 23 * Minute
  {
  }

  /** An overdue value of 25h30m. */
  lemma OverdueValue()
    ensures DayElapsed(25 * Hour + 30 * Minute).FullHours() == 25
    ensures DayElapsed(25 * Hour + 30 * Minute).HourPart() == 0.5
    ensures DayElapsed(25 * Hour + 30 * Minute).Remaining() == 0
  {
  }

  /** Values built from instants on 2020-12-30 UTC. */
  lemma ConstructedValues()
    ensures NewDayElapsed(Dec30of2020 + 12 * Hour, 0) == DayElapsed(12 * Hour)
    ensures NewDayElapsed(Dec30of2020 + 12 * Hour, 3 * Hour) == DayElapsed(9 * Hour)
    ensures NewDayElapsed(Dec30of2020 + 20 * Hour, 15 * Hour) == DayElapsed(5 * Hour)
  {
  }

  /** A reset later in the day than the instant is not wrapped to the
      previous day: at 00:30 with a 03:00 reset the value is -2h30m. */
  lemma ResetLaterThanNow()
    ensures NewDayElapsed(Dec30of2020 + 30 * Minute, 3 * Hour) == DayElapsed(-150 * Minute)
    ensures NewDayElapsed(Dec30of2020 + 30 * Minute, 3 * Hour).Remaining() == 26 * Hour + 30 * Minute
  {
  }
}
