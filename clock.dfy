/** The calendar constant the package defines beside its global clock. */
module Clock {
  import opened GoTime

  /** `Day` represents a full day. */
  const Day: Duration := 24 * Hour
}
