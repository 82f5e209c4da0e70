/**
 * The part of Go's `time` package that the day-boundary calculator relies on:
 * durations, absolute instants, `Time.Truncate` and `Duration.Hours`.
 *
 * An instant is the number of nanoseconds since Go's zero time
 * (0001-01-01 00:00:00 UTC). Go's `Truncate` works on that absolute count,
 * whatever zone the value is displayed in, so time zones play no part here.
 */
module GoTime {

  /** A `time.Duration`: a signed count of nanoseconds. */
  type Duration = int

  /** A `time.Time`, as nanoseconds since the zero time. */
  type Instant = int

  const Nanosecond: Duration := 1
  const Microsecond: Duration := 1000 * Nanosecond
  const Millisecond: Duration := 1000 * Microsecond
  const Second: Duration := 1000 * Millisecond
  const Minute: Duration := 60 * Second
  const Hour: Duration := 60 * Minute

  /** `t.Truncate(d)`: `t` rounded down to a multiple of `d` since the zero
      time; `t` itself when `d` is not positive. */
  function Truncate(t: Instant, d: Duration): (m: Instant)
    ensures d <= 0 ==> m == t
    ensures d > 0 ==> m <= t < m + d && m % d == 0
  {
    if d <= 0 then t
    else
      MultipleMod(t / d, d);
      t - t % d
  }

  /** A multiple of `d` leaves no remainder. */
  lemma MultipleMod(q: int, d: int)
    requires d > 0
    ensures (q * d) % d == 0
  {
    var x := q * d;
    var q', r := x / d, x % d;
    assert r == (q - q') * d;
    if q - q' >= 1 {
      MultipleAtLeast(q - q', d);
    } else if q' - q >= 1 {
      MultipleAtLeast(q' - q, d);
    }
  }

  /** A multiple of `d` that lies within `d` below `t` is `Truncate(t, d)`. */
  lemma TruncateUnique(t: Instant, d: Duration, m: Instant)
    requires d > 0 && m % d == 0 && m <= t < m + d
    ensures Truncate(t, d) == m
  {
    var m' := Truncate(t, d);
    var q, q' := m / d, m' / d;
    assert m == q * d && m' == q' * d;
    if q < q' {
      assert m' - m == (q' - q) * d;
      MultipleAtLeast(q' - q, d);
      assert false;
    } else if q' < q {
      assert m - m' == (q - q') * d;
      MultipleAtLeast(q - q', d);
      assert false;
    }
  }

  /** A positive multiple of a positive number is at least that number. */
  lemma MultipleAtLeast(k: int, d: int)
    requires k >= 1 && d > 0
    ensures k * d >= d
  {
    assert k * d == (k - 1) * d + d;
    assert (k - 1) * d >= 0;
  }

  /** `t.Add(d)`: the instant `d` after `t`. */
  function Add(t: Instant, d: Duration): Instant
  {
    t + d
  }

  /** `t.Sub(u)`: the duration from `u` to `t`. */
  function Sub(t: Instant, u: Instant): Duration
  {
    t - u
  }

  /** `d.Hours()`: the duration in hours, computed exactly. */
  function Hours(d: Duration): real
  {
    d as real / Hour as real
  }
}
