/**
 * Instants as integers: milliseconds on the local wall clock, so that the
 * local day, hour and minute of an instant are plain arithmetic on it.
 */
module Time {

  const MinuteMs: int := 60000
  const HourMs: int := 60 * MinuteMs
  const DayMs: int := 24 * HourMs

  /** Local midnight at the start of the day that contains `t`. */
  function StartOfDay(t: int): (d: int)
    ensures d <= t < d + DayMs
    ensures d % DayMs == 0
  {
    t - t % DayMs
  }

  /** The local hour of `t`, as `Date.getHours` gives it. */
  function LocalHour(t: int): (h: nat)
    ensures h < 24
  {
    (t % DayMs) / HourMs
  }

  /** The local minute of `t`, as `Date.getMinutes` gives it. */
  function LocalMinute(t: int): (m: nat)
    ensures m < 60
  {
    (t % HourMs) / MinuteMs
  }
}
