/**
 * .NET's DateTime, as the number of 100-nanosecond ticks since 0001-01-01.
 * Only the parts the refresh cycle uses are modelled: the MinValue sentinel,
 * AddHours with whole hours, and comparison (ticks compare as integers).
 */
module DateTimes {
  import opened Wrappers

  const MAX_TICKS: int := 3_155_378_975_999_999_999
  const TICKS_PER_HOUR: int := 36_000_000_000

  /** Every DateTime lies between MinValue and MaxValue. */
  type DateTime = t: int | 0 <= t <= MAX_TICKS

  /** DateTime.MinValue, which the catalog uses for "never refreshed". */
  const MIN_VALUE: DateTime := 0

  /**
   * DateTime.AddHours for a whole number of hours. For an int argument the
   * conversion to milliseconds and then ticks is exact, and the framework
   * throws ArgumentOutOfRangeException exactly when the result leaves
   * [MinValue, MaxValue]; None stands for that exception.
   */
  function AddHours(t: DateTime, hours: int): (r: Option<DateTime>)
    ensures r.Some? <==> 0 <= t + hours * TICKS_PER_HOUR <= MAX_TICKS
    ensures r.Some? ==> (hours > 0 ==> r.value > t) && (hours < 0 ==> r.value < t)
    ensures hours == 0 ==> r == Some(t)
  {
    var ticks := t + hours * 36_000_000_000;  // TICKS_PER_HOUR, written out so the product stays linear
    if 0 <= ticks <= MAX_TICKS then Some(ticks) else None
  }
}
