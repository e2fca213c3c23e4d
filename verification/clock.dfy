/** Row timestamps and wall-clock instants (`time::Time`) as nanoseconds in
    a bounded range, and `std::time::Duration` as a count of nanoseconds. */
module Clock {
  import opened Common

  const TIME_MIN: int := -0x8000_0000_0000_0000
  const TIME_MAX: int := 0x7FFF_FFFF_FFFF_FFFF

  /** `Time::MIN ..= Time::MAX`. */
  type Time = t: int | TIME_MIN <= t <= TIME_MAX

  /** A non-negative span, in nanoseconds. */
  type Duration = nat

  const NANOS_PER_SEC: nat := 1_000_000_000

  /** `Duration::as_secs`: the whole seconds, the fraction dropped. */
  function AsSecs(d: Duration): (r: nat)
    ensures r * NANOS_PER_SEC <= d < (r + 1) * NANOS_PER_SEC
  {
    d / NANOS_PER_SEC
  }

  /** `Time::checked_duration_since`: the span from `earlier` to `t`, or
      `None` when `earlier` is later than `t`. */
  function CheckedDurationSince(t: Time, earlier: Time): (r: Option<Duration>)
    ensures r.Some? <==> earlier <= t
    ensures r.Some? ==> earlier + r.value == t
  {
    if earlier <= t then Some(t - earlier) else None
  }

  /** `Time::checked_add`: `None` past `Time::MAX`. */
  function CheckedAdd(t: Time, d: Duration): (r: Option<Time>)
    ensures r.Some? <==> t + d <= TIME_MAX
    ensures r.Some? ==> r.value == t + d
  {
    if t + d <= TIME_MAX then Some(t + d) else None
  }
}
