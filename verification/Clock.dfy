/** Instants and durations are nanoseconds; instants count from Go's zero time,
    so that time.Time.IsZero is "equal to 0". */
module Clock {
  const SECOND: int := 1_000_000_000
  const MINUTE: int := 60 * SECOND

  /** time.Time.Truncate(time.Second): rounds down, before the zero time too. */
  function Truncate(t: int): (r: int)
    ensures r <= t < r + SECOND && r % SECOND == 0
  {
    t - t % SECOND
  }

  lemma TruncateMonotone(a: int, b: int)
    requires a <= b
    ensures Truncate(a) <= Truncate(b)
  {
  }
}
