/** Durations in nanoseconds, as Go's `time.Duration` counts them. */
module Clock {
  const SECOND := 1_000_000_000

  const MINUTE := 60 * SECOND

  const HOUR := 60 * MINUTE
}
