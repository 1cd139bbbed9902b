/** Lengths of time, in microseconds. */
module Timeline {
  const MINUTE: int := 60_000_000
  const HOUR: int := 60 * MINUTE
  const DAY: int := 24 * HOUR
}
