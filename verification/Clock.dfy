/** Days as the source counts them: a date string in UTC, here by its number. */
module Clock {

  /** The UTC day of a time in milliseconds. */
  function Day(ms: int): int { ms / 86_400_000 }
}
