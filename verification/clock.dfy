/** Units of time shared by the pages that work with instants (integer seconds). */
module Clock {

  /** Seconds in a day: a day number is an instant divided by this. */
  const SecondsPerDay := 86400

  /** Seconds in a minute. */
  const SecondsPerMinute := 60
}
