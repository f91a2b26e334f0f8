/** Time as integer milliseconds since the epoch, and the two date-fns
    roundings the controllers use, taken in UTC. */
module Clock {

  /** Milliseconds in one hour. */
  const HOUR_MS: int := 3600000

  /** Milliseconds in one day. */
  const DAY_MS: int := 86400000

  /** date-fns `isBefore(a, b)`: a is strictly earlier than b. */
  predicate IsBefore(a: int, b: int) {
    a < b
  }

  /** date-fns `startOfHour`: the whole hour at or before t. */
  function StartOfHour(t: int): (h: int)
    ensures h <= t < h + HOUR_MS
    ensures h % HOUR_MS == 0
  {
    t - t % HOUR_MS
  }

  /** date-fns `startOfDay`: midnight at or before t. */
  function StartOfDay(t: int): (d: int)
    ensures d <= t < d + DAY_MS
    ensures d % DAY_MS == 0
  {
    t - t % DAY_MS
  }

  /** date-fns `endOfDay`: the last millisecond of t's day (23:59:59.999). */
  function EndOfDay(t: int): (e: int)
    ensures StartOfDay(t) <= t <= e < StartOfDay(t) + DAY_MS
    ensures (e + 1) % DAY_MS == 0
  {
    StartOfDay(t) + DAY_MS - 1
  }

  /** A time that lies in an hour starting at or after `now` is itself not before `now`;
      this is why a meetup that passes the store's hour check is never in the past. */
  lemma HourStartBoundsDate(t: int, now: int)
    requires !IsBefore(StartOfHour(t), now)
    ensures !IsBefore(t, now)
  {
  }
}
