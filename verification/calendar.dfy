/**
 Calendar days over integer timestamps.

 A timestamp is a whole number of seconds since an epoch; a calendar day is the
 number of whole days since that epoch. Truncating an instant to its date (what
 `.date()` does on a naive datetime) is floor division by the length of a day,
 which for a positive divisor is exactly Dafny's `/` on `int`, including for
 instants before the epoch.
 */
module Calendar {

  const SecondsPerDay: int := 86400

  /** The calendar day an instant falls on. */
  function Day(t: int): (d: int)
    ensures d * SecondsPerDay <= t < d * SecondsPerDay + SecondsPerDay
  {
    t / SecondsPerDay
  }

  /** The first instant (midnight) of calendar day `d`. */
  function Midnight(d: int): (t: int)
    ensures Day(t) == d
    ensures forall s :: s < t ==> Day(s) < d
  {
    d * SecondsPerDay
  }
}
