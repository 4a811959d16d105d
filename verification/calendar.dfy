/**
 * UTC calendar arithmetic. A time is a whole number of seconds since the
 * epoch; a day is the number of whole days since the epoch. `floor(freq="D")`
 * on a UTC timestamp is `DayOf`, and the timestamp of a day's midnight is
 * `Midnight`.
 */
module Calendar {

  const SecondsPerDay: int := 86400

  /** The time 23:59:59 adds to a midnight. */
  const EndOfDayOffset: int := 23 * 3600 + 59 * 60 + 59

  /** The day a time falls on (rounding towards the past, also before the epoch). */
  function DayOf(t: int): (d: int)
    ensures Midnight(d) <= t < Midnight(d) + SecondsPerDay
  {
    t / SecondsPerDay
  }

  function Midnight(d: int): int {
    d * SecondsPerDay
  }

  /** `Timestamp.floor(freq="D")`: the midnight starting the day of `t`. */
  function FloorDay(t: int): (m: int)
    ensures m <= t < m + SecondsPerDay
    ensures m == Midnight(DayOf(t))
  {
    Midnight(DayOf(t))
  }

  /** Every time in a day maps back to that day. */
  lemma DayOfWithinDay(d: int, s: int)
    requires 0 <= s < SecondsPerDay
    ensures DayOf(Midnight(d) + s) == d
  {
  }

  /** Midnights are ordered as their days are. */
  lemma MidnightMonotone(d: int, e: int)
    ensures d <= e <==> Midnight(d) <= Midnight(e)
    ensures d < e <==> Midnight(d) + SecondsPerDay <= Midnight(e)
  {
  }

  /**
   * `pd.date_range(start, end, freq="D")` on days: every day from `first`
   * through `last`, and none when `first` is after `last`.
   */
  function DateRange(first: int, last: int): (days: seq<int>)
    ensures |days| == if first <= last then last - first + 1 else 0
    ensures forall i :: 0 <= i < |days| ==> days[i] == first + i
    decreases last - first
  {
    if first > last then [] else [first] + DateRange(first + 1, last)
  }
}
