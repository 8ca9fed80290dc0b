/** Integer encoding of the datetime values the services handle.
    A wall-clock time (a `datetime.time`) is a number of seconds since midnight; an
    absolute call instant (a `datetime`) is a number of seconds since a Monday 00:00.
    Sub-second precision and real calendar dates are not modelled. */
module Clock {

  const DaySeconds := 86400
  const WeekSeconds := 7 * 86400
  /** The fixed length of a call, `timedelta(minutes=30)`. */
  const HalfHour := 1800

  /** A wall-clock time of day, in seconds. */
  type TimeOfDay = t: int | 0 <= t < 86400

  /** `datetime.weekday()`: 0 is Monday, 6 is Sunday. */
  function Weekday(t: int): (d: int)
    ensures 0 <= d < 7
  {
    (t / DaySeconds) % 7
  }

  /** `datetime.isoweekday()`: 1 is Monday, 7 is Sunday. */
  function IsoWeekday(t: int): (d: int)
    ensures 1 <= d <= 7
    ensures d - 1 == Weekday(t)
  {
    Weekday(t) + 1
  }

  /** `datetime.time()`: the wall-clock part of an instant. */
  function TimeOf(t: int): TimeOfDay
  {
    t % DaySeconds
  }

  /** `(t + timedelta(minutes=30)).time()`: the wall clock half an hour later,
      which wraps past midnight. */
  function HalfHourLater(t: int): TimeOfDay
  {
    TimeOf(t + HalfHour)
  }

  /** The `minute` attribute of a wall-clock time. */
  function Minute(tod: TimeOfDay): (m: int)
    ensures 0 <= m < 60
  {
    (tod % 3600) / 60
  }

  /** The instant at wall-clock `tod` on weekday `day` of week number `week`. */
  function At(week: int, day: int, tod: TimeOfDay): int
  {
    week * WeekSeconds + day * DaySeconds + tod
  }

  /** An instant built by `At` has the weekday and the wall clock it was built from. */
  lemma AtParts(week: int, day: int, tod: TimeOfDay)
    requires 0 <= day < 7
    ensures Weekday(At(week, day, tod)) == day
    ensures TimeOf(At(week, day, tod)) == tod
  {
    var q := 7 * week + day;
    assert At(week, day, tod) == q * DaySeconds + tod;
    DivModDay(q, tod);
    DivModWeek(week, day);
  }

  /** Moving an instant by whole weeks changes neither its weekday nor its wall clock. */
  lemma WeekShift(t: int, weeks: int)
    ensures Weekday(t + weeks * WeekSeconds) == Weekday(t)
    ensures TimeOf(t + weeks * WeekSeconds) == TimeOf(t)
  {
    var q, r := t / DaySeconds, t % DaySeconds;
    assert t + weeks * WeekSeconds == (q + 7 * weeks) * DaySeconds + r;
    DivModDay(q + 7 * weeks, r);
    var a, b := q / 7, q % 7;
    assert q + 7 * weeks == (a + weeks) * 7 + b;
    DivModWeek(a + weeks, b);
  }

  /** Half an hour later wraps to the next day exactly from 23:30 on. */
  lemma HalfHourLaterWraps(t: int)
    ensures TimeOf(t) < DaySeconds - HalfHour ==> HalfHourLater(t) == TimeOf(t) + HalfHour
    ensures TimeOf(t) >= DaySeconds - HalfHour ==> HalfHourLater(t) == TimeOf(t) + HalfHour - DaySeconds
  {
    var q := t / DaySeconds;
    if TimeOf(t) < DaySeconds - HalfHour {
      DivModDay(q, TimeOf(t) + HalfHour);
    } else {
      DivModDay(q + 1, TimeOf(t) + HalfHour - DaySeconds);
    }
  }

  /** Euclidean division by a day is determined by a quotient and an in-range remainder. */
  lemma DivModDay(q: int, r: int)
    requires 0 <= r < DaySeconds
    ensures (q * DaySeconds + r) / DaySeconds == q && (q * DaySeconds + r) % DaySeconds == r
  {
  }

  /** Euclidean division by seven is determined by a quotient and an in-range remainder. */
  lemma DivModWeek(q: int, r: int)
    requires 0 <= r < 7
    ensures (q * 7 + r) / 7 == q && (q * 7 + r) % 7 == r
  {
  }
}
