/** The availability test of utils/utils_checkers.py. */
module Checkers {
  import opened Clock

  /** `time_checker`: the call instant lies in the weekly window `day`, `timeStart`..`timeEnd`
      when its weekday (0 = Monday) is `day` and its wall clock lies between the bounds,
      both bounds included. */
  predicate TimeChecker(day: int, timeStart: TimeOfDay, timeEnd: TimeOfDay, callTime: int)
  {
    Weekday(callTime) == day && timeStart <= TimeOf(callTime) <= timeEnd
  }

  /** A call on another weekday is never inside the window. */
  lemma OtherWeekdayRejected(day: int, timeStart: TimeOfDay, timeEnd: TimeOfDay, callTime: int)
    requires Weekday(callTime) != day
    ensures !TimeChecker(day, timeStart, timeEnd, callTime)
  {
  }

  /** On the window's weekday the test is exactly the inclusive range test on the wall clock. */
  lemma SameWeekdayIsRangeTest(day: int, timeStart: TimeOfDay, timeEnd: TimeOfDay, callTime: int)
    requires Weekday(callTime) == day
    ensures TimeChecker(day, timeStart, timeEnd, callTime) <==> timeStart <= TimeOf(callTime) <= timeEnd
  {
  }

  /** Both edges of a window are bookable, in every week. */
  lemma BoundsAccepted(week: int, day: int, timeStart: TimeOfDay, timeEnd: TimeOfDay)
    requires 0 <= day < 7 && timeStart <= timeEnd
    ensures TimeChecker(day, timeStart, timeEnd, At(week, day, timeStart))
    ensures TimeChecker(day, timeStart, timeEnd, At(week, day, timeEnd))
  {
    AtParts(week, day, timeStart);
    AtParts(week, day, timeEnd);
  }

  /** Exactly the instants of the window's weekday between its bounds are accepted. */
  lemma AcceptedInstants(week: int, d: int, tod: TimeOfDay, day: int, timeStart: TimeOfDay, timeEnd: TimeOfDay)
    requires 0 <= d < 7
    ensures TimeChecker(day, timeStart, timeEnd, At(week, d, tod)) <==> d == day && timeStart <= tod <= timeEnd
  {
    AtParts(week, d, tod);
  }

  /** An inverted window (start after end) accepts nothing. */
  lemma InvertedWindowRejects(day: int, timeStart: TimeOfDay, timeEnd: TimeOfDay, callTime: int)
    requires timeStart > timeEnd
    ensures !TimeChecker(day, timeStart, timeEnd, callTime)
  {
  }

  /** Only the weekday and the wall clock of the instant matter: the date is ignored,
      so moving the call by whole weeks never changes the answer. */
  lemma DateIgnored(day: int, timeStart: TimeOfDay, timeEnd: TimeOfDay, callTime: int, weeks: int)
    ensures TimeChecker(day, timeStart, timeEnd, callTime + weeks * WeekSeconds)
        == TimeChecker(day, timeStart, timeEnd, callTime)
  {
    WeekShift(callTime, weeks);
  }
}
