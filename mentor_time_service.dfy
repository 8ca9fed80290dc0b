/** services/mentor_time_service.py: publishing availability windows, listing the
    callable half-hour times of a day, and counting requests at an instant. */
module MentorTimeService {
  import opened Tables
  import opened Clock
  import opened WindowStore
  import opened RequestStore

  // ---------------------------------------------------------------------------
  // create_mentor_time: guards, stretch of touched windows, else insert
  // ---------------------------------------------------------------------------

  /** The test `create_mentor_time` applies to a boundary `x` of an existing same-day window.
      The source calls `time_checker(day=..., time_start=..., time_end=..., call_time=x)`,
      but `time_checker` has no `call_time` parameter (it expects `call_datetime`), so as
      written that call raises a TypeError; see `PublishAsWritten`. The model uses the
      evident intent: an inclusive wall-clock range test of `x` against the new range. */
  predicate InRange(timeStart: TimeOfDay, timeEnd: TimeOfDay, x: int)
  {
    timeStart <= x <= timeEnd
  }

  /** An existing window on `day` with its start or its end inside the new range. */
  predicate Touches(w: MentorTime, day: int, timeStart: TimeOfDay, timeEnd: TimeOfDay)
  {
    w.day == day && (InRange(timeStart, timeEnd, w.timeStart) || InRange(timeStart, timeEnd, w.timeEnd))
  }

  /** What the two updates of the loop leave in a window of the mentor. The second update
      writes the start loaded before the first one, so a window with both boundaries in
      range ends as (old start, new end). */
  function Stretched(w: MentorTime, day: int, timeStart: TimeOfDay, timeEnd: TimeOfDay): MentorTime
  {
    if w.day != day then w
    else if InRange(timeStart, timeEnd, w.timeEnd) then w.(timeEnd := timeEnd)
    else if InRange(timeStart, timeEnd, w.timeStart) then w.(timeStart := timeStart)
    else w
  }

  /** The window table after every window of mentor `m` went through the loop. */
  function StretchAll(rows: seq<MentorTime>, m: Id, day: int, timeStart: TimeOfDay, timeEnd: TimeOfDay): seq<MentorTime>
  {
    seq(|rows|, k requires 0 <= k < |rows| =>
      if rows[k].mentorId == m then Stretched(rows[k], day, timeStart, timeEnd) else rows[k])
  }

  /** `flag_uuid` after the loop: the id of the last touched window, if any. */
  function LastTouched(ws: seq<MentorTime>, day: int, timeStart: TimeOfDay, timeEnd: TimeOfDay): (r: Option<Id>)
    ensures r.None? <==> forall w :: w in ws ==> !Touches(w, day, timeStart, timeEnd)
    ensures r.Some? ==> exists k :: (0 <= k < |ws| && ws[k].id == r.value && Touches(ws[k], day, timeStart, timeEnd)
      && forall j :: k < j < |ws| ==> !Touches(ws[j], day, timeStart, timeEnd))
  {
    if ws == [] then None
    else if Touches(ws[|ws| - 1], day, timeStart, timeEnd) then Some(ws[|ws| - 1].id)
    else
      var r := LastTouched(ws[..|ws| - 1], day, timeStart, timeEnd);
      assert forall w :: w in ws ==> w in ws[..|ws| - 1] || w == ws[|ws| - 1];
      r
  }

  /** The window table, the next free window id and the returned id after a call. */
  datatype Publication = Publication(rows: seq<MentorTime>, nextId: Id, result: Option<Id>)

  /** `create_mentor_time` on values: a day outside 0..6 or an unknown mentor gives None
      and changes nothing; if some same-day window of the mentor is touched, the touched
      windows are stretched and the last one's id returned; otherwise one window is
      inserted and its id returned. There is no check that start precedes end. */
  function Publish(rows: seq<MentorTime>, nextId: Id, mentors: set<Id>, day: int,
                   timeStart: TimeOfDay, timeEnd: TimeOfDay, m: Id): Publication
  {
    if !(0 <= day <= 6) || m !in mentors then Publication(rows, nextId, None)
    else match LastTouched(WindowsByMentor(rows, m), day, timeStart, timeEnd)
      case Some(id) => Publication(StretchAll(rows, m, day, timeStart, timeEnd), nextId, Some(id))
      case None => Publication(rows + [MentorTime(nextId, day, timeStart, timeEnd, m)], nextId + 1, Some(nextId))
  }

  /** The outcome of `create_mentor_time` exactly as written: the misnamed keyword makes
      the range test raise as soon as the mentor has a window on that day. */
  datatype AsWritten = Returned(p: Publication) | RaisedTypeError

  function PublishAsWritten(rows: seq<MentorTime>, nextId: Id, mentors: set<Id>, day: int,
                            timeStart: TimeOfDay, timeEnd: TimeOfDay, m: Id): AsWritten
  {
    if !(0 <= day <= 6) || m !in mentors then Returned(Publication(rows, nextId, None))
    else if exists w :: w in WindowsByMentor(rows, m) && w.day == day then RaisedTypeError
    else Returned(Publication(rows + [MentorTime(nextId, day, timeStart, timeEnd, m)], nextId + 1, Some(nextId)))
  }

  /** The day guard and the mentor guard. */
  lemma PublishRejects(rows: seq<MentorTime>, nextId: Id, mentors: set<Id>, day: int,
                       timeStart: TimeOfDay, timeEnd: TimeOfDay, m: Id)
    requires !(0 <= day <= 6) || m !in mentors
    ensures Publish(rows, nextId, mentors, day, timeStart, timeEnd, m) == Publication(rows, nextId, None)
  {
  }

  /** When no same-day window of the mentor has a boundary in the range, exactly one new
      window (day, start, end, mentor) is appended under a new id, which is returned;
      start need not precede end. */
  lemma PublishInserts(rows: seq<MentorTime>, nextId: Id, mentors: set<Id>, day: int,
                       timeStart: TimeOfDay, timeEnd: TimeOfDay, m: Id)
    requires 0 <= day <= 6 && m in mentors
    requires forall w :: w in rows && w.mentorId == m ==> !Touches(w, day, timeStart, timeEnd)
    requires forall w :: w in rows ==> w.id < nextId
    ensures var p := Publish(rows, nextId, mentors, day, timeStart, timeEnd, m);
      && p.rows == rows + [MentorTime(nextId, day, timeStart, timeEnd, m)]
      && p.result == Some(nextId) && p.nextId == nextId + 1
      && forall w :: w in rows ==> w.id != nextId
  {
    assert LastTouched(WindowsByMentor(rows, m), day, timeStart, timeEnd).None?;
  }

  /** The corrected extend rule: when some same-day window of the mentor is touched,
      nothing is inserted, every row keeps its place and id, other mentors' and other
      days' windows are untouched, a window whose start alone is in range gets the new
      start, a window whose end is in range gets the new end and keeps its start, and
      the returned id is the id of the last touched window of the mentor. */
  lemma PublishExtendsTouched(rows: seq<MentorTime>, nextId: Id, mentors: set<Id>, day: int,
                              timeStart: TimeOfDay, timeEnd: TimeOfDay, m: Id, touched: MentorTime)
    requires 0 <= day <= 6 && m in mentors
    requires touched in rows && touched.mentorId == m && Touches(touched, day, timeStart, timeEnd)
    ensures var p := Publish(rows, nextId, mentors, day, timeStart, timeEnd, m);
      && p.nextId == nextId && |p.rows| == |rows|
      && (forall k :: 0 <= k < |rows| ==>
            p.rows[k].id == rows[k].id && p.rows[k].day == rows[k].day && p.rows[k].mentorId == rows[k].mentorId)
      && (forall k :: 0 <= k < |rows| && (rows[k].mentorId != m || rows[k].day != day) ==> p.rows[k] == rows[k])
      && (forall k :: 0 <= k < |rows| && rows[k].mentorId == m && rows[k].day == day ==>
            p.rows[k] == if InRange(timeStart, timeEnd, rows[k].timeEnd) then rows[k].(timeEnd := timeEnd)
                         else if InRange(timeStart, timeEnd, rows[k].timeStart) then rows[k].(timeStart := timeStart)
                         else rows[k])
      && p.result.Some?
      && p.result == LastTouched(WindowsByMentor(rows, m), day, timeStart, timeEnd)
      && (exists w :: w in rows && w.mentorId == m && Touches(w, day, timeStart, timeEnd) && w.id == p.result.value)
      && var ws := WindowsByMentor(rows, m);
         exists k :: 0 <= k < |ws| && ws[k].id == p.result.value && Touches(ws[k], day, timeStart, timeEnd)
           && forall j :: k < j < |ws| ==> !Touches(ws[j], day, timeStart, timeEnd)
  {
    var ws := WindowsByMentor(rows, m);
    assert touched in ws;
    var r := LastTouched(ws, day, timeStart, timeEnd);
    assert r.Some?;
    var k :| 0 <= k < |ws| && ws[k].id == r.value && Touches(ws[k], day, timeStart, timeEnd);
    assert ws[k] in ws;
    assert Publish(rows, nextId, mentors, day, timeStart, timeEnd, m)
        == Publication(StretchAll(rows, m, day, timeStart, timeEnd), nextId, r);
    StretchAllEffect(rows, m, day, timeStart, timeEnd);
  }

  /** Stretching keeps every row's place, id, day and mentor, leaves other mentors and
      other days alone, and applies `Stretched` to the mentor's windows of that day. */
  lemma StretchAllEffect(rows: seq<MentorTime>, m: Id, day: int, timeStart: TimeOfDay, timeEnd: TimeOfDay)
    ensures var s := StretchAll(rows, m, day, timeStart, timeEnd);
      && |s| == |rows|
      && (forall k :: 0 <= k < |rows| ==>
            s[k].id == rows[k].id && s[k].day == rows[k].day && s[k].mentorId == rows[k].mentorId)
      && (forall k :: 0 <= k < |rows| && (rows[k].mentorId != m || rows[k].day != day) ==> s[k] == rows[k])
      && (forall k :: 0 <= k < |rows| && rows[k].mentorId == m && rows[k].day == day ==>
            s[k] == if InRange(timeStart, timeEnd, rows[k].timeEnd) then rows[k].(timeEnd := timeEnd)
                    else if InRange(timeStart, timeEnd, rows[k].timeStart) then rows[k].(timeStart := timeStart)
                    else rows[k])
  {
  }

  /** A range strictly inside an existing window of the mentor touches neither of its
      boundaries, so if no other window of the mentor is touched the range is inserted
      as an overlapping copy: the mentor has one window more, and the outer one stays. */
  lemma PublishNestedDuplicates(rows: seq<MentorTime>, nextId: Id, mentors: set<Id>, day: int,
                                timeStart: TimeOfDay, timeEnd: TimeOfDay, m: Id, outer: MentorTime)
    requires 0 <= day <= 6 && m in mentors
    requires forall w :: w in rows ==> w.id < nextId
    requires outer in rows && outer.mentorId == m && outer.day == day
    requires outer.timeStart < timeStart <= timeEnd < outer.timeEnd
    requires forall w :: w in rows && w.mentorId == m && w != outer ==> !Touches(w, day, timeStart, timeEnd)
    ensures var p := Publish(rows, nextId, mentors, day, timeStart, timeEnd, m);
      && outer in p.rows && MentorTime(nextId, day, timeStart, timeEnd, m) in p.rows
      && |WindowsByMentor(p.rows, m)| == |WindowsByMentor(rows, m)| + 1
  {
    assert !Touches(outer, day, timeStart, timeEnd);
    PublishInserts(rows, nextId, mentors, day, timeStart, timeEnd, m);
    WindowsByMentorSnoc(rows, MentorTime(nextId, day, timeStart, timeEnd, m), m);
  }

  /** Publishing keeps every stored day in 0..6 (the guard admits only those days and
      stretching never changes a day). */
  lemma PublishKeepsDays(rows: seq<MentorTime>, nextId: Id, mentors: set<Id>, day: int,
                         timeStart: TimeOfDay, timeEnd: TimeOfDay, m: Id)
    requires forall w :: w in rows ==> 0 <= w.day <= 6
    ensures forall w :: w in Publish(rows, nextId, mentors, day, timeStart, timeEnd, m).rows ==> 0 <= w.day <= 6
  {
    var p := Publish(rows, nextId, mentors, day, timeStart, timeEnd, m);
    if 0 <= day <= 6 && m in mentors && LastTouched(WindowsByMentor(rows, m), day, timeStart, timeEnd).Some? {
      forall w | w in p.rows
        ensures 0 <= w.day <= 6
      {
        var k :| 0 <= k < |p.rows| && p.rows[k] == w;
        assert rows[k] in rows;
      }
    }
  }

  /** As written, `create_mentor_time` raises exactly when both guards pass and the mentor
      already has a window on that day; in every other case it agrees with the corrected
      `Publish`. */
  lemma AsWrittenRaisesOnSameDay(rows: seq<MentorTime>, nextId: Id, mentors: set<Id>, day: int,
                                 timeStart: TimeOfDay, timeEnd: TimeOfDay, m: Id)
    ensures PublishAsWritten(rows, nextId, mentors, day, timeStart, timeEnd, m).RaisedTypeError?
        <==> 0 <= day <= 6 && m in mentors && exists w :: w in rows && w.mentorId == m && w.day == day
    ensures !PublishAsWritten(rows, nextId, mentors, day, timeStart, timeEnd, m).RaisedTypeError? ==>
        PublishAsWritten(rows, nextId, mentors, day, timeStart, timeEnd, m)
          == Returned(Publish(rows, nextId, mentors, day, timeStart, timeEnd, m))
  {
    if 0 <= day <= 6 && m in mentors && !exists w :: w in WindowsByMentor(rows, m) && w.day == day {
      assert LastTouched(WindowsByMentor(rows, m), day, timeStart, timeEnd).None?;
    }
  }

  /** The discrepancy on an input: a mentor with the window Tuesday 08:00-12:00 publishes
      Tuesday 12:00-13:00. As written the call raises; the intended rule extends the
      window to 08:00-13:00 and returns its id. */
  lemma AsWrittenRaisesOnAdjacentWindow()
    ensures PublishAsWritten([MentorTime(0, 1, 28800, 43200, 7)], 1, {7}, 1, 43200, 46800, 7) == RaisedTypeError
    ensures Publish([MentorTime(0, 1, 28800, 43200, 7)], 1, {7}, 1, 43200, 46800, 7)
        == Publication([MentorTime(0, 1, 28800, 46800, 7)], 1, Some(0))
  {
    var rows := [MentorTime(0, 1, 28800, 43200, 7)];
    assert rows[0] in WindowsByMentor(rows, 7);
    assert WindowsByMentor(rows, 7) == rows;
    assert StretchAll(rows, 7, 1, 43200, 46800)[0] == MentorTime(0, 1, 28800, 46800, 7);
  }

  /** `create_mentor_time`: the loop over a snapshot of the mentor's windows, with the two
      in-place updates per touched window, then the insert when nothing was touched. */
  method CreateMentorTime(repo: MentorTimeRepository, mentors: set<Id>, day: int,
                          timeStart: TimeOfDay, timeEnd: TimeOfDay, mentorId: Id) returns (r: Option<Id>)
    requires repo.Valid()
    modifies repo
    ensures repo.Valid()
    ensures Publication(repo.rows, repo.nextId, r)
         == Publish(old(repo.rows), old(repo.nextId), mentors, day, timeStart, timeEnd, mentorId)
  {
    if !(0 <= day <= 6) || mentorId !in mentors {
      return None;
    }
    var mentorTimeList := WindowsByMentor(repo.rows, mentorId);
    ghost var rows0 := repo.rows;
    var flag: Option<Id> := None;
    var i := 0;
    while i < |mentorTimeList|
      invariant 0 <= i <= |mentorTimeList|
      invariant repo.Valid() && repo.nextId == old(repo.nextId)
      invariant repo.rows == Visited(rows0, mentorTimeList[..i], day, timeStart, timeEnd)
      invariant flag == LastTouched(mentorTimeList[..i], day, timeStart, timeEnd)
    {
      var mentorTime := mentorTimeList[i];
      ghost var before := repo.rows;
      var touched := StretchWindow(repo, mentorTime, day, timeStart, timeEnd);
      LastTouchedSnoc(mentorTimeList, i, day, timeStart, timeEnd, flag);
      if touched {
        flag := Some(mentorTime.id);
      }
      StepKeepsStretched(rows0, before, repo.rows, mentorTimeList, i, day, timeStart, timeEnd);
      i := i + 1;
    }
    assert mentorTimeList[..i] == mentorTimeList;
    StretchedAll(rows0, repo.rows, mentorId, day, timeStart, timeEnd);
    if flag.Some? {
      return flag;
    }
    var mentorTimeId := repo.CreateNewMentorTime(day, timeStart, timeEnd, mentorId);
    r := Some(mentorTimeId);
  }

  /** The body of the loop of `create_mentor_time` for one loaded window `mt`: update the
      start if it lies in range, then update the end if it lies in range, both times
      writing the other bound as loaded. */
  method StretchWindow(repo: MentorTimeRepository, mt: MentorTime, day: int,
                       timeStart: TimeOfDay, timeEnd: TimeOfDay) returns (touched: bool)
    requires repo.Valid()
    modifies repo
    ensures repo.Valid() && repo.nextId == old(repo.nextId)
    ensures touched == Touches(mt, day, timeStart, timeEnd)
    ensures repo.rows == StretchStep(old(repo.rows), mt, day, timeStart, timeEnd)
  {
    touched := false;
    if mt.day == day {
      if InRange(timeStart, timeEnd, mt.timeStart) {
        repo.UpdateMentorTime(mt.id, timeStart, mt.timeEnd);
        touched := true;
      }
      if InRange(timeStart, timeEnd, mt.timeEnd) {
        repo.UpdateMentorTime(mt.id, mt.timeStart, timeEnd);
        touched := true;
      }
    }
  }

  /** The table after the loop body visited `mt`. */
  function StretchStep(rows: seq<MentorTime>, mt: MentorTime, day: int, timeStart: TimeOfDay, timeEnd: TimeOfDay): seq<MentorTime>
  {
    var afterStart := if mt.day == day && InRange(timeStart, timeEnd, mt.timeStart)
      then WithTimes(rows, mt.id, timeStart, mt.timeEnd) else rows;
    if mt.day == day && InRange(timeStart, timeEnd, mt.timeEnd)
    then WithTimes(afterStart, mt.id, mt.timeStart, timeEnd) else afterStart
  }

  /** The table while the loop runs: the rows loaded as `seen` so far are stretched. */
  ghost function Visited(rows0: seq<MentorTime>, seen: seq<MentorTime>, day: int,
                         timeStart: TimeOfDay, timeEnd: TimeOfDay): seq<MentorTime>
  {
    seq(|rows0|, k requires 0 <= k < |rows0| =>
      if rows0[k] in seen then Stretched(rows0[k], day, timeStart, timeEnd) else rows0[k])
  }

  /** One pass of the loop body of `create_mentor_time` keeps the loop invariant: only the
      rows with the visited window's id change, and they end as `Stretched` of it. */
  lemma StepKeepsStretched(rows0: seq<MentorTime>, before: seq<MentorTime>, after: seq<MentorTime>,
                           list: seq<MentorTime>, i: int, day: int, timeStart: TimeOfDay, timeEnd: TimeOfDay)
    requires 0 <= i < |list| && forall w :: w in list ==> w in rows0
    requires UniqueWindowIds(rows0)
    requires before == Visited(rows0, list[..i], day, timeStart, timeEnd)
    requires after == StretchStep(before, list[i], day, timeStart, timeEnd)
    ensures after == Visited(rows0, list[..i + 1], day, timeStart, timeEnd)
  {
    var mt := list[i];
    assert list[..i + 1] == list[..i] + [mt];
    assert mt in list;
    forall k | 0 <= k < |rows0|
      ensures after[k] == Visited(rows0, list[..i + 1], day, timeStart, timeEnd)[k]
    {
      assert before[k].id == rows0[k].id;
      if rows0[k].id == mt.id {
        SameWindowId(rows0, mt, k);
      }
    }
  }

  /** The flag after one more pass. */
  lemma LastTouchedSnoc(ws: seq<MentorTime>, i: int, day: int, timeStart: TimeOfDay, timeEnd: TimeOfDay, flag: Option<Id>)
    requires 0 <= i < |ws| && flag == LastTouched(ws[..i], day, timeStart, timeEnd)
    ensures LastTouched(ws[..i + 1], day, timeStart, timeEnd)
         == if Touches(ws[i], day, timeStart, timeEnd) then Some(ws[i].id) else flag
  {
    var prefix := ws[..i + 1];
    assert |prefix| - 1 == i && prefix[i] == ws[i];
    assert prefix[..i] == ws[..i];
  }

  /** After the loop every window of the mentor went through `Stretched`; when none was
      touched, the table is as it was. */
  lemma StretchedAll(rows0: seq<MentorTime>, rows: seq<MentorTime>, m: Id, day: int,
                     timeStart: TimeOfDay, timeEnd: TimeOfDay)
    requires rows == Visited(rows0, WindowsByMentor(rows0, m), day, timeStart, timeEnd)
    ensures rows == StretchAll(rows0, m, day, timeStart, timeEnd)
    ensures LastTouched(WindowsByMentor(rows0, m), day, timeStart, timeEnd).None? ==> rows == rows0
  {
    forall k | 0 <= k < |rows0|
      ensures rows[k] == StretchAll(rows0, m, day, timeStart, timeEnd)[k]
    {
      assert rows0[k] in rows0;
    }
    if LastTouched(WindowsByMentor(rows0, m), day, timeStart, timeEnd).None? {
      forall k | 0 <= k < |rows0|
        ensures rows[k] == rows0[k]
      {
        assert rows0[k] in rows0;
      }
    }
  }

  // ---------------------------------------------------------------------------
  // get_all_mentor_time_by_mentor_id
  // ---------------------------------------------------------------------------

  /** The service variant of the listing: None instead of an empty list. */
  function GetAllMentorTimeByMentorId(rows: seq<MentorTime>, m: Id): (r: Option<seq<MentorTime>>)
    ensures r.None? <==> forall w :: w in rows ==> w.mentorId != m
    ensures r.Some? ==> r.value == WindowsByMentor(rows, m) && r.value != []
  {
    var ws := WindowsByMentor(rows, m);
    if ws == [] then None
    else
      assert ws[0] in ws;
      Some(ws)
  }

  // ---------------------------------------------------------------------------
  // get_call_times: half-hour quantisation of the windows of one day
  // ---------------------------------------------------------------------------

  /** `start_datetime.replace(minute=60)` raises a ValueError. */
  datatype CallTimesError = MinuteOutOfRange

  /** The start of a window rounded as the source does: the minute goes up to 0 or 30 and
      the seconds are dropped; a minute of 31..59 would need minute 60 and fails. */
  function RoundedStart(tod: TimeOfDay): Option<TimeOfDay>
  {
    var hour := tod / 3600;
    var minute := Minute(tod);
    var startMinutes := (minute / 30) * 30;
    var startMinutes := if startMinutes < minute then startMinutes + 30 else startMinutes;
    if startMinutes == 60 then None else Some(hour * 3600 + startMinutes * 60)
  }

  /** The end of a window rounded as the source does: the minute goes down to 0 or 30 and
      the seconds are dropped. */
  function RoundedEnd(tod: TimeOfDay): TimeOfDay
  {
    var hour := tod / 3600;
    var minute := Minute(tod);
    var endMinutes := (minute / 30) * 30;
    var endMinutes := if endMinutes > minute then endMinutes - 30 else endMinutes;
    hour * 3600 + endMinutes * 60
  }

  /** The `while current_time <= end_datetime` loop: half-hour steps from `first` up to
      and including `last`. */
  function Slots(first: int, last: int): seq<int>
    decreases last - first
  {
    if first > last then [] else [first] + Slots(first + HalfHour, last)
  }

  /** `day_time_gap_list`: the (start, end) of the windows on `day`, in store order. */
  function DayGaps(ws: seq<MentorTime>, day: int): seq<(TimeOfDay, TimeOfDay)>
  {
    if ws == [] then []
    else (if ws[0].day == day then [(ws[0].timeStart, ws[0].timeEnd)] else []) + DayGaps(ws[1..], day)
  }

  /** The gap list holds exactly the bounds of the windows on `day`, at most one per window. */
  lemma {:induction false} DayGapsSpec(ws: seq<MentorTime>, day: int)
    ensures |DayGaps(ws, day)| <= |ws|
    ensures forall g :: g in DayGaps(ws, day) <==> exists w :: w in ws && w.day == day && g == (w.timeStart, w.timeEnd)
  {
    if ws != [] {
      DayGapsSpec(ws[1..], day);
      assert forall w :: w in ws <==> w == ws[0] || w in ws[1..];
    }
  }

  /** Prefix a successful list of times; a failure stays a failure. */
  function Prepend(times: seq<int>, r: Result<seq<int>, CallTimesError>): Result<seq<int>, CallTimesError>
  {
    match r
    case Success(rest) => Success(times + rest)
    case Failure(e) => Failure(e)
  }

  /** The second loop of `get_call_times`: the slots of every gap, concatenated in order;
      a gap whose start cannot be rounded makes the whole call fail. */
  function GapTimes(gaps: seq<(TimeOfDay, TimeOfDay)>): Result<seq<int>, CallTimesError>
  {
    if gaps == [] then Success([])
    else match RoundedStart(gaps[0].0)
      case None => Failure(MinuteOutOfRange)
      case Some(first) => Prepend(Slots(first, RoundedEnd(gaps[0].1)), GapTimes(gaps[1..]))
  }

  /** `get_call_times` on the mentor's windows `ws`. */
  function CallTimes(ws: seq<MentorTime>, day: int): Result<seq<int>, CallTimesError>
  {
    GapTimes(DayGaps(ws, day))
  }

  /** Start rounding fails exactly for minutes 31..59; otherwise it gives the first
      half-hour mark at or after the start's whole minute (seconds dropped). */
  lemma RoundedStartSpec(tod: TimeOfDay)
    ensures RoundedStart(tod).None? <==> 31 <= Minute(tod)
    ensures RoundedStart(tod).Some? ==>
      var r := RoundedStart(tod).value;
      r % HalfHour == 0 && tod - tod % 60 <= r < tod - tod % 60 + HalfHour
  {
  }

  /** End rounding gives the last half-hour mark at or before the end. */
  lemma RoundedEndSpec(tod: TimeOfDay)
    ensures RoundedEnd(tod) % HalfHour == 0 && tod - HalfHour < RoundedEnd(tod) <= tod
  {
  }

  /** The slots are the ascending multiples of half an hour from `first` to `last`. */
  lemma {:induction false} SlotsSpec(first: int, last: int)
    ensures |Slots(first, last)| == if first > last then 0 else (last - first) / HalfHour + 1
    ensures forall k :: 0 <= k < |Slots(first, last)| ==>
      Slots(first, last)[k] == first + k * HalfHour && Slots(first, last)[k] <= last
    decreases last - first
  {
    if first <= last {
      SlotsSpec(first + HalfHour, last);
      var s := Slots(first, last);
      forall k | 0 <= k < |s|
        ensures s[k] == first + k * HalfHour
      {
        if k > 0 {
          assert s[k] == Slots(first + HalfHour, last)[k - 1];
        }
      }
    }
  }

  /** Failure occurs exactly when some window of the day has a start minute in 31..59. */
  lemma {:induction false} CallTimesFails(ws: seq<MentorTime>, day: int)
    ensures CallTimes(ws, day).Failure? <==> exists w :: w in ws && w.day == day && 31 <= Minute(w.timeStart)
  {
    if ws != [] {
      CallTimesFails(ws[1..], day);
      RoundedStartSpec(ws[0].timeStart);
      assert forall w :: w in ws <==> w == ws[0] || w in ws[1..];
      GapsStep(ws, day);
    }
  }

  /** `t` lies in window `w` of `day`, counting from the whole minute of its start. */
  predicate OfferedBy(w: MentorTime, day: int, t: int)
  {
    w.day == day && w.timeStart - w.timeStart % 60 <= t <= w.timeEnd
  }

  /** Every offered time is a half-hour mark of a window of that day: at or after the
      whole minute of its start and at or before its end. */
  lemma {:induction false} CallTimesWithinWindows(ws: seq<MentorTime>, day: int)
    ensures CallTimes(ws, day).Success? ==>
      forall t :: t in CallTimes(ws, day).value ==>
        t % HalfHour == 0 && exists w :: w in ws && OfferedBy(w, day, t)
  {
    if ws != [] && CallTimes(ws, day).Success? {
      GapsStep(ws, day);
      var rest := CallTimes(ws[1..], day);
      assert rest.Success?;
      CallTimesWithinWindows(ws[1..], day);
      var w := ws[0];
      var s := if w.day == day then Slots(RoundedStart(w.timeStart).value, RoundedEnd(w.timeEnd)) else [];
      assert CallTimes(ws, day).value == s + rest.value;
      forall t | t in CallTimes(ws, day).value
        ensures t % HalfHour == 0 && exists v :: v in ws && OfferedBy(v, day, t)
      {
        if t in s {
          WindowSlotsOffered(w, day, t);
        } else {
          assert t in rest.value;
          var v :| v in ws[1..] && OfferedBy(v, day, t);
          assert v in ws;
        }
      }
    }
  }

  /** Each slot of one window lies in that window. */
  lemma WindowSlotsOffered(w: MentorTime, day: int, t: int)
    requires w.day == day && RoundedStart(w.timeStart).Some?
    requires t in Slots(RoundedStart(w.timeStart).value, RoundedEnd(w.timeEnd))
    ensures t % HalfHour == 0 && OfferedBy(w, day, t)
  {
    RoundedStartSpec(w.timeStart);
    RoundedEndSpec(w.timeEnd);
    SlotsAligned(RoundedStart(w.timeStart).value, RoundedEnd(w.timeEnd));
  }

  /** Slots from a half-hour mark are half-hour marks between the two bounds. */
  lemma {:induction false} SlotsAligned(first: int, last: int)
    requires first % HalfHour == 0
    ensures forall t :: t in Slots(first, last) ==> t % HalfHour == 0 && first <= t <= last
    decreases last - first
  {
    if first <= last {
      SlotsAligned(first + HalfHour, last);
    }
  }

  /** A window whose rounded start lies after its rounded end offers nothing, e.g.
      10:05-10:20 (rounded to 10:30 and 10:00). */
  lemma ShortWindowOffersNothing(id: Id, day: int, m: Id)
    ensures CallTimes([MentorTime(id, day, 36300, 37200, m)], day) == Success([])
  {
    var ws := [MentorTime(id, day, 36300, 37200, m)];
    GapsStep(ws, day);
    assert ws[1..] == [];
    assert CallTimes([], day) == Success([]);
    assert RoundedStart(36300) == Some(37800);
    assert RoundedEnd(37200) == 36000;
    assert Slots(37800, 36000) == [];
    var none: seq<int> := [];
    assert none + none == none;
  }

  /** The window 08:00-12:00 offers the nine times 08:00, 08:30, ..., 12:00. */
  lemma EightToNoon(id: Id, day: int, m: Id)
    ensures CallTimes([MentorTime(id, day, 28800, 43200, m)], day)
        == Success([28800, 30600, 32400, 34200, 36000, 37800, 39600, 41400, 43200])
  {
    var ws := [MentorTime(id, day, 28800, 43200, m)];
    GapsStep(ws, day);
    assert ws[1..] == [];
    assert RoundedStart(28800) == Some(28800);
    assert RoundedEnd(43200) == 43200;
    SlotsSpec(28800, 43200);
    var s := Slots(28800, 43200);
    assert |s| == 9;
    assert s == [28800, 30600, 32400, 34200, 36000, 37800, 39600, 41400, 43200];
    assert CallTimes([], day) == Success([]);
    assert s + [] == s;
  }

  /** How the first window of the list contributes to `CallTimes`. */
  lemma GapsStep(ws: seq<MentorTime>, day: int)
    requires ws != []
    ensures ws[0].day != day ==> CallTimes(ws, day) == CallTimes(ws[1..], day)
    ensures ws[0].day == day ==>
      CallTimes(ws, day) == match RoundedStart(ws[0].timeStart)
        case None => Failure(MinuteOutOfRange)
        case Some(first) => Prepend(Slots(first, RoundedEnd(ws[0].timeEnd)), CallTimes(ws[1..], day))
  {
    var gaps := DayGaps(ws, day);
    if ws[0].day == day {
      assert gaps == [(ws[0].timeStart, ws[0].timeEnd)] + DayGaps(ws[1..], day);
      assert gaps[0] == (ws[0].timeStart, ws[0].timeEnd) && gaps[1..] == DayGaps(ws[1..], day);
    } else {
      assert gaps == [] + DayGaps(ws[1..], day);
      assert [] + DayGaps(ws[1..], day) == DayGaps(ws[1..], day);
    }
  }

  /** The second loop of `get_call_times` at gap `g`. */
  lemma GapTimesStep(gaps: seq<(TimeOfDay, TimeOfDay)>, g: int)
    requires 0 <= g < |gaps|
    ensures GapTimes(gaps[g..]) == match RoundedStart(gaps[g].0)
      case None => Failure(MinuteOutOfRange)
      case Some(first) => Prepend(Slots(first, RoundedEnd(gaps[g].1)), GapTimes(gaps[g + 1..]))
  {
    assert gaps[g..][0] == gaps[g] && gaps[g..][1..] == gaps[g + 1..];
  }

  lemma PrependAssoc(a: seq<int>, b: seq<int>, r: Result<seq<int>, CallTimesError>)
    ensures Prepend(a, Prepend(b, r)) == Prepend(a + b, r)
  {
    if r.Success? {
      assert a + (b + r.value) == (a + b) + r.value;
    }
  }

  /** The inner `while current_time <= end_datetime` loop of `get_call_times`. */
  method AppendSlots(timesList: seq<int>, first: int, last: int) returns (r: seq<int>)
    ensures r == timesList + Slots(first, last)
  {
    r := timesList;
    var current := first;
    while current <= last
      invariant r + Slots(current, last) == timesList + Slots(first, last)
      decreases last - current + HalfHour
    {
      r := r + [current];
      current := current + HalfHour;
    }
    assert r + [] == r;
  }

  /** The first loop of `get_call_times`: the (start, end) of the windows on `day`. */
  method CollectGaps(mentorTimeList: seq<MentorTime>, day: int) returns (dayTimeGapList: seq<(TimeOfDay, TimeOfDay)>)
    ensures dayTimeGapList == DayGaps(mentorTimeList, day)
  {
    dayTimeGapList := [];
    var i := 0;
    while i < |mentorTimeList|
      invariant 0 <= i <= |mentorTimeList|
      invariant dayTimeGapList + DayGaps(mentorTimeList[i..], day) == DayGaps(mentorTimeList, day)
    {
      var mentorTime := mentorTimeList[i];
      assert mentorTimeList[i..][1..] == mentorTimeList[i + 1..];
      if day == mentorTime.day {
        dayTimeGapList := dayTimeGapList + [(mentorTime.timeStart, mentorTime.timeEnd)];
      }
      i := i + 1;
    }
    assert dayTimeGapList + [] == dayTimeGapList;
  }

  /** `get_call_times`: collect the day's gaps, then walk each gap in half-hour steps. */
  method GetCallTimes(repo: MentorTimeRepository, day: int, mentorId: Id) returns (r: Result<seq<int>, CallTimesError>)
    ensures r == CallTimes(WindowsByMentor(repo.rows, mentorId), day)
  {
    var mentorTimeList := WindowsByMentor(repo.rows, mentorId);
    var dayTimeGapList := CollectGaps(mentorTimeList, day);
    assert dayTimeGapList[0..] == dayTimeGapList;
    assert Prepend([], GapTimes(dayTimeGapList)) == GapTimes(dayTimeGapList) by {
      if GapTimes(dayTimeGapList).Success? {
        assert [] + GapTimes(dayTimeGapList).value == GapTimes(dayTimeGapList).value;
      }
    }

    var timesList: seq<int> := [];
    var g := 0;
    while g < |dayTimeGapList|
      invariant 0 <= g <= |dayTimeGapList|
      invariant Prepend(timesList, GapTimes(dayTimeGapList[g..])) == GapTimes(dayTimeGapList)
    {
      var (timeStart, timeEnd) := dayTimeGapList[g];
      GapTimesStep(dayTimeGapList, g);
      var start := RoundedStart(timeStart);
      if start.None? {
        return Failure(MinuteOutOfRange);
      }
      var endTime := RoundedEnd(timeEnd);
      ghost var before := timesList;
      timesList := AppendSlots(timesList, start.value, endTime);
      PrependAssoc(before, Slots(start.value, endTime), GapTimes(dayTimeGapList[g + 1..]));
      g := g + 1;
    }
    assert dayTimeGapList[g..] == [];
    assert timesList + [] == timesList;
    return Success(timesList);
  }

  // ---------------------------------------------------------------------------
  // count_requests_for_time and check_time_reservation
  // ---------------------------------------------------------------------------

  /** `count_requests_for_time`: the number of the mentor's pending requests at exactly
      that instant; accepted requests are not counted. */
  method CountRequestsForTime(requests: RequestRepository, mentorId: Id, requestTime: int) returns (callCount: nat)
    ensures callCount == |Filter(RequestsAtTime(requests.rows, mentorId, requestTime), IsPending)|
  {
    var mentorRequests := RequestsAtTime(requests.rows, mentorId, requestTime);
    callCount := 0;
    var i := 0;
    while i < |mentorRequests|
      invariant 0 <= i <= |mentorRequests|
      invariant callCount + |Filter(mentorRequests[i..], IsPending)| == |Filter(mentorRequests, IsPending)|
    {
      assert mentorRequests[i..][1..] == mentorRequests[i + 1..];
      if mentorRequests[i].response == Pending {
        callCount := callCount + 1;
      }
      i := i + 1;
    }
  }

  /** A pending request counted at an instant also reserves it. */
  lemma CountedRequestsReserve(rows: seq<Request>, m: Id, t: int)
    requires |Filter(RequestsAtTime(rows, m, t), IsPending)| > 0
    ensures Reserved(rows, m, t)
  {
    var ps := Filter(RequestsAtTime(rows, m, t), IsPending);
    assert ps[0] in ps;
    assert ps[0] in RequestsAtTime(rows, m, t);
  }

  /** Adding a request that is not pending leaves the count unchanged. */
  lemma NonPendingNotCounted(rows: seq<Request>, q: Request, m: Id, t: int)
    requires !IsPending(q)
    ensures |Filter(RequestsAtTime(rows + [q], m, t), IsPending)| == |Filter(RequestsAtTime(rows, m, t), IsPending)|
  {
    FilterAppend(rows, [q], (x: Request) => x.callTime == Some(t) && x.mentorId == m);
    var at := RequestsAtTime(rows, m, t);
    var extra := Filter([q], (x: Request) => x.callTime == Some(t) && x.mentorId == m);
    FilterAppend(at, extra, IsPending);
    assert Filter(extra, IsPending) == [];
  }

  /** `check_time_reservation` of the service: the repository's check. */
  method CheckTimeReservation(requests: RequestRepository, mentorId: Id, time: int) returns (taken: bool)
    ensures taken == Reserved(requests.rows, mentorId, time)
  {
    taken := requests.CheckTimeReservation(mentorId, time);
  }
}
