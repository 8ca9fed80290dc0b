# Mentor scheduling: availability, booking and favourites

This Dafny project models the scheduling core of a mentor-booking backend:

- Mentors publish weekly availability windows (`mentor_time` rows: a day 0..6 with Monday as 0, a start and an end wall-clock time).
- Guests send message requests, and call requests for an exact instant.
- A mentor answers a request. Accepting a call carves the booked half hour out of a window.
- A mentor cancels an accepted request. This marks it cancelled and publishes its half hour again.
- Users keep a set of favourite mentors.

Every database table is an in-memory table: a class whose `rows` field is a sequence of records in store order, plus a `nextId` counter that hands out fresh primary keys. The services are methods over those classes. Each method is proved equal to a function on plain values (`Publish`, `Respond`, `Cancel`, `SubmitCall`, `CallTimes`, ...), and the lemmas about those functions state what the services promise.

Encoding (module `Clock`):

- A wall-clock time is an integer of seconds in 0..86399.
- A call instant is an integer of seconds counted from a Monday 00:00.
- `weekday()` is `(t / 86400) % 7`, and `isoweekday()` is one more than that.
- `t + 30 minutes` taken as a wall clock wraps at midnight.
- Mentors are a set of existing ids.
- UUIDs are naturals.

Modules:

| module | file | models |
|---|---|---|
| `Tables` | tables.dfy | ids, `Option`, `Result`, SELECT-style filters, key uniqueness |
| `Clock` | clock.dfy | the integer time encoding |
| `Checkers` | checkers.dfy | utils/utils_checkers.py |
| `WindowStore` | window_store.dfy | the `mentor_time` table and the repository calls the services make on it |
| `RequestStore` | request_store.dfy | persistent/db/request.py and repository/request_repository.py |
| `MentorTimeService` | mentor_time_service.dfy | services/mentor_time_service.py |
| `MentorService` | mentor_service.dfy | services/mentor_service.py (request handling) |
| `StudentService` | student_service.dfy | services/student_service.py |
| `FavoriteStore` | favorite_store.dfy | persistent/db/favorite_mentor.py and repository/favorite_mentor_repository.py |
| `FavoriteService` | favorite_service.dfy | services/favorite_service.py |

### Behaviour corrected from the code

- **`create_mentor_time` and the restore on cancel follow the intended extend rule.** As written, the range test passes a keyword `time_checker` does not accept and raises a TypeError once the mentor has a window on that day (see "## Findings"). `Publish`, `CreateMentorTime`, `Cancel` and `CancelRequest` model the intended inclusive range test, so a restore stretches a neighbouring window with a boundary inside the half hour instead of inserting a new one. `PublishAsWritten` and `CancelAsWritten` model the code as written: there a cancel stores status 2 and then raises, restoring no window.

### Behaviour kept as the code has it

- **Answers have no status guard.** `response_to_request` writes any response value over any current status, including an already cancelled request. The docstring says rejection frees the slot, but the code carves only on acceptance (value 1).
- **Carve-out and restore use `isoweekday()`.** Stored days count Monday as 0, so these operations act on the window of the following weekday:
  - accepting a Monday call carves Tuesday's window;
  - a window on the call's own weekday is never carved (`MentorService.CallDayWindowsSurvive`);
  - cancelling restores the half hour on the following day;
  - a Sunday call is restored on day 7, which the 0..6 guard of `create_mentor_time` refuses (`MentorService.SundayCancelRestoresNothing`).
- **Wrap past midnight.** A call at 23:30 or later books a half hour whose end is earlier than its start. Any window on the carve day that starts by the call time and ends at or after the wrapped end passes the coverage test (at exactly 23:30 the wrapped end is 00:00, so every window starting by 23:30 does), and carving can then widen availability (`MentorService.AcceptAtHalfPastElevenWraps`).
- **No window list on answer.** When the request's mentor has no windows at all, `get_all_mentor_time_by_mentor_id` returns None. The carve loop then raises a TypeError after the status was already written (outcome `RaisedAfterWrite`).
- **Call-time rounding.** `get_call_times` drops seconds. A start minute of 31..59 asks for minute 60 and raises a ValueError (outcome `MinuteOutOfRange`).
- **`create_mentor_time` checks little.** There is no check that start precedes end. A range strictly inside an existing window is inserted as an overlapping copy.
- **Stale start on a double update.** When both bounds of an existing window lie in the new range, the second update writes back the start loaded before the first update. The window ends as (old start, new end).

## Model

| member | source | states |
|---|---|---|
| Clock.Weekday | utils/utils_checkers.py:11 | `weekday()` of an instant: whole days since the Monday epoch modulo 7, always in 0..6 |
| Clock.TimeOf | utils/utils_checkers.py:14 | `.time()` of an instant: the seconds since its midnight |
| Clock.HalfHourLater | services/mentor_service.py:119 | `(t + 30 min).time()`: the wall clock half an hour later, wrapping past midnight (stated by `HalfHourLaterWraps`) |
| Clock.IsoWeekday | services/mentor_service.py:121 | `isoweekday()` lies in 1..7 and is one more than `weekday()` |
| Clock.AtParts | utils/utils_checkers.py:11-14 | an instant built from a week, a weekday and a wall clock has exactly that weekday and that wall clock |
| Clock.WeekShift | utils/utils_checkers.py:11-14 | moving an instant by whole weeks keeps its weekday and its wall clock |
| Clock.HalfHourLaterWraps | services/mentor_service.py:119 | `(t + 30 min).time()` is time + 30 min before 23:30, and wraps to the early morning from 23:30 on |
| Clock.Minute | services/mentor_time_service.py:104 | the minute field of a wall clock lies in 0..59 |
| Checkers.TimeChecker | utils/utils_checkers.py:3-18 | `time_checker` on the instant encoding: the weekday of the call equals the window's day and its wall clock lies between the bounds, both included; its properties are the lemmas below |
| Checkers.AcceptedInstants | utils/utils_checkers.py:3-18 | an instant is accepted iff its weekday is the window's day and its wall clock lies between the bounds |
| Checkers.DateIgnored | utils/utils_checkers.py:11-14 | only weekday and wall clock matter: shifting by whole weeks never changes the answer |
| Checkers.BoundsAccepted | utils/utils_checkers.py:15 | the instants at the window's start and at its end are both accepted, in every week |
| Checkers.InvertedWindowRejects | utils/utils_checkers.py:15-18 | a window whose start is after its end accepts nothing |
| Checkers.OtherWeekdayRejected | utils/utils_checkers.py:11-12 | a call on another weekday than the window's day is rejected |
| Checkers.SameWeekdayIsRangeTest | utils/utils_checkers.py:14-18 | on the window's weekday, acceptance is exactly start <= wall clock <= end |
| WindowStore.WindowsByMentor | services/mentor_time_service.py:40 | listing by mentor yields exactly the mentor's windows |
| WindowStore.SameWindowId | persistent/db/mentor_time.py:7-13 | in a table with a primary key, a row is determined by its id |
| WindowStore.WithTimes | services/mentor_time_service.py:49-55 | the update by id on values: rows with that id get the given bounds, every other row, the length and the order stay |
| WindowStore.WithoutWindow | services/mentor_service.py:124-130 | the delete by id on values: the rows without that id, in store order |
| WindowStore.MentorTimeRepository.UpdateMentorTime | services/mentor_time_service.py:49-55 | only rows with that id change, and they get the given bounds; ids stay unique |
| WindowStore.MentorTimeRepository.DeleteMentorTime | services/mentor_service.py:124-130 | the table loses exactly the rows with that id and keeps the order of the rest |
| WindowStore.MentorTimeRepository.CreateNewMentorTime | services/mentor_service.py:132-136 | one window is appended under a fresh id, which is returned; existing rows are unchanged |
| RequestStore.RequestsByMentor | repository/request_repository.py:53-61 | exactly the rows with that mentor id, in store order |
| RequestStore.RequestsAtTime | repository/request_repository.py:63-72 | exactly the rows of that mentor at exactly that instant |
| RequestStore.FindRequest | repository/request_repository.py:74-84 | None iff no row has that id; otherwise a row of the table with that id |
| RequestStore.WithResponseEffect | repository/request_repository.py:36-41 | writing a response keeps ids unique, changes only the response field of the addressed row, and changes nothing for an absent id |
| RequestStore.FindAfterResponse | repository/request_repository.py:36-41 | after the write, looking the request up gives the old row with the new response |
| RequestStore.InactiveDoesNotReserve | repository/request_repository.py:100-104 | a rejected or cancelled request never makes a slot reserved |
| RequestStore.PendingReserves | repository/request_repository.py:100-104 | a pending request reserves its own mentor and instant |
| RequestStore.OtherSlotDoesNotReserve | repository/request_repository.py:91-92 | a request of another mentor or at another instant does not affect a slot |
| RequestStore.RequestRepository.CreateRequest | repository/request_repository.py:13-34 | one row with the given fields and response 0 is appended under a fresh id, which is returned, with no call-time check for calls |
| RequestStore.RequestRepository.MentorResponse | repository/request_repository.py:36-41 | the table becomes the table with that row's response overwritten; ids stay unique |
| RequestStore.IsActive | repository/request_repository.py:100-104 | the status filter `response in (0, 1)`: pending or accepted |
| RequestStore.WithResponse | repository/request_repository.py:36-41 | the UPDATE of `response` by id on values; `WithResponseEffect` and `FindAfterResponse` state its effect |
| RequestStore.Reserved | repository/request_repository.py:86-104 | a slot is reserved when some request of that mentor at exactly that instant has response 0 or 1; `PendingReserves`, `InactiveDoesNotReserve` and `OtherSlotDoesNotReserve` state how each new row affects it |
| RequestStore.RequestRepository.CheckTimeReservation | repository/request_repository.py:86-104 | true iff some request of that mentor at exactly that instant has response 0 or 1 |
| MentorTimeService.Touches | services/mentor_time_service.py:44-56 | an existing window is touched when it is on that day and its start or its end lies in the new range, both bounds included |
| MentorTimeService.Stretched | services/mentor_time_service.py:44-56 | what the two updates leave in a window of that day: the new end when its end is in range (keeping the loaded start), else the new start when its start is in range, else the window unchanged |
| MentorTimeService.StretchAll | services/mentor_time_service.py:44-56 | the table after every window of the mentor went through the loop; `StretchAllEffect` states it row by row |
| MentorTimeService.LastTouched | services/mentor_time_service.py:42-56 | `flag_uuid` is None iff no window is touched; otherwise it is the id of a touched window with no touched window after it |
| MentorTimeService.Publish | services/mentor_time_service.py:22-67 | `create_mentor_time` on values under the intended range test; what it does is stated by `PublishRejects`, `PublishInserts` and `PublishExtendsTouched` |
| MentorTimeService.PublishAsWritten | services/mentor_time_service.py:22-67 | `create_mentor_time` as written: it raises once the mentor has a window on that day; `AsWrittenRaisesOnSameDay` relates it to `Publish` |
| MentorTimeService.PublishRejects | services/mentor_time_service.py:32-38 | a day outside 0..6 or an unknown mentor returns None and changes nothing |
| MentorTimeService.PublishInserts | services/mentor_time_service.py:58-67 | with no touched same-day window, exactly the window (day, start, end, mentor) is appended under a fresh id, which is returned, whatever the order of start and end |
| MentorTimeService.PublishExtendsTouched | services/mentor_time_service.py:44-59 | with a touched window, nothing is inserted; ids, days and mentors keep; other mentors and days unchanged; a start-only hit gets the new start; an end hit gets the new end with the loaded start; the last touched id is returned |
| MentorTimeService.PublishNestedDuplicates | services/mentor_time_service.py:44-61 | a range strictly inside one of the mentor's windows, with no other window of the mentor touched, is inserted as an extra overlapping window and the outer window stays |
| MentorTimeService.PublishKeepsDays | services/mentor_time_service.py:32-34 | publishing keeps every stored day within 0..6 |
| MentorTimeService.AsWrittenRaisesOnSameDay | services/mentor_time_service.py:46-47 | as written the call raises exactly when both guards pass and the mentor already has a window that day, and otherwise agrees with the corrected rule |
| MentorTimeService.AsWrittenRaisesOnAdjacentWindow | services/mentor_time_service.py:46-56 | Tuesday 08:00-12:00 plus 12:00-13:00: as written it raises; the intended rule gives 08:00-13:00 under the old id |
| MentorTimeService.CreateMentorTime | services/mentor_time_service.py:22-67 | the table, the counter and the returned id afterwards are those of `Publish`; ids stay unique |
| MentorTimeService.StretchWindow | services/mentor_time_service.py:45-56 | one loop pass: the start update when the loaded start is in range, then the end update when the loaded end is in range; reports whether either hit |
| MentorTimeService.StepKeepsStretched | services/mentor_time_service.py:44-56 | each pass leaves the rows visited so far stretched and all others as loaded |
| MentorTimeService.LastTouchedSnoc | services/mentor_time_service.py:42-56 | each pass sets the flag to the window's id exactly when that window is touched, and otherwise keeps it |
| MentorTimeService.StretchedAll | services/mentor_time_service.py:44-59 | after the loop, the table is every mentor window stretched, and unchanged when none was touched |
| MentorTimeService.GetAllMentorTimeByMentorId | services/mentor_time_service.py:78-86 | None iff the mentor has no window; otherwise the non-empty list of the mentor's windows |
| MentorTimeService.RoundedStartSpec | services/mentor_time_service.py:104-107 | start rounding fails iff the minute is 31..59; otherwise it gives the first :00 or :30 mark at or after the start's whole minute |
| MentorTimeService.RoundedEndSpec | services/mentor_time_service.py:109-112 | end rounding gives the last :00 or :30 mark at or before the end |
| MentorTimeService.SlotsSpec | services/mentor_time_service.py:114-117 | the loop yields (last - first)/30 min + 1 ascending half-hour steps from first, none after last, or nothing when first > last |
| MentorTimeService.RoundedStart | services/mentor_time_service.py:104-107 | the start rounded up to the next :00 or :30 with seconds dropped, or None for minutes 31..59 where `replace(minute=60)` raises (stated by `RoundedStartSpec`) |
| MentorTimeService.RoundedEnd | services/mentor_time_service.py:109-112 | the end rounded down to the last :00 or :30 with seconds dropped (stated by `RoundedEndSpec`) |
| MentorTimeService.Slots | services/mentor_time_service.py:114-117 | the half-hour steps from the rounded start through the rounded end (stated by `SlotsSpec` and `SlotsAligned`) |
| MentorTimeService.DayGaps | services/mentor_time_service.py:93-96 | `day_time_gap_list`: the (start, end) of the windows on that day, in store order (stated by `DayGapsSpec`) |
| MentorTimeService.GapTimes | services/mentor_time_service.py:100-117 | the second loop over the gaps: each gap's slots in order, or the ValueError at the first gap with a start minute in 31..59 (stated by `GapTimesStep` and `CallTimesFails`) |
| MentorTimeService.CallTimes | services/mentor_time_service.py:88-119 | `get_call_times` on values: the half-hour marks of each window of that day in store order, or the ValueError; stated by `CallTimesFails`, `CallTimesWithinWindows` and `SlotsSpec` |
| MentorTimeService.DayGapsSpec | services/mentor_time_service.py:93-96 | the gap list holds exactly the (start, end) pairs of the windows on that day, at most one per window |
| MentorTimeService.CollectGaps | services/mentor_time_service.py:93-96 | the first loop builds exactly `DayGaps`, the windows of that day in store order |
| MentorTimeService.CallTimesFails | services/mentor_time_service.py:100-107 | the listing fails iff some window on that day has a start minute in 31..59 |
| MentorTimeService.CallTimesWithinWindows | services/mentor_time_service.py:93-117 | every listed time is a half-hour mark inside some window of that day, from the start's whole minute to its end |
| MentorTimeService.WindowSlotsOffered | services/mentor_time_service.py:100-117 | every time a single window yields lies inside that window |
| MentorTimeService.ShortWindowOffersNothing | services/mentor_time_service.py:114-115 | 10:05-10:20 rounds to 10:30-10:00 and yields nothing |
| MentorTimeService.EightToNoon | services/mentor_time_service.py:100-117 | 08:00-12:00 yields exactly the nine times 08:00, 08:30, ..., 12:00 |
| MentorTimeService.AppendSlots | services/mentor_time_service.py:114-117 | the while loop appends exactly the half-hour steps from first through last |
| MentorTimeService.GetCallTimes | services/mentor_time_service.py:88-119 | the result equals `CallTimes` of the mentor's windows for that day |
| MentorTimeService.CountRequestsForTime | services/mentor_time_service.py:121-132 | the count is the number of pending requests of that mentor at exactly that instant |
| MentorTimeService.CountedRequestsReserve | services/mentor_time_service.py:125-132 | an instant with a counted request is reserved |
| MentorTimeService.NonPendingNotCounted | services/mentor_time_service.py:129 | adding an accepted, rejected or cancelled request leaves the count unchanged |
| MentorTimeService.CheckTimeReservation | services/mentor_time_service.py:134-140 | the service answer is the repository's: reserved iff a pending or accepted request is at that instant |
| MentorService.CountsSplitPending | services/mentor_service.py:76-81 | the call and message counters split the mentor's pending requests between them |
| MentorService.CountRequests | services/mentor_service.py:66-86 | the call count is the number of pending call-type-0 requests; the message count is the number of other pending requests; they sum to all pending requests |
| MentorService.GetRequests | services/mentor_service.py:88-98 | exactly the mentor's pending requests, in store order |
| MentorService.FirstCovering | services/mentor_service.py:120-121 | None iff no window covers the booked half hour; otherwise the first covering window in list order |
| MentorService.Covers | services/mentor_service.py:121 | the coverage test: the window is on the day `isoweekday()` and contains the booked half hour, both bounds included |
| MentorService.Pieces | services/mentor_service.py:127-137 | the piece before and the piece after the booked half hour; stated by `PiecesCoverRemainder` and `PiecesIds` |
| MentorService.PiecesCoverRemainder | services/mentor_service.py:127-137 | there is a piece before the booking iff the window starts earlier and a piece after it iff the window ends later, with those bounds; together they cover every point of the window outside the booking and no point strictly inside it; they keep day and mentor, have positive length and fresh consecutive ids |
| MentorService.PiecesIds | services/mentor_service.py:131-136 | there are at most two pieces, and their ids are the next free ones |
| MentorService.RespondAffectsOneWindow | services/mentor_service.py:120-138 | an answer removes windows of at most one id and adds only new windows, at most two |
| MentorService.FullBookingLeavesNothing | services/mentor_service.py:123-125 | a booking equal to its window leaves no piece |
| MentorService.RespondWritesAnyValue | services/mentor_service.py:105-112 | unknown caller or request changes nothing; otherwise the given value is written whatever the current status, and the request reads back with it |
| MentorService.RespondIgnoresCaller | services/mentor_service.py:105-112 | any two known callers get the same effect: ownership is not checked |
| MentorService.RespondCarvesOnlyOnAccept | services/mentor_service.py:113-140 | any answer other than 1 leaves the window table and counter unchanged and never raises |
| MentorService.AcceptedRequestReserves | services/mentor_service.py:112-113 | after acceptance the request holds its slot |
| MentorService.CallDayWindowsSurvive | services/mentor_service.py:121 | a window on the call's own weekday is never carved, because the test compares with `isoweekday()` |
| MentorService.AcceptAtHalfPastElevenWraps | services/mentor_service.py:118-136 | accepting Tuesday 23:30 turns Wednesday 20:00-23:00 into 20:00-23:30 and 00:00-23:00 |
| MentorService.Respond | services/mentor_service.py:100-140 | `response_to_request` on values; stated by `RespondWritesAnyValue`, `RespondAffectsOneWindow`, `RespondCarvesOnlyOnAccept` and `AcceptedRequestReserves` |
| MentorService.ResponseToRequest | services/mentor_service.py:100-140 | both tables, the window counter and the outcome afterwards are those of `Respond`; both tables keep unique ids |
| MentorService.CarveOut | services/mentor_service.py:113-138 | the carve step never reports Ignored, and the no-windows TypeError leaves the window table and counter unchanged |
| MentorService.CarveCall | services/mentor_service.py:113-138 | the window table, the counter and the outcome after the status write are those of `CarveOut`; the table keeps unique ids |
| MentorService.ScanCovering | services/mentor_service.py:120-121 | the scan returns the first of the mentor's windows on the call's day that contains the booked half hour, or None when there is none |
| MentorService.CarveWindow | services/mentor_service.py:122-137 | the matched window is deleted and its pieces appended under the next ids |
| MentorService.FirstCoveringAt | services/mentor_service.py:120-138 | the loop that breaks at index i found the first covering window |
| MentorService.Cancel | services/mentor_service.py:142-162 | `cancel_request` on values under the intended range test of `create_mentor_time`; stated by the `Cancel...` lemmas below |
| MentorService.CancelAsWritten | services/mentor_service.py:142-162 | `cancel_request` as written, through `PublishAsWritten` |
| MentorService.CancelAsWrittenRaises | services/mentor_service.py:154-160 | as written, an accepted call whose mentor has a window on the republish day gets status 2 and then raises, with no window restored |
| MentorService.CancelAsWrittenAgrees | services/mentor_service.py:154-160 | without a window of the mentor on the republish day, the code as written and the corrected rule agree |
| MentorService.CancelAsWrittenOnTuesdayWindow | services/mentor_service.py:154-160 | Tuesday 08:00-12:00 and an accepted Monday 14:00 call: as written it stores 2 and raises; the corrected rule appends Tuesday 14:00-14:30 |
| MentorService.CancelOnlyAccepted | services/mentor_service.py:151-153 | a request that is not accepted is left alone and nothing is written |
| MentorService.CancelReleasesRequest | services/mentor_service.py:154 | a cancelled request reads back with status 2 and ids stay unique |
| MentorService.CancelTwiceIsCancelOnce | services/mentor_service.py:151-154 | a second cancel of the same request is a no-op |
| MentorService.SundayCancelRestoresNothing | services/mentor_service.py:155-161 | cancelling a Sunday call restores no window, as day 7 fails the 0..6 guard |
| MentorService.CancelRestoresSlot | services/mentor_service.py:155-161 | with no touching window, the half hour comes back as one new window on the day after the call's weekday under a fresh id |
| MentorService.AcceptThenCancelRestoresSlot | services/mentor_service.py:112-160 | accepting a call whose covering window leaves a piece, then cancelling it, gives back a window of the mentor covering the booked half hour on that day and leaves the request cancelled (no midnight wrap, not a Sunday) |
| MentorService.CancelKeepsOtherMentors | services/mentor_service.py:155-161 | cancelling never removes a window of another mentor |
| MentorService.CancelRequest | services/mentor_service.py:142-162 | both tables, the window counter and the outcome afterwards are those of `Cancel`; both tables keep unique ids |
| StudentService.SubmitMessage | services/student_service.py:30-47 | `send_message_request` on values; stated by `MessageNeverReserves` |
| StudentService.Available | services/student_service.py:67-73 | the `for ... else` search: some window of the mentor accepts the call instant under `time_checker` |
| StudentService.SubmitCall | services/student_service.py:49-86 | `send_call_request` on values; stated by `SubmitCallAcceptsIff`, `SecondCallRefused` and `ReleasedSlotBookable` |
| StudentService.MessageNeverReserves | services/student_service.py:30-47 | a message is stored iff the mentor exists, and it never changes any reservation |
| StudentService.SubmitCallAcceptsIff | services/student_service.py:49-86 | accepted iff mentor exists, a mentor window accepts the instant, and no pending or accepted request holds it; then one pending call row is appended under a fresh id; otherwise nothing changes |
| StudentService.SecondCallRefused | services/student_service.py:75-78 | after one accepted call request, the same slot of that mentor is refused to anyone |
| StudentService.ReleasedSlotBookable | services/student_service.py:75-78 | rejected or cancelled requests do not block a new call request |
| StudentService.SendMessageRequest | services/student_service.py:30-47 | the request table, the counter and the returned id afterwards are those of `SubmitMessage` |
| StudentService.SendCallRequest | services/student_service.py:49-86 | the request table, the counter and the returned id afterwards are those of `SubmitCall`; the window table is not modified |
| FavoriteStore.Pairs | persistent/db/favorite_mentor.py:9 | a pair is recorded iff some row has that user and mentor |
| FavoriteStore.FavoritesOf | repository/favorite_mentor_repository.py:32-40 | exactly the rows of that user |
| FavoriteStore.AddRow | repository/favorite_mentor_repository.py:12-20 | the insert on values: an unknown mentor key or a present pair is refused, otherwise one row is appended under the next id (stated by `AddRowPairs`) |
| FavoriteStore.RemoveRows | repository/favorite_mentor_repository.py:23-30 | the delete on values: every row of the pair goes, the rest keep their order (stated by `RemoveRowsPairs`) |
| FavoriteStore.AddRowPairs | repository/favorite_mentor_repository.py:12-20 | a successful insert adds exactly the new pair; a refused insert is a duplicate iff the mentor exists and the pair was present |
| FavoriteStore.RemoveRowsPairs | repository/favorite_mentor_repository.py:23-30 | a delete forgets exactly that pair; other pairs remain |
| FavoriteStore.AddTwiceRefused | persistent/db/favorite_mentor.py:9 | adding the same pair again is refused as a duplicate |
| FavoriteStore.AddThenRemove | repository/favorite_mentor_repository.py:12-30 | removing right after a successful add gives back the recorded pairs |
| FavoriteStore.AddRowKeepsKeys | persistent/db/favorite_mentor.py:7-12 | inserting a new pair keeps the primary key and the (user, mentor) constraint unique |
| FavoriteStore.FavoriteMentorRepository.AddFavorite | repository/favorite_mentor_repository.py:12-20 | on success the row is appended and its fresh id returned; on an integrity error nothing changes |
| FavoriteStore.FavoriteMentorRepository.RemoveFavorite | repository/favorite_mentor_repository.py:23-30 | every row of the pair is deleted, the rest kept in order |
| FavoriteStore.FavoriteMentorRepository.GetFavorites | repository/favorite_mentor_repository.py:32-40 | exactly the rows of that user, in store order |
| FavoriteService.AddFavoriteOutcome | services/favorite_service.py:15-21 | an unknown mentor gives None; a new pair is added and its id returned; a present pair raises the integrity error and changes nothing |
| FavoriteService.AddFavorite | services/favorite_service.py:15-21 | the outcome and the table afterwards are those of `AddFavoriteOutcome` |
| FavoriteService.RemoveFavorite | services/favorite_service.py:23-27 | an unknown mentor changes nothing; otherwise exactly that pair is forgotten |
| FavoriteService.GetFavorites | services/favorite_service.py:30-34 | exactly the favourites of that user |

## Left out

- HTTP routers, the FastAPI application, JWT authentication, logging and the database engine are not part of this model. Every operation is one sequential step, so the race between the reservation check and the insert is not modelled.
- Calendar dates, time zones and sub-second precision are not modelled. The request's send timestamp (`time_sended`) is not modelled either.
- Mentor records are reduced to a set of existing ids. Mentor creation, profile updates, search by name or specification, and the external profile sync are not modelled.
- repository/mentor_time_repository.py is not part of this model. It does not define the update, delete and insert calls the services make. The window table is specified from those call sites: list by mentor in store order, update bounds by id, delete by id, insert with a fresh id.
- services/time_table_service.py and the legacy call and request repositories under services/ are not part of this model.
- Nullable columns are not modelled: a window's day, bounds and mentor, and a request's mentor are always present. `call_type` is an integer, where 0 means a call and anything else a message.
- The foreign key of favourites on the mentors table is represented by the `UnknownMentorKey` integrity error. The delete of a mentor is not modelled.
- MentorService.AcceptThenCancelRestoresSlot: stated only for a half hour that does not wrap past midnight and a call that is not on a Sunday (a Sunday cancel restores nothing, see `SundayCancelRestoresNothing`), and only when the carve left a piece; when the booking took the whole window, `CancelRestoresSlot` covers the case where no other window touches the half hour.
- MentorService.Cancel: modelled on the intended range test of `create_mentor_time`. As written, a cancel whose mentor has a window on the republish day stores status 2 and then raises a TypeError; `CancelAsWritten` models that, and `CancelRequest` follows `Cancel`.
- `get_all_mentor_time` and the `get_all_requests` and `get_request_by_id` pass-throughs of the services are not modelled. They only forward the repository's reads, which `WindowsByMentor`, `RequestsByMentor` and `FindRequest` model.

## Findings

| source | as written | input that shows it | evidently intended | confidence | as-written member | corrected member |
|---|---|---|---|---|---|---|
| services/mentor_time_service.py:46-47 | `time_checker(..., call_time=...)` passes a keyword that `time_checker` does not accept, so the call raises a TypeError once the mentor has a window on that day | a mentor with Tuesday 08:00-12:00 publishes Tuesday 12:00-13:00 | an inclusive wall-clock test of the existing boundary against the new range, which extends the window to 08:00-13:00 | not executed | MentorTimeService.AsWrittenRaisesOnAdjacentWindow | MentorTimeService.PublishExtendsTouched |
| services/mentor_service.py:154-160 | `cancel_request` writes status 2 and then republishes through `create_mentor_time`, which raises as above once the mentor has a window on the republish day, so the slot is never restored | a Tuesday 08:00-12:00 window and an accepted call on Monday at 14:00 | the half hour is published again after the status write: here Tuesday 14:00-14:30 is appended | not executed | MentorService.CancelAsWrittenOnTuesdayWindow | MentorService.CancelRestoresSlot |
