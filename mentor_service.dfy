/** services/mentor_service.py: the mentor's view of the request table (counting and
    listing unanswered requests), answering a request with the carve-out of the booked
    half hour, and cancelling an accepted request with the restore of its slot. */
module MentorService {
  import opened Tables
  import opened Clock
  import opened WindowStore
  import opened RequestStore
  import opened MentorTimeService

  // ---------------------------------------------------------------------------
  // count_requests and get_requests
  // ---------------------------------------------------------------------------

  /** An unanswered call request (call type 0). */
  predicate IsPendingCall(q: Request)
  {
    q.response == Pending && q.callType == 0
  }

  /** An unanswered request of any other call type (a message). */
  predicate IsPendingMessage(q: Request)
  {
    q.response == Pending && q.callType != 0
  }

  /** The dictionary `{"call_requests": ..., "message_requests": ...}`. */
  datatype RequestCounts = RequestCounts(callRequests: nat, messageRequests: nat)

  /** The two counters split the unanswered requests of a mentor between them. */
  lemma CountsSplitPending(rows: seq<Request>, m: Id)
    ensures |Filter(RequestsByMentor(rows, m), IsPending)|
         == |Filter(RequestsByMentor(rows, m), IsPendingCall)| + |Filter(RequestsByMentor(rows, m), IsPendingMessage)|
  {
    FilterPartition(RequestsByMentor(rows, m), IsPending, IsPendingCall, IsPendingMessage);
  }

  /** One more request read by `count_requests` adds one to at most one counter. */
  lemma CountStep(s: seq<Request>, i: int)
    requires 0 <= i < |s|
    ensures |Filter(s[..i + 1], IsPendingCall)|
         == |Filter(s[..i], IsPendingCall)| + if s[i].response == Pending && s[i].callType == 0 then 1 else 0
    ensures |Filter(s[..i + 1], IsPendingMessage)|
         == |Filter(s[..i], IsPendingMessage)| + if s[i].response == Pending && s[i].callType != 0 then 1 else 0
  {
    CountSnoc(s, i, IsPendingCall);
    CountSnoc(s, i, IsPendingMessage);
  }

  /** `count_requests`: one pass over the mentor's requests, counting the unanswered ones
      by call type. */
  method CountRequests(requests: RequestRepository, mentorId: Id) returns (counts: RequestCounts)
    ensures counts.callRequests == |Filter(RequestsByMentor(requests.rows, mentorId), IsPendingCall)|
    ensures counts.messageRequests == |Filter(RequestsByMentor(requests.rows, mentorId), IsPendingMessage)|
    ensures counts.callRequests + counts.messageRequests == |Filter(RequestsByMentor(requests.rows, mentorId), IsPending)|
  {
    var mentorRequests := RequestsByMentor(requests.rows, mentorId);
    var callRequests := 0;
    var messageRequests := 0;
    var i := 0;
    while i < |mentorRequests|
      invariant 0 <= i <= |mentorRequests|
      invariant callRequests == |Filter(mentorRequests[..i], IsPendingCall)|
      invariant messageRequests == |Filter(mentorRequests[..i], IsPendingMessage)|
    {
      var request := mentorRequests[i];
      CountStep(mentorRequests, i);
      if request.response == Pending {
        if request.callType == 0 {
          callRequests := callRequests + 1;
        } else {
          messageRequests := messageRequests + 1;
        }
      }
      i := i + 1;
    }
    assert mentorRequests[..i] == mentorRequests;
    CountsSplitPending(requests.rows, mentorId);
    counts := RequestCounts(callRequests, messageRequests);
  }

  /** `get_requests`: the mentor's unanswered requests, in store order. */
  method GetRequests(requests: RequestRepository, mentorId: Id) returns (ignored: seq<Request>)
    ensures ignored == Filter(RequestsByMentor(requests.rows, mentorId), IsPending)
    ensures forall q :: q in ignored <==> q in requests.rows && q.mentorId == mentorId && q.response == Pending
  {
    var mentorRequests := RequestsByMentor(requests.rows, mentorId);
    ignored := [];
    var i := 0;
    while i < |mentorRequests|
      invariant 0 <= i <= |mentorRequests|
      invariant ignored == Filter(mentorRequests[..i], IsPending)
    {
      var request := mentorRequests[i];
      FilterSnoc(mentorRequests, i, IsPending);
      if request.response == Pending {
        ignored := ignored + [request];
      }
      i := i + 1;
    }
    assert mentorRequests[..i] == mentorRequests;
  }

  // ---------------------------------------------------------------------------
  // response_to_request: record the answer, carve the booked half hour on accept
  // ---------------------------------------------------------------------------

  /** How a call of `response_to_request` or `cancel_request` ends: it returned early
      without writing, it wrote, or it raised a TypeError after the status write (on an
      answer, because the request's mentor has no windows at all; on a cancel as written,
      because the republish raises). */
  datatype Reply = Ignored | Recorded | RaisedAfterWrite

  /** Both tables and the next free window id after a call, and how it ended. */
  datatype Booking = Booking(requests: seq<Request>, windows: seq<MentorTime>, nextWindowId: Id, reply: Reply)

  /** Wall clock `x` lies in window `w`, both bounds included. */
  predicate Contains(w: MentorTime, x: int)
  {
    InRange(w.timeStart, w.timeEnd, x)
  }

  /** The carve-out test: window `w` is on `day` and contains the booked half hour
      `rs`..`re`, both bounds included. */
  predicate Covers(w: MentorTime, day: int, rs: TimeOfDay, re: TimeOfDay)
  {
    w.timeStart <= rs && re <= w.timeEnd && w.day == day
  }

  /** The window the loop stops at (`break` after the first match), if any. */
  function FirstCovering(ws: seq<MentorTime>, day: int, rs: TimeOfDay, re: TimeOfDay): (r: Option<MentorTime>)
    ensures r.None? <==> forall w :: w in ws ==> !Covers(w, day, rs, re)
    ensures r.Some? ==> exists k :: (0 <= k < |ws| && ws[k] == r.value && Covers(ws[k], day, rs, re)
      && forall j :: 0 <= j < k ==> !Covers(ws[j], day, rs, re))
  {
    if ws == [] then None
    else if Covers(ws[0], day, rs, re) then Some(ws[0])
    else
      var r := FirstCovering(ws[1..], day, rs, re);
      assert forall w :: w in ws ==> w == ws[0] || w in ws[1..];
      if r.Some? then
        var k :| 0 <= k < |ws[1..]| && ws[1..][k] == r.value && Covers(ws[1..][k], day, rs, re)
          && forall j :: 0 <= j < k ==> !Covers(ws[1..][j], day, rs, re);
        assert ws[k + 1] == r.value && forall j :: 0 <= j < k + 1 ==> !Covers(ws[j], day, rs, re);
        r
      else r
  }

  /** What is left of window `w` around the booked half hour `rs`..`re`: a piece before
      it when the window starts earlier, then a piece after it when the window ends later,
      with ids handed out from `nextId`. A booking that fills the window leaves nothing. */
  function Pieces(w: MentorTime, rs: TimeOfDay, re: TimeOfDay, nextId: Id): seq<MentorTime>
  {
    var left := if w.timeStart < rs then [MentorTime(nextId, w.day, w.timeStart, rs, w.mentorId)] else [];
    var right := if re < w.timeEnd then [MentorTime(nextId + |left|, w.day, re, w.timeEnd, w.mentorId)] else [];
    left + right
  }

  /** The window table, the next free window id and the outcome after the carve step. */
  datatype Carve = Carve(windows: seq<MentorTime>, nextWindowId: Id, reply: Reply)

  /** The carve step of `response_to_request` for the found request `q`: only an accepted
      call with a call time carves. The first window of the request's mentor that covers
      the half hour on day `isoweekday()` of the call is replaced by its pieces. */
  function CarveOut(windows: seq<MentorTime>, nextWindowId: Id, q: Request, response: int): (c: Carve)
    ensures c.reply != Ignored
    ensures c.reply == RaisedAfterWrite ==> c.windows == windows && c.nextWindowId == nextWindowId
  {
    if response != Accepted || q.callTime.None? then Carve(windows, nextWindowId, Recorded)
    else if WindowsByMentor(windows, q.mentorId) == [] then Carve(windows, nextWindowId, RaisedAfterWrite)
    else
      var t := q.callTime.value;
      match FirstCovering(WindowsByMentor(windows, q.mentorId), IsoWeekday(t), TimeOf(t), HalfHourLater(t))
      case None => Carve(windows, nextWindowId, Recorded)
      case Some(w) =>
        var pieces := Pieces(w, TimeOf(t), HalfHourLater(t), nextWindowId);
        Carve(WithoutWindow(windows, w.id) + pieces, nextWindowId + |pieces|, Recorded)
  }

  /** `response_to_request` on values. An unknown caller or an unknown request id changes
      nothing. Otherwise the response is written whatever the current status is, then the
      carve step runs. The caller need not be the request's mentor. */
  function Respond(requests: seq<Request>, windows: seq<MentorTime>, nextWindowId: Id, mentors: set<Id>,
                   mentorId: Id, requestId: Id, response: int): Booking
  {
    if mentorId !in mentors then Booking(requests, windows, nextWindowId, Ignored)
    else match FindRequest(requests, requestId)
      case None => Booking(requests, windows, nextWindowId, Ignored)
      case Some(q) =>
        var c := CarveOut(windows, nextWindowId, q, response);
        Booking(WithResponse(requests, requestId, response), c.windows, c.nextWindowId, c.reply)
  }

  /** Every point of a carved window outside the booked half hour stays available, no
      point strictly inside it does, the pieces keep the window's day and mentor, have
      a positive length and carry fresh consecutive ids. There is a piece before the
      half hour exactly when the window starts earlier, and a piece after it exactly when
      the window ends later. */
  lemma PiecesCoverRemainder(w: MentorTime, rs: TimeOfDay, re: TimeOfDay, nextId: Id)
    requires w.timeStart <= rs <= re <= w.timeEnd
    ensures var ps := Pieces(w, rs, re, nextId);
      && |ps| <= 2
      && |ps| == (if w.timeStart < rs then 1 else 0) + (if re < w.timeEnd then 1 else 0)
      && (w.timeStart < rs ==> ps[0].timeStart == w.timeStart && ps[0].timeEnd == rs)
      && (re < w.timeEnd ==> ps[|ps| - 1].timeStart == re && ps[|ps| - 1].timeEnd == w.timeEnd)
      && (forall x :: Contains(w, x) && (x < rs || re < x) ==> exists p :: p in ps && Contains(p, x))
      && (forall p, x :: p in ps && Contains(p, x) ==> Contains(w, x) && !(rs < x < re))
      && (forall k :: 0 <= k < |ps| ==>
            ps[k].id == nextId + k && ps[k].day == w.day && ps[k].mentorId == w.mentorId
            && ps[k].timeStart < ps[k].timeEnd)
  {
    var ps := Pieces(w, rs, re, nextId);
    forall x | Contains(w, x) && (x < rs || re < x)
      ensures exists p :: p in ps && Contains(p, x)
    {
      if x < rs {
        assert ps[0] in ps;
      } else {
        assert ps[|ps| - 1] in ps;
      }
    }
  }

  /** The pieces carry consecutive ids from `nextId`; there are at most two. */
  lemma PiecesIds(w: MentorTime, rs: TimeOfDay, re: TimeOfDay, nextId: Id)
    ensures var ps := Pieces(w, rs, re, nextId);
      |ps| <= 2 && forall p :: p in ps ==> nextId <= p.id < nextId + |ps|
  {
  }

  /** At most one window is affected by an answer: every window that disappears has the
      same id, and every window that appears is new, with an id handed out by this call. */
  lemma RespondAffectsOneWindow(requests: seq<Request>, windows: seq<MentorTime>, nextWindowId: Id,
                                mentors: set<Id>, mentorId: Id, requestId: Id, response: int)
    ensures var b := Respond(requests, windows, nextWindowId, mentors, mentorId, requestId, response);
      && nextWindowId <= b.nextWindowId <= nextWindowId + 2
      && (forall v1, v2 :: v1 in windows && v2 in windows && v1 !in b.windows && v2 !in b.windows ==> v1.id == v2.id)
      && (forall v :: v in b.windows ==> v in windows || nextWindowId <= v.id < b.nextWindowId)
  {
    var b := Respond(requests, windows, nextWindowId, mentors, mentorId, requestId, response);
    if mentorId in mentors && FindRequest(requests, requestId).Some? {
      var q := FindRequest(requests, requestId).value;
      if response == Accepted && q.callTime.Some? && WindowsByMentor(windows, q.mentorId) != [] {
        var t := q.callTime.value;
        var c := FirstCovering(WindowsByMentor(windows, q.mentorId), IsoWeekday(t), TimeOf(t), HalfHourLater(t));
        if c.Some? {
          PiecesIds(c.value, TimeOf(t), HalfHourLater(t), nextWindowId);
        }
      }
    }
  }

  /** A booking that fills its window exactly removes the window without a piece. */
  lemma FullBookingLeavesNothing(w: MentorTime, nextId: Id)
    ensures Pieces(w, w.timeStart, w.timeEnd, nextId) == []
  {
  }

  /** The answer is written as given, whatever the request's current status: there is no
      guard on the transition, so even a cancelled request can be answered again. With an
      unknown caller or request nothing is written. */
  lemma RespondWritesAnyValue(requests: seq<Request>, windows: seq<MentorTime>, nextWindowId: Id,
                              mentors: set<Id>, mentorId: Id, requestId: Id, response: int)
    requires UniqueRequestIds(requests)
    ensures var b := Respond(requests, windows, nextWindowId, mentors, mentorId, requestId, response);
      match FindRequest(requests, requestId)
      case None => b == Booking(requests, windows, nextWindowId, Ignored)
      case Some(q) =>
        if mentorId in mentors then
          b.reply != Ignored && b.requests == WithResponse(requests, requestId, response)
          && FindRequest(b.requests, requestId) == Some(q.(response := response))
        else b == Booking(requests, windows, nextWindowId, Ignored)
  {
    WithResponseEffect(requests, requestId, response);
  }

  /** Who answers does not matter, as long as it is a known mentor. */
  lemma RespondIgnoresCaller(requests: seq<Request>, windows: seq<MentorTime>, nextWindowId: Id,
                             mentors: set<Id>, m1: Id, m2: Id, requestId: Id, response: int)
    requires m1 in mentors && m2 in mentors
    ensures Respond(requests, windows, nextWindowId, mentors, m1, requestId, response)
         == Respond(requests, windows, nextWindowId, mentors, m2, requestId, response)
  {
  }

  /** Only an acceptance carves: any other answer leaves the window table alone. */
  lemma RespondCarvesOnlyOnAccept(requests: seq<Request>, windows: seq<MentorTime>, nextWindowId: Id,
                                  mentors: set<Id>, mentorId: Id, requestId: Id, response: int)
    requires response != Accepted
    ensures var b := Respond(requests, windows, nextWindowId, mentors, mentorId, requestId, response);
      b.windows == windows && b.nextWindowId == nextWindowId && b.reply != RaisedAfterWrite
  {
  }

  /** An accepted call request holds its slot afterwards. */
  lemma AcceptedRequestReserves(requests: seq<Request>, windows: seq<MentorTime>, nextWindowId: Id,
                                mentors: set<Id>, mentorId: Id, requestId: Id, q: Request)
    requires UniqueRequestIds(requests) && mentorId in mentors
    requires FindRequest(requests, requestId) == Some(q) && q.callTime.Some?
    ensures Reserved(Respond(requests, windows, nextWindowId, mentors, mentorId, requestId, Accepted).requests,
                     q.mentorId, q.callTime.value)
  {
    WithResponseEffect(requests, requestId, Accepted);
    var b := Respond(requests, windows, nextWindowId, mentors, mentorId, requestId, Accepted);
    assert q.(response := Accepted) in b.requests;
  }

  /** The carve-out compares the stored day (0 = Monday) with `isoweekday()` (1 = Monday),
      so a window on the call's own weekday is never carved. */
  lemma CallDayWindowsSurvive(requests: seq<Request>, windows: seq<MentorTime>, nextWindowId: Id,
                              mentors: set<Id>, mentorId: Id, requestId: Id, response: int,
                              q: Request, v: MentorTime)
    requires UniqueWindowIds(windows)
    requires FindRequest(requests, requestId) == Some(q) && q.callTime.Some?
    requires v in windows && v.day == Weekday(q.callTime.value)
    ensures v in Respond(requests, windows, nextWindowId, mentors, mentorId, requestId, response).windows
  {
    var b := Respond(requests, windows, nextWindowId, mentors, mentorId, requestId, response);
    var t := q.callTime.value;
    var ws := WindowsByMentor(windows, q.mentorId);
    if mentorId in mentors && response == Accepted && ws != [] {
      var c := FirstCovering(ws, IsoWeekday(t), TimeOf(t), HalfHourLater(t));
      if c.Some? {
        var w := c.value;
        assert w in windows;
        if v.id == w.id {
          var j :| 0 <= j < |windows| && windows[j] == w;
          SameWindowId(windows, v, j);
        }
        assert v in WithoutWindow(windows, w.id);
      }
    }
  }

  /** On the wrap past midnight: a call accepted at 23:30 on a Tuesday books 23:30-00:00,
      so any Wednesday window starting by 23:30 "covers" it; the window 20:00-23:00 is
      replaced by 20:00-23:30 and 00:00-23:00. */
  lemma AcceptAtHalfPastElevenWraps()
    ensures var t := At(0, 1, 84600);
      var q := Request(0, 0, 7, 9, "", Some(t), Pending);
      var w := MentorTime(0, 2, 72000, 82800, 7);
      Respond([q], [w], 1, {7}, 7, 0, Accepted)
        == Booking([q.(response := Accepted)], [MentorTime(1, 2, 72000, 84600, 7), MentorTime(2, 2, 0, 82800, 7)], 3, Recorded)
  {
    var t := At(0, 1, 84600);
    AtParts(0, 1, 84600);
    HalfHourLaterWraps(t);
    var q := Request(0, 0, 7, 9, "", Some(t), Pending);
    var w := MentorTime(0, 2, 72000, 82800, 7);
    assert WindowsByMentor([w], 7) == [w] by {
      assert w in WindowsByMentor([w], 7);
    }
    assert WithResponse([q], 0, Accepted) == [q.(response := Accepted)];
    assert WithoutWindow([w], 0) == [];
  }

  /** `response_to_request`: the two guards, the status write, then on acceptance the
      scan of the mentor's windows that stops at the first covering one and replaces it
      by its pieces. */
  method ResponseToRequest(mentors: set<Id>, requests: RequestRepository, windows: MentorTimeRepository,
                           mentorId: Id, requestId: Id, response: int) returns (reply: Reply)
    requires requests.Valid() && windows.Valid()
    modifies requests, windows
    ensures requests.Valid() && windows.Valid()
    ensures Booking(requests.rows, windows.rows, windows.nextId, reply)
         == Respond(old(requests.rows), old(windows.rows), old(windows.nextId), mentors, mentorId, requestId, response)
  {
    if mentorId !in mentors {
      return Ignored;
    }
    var request := FindRequest(requests.rows, requestId);
    if request.None? {
      return Ignored;
    }
    var q := request.value;
    requests.MentorResponse(requestId, response);
    reply := CarveCall(windows, q, response);
  }

  /** The part of `response_to_request` after the status write: on an accepted call, the
      scan of the request's mentor's windows for the first one covering the booked half
      hour, and its carve-out. */
  method CarveCall(windows: MentorTimeRepository, q: Request, response: int) returns (reply: Reply)
    requires windows.Valid()
    modifies windows
    ensures windows.Valid()
    ensures Carve(windows.rows, windows.nextId, reply) == CarveOut(old(windows.rows), old(windows.nextId), q, response)
  {
    reply := Recorded;
    if response == Accepted && q.callTime.Some? {
      var mentorTimes := GetAllMentorTimeByMentorId(windows.rows, q.mentorId);
      if mentorTimes.None? {
        return RaisedAfterWrite;
      }
      var t := q.callTime.value;
      var reqStart := TimeOf(t);
      var reqEnd := HalfHourLater(t);
      var found := ScanCovering(mentorTimes.value, IsoWeekday(t), reqStart, reqEnd);
      if found.Some? {
        CarveWindow(windows, found.value, reqStart, reqEnd);
      }
    }
  }

  /** The `for` loop of `response_to_request`: the mentor's windows in store order until
      the first one on the call's day containing the booked half hour. */
  method ScanCovering(list: seq<MentorTime>, day: int, reqStart: TimeOfDay, reqEnd: TimeOfDay)
    returns (found: Option<MentorTime>)
    ensures found == FirstCovering(list, day, reqStart, reqEnd)
  {
    var i := 0;
    while i < |list|
      invariant 0 <= i <= |list|
      invariant forall j :: 0 <= j < i ==> !Covers(list[j], day, reqStart, reqEnd)
    {
      var mt := list[i];
      if mt.timeStart <= reqStart && reqEnd <= mt.timeEnd && mt.day == day {
        FirstCoveringAt(list, i, day, reqStart, reqEnd);
        return Some(mt);
      }
      i := i + 1;
    }
    assert forall w :: w in list ==> !Covers(w, day, reqStart, reqEnd);
    found := None;
  }

  /** The body of the match in `response_to_request`: delete the covering window `mt`,
      then insert the piece before and the piece after the booked half hour. */
  method CarveWindow(windows: MentorTimeRepository, mt: MentorTime, reqStart: TimeOfDay, reqEnd: TimeOfDay)
    requires windows.Valid()
    modifies windows
    ensures windows.Valid()
    ensures windows.rows == WithoutWindow(old(windows.rows), mt.id) + Pieces(mt, reqStart, reqEnd, old(windows.nextId))
    ensures windows.nextId == old(windows.nextId) + |Pieces(mt, reqStart, reqEnd, old(windows.nextId))|
  {
    if mt.timeStart == reqStart && mt.timeEnd == reqEnd {
      windows.DeleteMentorTime(mt.id);
      assert windows.rows + [] == windows.rows;
    } else {
      var oldStart := mt.timeStart;
      var oldEnd := mt.timeEnd;
      windows.DeleteMentorTime(mt.id);
      ghost var afterDelete := windows.rows;
      ghost var left: seq<MentorTime> := [];
      if oldStart < reqStart {
        var id := windows.CreateNewMentorTime(mt.day, oldStart, reqStart, mt.mentorId);
        left := [MentorTime(id, mt.day, oldStart, reqStart, mt.mentorId)];
      }
      assert windows.rows == afterDelete + left;
      ghost var right: seq<MentorTime> := [];
      if reqEnd < oldEnd {
        var id := windows.CreateNewMentorTime(mt.day, reqEnd, oldEnd, mt.mentorId);
        right := [MentorTime(id, mt.day, reqEnd, oldEnd, mt.mentorId)];
      }
      assert windows.rows == afterDelete + left + right;
      assert left + right == Pieces(mt, reqStart, reqEnd, old(windows.nextId));
    }
  }

  /** The scan stops at index `i`: the first covering window is `ws[i]`. */
  lemma FirstCoveringAt(ws: seq<MentorTime>, i: int, day: int, rs: TimeOfDay, re: TimeOfDay)
    requires 0 <= i < |ws| && Covers(ws[i], day, rs, re)
    requires forall j :: 0 <= j < i ==> !Covers(ws[j], day, rs, re)
    ensures FirstCovering(ws, day, rs, re) == Some(ws[i])
  {
    var r := FirstCovering(ws, day, rs, re);
    assert ws[i] in ws;
    var k :| 0 <= k < |ws| && ws[k] == r.value && Covers(ws[k], day, rs, re)
      && forall j :: 0 <= j < k ==> !Covers(ws[j], day, rs, re);
    assert !(k < i) && !(i < k);
  }

  // ---------------------------------------------------------------------------
  // cancel_request: mark an accepted request cancelled and republish its slot
  // ---------------------------------------------------------------------------

  /** `cancel_request` on values. An unknown caller, an unknown request id or a request
      that is not accepted changes nothing. Otherwise the status becomes 2 and, when the
      request has a call time, the booked half hour is published again through
      `create_mentor_time` for the request's mentor, on day `isoweekday()` of the call. */
  function Cancel(requests: seq<Request>, windows: seq<MentorTime>, nextWindowId: Id, mentors: set<Id>,
                  mentorId: Id, requestId: Id): Booking
  {
    if mentorId !in mentors then Booking(requests, windows, nextWindowId, Ignored)
    else match FindRequest(requests, requestId)
      case None => Booking(requests, windows, nextWindowId, Ignored)
      case Some(q) =>
        if q.response != Accepted then Booking(requests, windows, nextWindowId, Ignored)
        else
          var written := WithResponse(requests, requestId, Cancelled);
          if q.callTime.None? then Booking(written, windows, nextWindowId, Recorded)
          else
            var t := q.callTime.value;
            var p := Publish(windows, nextWindowId, mentors, IsoWeekday(t), TimeOf(t), HalfHourLater(t), q.mentorId);
            Booking(written, p.rows, p.nextId, Recorded)
  }

  /** `cancel_request` exactly as written: the republish goes through `create_mentor_time`
      as written, which raises a TypeError once the request's mentor has a window on the
      republish day; the status 2 is already stored by then and no window is restored. */
  function CancelAsWritten(requests: seq<Request>, windows: seq<MentorTime>, nextWindowId: Id, mentors: set<Id>,
                           mentorId: Id, requestId: Id): Booking
  {
    if mentorId !in mentors then Booking(requests, windows, nextWindowId, Ignored)
    else match FindRequest(requests, requestId)
      case None => Booking(requests, windows, nextWindowId, Ignored)
      case Some(q) =>
        if q.response != Accepted then Booking(requests, windows, nextWindowId, Ignored)
        else
          var written := WithResponse(requests, requestId, Cancelled);
          if q.callTime.None? then Booking(written, windows, nextWindowId, Recorded)
          else
            var t := q.callTime.value;
            match PublishAsWritten(windows, nextWindowId, mentors, IsoWeekday(t), TimeOf(t), HalfHourLater(t), q.mentorId)
            case RaisedTypeError => Booking(written, windows, nextWindowId, RaisedAfterWrite)
            case Returned(p) => Booking(written, p.rows, p.nextId, Recorded)
  }

  /** As written, cancelling an accepted call whose mentor has a window on the republish
      day stores status 2 and then raises: no window comes back. */
  lemma CancelAsWrittenRaises(requests: seq<Request>, windows: seq<MentorTime>, nextWindowId: Id,
                              mentors: set<Id>, mentorId: Id, requestId: Id, q: Request, w: MentorTime)
    requires mentorId in mentors && q.mentorId in mentors
    requires FindRequest(requests, requestId) == Some(q) && q.response == Accepted
    requires q.callTime.Some? && Weekday(q.callTime.value) < 6
    requires w in windows && w.mentorId == q.mentorId && w.day == IsoWeekday(q.callTime.value)
    ensures var b := CancelAsWritten(requests, windows, nextWindowId, mentors, mentorId, requestId);
      && b.reply == RaisedAfterWrite
      && b.requests == WithResponse(requests, requestId, Cancelled)
      && b.windows == windows && b.nextWindowId == nextWindowId
  {
    assert w in WindowsByMentor(windows, q.mentorId);
  }

  /** Without a window of the mentor on the republish day the code as written and the
      corrected rule agree. */
  lemma CancelAsWrittenAgrees(requests: seq<Request>, windows: seq<MentorTime>, nextWindowId: Id,
                              mentors: set<Id>, mentorId: Id, requestId: Id, q: Request)
    requires FindRequest(requests, requestId) == Some(q) && q.callTime.Some?
    requires forall w :: w in windows && w.mentorId == q.mentorId ==> w.day != IsoWeekday(q.callTime.value)
    ensures CancelAsWritten(requests, windows, nextWindowId, mentors, mentorId, requestId)
         == Cancel(requests, windows, nextWindowId, mentors, mentorId, requestId)
  {
    var t := q.callTime.value;
    var day := IsoWeekday(t);
    assert LastTouched(WindowsByMentor(windows, q.mentorId), day, TimeOf(t), HalfHourLater(t)).None?;
  }

  /** The input that shows the difference: a Tuesday 08:00-12:00 window and an accepted
      call on Monday at 14:00. As written the status becomes 2 and the call raises with no
      window restored; the corrected rule appends Tuesday 14:00-14:30. */
  lemma CancelAsWrittenOnTuesdayWindow()
    ensures var q := Request(0, 0, 7, 9, "", Some(At(0, 0, 50400)), Accepted);
      var w := MentorTime(0, 1, 28800, 43200, 7);
      && CancelAsWritten([q], [w], 1, {7}, 7, 0) == Booking([q.(response := Cancelled)], [w], 1, RaisedAfterWrite)
      && Cancel([q], [w], 1, {7}, 7, 0)
         == Booking([q.(response := Cancelled)], [w, MentorTime(1, 1, 50400, 52200, 7)], 2, Recorded)
  {
    var t := At(0, 0, 50400);
    AtParts(0, 0, 50400);
    var q := Request(0, 0, 7, 9, "", Some(t), Accepted);
    var w := MentorTime(0, 1, 28800, 43200, 7);
    assert HalfHourLater(t) == 52200;
    assert WindowsByMentor([w], 7) == [w] by {
      assert w in WindowsByMentor([w], 7);
    }
    assert WithResponse([q], 0, Cancelled) == [q.(response := Cancelled)];
    assert !Touches(w, 1, 50400, 52200);
  }

  /** Only an accepted request can be cancelled; any other status is left as it is and
      nothing is written. */
  lemma CancelOnlyAccepted(requests: seq<Request>, windows: seq<MentorTime>, nextWindowId: Id,
                           mentors: set<Id>, mentorId: Id, requestId: Id, q: Request)
    requires FindRequest(requests, requestId) == Some(q) && q.response != Accepted
    ensures Cancel(requests, windows, nextWindowId, mentors, mentorId, requestId)
         == Booking(requests, windows, nextWindowId, Ignored)
  {
  }

  /** A cancelled request is marked 2 and no longer holds its slot. */
  lemma CancelReleasesRequest(requests: seq<Request>, windows: seq<MentorTime>, nextWindowId: Id,
                              mentors: set<Id>, mentorId: Id, requestId: Id, q: Request)
    requires UniqueRequestIds(requests) && mentorId in mentors
    requires FindRequest(requests, requestId) == Some(q) && q.response == Accepted
    ensures var b := Cancel(requests, windows, nextWindowId, mentors, mentorId, requestId);
      b.reply == Recorded && FindRequest(b.requests, requestId) == Some(q.(response := Cancelled))
      && UniqueRequestIds(b.requests)
  {
    WithResponseEffect(requests, requestId, Cancelled);
  }

  /** Cancelling twice is the same as cancelling once: the second call finds status 2. */
  lemma CancelTwiceIsCancelOnce(requests: seq<Request>, windows: seq<MentorTime>, nextWindowId: Id,
                                mentors: set<Id>, mentorId: Id, requestId: Id)
    requires UniqueRequestIds(requests)
    ensures var b := Cancel(requests, windows, nextWindowId, mentors, mentorId, requestId);
      Cancel(b.requests, b.windows, b.nextWindowId, mentors, mentorId, requestId)
        == Booking(b.requests, b.windows, b.nextWindowId, Ignored)
  {
    if mentorId in mentors {
      match FindRequest(requests, requestId)
      case None =>
      case Some(q) =>
        if q.response == Accepted {
          CancelReleasesRequest(requests, windows, nextWindowId, mentors, mentorId, requestId, q);
        }
    }
  }

  /** A Sunday call is republished on day 7, which `create_mentor_time` rejects: the slot
      is not restored. */
  lemma SundayCancelRestoresNothing(requests: seq<Request>, windows: seq<MentorTime>, nextWindowId: Id,
                                    mentors: set<Id>, mentorId: Id, requestId: Id, q: Request)
    requires FindRequest(requests, requestId) == Some(q) && q.callTime.Some? && Weekday(q.callTime.value) == 6
    ensures var b := Cancel(requests, windows, nextWindowId, mentors, mentorId, requestId);
      b.windows == windows && b.nextWindowId == nextWindowId
  {
  }

  /** On any other weekday, when no window of the request's (known) mentor on the
      republish day has a boundary in the half hour, the half hour comes back as one new
      window with a fresh id. The new window lies on the day after the call's weekday. */
  lemma CancelRestoresSlot(requests: seq<Request>, windows: seq<MentorTime>, nextWindowId: Id,
                           mentors: set<Id>, mentorId: Id, requestId: Id, q: Request)
    requires mentorId in mentors && q.mentorId in mentors
    requires forall w :: w in windows ==> w.id < nextWindowId
    requires FindRequest(requests, requestId) == Some(q) && q.response == Accepted
    requires q.callTime.Some? && Weekday(q.callTime.value) < 6
    requires forall w :: w in windows && w.mentorId == q.mentorId ==>
      !Touches(w, IsoWeekday(q.callTime.value), TimeOf(q.callTime.value), HalfHourLater(q.callTime.value))
    ensures var t := q.callTime.value;
      var b := Cancel(requests, windows, nextWindowId, mentors, mentorId, requestId);
      && b.windows == windows + [MentorTime(nextWindowId, Weekday(t) + 1, TimeOf(t), HalfHourLater(t), q.mentorId)]
      && b.nextWindowId == nextWindowId + 1
  {
    var t := q.callTime.value;
    PublishInserts(windows, nextWindowId, mentors, IsoWeekday(t), TimeOf(t), HalfHourLater(t), q.mentorId);
  }

  /** Accept, then cancel: when the carve left a piece of the covering window, the cancel
      stretches that piece back over the booked half hour, so the mentor again has a window
      on the carve day covering it, and the request ends cancelled. The half hour must not
      wrap past midnight and the call must not fall on a Sunday. */
  lemma AcceptThenCancelRestoresSlot(requests: seq<Request>, windows: seq<MentorTime>, nextWindowId: Id,
                                     mentors: set<Id>, mentorId: Id, requestId: Id, q: Request, w: MentorTime)
    requires mentorId in mentors && q.mentorId in mentors
    requires FindRequest(requests, requestId) == Some(q) && q.callTime.Some?
    requires Weekday(q.callTime.value) < 6 && TimeOf(q.callTime.value) < DaySeconds - HalfHour
    requires FirstCovering(WindowsByMentor(windows, q.mentorId), IsoWeekday(q.callTime.value),
                           TimeOf(q.callTime.value), HalfHourLater(q.callTime.value)) == Some(w)
    requires w.timeStart < TimeOf(q.callTime.value) || HalfHourLater(q.callTime.value) < w.timeEnd
    ensures var t := q.callTime.value;
      var a := Respond(requests, windows, nextWindowId, mentors, mentorId, requestId, Accepted);
      var c := Cancel(a.requests, a.windows, a.nextWindowId, mentors, mentorId, requestId);
      && a.reply == Recorded && c.reply == Recorded
      && FindRequest(c.requests, requestId) == Some(q.(response := Cancelled))
      && exists v :: v in c.windows && v.mentorId == q.mentorId && Covers(v, IsoWeekday(t), TimeOf(t), HalfHourLater(t))
  {
    var t := q.callTime.value;
    var day := IsoWeekday(t);
    var rs := TimeOf(t);
    var re := HalfHourLater(t);
    HalfHourLaterWraps(t);
    var ws := WindowsByMentor(windows, q.mentorId);
    assert w in ws && Covers(w, day, rs, re);
    var ps := Pieces(w, rs, re, nextWindowId);
    var a := Respond(requests, windows, nextWindowId, mentors, mentorId, requestId, Accepted);
    assert a.windows == WithoutWindow(windows, w.id) + ps && a.nextWindowId == nextWindowId + |ps|;
    FindAfterResponse(requests, requestId, Accepted, q);
    var qa := q.(response := Accepted);
    assert FindRequest(a.requests, requestId) == Some(qa);
    FindAfterResponse(a.requests, requestId, Cancelled, qa);
    PiecesCoverRemainder(w, rs, re, nextWindowId);
    var piece := if w.timeStart < rs then ps[0] else ps[|ps| - 1];
    assert piece in ps;
    assert piece.mentorId == q.mentorId && piece.day == day && Touches(piece, day, rs, re);
    var k := |WithoutWindow(windows, w.id)| + (if w.timeStart < rs then 0 else |ps| - 1);
    assert a.windows[k] == piece;
    PublishExtendsTouched(a.windows, a.nextWindowId, mentors, day, rs, re, q.mentorId, piece);
    var c := Cancel(a.requests, a.windows, a.nextWindowId, mentors, mentorId, requestId);
    var pub := Publish(a.windows, a.nextWindowId, mentors, day, rs, re, q.mentorId);
    assert c.windows == pub.rows;
    var v := pub.rows[k];
    assert v.mentorId == q.mentorId && Covers(v, day, rs, re);
  }

  /** Cancelling never changes another mentor's windows. */
  lemma CancelKeepsOtherMentors(requests: seq<Request>, windows: seq<MentorTime>, nextWindowId: Id,
                                mentors: set<Id>, mentorId: Id, requestId: Id, v: MentorTime)
    requires v in windows
    requires forall q :: FindRequest(requests, requestId) == Some(q) ==> q.mentorId != v.mentorId
    ensures v in Cancel(requests, windows, nextWindowId, mentors, mentorId, requestId).windows
  {
    var b := Cancel(requests, windows, nextWindowId, mentors, mentorId, requestId);
    if mentorId in mentors && FindRequest(requests, requestId).Some? {
      var q := FindRequest(requests, requestId).value;
      if q.response == Accepted && q.callTime.Some? {
        var t := q.callTime.value;
        var k :| 0 <= k < |windows| && windows[k] == v;
        if IsoWeekday(t) <= 6 && q.mentorId in mentors
           && LastTouched(WindowsByMentor(windows, q.mentorId), IsoWeekday(t), TimeOf(t), HalfHourLater(t)).Some? {
          assert b.windows[k] == v;
        } else {
          assert v in windows + [MentorTime(nextWindowId, IsoWeekday(t), TimeOf(t), HalfHourLater(t), q.mentorId)];
        }
      }
    }
  }

  /** `cancel_request`: the three guards, the status write, then the republish. */
  method CancelRequest(mentors: set<Id>, requests: RequestRepository, windows: MentorTimeRepository,
                       mentorId: Id, requestId: Id) returns (reply: Reply)
    requires requests.Valid() && windows.Valid()
    modifies requests, windows
    ensures requests.Valid() && windows.Valid()
    ensures Booking(requests.rows, windows.rows, windows.nextId, reply)
         == Cancel(old(requests.rows), old(windows.rows), old(windows.nextId), mentors, mentorId, requestId)
  {
    if mentorId !in mentors {
      return Ignored;
    }
    var request := FindRequest(requests.rows, requestId);
    if request.None? {
      return Ignored;
    }
    var q := request.value;
    if q.response != Accepted {
      return Ignored;
    }
    requests.MentorResponse(requestId, Cancelled);
    if q.callTime.Some? {
      var t := q.callTime.value;
      var _ := CreateMentorTime(windows, mentors, IsoWeekday(t), TimeOf(t), HalfHourLater(t), q.mentorId);
    }
    reply := Recorded;
  }
}
