/** services/student_service.py: a guest asks a mentor for a correspondence or for a
    half-hour call at a given instant. */
module StudentService {
  import opened Tables
  import opened WindowStore
  import opened RequestStore
  import opened Checkers

  /** The request table, the next free request id and the returned id after a call. */
  datatype Submission = Submission(requests: seq<Request>, nextId: Id, result: Option<Id>)

  /** Some window of `ws` accepts the call instant `t` (the `for ... else` search). */
  predicate Available(ws: seq<MentorTime>, t: int)
  {
    exists w :: w in ws && TimeChecker(w.day, w.timeStart, w.timeEnd, t)
  }

  /** `send_message_request` on values: an unknown mentor gives None; otherwise a
      message request (call type 1, no call time) is appended. */
  function SubmitMessage(requests: seq<Request>, nextId: Id, mentors: set<Id>,
                         mentorId: Id, guestId: Id, description: string): Submission
  {
    if mentorId !in mentors then Submission(requests, nextId, None)
    else Submission(requests + [Request(nextId, 1, mentorId, guestId, description, None, Pending)], nextId + 1, Some(nextId))
  }

  /** `send_call_request` on values: the guards in source order (known mentor, some
      window at all, some window accepting the instant, slot not reserved), then a call
      request (call type 0) at that instant is appended. */
  function SubmitCall(requests: seq<Request>, nextId: Id, windows: seq<MentorTime>, mentors: set<Id>,
                      mentorId: Id, guestId: Id, description: string, callTime: int): Submission
  {
    var timeList := WindowsByMentor(windows, mentorId);
    if mentorId !in mentors || timeList == [] || !Available(timeList, callTime) || Reserved(requests, mentorId, callTime)
    then Submission(requests, nextId, None)
    else Submission(requests + [Request(nextId, 0, mentorId, guestId, description, Some(callTime), Pending)], nextId + 1, Some(nextId))
  }

  /** A message request is stored exactly when the mentor exists, and it never takes any
      call slot. */
  lemma MessageNeverReserves(requests: seq<Request>, nextId: Id, mentors: set<Id>,
                             mentorId: Id, guestId: Id, description: string, m: Id, t: int)
    ensures var s := SubmitMessage(requests, nextId, mentors, mentorId, guestId, description);
      && (s.result.Some? <==> mentorId in mentors)
      && Reserved(s.requests, m, t) == Reserved(requests, m, t)
  {
    if mentorId in mentors {
      OtherSlotDoesNotReserve(requests, Request(nextId, 1, mentorId, guestId, description, None, Pending), m, t);
    }
  }

  /** A call request is accepted exactly when the mentor exists, one of the mentor's
      windows accepts the instant and no pending or accepted request holds it; then it
      is appended as a pending call under a new id. Otherwise nothing changes. */
  lemma SubmitCallAcceptsIff(requests: seq<Request>, nextId: Id, windows: seq<MentorTime>, mentors: set<Id>,
                             mentorId: Id, guestId: Id, description: string, callTime: int)
    ensures var s := SubmitCall(requests, nextId, windows, mentors, mentorId, guestId, description, callTime);
      && (s.result.Some? <==>
            mentorId in mentors
            && (exists w :: w in windows && w.mentorId == mentorId && TimeChecker(w.day, w.timeStart, w.timeEnd, callTime))
            && !Reserved(requests, mentorId, callTime))
      && (s.result.None? ==> s.requests == requests && s.nextId == nextId)
      && (s.result.Some? ==>
            s.result.value == nextId && s.nextId == nextId + 1
            && s.requests == requests + [Request(nextId, 0, mentorId, guestId, description, Some(callTime), Pending)])
  {
    var timeList := WindowsByMentor(windows, mentorId);
    if exists w :: w in windows && w.mentorId == mentorId && TimeChecker(w.day, w.timeStart, w.timeEnd, callTime) {
      var w :| w in windows && w.mentorId == mentorId && TimeChecker(w.day, w.timeStart, w.timeEnd, callTime);
      assert w in timeList;
    }
  }

  /** Once a call request is accepted, the same slot of that mentor is refused to
      everyone until the request is rejected or cancelled. */
  lemma SecondCallRefused(requests: seq<Request>, nextId: Id, windows: seq<MentorTime>, mentors: set<Id>,
                          mentorId: Id, guestId: Id, description: string, callTime: int,
                          otherGuest: Id, otherDescription: string)
    ensures var s := SubmitCall(requests, nextId, windows, mentors, mentorId, guestId, description, callTime);
      s.result.Some? ==>
        SubmitCall(s.requests, s.nextId, windows, mentors, mentorId, otherGuest, otherDescription, callTime).result.None?
  {
    var s := SubmitCall(requests, nextId, windows, mentors, mentorId, guestId, description, callTime);
    if s.result.Some? {
      PendingReserves(requests, Request(nextId, 0, mentorId, guestId, description, Some(callTime), Pending));
    }
  }

  /** A request that is rejected or cancelled gives its slot back: a call that only that
      request blocked is accepted again. */
  lemma ReleasedSlotBookable(requests: seq<Request>, q: Request, nextId: Id, windows: seq<MentorTime>,
                             mentors: set<Id>, mentorId: Id, guestId: Id, description: string, callTime: int)
    requires !IsActive(q)
    ensures SubmitCall(requests + [q], nextId, windows, mentors, mentorId, guestId, description, callTime).result
         == SubmitCall(requests, nextId, windows, mentors, mentorId, guestId, description, callTime).result
  {
    InactiveDoesNotReserve(requests, q, mentorId, callTime);
  }

  /** `send_message_request`. */
  method SendMessageRequest(mentors: set<Id>, requests: RequestRepository,
                            mentorId: Id, guestId: Id, description: string) returns (r: Option<Id>)
    requires requests.Valid()
    modifies requests
    ensures requests.Valid()
    ensures Submission(requests.rows, requests.nextId, r)
         == SubmitMessage(old(requests.rows), old(requests.nextId), mentors, mentorId, guestId, description)
  {
    if mentorId !in mentors {
      return None;
    }
    var requestId := requests.CreateRequest(1, mentorId, guestId, description, None);
    r := Some(requestId);
  }

  /** `send_call_request`: the guards, the scan of the mentor's windows that stops at the
      first one accepting the instant (`for ... else`), the reservation check, then the
      insert. */
  method SendCallRequest(mentors: set<Id>, requests: RequestRepository, windows: MentorTimeRepository,
                         mentorId: Id, guestId: Id, description: string, callTime: int) returns (r: Option<Id>)
    requires requests.Valid()
    modifies requests
    ensures requests.Valid()
    ensures Submission(requests.rows, requests.nextId, r)
         == SubmitCall(old(requests.rows), old(requests.nextId), windows.rows, mentors, mentorId, guestId, description, callTime)
  {
    if mentorId !in mentors {
      return None;
    }
    var timeList := WindowsByMentor(windows.rows, mentorId);
    if timeList == [] {
      return None;
    }
    var i := 0;
    while i < |timeList|
      invariant 0 <= i <= |timeList|
      invariant forall j :: 0 <= j < i ==> !TimeChecker(timeList[j].day, timeList[j].timeStart, timeList[j].timeEnd, callTime)
    {
      var mentorTime := timeList[i];
      if TimeChecker(mentorTime.day, mentorTime.timeStart, mentorTime.timeEnd, callTime) {
        break;
      }
      i := i + 1;
    }
    if i == |timeList| {
      assert !Available(timeList, callTime) by {
        forall w | w in timeList
          ensures !TimeChecker(w.day, w.timeStart, w.timeEnd, callTime)
        {
          var j :| 0 <= j < |timeList| && timeList[j] == w;
        }
      }
      return None;
    }
    assert timeList[i] in timeList;
    var taken := requests.CheckTimeReservation(mentorId, callTime);
    if taken {
      return None;
    }
    var requestId := requests.CreateRequest(0, mentorId, guestId, description, Some(callTime));
    r := Some(requestId);
  }
}
