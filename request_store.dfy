/** The `requests` table (persistent/db/request.py) and its repository
    (repository/request_repository.py) as an in-memory table. */
module RequestStore {
  import opened Tables

  /** Response codes of a request. */
  const Pending := 0
  const Accepted := 1
  const Rejected := -1
  const Cancelled := 2

  /** A row of the request table. `callType` is 0 for a call and 1 for a message;
      `callTime` is an absolute instant (see module Clock). The send time is not modelled. */
  datatype Request = Request(
    id: Id,
    callType: int,
    mentorId: Id,
    guestId: Id,
    description: string,
    callTime: Option<int>,
    response: int)

  function RequestIdOf(r: Request): Id
  {
    r.id
  }

  /** The primary key of the table. */
  ghost predicate UniqueRequestIds(rows: seq<Request>)
  {
    KeysDistinct(rows, RequestIdOf)
  }

  predicate IsPending(r: Request)
  {
    r.response == Pending
  }

  /** A request that holds its slot: pending or accepted. */
  predicate IsActive(r: Request)
  {
    r.response == Pending || r.response == Accepted
  }

  /** `get_all_requests_by_mentor_id`: the mentor's requests, in store order. */
  function RequestsByMentor(rows: seq<Request>, m: Id): (r: seq<Request>)
    ensures forall q :: q in r <==> q in rows && q.mentorId == m
  {
    Filter(rows, (q: Request) => q.mentorId == m)
  }

  /** `get_all_requests_by_time`: the mentor's requests at exactly that instant, in store order. */
  function RequestsAtTime(rows: seq<Request>, m: Id, t: int): (r: seq<Request>)
    ensures forall q :: q in r <==> q in rows && q.mentorId == m && q.callTime == Some(t)
  {
    Filter(rows, (q: Request) => q.callTime == Some(t) && q.mentorId == m)
  }

  /** `get_request_by_id`: the first row with that id, if any. */
  function FindRequest(rows: seq<Request>, id: Id): (r: Option<Request>)
    ensures r.None? <==> forall q :: q in rows ==> q.id != id
    ensures r.Some? ==> r.value in rows && r.value.id == id
  {
    if rows == [] then None
    else if rows[0].id == id then Some(rows[0])
    else FindRequest(rows[1..], id)
  }

  /** `mentor_response`: the response field of the row with that id is overwritten. */
  function WithResponse(rows: seq<Request>, id: Id, response: int): seq<Request>
  {
    seq(|rows|, k requires 0 <= k < |rows| =>
      if rows[k].id == id then rows[k].(response := response) else rows[k])
  }

  /** The slot at `t` is taken: some pending or accepted request of the mentor is at
      exactly that instant. Rejected and cancelled requests do not hold the slot. */
  predicate Reserved(rows: seq<Request>, m: Id, t: int)
  {
    exists q :: q in rows && q.mentorId == m && q.callTime == Some(t) && IsActive(q)
  }

  /** Writing a response changes exactly the response field of exactly the addressed row. */
  lemma WithResponseEffect(rows: seq<Request>, id: Id, response: int)
    requires UniqueRequestIds(rows)
    ensures UniqueRequestIds(WithResponse(rows, id, response))
    ensures match FindRequest(rows, id)
      case None => WithResponse(rows, id, response) == rows
      case Some(q) => FindRequest(WithResponse(rows, id, response), id) == Some(q.(response := response))
  {
    var r := WithResponse(rows, id, response);
    assert forall k :: 0 <= k < |rows| ==> RequestIdOf(r[k]) == RequestIdOf(rows[k]);
    match FindRequest(rows, id)
    case None =>
      assert forall k :: 0 <= k < |rows| ==> rows[k] in rows;
    case Some(q) =>
      FindAfterResponse(rows, id, response, q);
  }

  lemma {:induction false} FindAfterResponse(rows: seq<Request>, id: Id, response: int, q: Request)
    requires FindRequest(rows, id) == Some(q)
    ensures FindRequest(WithResponse(rows, id, response), id) == Some(q.(response := response))
  {
    var r := WithResponse(rows, id, response);
    if rows[0].id != id {
      FindAfterResponse(rows[1..], id, response, q);
      assert r[1..] == WithResponse(rows[1..], id, response);
    }
  }

  /** Rejected and cancelled requests never block a slot. */
  lemma InactiveDoesNotReserve(rows: seq<Request>, q: Request, m: Id, t: int)
    requires !IsActive(q)
    ensures Reserved(rows + [q], m, t) == Reserved(rows, m, t)
  {
    if Reserved(rows + [q], m, t) {
      var x :| x in rows + [q] && x.mentorId == m && x.callTime == Some(t) && IsActive(x);
      assert x in rows;
    }
  }

  /** A pending request at `t` takes the slot. */
  lemma PendingReserves(rows: seq<Request>, q: Request)
    requires IsPending(q) && q.callTime.Some?
    ensures Reserved(rows + [q], q.mentorId, q.callTime.value)
  {
    assert q in rows + [q];
  }

  /** Another mentor's request, or a request at another instant, never takes the slot. */
  lemma OtherSlotDoesNotReserve(rows: seq<Request>, q: Request, m: Id, t: int)
    requires q.mentorId != m || q.callTime != Some(t)
    ensures Reserved(rows + [q], m, t) == Reserved(rows, m, t)
  {
    if Reserved(rows + [q], m, t) {
      var x :| x in rows + [q] && x.mentorId == m && x.callTime == Some(t) && IsActive(x);
      assert x in rows;
    }
  }

  class RequestRepository {
    var rows: seq<Request>
    var nextId: Id

    /** Ids are distinct and below the next id to hand out. */
    ghost predicate Valid()
      reads this
    {
      UniqueRequestIds(rows) && forall q :: q in rows ==> q.id < nextId
    }

    constructor ()
      ensures Valid() && rows == []
    {
      rows := [];
      nextId := 0;
    }

    /** `create_request`: a new row with response 0 goes to the end of the table. A call
        without a call time is accepted (that guard is commented out in the source). */
    method CreateRequest(callType: int, mentorId: Id, guestId: Id, description: string, callTime: Option<int>)
      returns (id: Id)
      requires Valid()
      modifies this
      ensures Valid()
      ensures id == old(nextId) && nextId == id + 1
      ensures forall q :: q in old(rows) ==> q.id != id
      ensures rows == old(rows) + [Request(id, callType, mentorId, guestId, description, callTime, Pending)]
    {
      id := nextId;
      var row := Request(id, callType, mentorId, guestId, description, callTime, Pending);
      forall i, j | 0 <= i < j < |rows| + 1
        ensures RequestIdOf((rows + [row])[i]) != RequestIdOf((rows + [row])[j])
      {
        assert (rows + [row])[i] == rows[i] && rows[i] in rows;
      }
      rows := rows + [row];
      nextId := nextId + 1;
    }

    /** `mentor_response`: overwrite the response of the row with that id, whatever it was. */
    method MentorResponse(requestId: Id, response: int)
      requires Valid()
      modifies this
      ensures Valid() && nextId == old(nextId)
      ensures rows == WithResponse(old(rows), requestId, response)
    {
      WithResponseEffect(rows, requestId, response);
      rows := WithResponse(rows, requestId, response);
      forall q | q in rows
        ensures q.id < nextId
      {
        var k :| 0 <= k < |rows| && rows[k] == q;
        assert old(rows)[k] in old(rows);
      }
    }

    /** `check_time_reservation`: scan the mentor's requests at that instant and stop at
        the first pending or accepted one. */
    method CheckTimeReservation(mentorId: Id, time: int) returns (taken: bool)
      ensures taken == Reserved(rows, mentorId, time)
    {
      var requests := RequestsAtTime(rows, mentorId, time);
      var i := 0;
      while i < |requests|
        invariant 0 <= i <= |requests|
        invariant forall j :: 0 <= j < i ==> !IsActive(requests[j])
      {
        if requests[i].response == Pending || requests[i].response == Accepted {
          assert requests[i] in requests;
          return true;
        }
        i := i + 1;
      }
      assert forall q :: q in requests ==> !IsActive(q);
      return false;
    }
  }
}
