/** The `mentor_time` table (persistent/db/mentor_time.py) as an in-memory table.
    The repository methods the services call (list by mentor, update the bounds of a row,
    delete a row, insert a row) are specified from their call sites: rows keep their
    store order, and a new row goes to the end with a fresh id. */
module WindowStore {
  import opened Tables
  import opened Clock

  /** A recurring weekly availability window of a mentor. `day` is 0 for Monday;
      the column itself accepts any integer. */
  datatype MentorTime = MentorTime(id: Id, day: int, timeStart: TimeOfDay, timeEnd: TimeOfDay, mentorId: Id)

  function WindowIdOf(w: MentorTime): Id
  {
    w.id
  }

  /** The primary key of the table. */
  ghost predicate UniqueWindowIds(rows: seq<MentorTime>)
  {
    KeysDistinct(rows, WindowIdOf)
  }

  /** `get_all_mentor_time_by_mentor_id`: the mentor's windows, in store order. */
  function WindowsByMentor(rows: seq<MentorTime>, m: Id): (r: seq<MentorTime>)
    ensures forall w :: w in r <==> w in rows && w.mentorId == m
  {
    Filter(rows, (w: MentorTime) => w.mentorId == m)
  }

  /** Appending a row adds it to its own mentor's windows, at the end. */
  lemma WindowsByMentorSnoc(rows: seq<MentorTime>, w: MentorTime, m: Id)
    ensures WindowsByMentor(rows + [w], m) == WindowsByMentor(rows, m) + if w.mentorId == m then [w] else []
  {
    FilterAppend(rows, [w], (x: MentorTime) => x.mentorId == m);
    assert [w][1..] == [];
  }

  /** `update_mentor_time`: every row with that id gets the given bounds; nothing else moves. */
  function WithTimes(rows: seq<MentorTime>, id: Id, timeStart: TimeOfDay, timeEnd: TimeOfDay): seq<MentorTime>
  {
    seq(|rows|, k requires 0 <= k < |rows| =>
      if rows[k].id == id then rows[k].(timeStart := timeStart, timeEnd := timeEnd) else rows[k])
  }

  /** `delete_mentor_time`: the table without the row with that id. */
  function WithoutWindow(rows: seq<MentorTime>, id: Id): seq<MentorTime>
  {
    Filter(rows, (w: MentorTime) => w.id != id)
  }

  /** Rows of a table with a primary key are identified by their id. */
  lemma SameWindowId(rows: seq<MentorTime>, a: MentorTime, k: int)
    requires UniqueWindowIds(rows) && a in rows && 0 <= k < |rows| && rows[k].id == a.id
    ensures rows[k] == a
  {
    var j :| 0 <= j < |rows| && rows[j] == a;
    assert WindowIdOf(rows[j]) == WindowIdOf(rows[k]);
  }

  class MentorTimeRepository {
    var rows: seq<MentorTime>
    var nextId: Id

    /** Ids are distinct and below the next id to hand out. */
    ghost predicate Valid()
      reads this
    {
      UniqueWindowIds(rows) && forall w :: w in rows ==> w.id < nextId
    }

    constructor ()
      ensures Valid() && rows == []
    {
      rows := [];
      nextId := 0;
    }

    method UpdateMentorTime(mentorTimeId: Id, timeStart: TimeOfDay, timeEnd: TimeOfDay)
      requires Valid()
      modifies this
      ensures Valid() && nextId == old(nextId)
      ensures rows == WithTimes(old(rows), mentorTimeId, timeStart, timeEnd)
    {
      rows := WithTimes(rows, mentorTimeId, timeStart, timeEnd);
      assert forall k :: 0 <= k < |rows| ==> rows[k].id == old(rows)[k].id;
      forall w | w in rows
        ensures w.id < nextId
      {
        var k :| 0 <= k < |rows| && rows[k] == w;
        assert old(rows)[k] in old(rows);
      }
    }

    method DeleteMentorTime(mentorTimeId: Id)
      requires Valid()
      modifies this
      ensures Valid() && nextId == old(nextId)
      ensures rows == WithoutWindow(old(rows), mentorTimeId)
    {
      FilterKeysDistinct(rows, (w: MentorTime) => w.id != mentorTimeId, WindowIdOf);
      rows := WithoutWindow(rows, mentorTimeId);
    }

    method CreateNewMentorTime(day: int, timeStart: TimeOfDay, timeEnd: TimeOfDay, mentorId: Id) returns (id: Id)
      requires Valid()
      modifies this
      ensures Valid()
      ensures id == old(nextId) && nextId == id + 1
      ensures forall w :: w in old(rows) ==> w.id != id
      ensures rows == old(rows) + [MentorTime(id, day, timeStart, timeEnd, mentorId)]
    {
      id := nextId;
      var row := MentorTime(id, day, timeStart, timeEnd, mentorId);
      forall i, j | 0 <= i < j < |rows| + 1
        ensures WindowIdOf((rows + [row])[i]) != WindowIdOf((rows + [row])[j])
      {
        assert (rows + [row])[i] == rows[i] && rows[i] in rows;
      }
      rows := rows + [row];
      nextId := nextId + 1;
    }
  }
}
