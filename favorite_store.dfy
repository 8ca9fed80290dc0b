/** The `favorite_mentors` table (persistent/db/favorite_mentor.py) and its repository
    (repository/favorite_mentor_repository.py) as an in-memory table. */
module FavoriteStore {
  import opened Tables

  /** A row: user `userId` marked mentor `mentorId` as a favourite. */
  datatype FavoriteMentor = FavoriteMentor(id: Id, userId: Id, mentorId: Id)

  /** What the database refuses on insert: a second row for the same (user, mentor)
      pair, or a mentor id that is not a key of the mentors table. */
  datatype IntegrityError = DuplicatePair | UnknownMentorKey

  function FavoriteIdOf(f: FavoriteMentor): Id
  {
    f.id
  }

  function PairOf(f: FavoriteMentor): (Id, Id)
  {
    (f.userId, f.mentorId)
  }

  /** The primary key and the unique constraint on (user, mentor). */
  ghost predicate WellKeyed(rows: seq<FavoriteMentor>)
  {
    KeysDistinct(rows, FavoriteIdOf) && KeysDistinct(rows, PairOf)
  }

  /** The set of (user, mentor) pairs the table records. */
  function Pairs(rows: seq<FavoriteMentor>): (r: set<(Id, Id)>)
    ensures forall u, m :: (u, m) in r <==> exists f :: f in rows && f.userId == u && f.mentorId == m
  {
    set f | f in rows :: PairOf(f)
  }

  /** The insert of `add_favorite` on values. */
  function AddRow(rows: seq<FavoriteMentor>, nextId: Id, mentors: set<Id>, userId: Id, mentorId: Id)
    : Result<seq<FavoriteMentor>, IntegrityError>
  {
    if mentorId !in mentors then Failure(UnknownMentorKey)
    else if (userId, mentorId) in Pairs(rows) then Failure(DuplicatePair)
    else Success(rows + [FavoriteMentor(nextId, userId, mentorId)])
  }

  /** The delete of `remove_favorite` on values: every row of the pair goes. */
  function RemoveRows(rows: seq<FavoriteMentor>, userId: Id, mentorId: Id): seq<FavoriteMentor>
  {
    Filter(rows, (f: FavoriteMentor) => !(f.userId == userId && f.mentorId == mentorId))
  }

  /** `get_favorites`: the user's rows, in store order. */
  function FavoritesOf(rows: seq<FavoriteMentor>, userId: Id): (r: seq<FavoriteMentor>)
    ensures forall f :: f in r <==> f in rows && f.userId == userId
  {
    Filter(rows, (f: FavoriteMentor) => f.userId == userId)
  }

  /** A successful add records exactly the new pair more; a refused add records nothing. */
  lemma AddRowPairs(rows: seq<FavoriteMentor>, nextId: Id, mentors: set<Id>, userId: Id, mentorId: Id)
    ensures match AddRow(rows, nextId, mentors, userId, mentorId)
      case Success(r) => (userId, mentorId) !in Pairs(rows) && Pairs(r) == Pairs(rows) + {(userId, mentorId)}
      case Failure(e) => e == DuplicatePair <==> mentorId in mentors && (userId, mentorId) in Pairs(rows)
  {
    match AddRow(rows, nextId, mentors, userId, mentorId)
    case Success(r) =>
      var added := FavoriteMentor(nextId, userId, mentorId);
      assert forall f :: f in r <==> f in rows || f == added;
    case Failure(_) =>
  }

  /** A remove forgets exactly the pair. */
  lemma RemoveRowsPairs(rows: seq<FavoriteMentor>, userId: Id, mentorId: Id)
    ensures Pairs(RemoveRows(rows, userId, mentorId)) == Pairs(rows) - {(userId, mentorId)}
  {
  }

  /** Adding a pair twice is refused the second time. */
  lemma AddTwiceRefused(rows: seq<FavoriteMentor>, nextId: Id, mentors: set<Id>, userId: Id, mentorId: Id)
    requires AddRow(rows, nextId, mentors, userId, mentorId).Success?
    ensures AddRow(AddRow(rows, nextId, mentors, userId, mentorId).value, nextId + 1, mentors, userId, mentorId)
         == Failure(DuplicatePair)
  {
    AddRowPairs(rows, nextId, mentors, userId, mentorId);
  }

  /** Removing after a successful add gives back the pairs recorded before. */
  lemma AddThenRemove(rows: seq<FavoriteMentor>, nextId: Id, mentors: set<Id>, userId: Id, mentorId: Id)
    requires AddRow(rows, nextId, mentors, userId, mentorId).Success?
    ensures Pairs(RemoveRows(AddRow(rows, nextId, mentors, userId, mentorId).value, userId, mentorId)) == Pairs(rows)
  {
    AddRowPairs(rows, nextId, mentors, userId, mentorId);
    RemoveRowsPairs(AddRow(rows, nextId, mentors, userId, mentorId).value, userId, mentorId);
  }

  /** Inserting a new pair keeps both keys unique. */
  lemma AddRowKeepsKeys(rows: seq<FavoriteMentor>, nextId: Id, mentors: set<Id>, userId: Id, mentorId: Id)
    requires WellKeyed(rows) && forall f :: f in rows ==> f.id < nextId
    requires AddRow(rows, nextId, mentors, userId, mentorId).Success?
    ensures WellKeyed(AddRow(rows, nextId, mentors, userId, mentorId).value)
  {
    var added := FavoriteMentor(nextId, userId, mentorId);
    var r := rows + [added];
    forall i, j | 0 <= i < j < |r|
      ensures FavoriteIdOf(r[i]) != FavoriteIdOf(r[j]) && PairOf(r[i]) != PairOf(r[j])
    {
      assert r[i] == rows[i] && rows[i] in rows;
      if j < |rows| {
        assert r[j] == rows[j];
      }
    }
  }

  class FavoriteMentorRepository {
    var rows: seq<FavoriteMentor>
    var nextId: Id

    /** Both keys are unique and ids are below the next id to hand out. */
    ghost predicate Valid()
      reads this
    {
      WellKeyed(rows) && forall f :: f in rows ==> f.id < nextId
    }

    constructor ()
      ensures Valid() && rows == []
    {
      rows := [];
      nextId := 0;
    }

    /** `add_favorite`: the insert; the database refuses a duplicate pair and an unknown
        mentor, and then nothing is stored. */
    method AddFavorite(mentors: set<Id>, userId: Id, mentorId: Id) returns (r: Result<Id, IntegrityError>)
      requires Valid()
      modifies this
      ensures Valid()
      ensures match AddRow(old(rows), old(nextId), mentors, userId, mentorId)
        case Success(added) => r == Success(old(nextId)) && rows == added && nextId == old(nextId) + 1
        case Failure(e) => r == Failure(e) && rows == old(rows) && nextId == old(nextId)
    {
      var outcome := AddRow(rows, nextId, mentors, userId, mentorId);
      if outcome.Failure? {
        return Failure(outcome.error);
      }
      AddRowKeepsKeys(rows, nextId, mentors, userId, mentorId);
      r := Success(nextId);
      rows := outcome.value;
      nextId := nextId + 1;
    }

    /** `remove_favorite`: delete every row of the pair. */
    method RemoveFavorite(userId: Id, mentorId: Id)
      requires Valid()
      modifies this
      ensures Valid() && nextId == old(nextId)
      ensures rows == RemoveRows(old(rows), userId, mentorId)
    {
      var keep := (f: FavoriteMentor) => !(f.userId == userId && f.mentorId == mentorId);
      FilterKeysDistinct(rows, keep, FavoriteIdOf);
      FilterKeysDistinct(rows, keep, PairOf);
      rows := Filter(rows, keep);
    }

    /** `get_favorites`. */
    method GetFavorites(userId: Id) returns (favorites: seq<FavoriteMentor>)
      ensures favorites == FavoritesOf(rows, userId)
    {
      favorites := FavoritesOf(rows, userId);
    }
  }
}
