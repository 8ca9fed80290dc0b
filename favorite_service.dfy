/** services/favorite_service.py: the guarded favourite operations. */
module FavoriteService {
  import opened Tables
  import opened FavoriteStore

  /** How `add_favorite` ends: the new row's id, None for an unknown mentor, or the
      database's IntegrityError (a duplicate pair) propagating to the caller. */
  datatype AddOutcome = Added(id: Id) | UnknownMentor | RaisedIntegrityError(error: IntegrityError)

  /** `add_favorite` on values, with the table afterwards. */
  function AddFavoriteOutcome(rows: seq<FavoriteMentor>, nextId: Id, mentors: set<Id>, userId: Id, mentorId: Id)
    : (r: (AddOutcome, seq<FavoriteMentor>))
    ensures r.0.Added? <==> mentorId in mentors && (userId, mentorId) !in Pairs(rows)
    ensures r.0 == UnknownMentor <==> mentorId !in mentors
    ensures r.0.RaisedIntegrityError? ==> r.0.error == DuplicatePair && r.1 == rows
    ensures r.0.Added? ==> r.0.id == nextId && Pairs(r.1) == Pairs(rows) + {(userId, mentorId)}
  {
    AddRowPairs(rows, nextId, mentors, userId, mentorId);
    if mentorId !in mentors then (UnknownMentor, rows)
    else match AddRow(rows, nextId, mentors, userId, mentorId)
      case Success(added) => (Added(nextId), added)
      case Failure(e) => (RaisedIntegrityError(e), rows)
  }

  /** `add_favorite`: the mentor guard, then the repository insert. */
  method AddFavorite(mentors: set<Id>, repo: FavoriteMentorRepository, userId: Id, mentorId: Id) returns (r: AddOutcome)
    requires repo.Valid()
    modifies repo
    ensures repo.Valid()
    ensures (r, repo.rows) == AddFavoriteOutcome(old(repo.rows), old(repo.nextId), mentors, userId, mentorId)
  {
    if mentorId !in mentors {
      return UnknownMentor;
    }
    var favId := repo.AddFavorite(mentors, userId, mentorId);
    match favId
    case Success(id) => r := Added(id);
    case Failure(e) => r := RaisedIntegrityError(e);
  }

  /** `remove_favorite`: the mentor guard, then the delete of the pair. */
  method RemoveFavorite(mentors: set<Id>, repo: FavoriteMentorRepository, userId: Id, mentorId: Id)
    requires repo.Valid()
    modifies repo
    ensures repo.Valid() && repo.nextId == old(repo.nextId)
    ensures repo.rows == if mentorId in mentors then RemoveRows(old(repo.rows), userId, mentorId) else old(repo.rows)
    ensures Pairs(repo.rows) == if mentorId in mentors then Pairs(old(repo.rows)) - {(userId, mentorId)} else Pairs(old(repo.rows))
  {
    if mentorId !in mentors {
      return;
    }
    RemoveRowsPairs(repo.rows, userId, mentorId);
    repo.RemoveFavorite(userId, mentorId);
  }

  /** `get_favorites`: the user's favourites; an empty list is returned as it is. */
  method GetFavorites(repo: FavoriteMentorRepository, userId: Id) returns (favorites: seq<FavoriteMentor>)
    ensures forall f :: f in favorites <==> f in repo.rows && f.userId == userId
    ensures favorites == FavoritesOf(repo.rows, userId)
  {
    favorites := repo.GetFavorites(userId);
  }
}
