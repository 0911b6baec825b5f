/**
 * The client-side favorites mirror of movie-meter-frontend/src/hooks/useFavorites.js.
 * Each call of the hook is one atomic transition of the `favorites` state;
 * the server's reply to the request the call sends is a parameter.
 */
module UseFavorites {
  import opened Wrappers
  import opened Seqs
  import FavoriteRoutes

  /** A favorite as the server returns it: the row joined with its movie. */
  type FavoriteView = FavoriteRoutes.FavoriteView

  /** How a `fetch` ended: an ok response with its body, a non-ok response with its message, or a thrown error. */
  datatype Reply<T> = Ok(body: T) | NotOk(message: string) | Threw

  /** What an add, update or remove call returns: `{success: true, favorite?}` or `{success: false, message}`. */
  datatype CallResult = Succeeded(favorite: Option<FavoriteView>) | Failed(message: string)

  const ErrorAddingFavorite := "Error adding favorite"
  const ErrorUpdatingFavorite := "Error updating favorite"
  const ErrorRemovingFavorite := "Error removing favorite"

  /** `fav => fav.id !== favoriteId` */
  function OtherThan(favoriteId: int): FavoriteView -> bool
  {
    (fav: FavoriteView) => fav.row.id != favoriteId
  }

  /** `fav => fav.id === favoriteId ? updated : fav` */
  function ReplaceIf(favoriteId: int, updated: FavoriteView): FavoriteView -> FavoriteView
  {
    (fav: FavoriteView) => if fav.row.id == favoriteId then updated else fav
  }

  /** `fav => fav.movie_id === movieId` */
  function ForMovie(movieId: int): FavoriteView -> bool
  {
    (fav: FavoriteView) => fav.row.movieId == movieId
  }

  /** `prev.map(fav => fav.id === favoriteId ? updated : fav)` */
  function Replaced(favorites: seq<FavoriteView>, favoriteId: int, updated: FavoriteView): seq<FavoriteView>
  {
    Map(favorites, ReplaceIf(favoriteId, updated))
  }

  /** `prev.filter(fav => fav.id !== favoriteId)` */
  function Removed(favorites: seq<FavoriteView>, favoriteId: int): seq<FavoriteView>
  {
    Filter(favorites, OtherThan(favoriteId))
  }

  /** `isFavorited(movieId)`: `favorites.some(fav => fav.movie_id === movieId)` */
  predicate IsFavorited(favorites: seq<FavoriteView>, movieId: int)
  {
    Any(favorites, ForMovie(movieId))
  }

  /** `getFavoriteByMovieId(movieId)`: `favorites.find(fav => fav.movie_id === movieId)` */
  function GetFavoriteByMovieId(favorites: seq<FavoriteView>, movieId: int): (r: Option<FavoriteView>)
    ensures r.Some? ==> r.value in favorites && r.value.row.movieId == movieId
  {
    Find(favorites, ForMovie(movieId))
  }

  /** An update keeps length and positions; it replaces exactly the elements with that id. */
  lemma ReplacedAt(favorites: seq<FavoriteView>, favoriteId: int, updated: FavoriteView)
    ensures |Replaced(favorites, favoriteId, updated)| == |favorites|
    ensures forall i :: 0 <= i < |favorites| ==>
              Replaced(favorites, favoriteId, updated)[i]
              == if favorites[i].row.id == favoriteId then updated else favorites[i]
  {
  }

  /** Applying the same update twice is applying it once. */
  lemma ReplacedIdempotent(favorites: seq<FavoriteView>, favoriteId: int, updated: FavoriteView)
    ensures Replaced(Replaced(favorites, favoriteId, updated), favoriteId, updated)
            == Replaced(favorites, favoriteId, updated)
  {
    var once := Replaced(favorites, favoriteId, updated);
    var twice := Replaced(once, favoriteId, updated);
    assert |twice| == |once|;
    forall i | 0 <= i < |once| ensures twice[i] == once[i] {
      assert twice[i] == ReplaceIf(favoriteId, updated)(once[i]);
      assert once[i] == ReplaceIf(favoriteId, updated)(favorites[i]);
    }
  }

  /** A remove keeps exactly the elements whose id differs. */
  lemma RemovedMembers(favorites: seq<FavoriteView>, favoriteId: int)
    ensures forall fav :: fav in Removed(favorites, favoriteId) <==> fav in favorites && fav.row.id != favoriteId
  {
  }

  /**
   * A remove keeps the original relative order: removing from a
   * concatenation is removing from each part.
   */
  lemma RemovedKeepsOrder(front: seq<FavoriteView>, back: seq<FavoriteView>, favoriteId: int)
    ensures Removed(front + back, favoriteId) == Removed(front, favoriteId) + Removed(back, favoriteId)
  {
    FilterAppend(front, back, OtherThan(favoriteId));
  }

  /** Removing twice is removing once. */
  lemma RemovedIdempotent(favorites: seq<FavoriteView>, favoriteId: int)
    ensures Removed(Removed(favorites, favoriteId), favoriteId) == Removed(favorites, favoriteId)
  {
    FilterIdempotent(favorites, OtherThan(favoriteId));
  }

  /** Removing an id that no element has changes nothing. */
  lemma RemovedAbsent(favorites: seq<FavoriteView>, favoriteId: int)
    requires forall i :: 0 <= i < |favorites| ==> favorites[i].row.id != favoriteId
    ensures Removed(favorites, favoriteId) == favorites
  {
    FilterAll(favorites, OtherThan(favoriteId));
  }

  /** `isFavorited(m)` holds iff some element has `movie_id == m`. */
  lemma IsFavoritedIff(favorites: seq<FavoriteView>, movieId: int)
    ensures IsFavorited(favorites, movieId) <==> exists i :: 0 <= i < |favorites| && favorites[i].row.movieId == movieId
  {
    AnyExists(favorites, ForMovie(movieId));
  }

  /**
   * `getFavoriteByMovieId(m)` is defined exactly when `isFavorited(m)`
   * holds, and then it is the first element with `movie_id == m`.
   */
  lemma GetFavoriteIsFirst(favorites: seq<FavoriteView>, movieId: int)
    ensures GetFavoriteByMovieId(favorites, movieId).Some? <==> IsFavorited(favorites, movieId)
    ensures GetFavoriteByMovieId(favorites, movieId).Some? ==>
              exists i :: (0 <= i < |favorites| && favorites[i] == GetFavoriteByMovieId(favorites, movieId).value
                           && favorites[i].row.movieId == movieId
                           && forall j :: 0 <= j < i ==> favorites[j].row.movieId != movieId)
  {
    FindAny(favorites, ForMovie(movieId));
  }

  /** After adding a favorite, the lookup for its movie returns it. */
  lemma AddedIsFound(favorites: seq<FavoriteView>, added: FavoriteView)
    ensures IsFavorited([added] + favorites, added.row.movieId)
    ensures GetFavoriteByMovieId([added] + favorites, added.row.movieId) == Some(added)
  {
  }

  /** After removing a favorite, no element carries its id any more. */
  lemma RemovedIsGone(favorites: seq<FavoriteView>, favoriteId: int)
    ensures forall i :: 0 <= i < |Removed(favorites, favoriteId)| ==> Removed(favorites, favoriteId)[i].row.id != favoriteId
  {
    var r := Removed(favorites, favoriteId);
    forall i | 0 <= i < |r| ensures r[i].row.id != favoriteId {
      assert r[i] in r;
    }
  }

  /** The hook's `favorites` state. */
  class FavoritesMirror {
    var favorites: seq<FavoriteView>

    constructor ()
      ensures favorites == []
    {
      favorites := [];
    }

    /**
     * `fetchFavorites`: with no signed-in user the mirror is cleared; an ok
     * response replaces it with the server's list (`data.favorites || []`);
     * a non-ok response or a thrown error leaves it as it was.
     */
    method Fetch(signedIn: bool, reply: Reply<Option<seq<FavoriteView>>>)
      modifies this
      ensures !signedIn ==> favorites == []
      ensures signedIn && reply.Ok? ==> favorites == (if reply.body.Some? then reply.body.value else [])
      ensures signedIn && !reply.Ok? ==> favorites == old(favorites)
    {
      if !signedIn {
        favorites := [];
        return;
      }
      if reply.Ok? {
        favorites := if reply.body.Some? then reply.body.value else [];
      }
    }

    /** `addFavorite`: on success the returned favorite goes in front of the previous elements. */
    method Add(reply: Reply<FavoriteView>) returns (r: CallResult)
      modifies this
      ensures reply.Ok? ==> favorites == [reply.body] + old(favorites) && r == Succeeded(Some(reply.body))
      ensures reply.NotOk? ==> favorites == old(favorites) && r == Failed(reply.message)
      ensures reply.Threw? ==> favorites == old(favorites) && r == Failed(ErrorAddingFavorite)
    {
      match reply
      case Ok(favorite) =>
        favorites := [favorite] + favorites;
        r := Succeeded(Some(favorite));
      case NotOk(message) =>
        r := Failed(message);
      case Threw =>
        r := Failed(ErrorAddingFavorite);
    }

    /** `updateFavorite`: on success every element with id `favoriteId` becomes the returned favorite. */
    method Update(favoriteId: int, reply: Reply<FavoriteView>) returns (r: CallResult)
      modifies this
      ensures reply.Ok? ==>
                && |favorites| == |old(favorites)|
                && (forall i :: 0 <= i < |favorites| ==>
                      favorites[i] == if old(favorites)[i].row.id == favoriteId then reply.body else old(favorites)[i])
                && r == Succeeded(Some(reply.body))
      ensures reply.NotOk? ==> favorites == old(favorites) && r == Failed(reply.message)
      ensures reply.Threw? ==> favorites == old(favorites) && r == Failed(ErrorUpdatingFavorite)
    {
      match reply
      case Ok(favorite) =>
        ReplacedAt(favorites, favoriteId, favorite);
        favorites := Replaced(favorites, favoriteId, favorite);
        r := Succeeded(Some(favorite));
      case NotOk(message) =>
        r := Failed(message);
      case Threw =>
        r := Failed(ErrorUpdatingFavorite);
    }

    /** `removeFavorite`: on success exactly the elements with a different id remain, in order. */
    method Remove(favoriteId: int, reply: Reply<()>) returns (r: CallResult)
      modifies this
      ensures reply.Ok? ==> favorites == Removed(old(favorites), favoriteId) && r == Succeeded(None)
      ensures reply.NotOk? ==> favorites == old(favorites) && r == Failed(reply.message)
      ensures reply.Threw? ==> favorites == old(favorites) && r == Failed(ErrorRemovingFavorite)
    {
      match reply
      case Ok(_) =>
        favorites := Removed(favorites, favoriteId);
        r := Succeeded(None);
      case NotOk(message) =>
        r := Failed(message);
      case Threw =>
        r := Failed(ErrorRemovingFavorite);
    }
  }
}
