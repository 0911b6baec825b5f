/**
 * The five favorites handlers of movie-meter-backend/src/routes/favoriteRoutes.js
 * over an in-memory `favorites` table, each behind the `requireAuth` gate of
 * movie-meter-backend/src/middleware/auth.js.  A handler's HTTP reply is a
 * `Response`: status 200 with a payload, or an error status with the
 * message the source sends.
 */
module FavoriteRoutes {
  import opened Wrappers
  import opened Seqs
  import opened Schema

  /** The descriptive movie columns a joined read returns; their contents are opaque here. */
  datatype MovieInfo = MovieInfo(
    imdbId: string,
    title: string,
    year: string,
    poster: string,
    genre: string,
    director: string,
    actors: string,
    plot: string,
    imdbRating: string)

  /** A favorite joined with its movie: `f.*` plus the movie columns. */
  datatype FavoriteView = FavoriteView(row: Favorite, movie: MovieInfo)

  /** The caller as the session gate sees it. */
  datatype Principal = Anonymous | Authenticated(userId: int)

  /** `{success: true, …payload}` with status 200, or `{success: false, message}` with `status`. */
  datatype Response<T> = Ok(payload: T) | Fail(status: int, message: string)

  /** The body of a successful `GET /check/:movieId`. */
  datatype CheckReply = CheckReply(isFavorited: bool, favoriteId: Option<int>)

  const AuthenticationRequired := "Authentication required"
  const MovieIdRequired := "Movie ID is required"
  const MovieNotFound := "Movie not found"
  const AlreadyInFavorites := "Movie already in favorites"
  const FavoriteNotFound := "Favorite not found"
  const ErrorAddingFavorite := "Error adding favorite"
  const ErrorUpdatingFavorite := "Error updating favorite"

  /** JavaScript truthiness of the request's `movieId`: a missing value and 0 are falsy. */
  predicate Truthy(movieId: Option<int>)
  {
    movieId.Some? && movieId.value != 0
  }

  /** `review || null`: the empty string becomes NULL. */
  function OrNullReview(review: Option<string>): Option<string>
  {
    if review.Some? && review.value != "" then review else None
  }

  /** `rating || null`: 0 becomes NULL. */
  function OrNullRating(rating: Option<int>): Option<int>
  {
    if rating.Some? && rating.value != 0 then rating else None
  }

  /** `favorite?.id || null`. */
  function IdOrNull(favorite: Option<Favorite>): Option<int>
  {
    if favorite.Some? && favorite.value.id != 0 then Some(favorite.value.id) else None
  }

  /** `WHERE f.user_id = ?` */
  function OwnedBy(user: int): Favorite -> bool
  {
    (f: Favorite) => f.userId == user
  }

  /** `WHERE user_id = ? AND movie_id = ?` */
  function IsPair(user: int, movie: int): Favorite -> bool
  {
    (f: Favorite) => f.userId == user && f.movieId == movie
  }

  /** `WHERE id = ? AND user_id = ?` */
  function IsOwned(id: int, user: int): Favorite -> bool
  {
    (f: Favorite) => f.id == id && f.userId == user
  }

  /** The rows a `DELETE … WHERE id = ? AND user_id = ?` keeps. */
  function NotOwned(id: int, user: int): Favorite -> bool
  {
    (f: Favorite) => !(f.id == id && f.userId == user)
  }

  /** `WHERE f.id = ?` */
  function HasId(id: int): Favorite -> bool
  {
    (f: Favorite) => f.id == id
  }

  /** `UPDATE favorites SET review = ?, rating = ?, updated_at = CURRENT_TIMESTAMP WHERE id = ? AND user_id = ?` */
  function Rewrite(id: int, user: int, review: Option<string>, rating: Option<int>, now: nat): Favorite -> Favorite
  {
    (f: Favorite) => if f.id == id && f.userId == user then f.(review := review, rating := rating, updatedAt := now) else f
  }

  /** The `JOIN movies m ON f.movie_id = m.id` of every listed row. */
  function JoinAll(rows: seq<Favorite>, movies: map<int, MovieInfo>): (r: seq<FavoriteView>)
    requires forall f :: f in rows ==> f.movieId in movies
  {
    seq(|rows|, i requires 0 <= i < |rows| => FavoriteView(rows[i], movies[rows[i].movieId]))
  }

  /** Some row belongs to `user` and names `movie`. */
  ghost predicate HasPair(rows: seq<Favorite>, user: int, movie: int)
  {
    exists f :: f in rows && f.userId == user && f.movieId == movie
  }

  /** Some row has id `id` and belongs to `user`. */
  ghost predicate Owns(rows: seq<Favorite>, id: int, user: int)
  {
    exists f :: f in rows && f.id == id && f.userId == user
  }

  /**
   * The caller's rows, newest first: exactly the rows that belong to `user`,
   * each once, with `created_at` never increasing.  Rows created in the same
   * second may come in any order.
   */
  ghost predicate ListsNewestFirst(r: seq<FavoriteView>, rows: seq<Favorite>, user: int, movies: map<int, MovieInfo>)
  {
    && (forall v :: v in r ==> v.row in rows && v.row.userId == user && v.row.movieId in movies && v.movie == movies[v.row.movieId])
    && (forall f :: f in rows && f.userId == user ==> exists v :: v in r && v.row == f)
    && (forall i, j :: 0 <= i < j < |r| ==> r[i].row.id != r[j].row.id && r[i].row.createdAt >= r[j].row.createdAt)
  }

  /** The table after the UPDATE of row `k` alone. */
  lemma RewriteOnlyRow(rows: seq<Favorite>, movies: set<int>, nextId: int, clock: nat,
                       k: nat, user: int, review: Option<string>, rating: Option<int>)
    requires FavoritesInvariant(rows, movies, nextId, clock)
    requires k < |rows| && rows[k].userId == user && RatingAllowed(rating)
    ensures Map(rows, Rewrite(rows[k].id, user, review, rating, clock))
            == rows[k := rows[k].(review := review, rating := rating, updatedAt := clock)]
    ensures FavoritesInvariant(rows[k := rows[k].(review := review, rating := rating, updatedAt := clock)], movies, nextId, clock)
  {
    var updated := rows[k := rows[k].(review := review, rating := rating, updatedAt := clock)];
    FavoriteIdUnique(rows, movies, nextId, clock);
    forall f | f in updated ensures FavoriteRowOk(f, movies, nextId, clock) {
      var i :| 0 <= i < |updated| && updated[i] == f;
      assert rows[i] in rows;
    }
    forall i, j | 0 <= i < j < |updated| ensures FavoriteBefore(updated[i], updated[j]) {
      assert FavoriteBefore(rows[i], rows[j]);
    }
  }

  /** The DELETE of row `k` removes that row and no other. */
  lemma DeleteOnlyRow(rows: seq<Favorite>, movies: set<int>, nextId: int, clock: nat, k: nat, user: int)
    requires FavoritesInvariant(rows, movies, nextId, clock)
    requires k < |rows| && rows[k].userId == user
    ensures Filter(rows, NotOwned(rows[k].id, user)) == rows[..k] + rows[k + 1..]
  {
    FavoriteIdUnique(rows, movies, nextId, clock);
    FilterRemovesOne(rows, k, NotOwned(rows[k].id, user));
  }

  /** Deleting rows keeps the invariant. */
  lemma DeleteKeepsInvariant(rows: seq<Favorite>, movies: set<int>, nextId: int, clock: nat, keep: Favorite -> bool)
    requires FavoritesInvariant(rows, movies, nextId, clock)
    ensures FavoritesInvariant(Filter(rows, keep), movies, nextId, clock)
  {
    FilterPairwise(rows, keep, FavoriteBefore);
  }

  /** The table after an INSERT of a row that passes every guard and the CHECK. */
  lemma InsertKeepsInvariant(rows: seq<Favorite>, movies: set<int>, nextId: int, clock: nat, f: Favorite)
    requires FavoritesInvariant(rows, movies, nextId, clock)
    requires f.id == nextId && f.createdAt == f.updatedAt == clock
    requires f.movieId in movies && RatingAllowed(f.rating)
    requires !HasPair(rows, f.userId, f.movieId)
    ensures FavoritesInvariant(rows + [f], movies, nextId + 1, clock)
  {
    var added := rows + [f];
    forall g | g in added ensures FavoriteRowOk(g, movies, nextId + 1, clock) {
      if g in rows {
        assert FavoriteRowOk(g, movies, nextId, clock);
      }
    }
    forall i, j | 0 <= i < j < |added| ensures FavoriteBefore(added[i], added[j]) {
      if j < |rows| {
        assert FavoriteBefore(rows[i], rows[j]);
      } else {
        assert added[i] in rows && added[j] == f;
        assert FavoriteRowOk(added[i], movies, nextId, clock);
      }
    }
  }

  /** The newest-first listing of `user`'s rows meets its specification. */
  lemma NewestFirstListing(rows: seq<Favorite>, movies: map<int, MovieInfo>, nextId: int, clock: nat, user: int)
    requires FavoritesInvariant(rows, movies.Keys, nextId, clock)
    ensures forall f :: f in Reverse(Filter(rows, OwnedBy(user))) ==> f.movieId in movies
    ensures ListsNewestFirst(JoinAll(Reverse(Filter(rows, OwnedBy(user))), movies), rows, user, movies)
  {
    var mine := Filter(rows, OwnedBy(user));
    var newest := Reverse(mine);
    ReverseMembers(mine);
    FilterPairwise(rows, OwnedBy(user), FavoriteBefore);
    ReversePairwise(mine, FavoriteBefore);
    var r := JoinAll(newest, movies);
    forall f | f in rows && f.userId == user ensures exists v :: v in r && v.row == f {
      assert f in newest;
      var k :| 0 <= k < |newest| && newest[k] == f;
      assert r[k].row == f;
    }
  }

  /** The `favorites` table. */
  class FavoritesTable {
    /** The movies table: read here, never written. */
    const movies: map<int, MovieInfo>
    var rows: seq<Favorite>
    var nextId: int
    var clock: nat

    ghost predicate Valid()
      reads this
    {
      FavoritesInvariant(rows, movies.Keys, nextId, clock)
    }

    constructor (movies: map<int, MovieInfo>)
      ensures Valid()
      ensures this.movies == movies && rows == [] && nextId == 1 && clock == 0
    {
      this.movies := movies;
      rows, nextId, clock := [], 1, 0;
    }

    /** One second passes: CURRENT_TIMESTAMP moves on. */
    method Tick()
      requires Valid()
      modifies this
      ensures Valid()
      ensures rows == old(rows) && nextId == old(nextId) && clock == old(clock) + 1
    {
      clock := clock + 1;
    }

    /** `GET /`: the caller's favorites joined with their movies, `ORDER BY f.created_at DESC`. */
    method List(caller: Principal) returns (r: Response<seq<FavoriteView>>)
      requires Valid()
      ensures caller.Anonymous? ==> r == Fail(401, AuthenticationRequired)
      ensures caller.Authenticated? ==> r.Ok? && ListsNewestFirst(r.payload, rows, caller.userId, movies)
    {
      if caller.Anonymous? {
        return Fail(401, AuthenticationRequired);
      }
      NewestFirstListing(rows, movies, nextId, clock, caller.userId);
      var favorites := Reverse(Filter(rows, OwnedBy(caller.userId)));
      r := Ok(JoinAll(favorites, movies));
    }

    /** `POST /` with body `{movieId, review, rating}`. */
    method Add(caller: Principal, movieId: Option<int>, review: Option<string>, rating: Option<int>)
      returns (r: Response<FavoriteView>)
      requires Valid()
      modifies this
      ensures Valid() && clock == old(clock)
      ensures caller.Anonymous? ==> r == Fail(401, AuthenticationRequired)
      ensures caller.Authenticated? && !Truthy(movieId) ==> r == Fail(400, MovieIdRequired)
      ensures caller.Authenticated? && Truthy(movieId) && movieId.value !in movies
              ==> r == Fail(404, MovieNotFound)
      ensures caller.Authenticated? && Truthy(movieId) && movieId.value in movies
              && HasPair(old(rows), caller.userId, movieId.value)
              ==> r == Fail(400, AlreadyInFavorites)
      ensures caller.Authenticated? && Truthy(movieId) && movieId.value in movies
              && !HasPair(old(rows), caller.userId, movieId.value) && !RatingAllowed(OrNullRating(rating))
              ==> r == Fail(500, ErrorAddingFavorite)
      ensures caller.Authenticated? && Truthy(movieId) && movieId.value in movies
              && !HasPair(old(rows), caller.userId, movieId.value) && RatingAllowed(OrNullRating(rating))
              ==> r.Ok?
      ensures r.Fail? ==> rows == old(rows) && nextId == old(nextId)
      ensures r.Ok? ==>
                && caller.Authenticated? && Truthy(movieId) && movieId.value in movies
                && var f := Favorite(old(nextId), caller.userId, movieId.value,
                                     OrNullReview(review), OrNullRating(rating), clock, clock);
                && rows == old(rows) + [f]
                && nextId == old(nextId) + 1
                && r.payload == FavoriteView(f, movies[movieId.value])
    {
      if caller.Anonymous? {
        return Fail(401, AuthenticationRequired);
      }
      if !Truthy(movieId) {
        return Fail(400, MovieIdRequired);
      }
      var movie := movieId.value;
      if movie !in movies {
        return Fail(404, MovieNotFound);
      }
      var existing := Find(rows, IsPair(caller.userId, movie));
      if existing.Some? {
        return Fail(400, AlreadyInFavorites);
      }
      var review', rating' := OrNullReview(review), OrNullRating(rating);
      if !RatingAllowed(rating') {
        // the INSERT violates the CHECK constraint and nothing is written
        return Fail(500, ErrorAddingFavorite);
      }
      var f := Favorite(nextId, caller.userId, movie, review', rating', clock, clock);
      InsertKeepsInvariant(rows, movies.Keys, nextId, clock, f);
      rows := rows + [f];
      nextId := nextId + 1;
      var inserted := Find(rows, HasId(f.id));
      FindOnly(rows, HasId(f.id), |rows| - 1);
      r := Ok(FavoriteView(inserted.value, movies[inserted.value.movieId]));
    }

    /** `PUT /:id` with body `{review, rating}`. */
    method Update(caller: Principal, id: int, review: Option<string>, rating: Option<int>)
      returns (r: Response<FavoriteView>)
      requires Valid()
      modifies this
      ensures Valid() && nextId == old(nextId) && clock == old(clock)
      ensures caller.Anonymous? ==> r == Fail(401, AuthenticationRequired)
      ensures caller.Authenticated? && !Owns(old(rows), id, caller.userId) ==> r == Fail(404, FavoriteNotFound)
      ensures caller.Authenticated? && Owns(old(rows), id, caller.userId) && !RatingAllowed(OrNullRating(rating))
              ==> r == Fail(500, ErrorUpdatingFavorite)
      ensures caller.Authenticated? && Owns(old(rows), id, caller.userId) && RatingAllowed(OrNullRating(rating))
              ==> r.Ok?
      ensures r.Fail? ==> rows == old(rows)
      ensures r.Ok? ==>
                && caller.Authenticated?
                && exists k :: (0 <= k < |old(rows)| && old(rows)[k].id == id && old(rows)[k].userId == caller.userId
                                && rows == old(rows)[k := old(rows)[k].(review := OrNullReview(review),
                                                                       rating := OrNullRating(rating), updatedAt := clock)]
                                && r.payload.row == rows[k] && rows[k].movieId in movies
                                && r.payload.movie == movies[rows[k].movieId])
    {
      if caller.Anonymous? {
        return Fail(401, AuthenticationRequired);
      }
      var favorite := Find(rows, IsOwned(id, caller.userId));
      if favorite.None? {
        assert !Owns(rows, id, caller.userId);
        return Fail(404, FavoriteNotFound);
      }
      var review', rating' := OrNullReview(review), OrNullRating(rating);
      if !RatingAllowed(rating') {
        // the UPDATE violates the CHECK constraint and nothing is written
        return Fail(500, ErrorUpdatingFavorite);
      }
      var k := FirstIndex(rows, IsOwned(id, caller.userId));
      RewriteOnlyRow(rows, movies.Keys, nextId, clock, k, caller.userId, review', rating');
      rows := Map(rows, Rewrite(id, caller.userId, review', rating', clock));
      FavoriteIdUnique(rows, movies.Keys, nextId, clock);
      FindOnly(rows, HasId(id), k);
      var updated := Find(rows, HasId(id));
      assert rows[k] in rows;
      r := Ok(FavoriteView(updated.value, movies[updated.value.movieId]));
    }

    /** `DELETE /:id`. */
    method Remove(caller: Principal, id: int) returns (r: Response<()>)
      requires Valid()
      modifies this
      ensures Valid() && nextId == old(nextId) && clock == old(clock)
      ensures caller.Anonymous? ==> r == Fail(401, AuthenticationRequired)
      ensures caller.Authenticated? && !Owns(old(rows), id, caller.userId) ==> r == Fail(404, FavoriteNotFound)
      ensures caller.Authenticated? && Owns(old(rows), id, caller.userId) ==> r.Ok?
      ensures r.Fail? ==> rows == old(rows)
      ensures r.Ok? ==>
                && caller.Authenticated?
                && exists k :: (0 <= k < |old(rows)| && old(rows)[k].id == id && old(rows)[k].userId == caller.userId
                                && rows == old(rows)[..k] + old(rows)[k + 1..])
    {
      if caller.Anonymous? {
        return Fail(401, AuthenticationRequired);
      }
      var favorite := Find(rows, IsOwned(id, caller.userId));
      if favorite.None? {
        assert !Owns(rows, id, caller.userId);
        return Fail(404, FavoriteNotFound);
      }
      var k := FirstIndex(rows, IsOwned(id, caller.userId));
      DeleteOnlyRow(rows, movies.Keys, nextId, clock, k, caller.userId);
      DeleteKeepsInvariant(rows, movies.Keys, nextId, clock, NotOwned(id, caller.userId));
      rows := Filter(rows, NotOwned(id, caller.userId));
      r := Ok(());
    }

    /** `GET /check/:movieId`. */
    method Check(caller: Principal, movieId: int) returns (r: Response<CheckReply>)
      requires Valid()
      ensures caller.Anonymous? ==> r == Fail(401, AuthenticationRequired)
      ensures caller.Authenticated? ==> r.Ok? && (r.payload.isFavorited <==> HasPair(rows, caller.userId, movieId))
      ensures r.Ok? ==> (r.payload.favoriteId.Some? <==> r.payload.isFavorited)
      ensures r.Ok? && r.payload.favoriteId.Some? ==>
                caller.Authenticated?
                && exists f :: (f in rows && f.id == r.payload.favoriteId.value
                                && f.userId == caller.userId && f.movieId == movieId)
    {
      if caller.Anonymous? {
        return Fail(401, AuthenticationRequired);
      }
      var favorite := Find(rows, IsPair(caller.userId, movieId));
      if favorite.Some? {
        assert favorite.value in rows;
      }
      r := Ok(CheckReply(favorite.Some?, IdOrNull(favorite)));
    }
  }

  /** Adding movie 42 twice: the first add succeeds with no review or rating, the second is refused. */
  method AddTwiceScenario()
  {
    var movie := MovieInfo("tt0000042", "Forty-Two", "1999", "", "", "", "", "", "");
    var table := new FavoritesTable(map[42 := movie]);
    var alice := Authenticated(1);
    var first := table.Add(alice, Some(42), None, None);
    assert first.Ok? && first.payload.row.movieId == 42;
    assert first.payload.row.review.None? && first.payload.row.rating.None?;
    assert HasPair(table.rows, 1, 42) by {
      assert table.rows[0] in table.rows;
    }
    var second := table.Add(alice, Some(42), None, None);
    assert second == Fail(400, AlreadyInFavorites);
    var check := table.Check(Authenticated(2), 42);
    assert check == Ok(CheckReply(false, None));
  }

  /** Updating a favorite as its owner, then as someone else. */
  method UpdateScenario()
  {
    var table := new FavoritesTable(map[7 := MovieInfo("", "", "", "", "", "", "", "", "")]);
    var added := table.Add(Authenticated(1), Some(7), None, None);
    assert added.Ok?;
    var id := added.payload.row.id;
    var updated := table.Update(Authenticated(1), id, Some("Great film"), Some(9));
    assert updated.Ok? by {
      assert table.rows[0] in table.rows;
    }
    assert updated.payload.row.review == Some("Great film") && updated.payload.row.rating == Some(9);
    var other := table.Update(Authenticated(2), id, None, None);
    assert other == Fail(404, FavoriteNotFound);
  }
}
