/**
 * The `users` and `favorites` tables that
 * movie-meter-backend/src/config/migrations.js creates, as rows and the table
 * invariants their constraints impose.  A table is a sequence of rows in
 * insertion order; `nextId` is the next AUTOINCREMENT value and `clock` the
 * current CURRENT_TIMESTAMP reading, in whole seconds.
 */
module Schema {
  import opened Wrappers
  import opened Seqs

  /** A row of `favorites`. */
  datatype Favorite = Favorite(
    id: int,
    userId: int,
    movieId: int,
    review: Option<string>,
    rating: Option<int>,
    createdAt: nat,
    updatedAt: nat)

  /** `CHECK(rating >= 1 AND rating <= 10)`: a NULL rating always passes. */
  predicate RatingAllowed(rating: Option<int>)
  {
    rating.None? || 1 <= rating.value <= 10
  }

  /** What holds of each favorites row on its own. */
  predicate FavoriteRowOk(f: Favorite, movies: set<int>, nextId: int, clock: nat)
  {
    && 1 <= f.id < nextId
    && f.movieId in movies
    && RatingAllowed(f.rating)
    && f.createdAt <= f.updatedAt <= clock
  }

  /**
   * What holds of two favorites rows, `a` inserted before `b`: ids grow,
   * created_at never goes back, and `UNIQUE(user_id, movie_id)`.
   */
  predicate FavoriteBefore(a: Favorite, b: Favorite)
  {
    && a.id < b.id
    && a.createdAt <= b.createdAt
    && (a.userId != b.userId || a.movieId != b.movieId)
  }

  ghost predicate FavoritesInvariant(rows: seq<Favorite>, movies: set<int>, nextId: int, clock: nat)
  {
    && 1 <= nextId
    && (forall f :: f in rows ==> FavoriteRowOk(f, movies, nextId, clock))
    && Pairwise(rows, FavoriteBefore)
  }

  /** Under the invariant, `(user_id, movie_id)` picks out at most one row. */
  lemma FavoritePairUnique(rows: seq<Favorite>, movies: set<int>, nextId: int, clock: nat)
    requires FavoritesInvariant(rows, movies, nextId, clock)
    ensures forall i, j :: 0 <= i < |rows| && 0 <= j < |rows| && rows[i].userId == rows[j].userId
              && rows[i].movieId == rows[j].movieId
              ==> i == j
  {
  }

  /** Under the invariant, `id` picks out at most one row. */
  lemma FavoriteIdUnique(rows: seq<Favorite>, movies: set<int>, nextId: int, clock: nat)
    requires FavoritesInvariant(rows, movies, nextId, clock)
    ensures forall i, j :: 0 <= i < |rows| && 0 <= j < |rows| && rows[i].id == rows[j].id ==> i == j
  {
  }

  /** A row of `users`. */
  datatype User = User(
    id: int,
    googleId: string,
    email: string,
    name: string,
    picture: string,
    createdAt: nat,
    updatedAt: nat)

  /** What holds of each users row on its own. */
  predicate UserRowOk(u: User, nextId: int, clock: nat)
  {
    1 <= u.id < nextId && u.createdAt <= u.updatedAt <= clock
  }

  /** `a` inserted before `b`: ids grow, and `google_id TEXT UNIQUE`. */
  predicate UserBefore(a: User, b: User)
  {
    a.id < b.id && a.googleId != b.googleId
  }

  ghost predicate UsersInvariant(rows: seq<User>, nextId: int, clock: nat)
  {
    && 1 <= nextId
    && (forall u :: u in rows ==> UserRowOk(u, nextId, clock))
    && Pairwise(rows, UserBefore)
  }

  /** Under the invariant, `google_id` and `id` each pick out at most one row. */
  lemma UserKeysUnique(rows: seq<User>, nextId: int, clock: nat)
    requires UsersInvariant(rows, nextId, clock)
    ensures forall i, j :: 0 <= i < |rows| && 0 <= j < |rows| && rows[i].googleId == rows[j].googleId ==> i == j
    ensures forall i, j :: 0 <= i < |rows| && 0 <= j < |rows| && rows[i].id == rows[j].id ==> i == j
  {
  }
}
