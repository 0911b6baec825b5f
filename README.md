# Movie-Meter favorites and identity, in Dafny

Movie-Meter lets a user sign in with Google and keep a list of favorite
movies, each with an optional review and a rating from 1 to 10. This project
models three pieces of its logic and proves properties about them:

- **The favorites store** (`FavoriteRoutes`, file `favorite_routes.dfy`). These
  are the five handlers of `movie-meter-backend/src/routes/favoriteRoutes.js`:
  list, add, update, remove and check. They are methods of the class
  `FavoritesTable`, which holds the `favorites` rows, the next AUTOINCREMENT
  id, a clock for `CURRENT_TIMESTAMP` and the read-only `movies` catalog.
  - Every handler takes the caller as a `Principal`. `Anonymous` is the
    `requireAuth` gate of `movie-meter-backend/src/middleware/auth.js`. The
    handler returns a `Response`, which is status 200 with a payload or an
    error status with the source's message.
  - The class invariant is the schema of
    `movie-meter-backend/src/config/migrations.js`:
    - ids are unique and below the next id;
    - `(user_id, movie_id)` is unique;
    - `rating` is NULL or in 1..10;
    - every row's movie exists;
    - rows are stored in insertion order, with ids increasing and
      `created_at` non-decreasing.
- **The client mirror** (`UseFavorites`, file `use_favorites.dfy`). This is the
  `favorites` state of `movie-meter-frontend/src/hooks/useFavorites.js`.
  - The class `FavoritesMirror` has one method per state update: fetch, add,
    update and remove. The server's reply to the request is a parameter.
  - The transformations those methods apply are functions, each with lemmas:
    prepend, map-replace by id and filter by id.
  - So are the two queries, `isFavorited` and `getFavoriteByMovieId`.
- **Identity upsert** (`Passport`, file `passport.dfy`). This is the Google
  strategy's verify callback and the session serialisers of
  `movie-meter-backend/src/config/passport.js`.
  - The callback is `UserStore.Verify`. It is proved equal to the function
    `Resolve`.
  - `Resolve` looks a row up by `google_id` and then inserts a new row, or
    rewrites email, name and picture in place.
  - On the update branch, the user it hands to `done` is the row as read
    before the update.

The supporting modules are:
- `Wrappers`: `Option`.
- `Seqs`: JavaScript's `filter`, `map`, `some` and `find`, plus `reverse` and
  a pairwise-ordering predicate, each with generic lemmas.
- `Schema`: the `favorites` and `users` rows and their table invariants.

The source's JavaScript falsy checks are written out:
- a request `movieId` that is missing or 0 is "missing";
- `review || null` turns `""` into NULL;
- `rating || null` turns 0 into NULL.

`CURRENT_TIMESTAMP` is a per-table `clock`; the method `Tick` moves it on by
one second. Two rows created in the same tick share `created_at`, so the
listing contract fixes no order between them.

Three behaviours of the code are worth stating, and the model keeps each one
as written:
- The handlers do not check the rating themselves. The `CHECK` constraint
  (`movie-meter-backend/src/config/migrations.js:24`) rejects a value
  outside 1..10 inside the INSERT or UPDATE. The handler's catch turns that
  into a 500 with "Error adding favorite" or "Error updating favorite", and
  nothing is written.
- A rating of 0 is not rejected. It becomes NULL through `rating || null`.
- On the update branch, the verify callback hands the pre-update row to
  `done` (`Passport.StaleUserOnUpdate`).

## Model

| member | source | states |
|---|---|---|
| FavoriteRoutes.FavoritesTable.List | movie-meter-backend/src/routes/favoriteRoutes.js:8-24 | Anonymous caller: 401 "Authentication required". Otherwise 200 with the caller's rows and no one else's, each row exactly once, joined with its movie, ordered by created_at descending. |
| FavoriteRoutes.FavoritesTable.Add | movie-meter-backend/src/routes/favoriteRoutes.js:35-97 | Each guard in source order gives its status and message: 401, 400 missing or zero movieId, 404 unknown movie, 400 duplicate pair, 500 for a rating the CHECK rejects. On any failure rows and next id are unchanged. When every guard passes the call succeeds. It appends exactly one row with the next id, the caller, the movie, review and rating with falsy values as NULL, and both timestamps "now", and returns that row joined with its movie. The invariant (pair uniqueness, rating range) is kept. |
| FavoriteRoutes.FavoritesTable.Update | movie-meter-backend/src/routes/favoriteRoutes.js:100-146 | 401 when anonymous. 404 "Favorite not found" when no row has that id for the caller (the same reply for a missing id and for another user's row). 500 when the CHECK rejects the rating. Failures change nothing. Otherwise exactly row k changes: review, rating (falsy as NULL) and updated_at. Every other row and every other field stay. The reply is the new row joined with its movie. |
| FavoriteRoutes.FavoritesTable.Remove | movie-meter-backend/src/routes/favoriteRoutes.js:149-180 | 401 when anonymous, and 404 when the caller owns no row with that id; both change nothing. Otherwise the table is the old one with exactly row k removed, order kept. |
| FavoriteRoutes.FavoritesTable.Check | movie-meter-backend/src/routes/favoriteRoutes.js:183-195 | 401 when anonymous. Otherwise isFavorited holds iff a row exists for (caller, movieId); favoriteId is non-null iff isFavorited, and is then the id of the caller's row for that movie. |
| FavoriteRoutes.FavoritesTable.Tick | movie-meter-backend/src/config/migrations.js:25-26 | CURRENT_TIMESTAMP advances one second; rows and ids are unchanged and the invariant is kept. |
| FavoriteRoutes.FavoritesTable.constructor | movie-meter-backend/src/config/migrations.js:18-31 | The empty favorites table over a given movie catalog satisfies the schema invariant. |
| FavoriteRoutes.Truthy | movie-meter-backend/src/routes/favoriteRoutes.js:39 | The `!movieId` guard: a missing movie id and 0 are falsy. Add's contract uses it for its 400 case. |
| FavoriteRoutes.OrNullReview | movie-meter-backend/src/routes/favoriteRoutes.js:73 | The `null` fallback for the review: a missing review or `""` becomes NULL, any other string is kept. Add's and Update's contracts use it for the stored value. |
| FavoriteRoutes.OrNullRating | movie-meter-backend/src/routes/favoriteRoutes.js:122 | The `null` fallback for the rating: a missing rating or 0 becomes NULL, any other integer is kept and then meets the CHECK. Add's and Update's contracts use it. |
| FavoriteRoutes.IdOrNull | movie-meter-backend/src/routes/favoriteRoutes.js:194 | The `null` fallback for the found id: the found row's id, or NULL when nothing was found. Check's contract proves that the id is never dropped, because the invariant keeps ids at 1 or more. |
| FavoriteRoutes.Rewrite | movie-meter-backend/src/routes/favoriteRoutes.js:118-122 | The UPDATE applied to one row: the row with that id and user gets the new review, rating and updated_at, and every other row is returned as it was. RewriteOnlyRow proves that over the whole table this rewrites only row k. |
| FavoriteRoutes.RewriteOnlyRow | movie-meter-backend/src/routes/favoriteRoutes.js:118-122 | The UPDATE ... WHERE id = ? AND user_id = ? on the caller's row k rewrites that row only, and the schema invariant still holds afterwards. |
| FavoriteRoutes.DeleteOnlyRow | movie-meter-backend/src/routes/favoriteRoutes.js:166-167 | The DELETE ... WHERE id = ? AND user_id = ? on the caller's row k leaves every other row, in order. |
| FavoriteRoutes.DeleteKeepsInvariant | movie-meter-backend/src/routes/favoriteRoutes.js:166-167 | Deleting any set of rows keeps the schema invariant. |
| FavoriteRoutes.InsertKeepsInvariant | movie-meter-backend/src/routes/favoriteRoutes.js:68-73 | Inserting a row with the next id, an existing movie, an allowed rating and a new (user, movie) pair keeps the schema invariant, including pair uniqueness. |
| FavoriteRoutes.NewestFirstListing | movie-meter-backend/src/routes/favoriteRoutes.js:10-19 | The caller's rows, in reverse insertion order and joined with their movies, are exactly the caller's rows, each once, with created_at non-increasing. |
| Schema.FavoritePairUnique | movie-meter-backend/src/config/migrations.js:29 | Under the invariant, no two rows share (user_id, movie_id). |
| Schema.FavoriteIdUnique | movie-meter-backend/src/config/migrations.js:20 | Under the invariant, no two rows share an id. |
| Schema.UserKeysUnique | movie-meter-backend/src/config/migrations.js:7-8 | Under the invariant, no two users share an id or a google_id. |
| UseFavorites.FavoritesMirror.constructor | movie-meter-frontend/src/hooks/useFavorites.js:8 | The mirror starts empty. |
| UseFavorites.FavoritesMirror.Fetch | movie-meter-frontend/src/hooks/useFavorites.js:11-32 | With no user, the mirror becomes empty. An ok reply replaces it with the server list, or with the empty list when the body has none. A non-ok reply or a thrown error leaves it unchanged. |
| UseFavorites.FavoritesMirror.Add | movie-meter-frontend/src/hooks/useFavorites.js:38-61 | An ok reply prepends the returned favorite, with the old elements following in order, and returns success with it. A non-ok reply returns failure with the server's message. A throw returns "Error adding favorite". Both failures leave the mirror unchanged. |
| UseFavorites.FavoritesMirror.Update | movie-meter-frontend/src/hooks/useFavorites.js:63-88 | An ok reply keeps length and positions and replaces exactly the elements whose id is favoriteId. A non-ok reply returns its message and a throw returns "Error updating favorite"; neither changes the mirror. |
| UseFavorites.FavoritesMirror.Remove | movie-meter-frontend/src/hooks/useFavorites.js:90-108 | An ok reply leaves the elements whose id differs, in order, and returns success. A non-ok reply returns its message and a throw returns "Error removing favorite"; neither changes the mirror. |
| UseFavorites.Replaced | movie-meter-frontend/src/hooks/useFavorites.js:76-78 | `prev.map(fav => fav.id === favoriteId ? updated : fav)`. ReplacedAt and ReplacedIdempotent state what it does. |
| UseFavorites.Removed | movie-meter-frontend/src/hooks/useFavorites.js:98 | `prev.filter(fav => fav.id !== favoriteId)`. RemovedMembers, RemovedKeepsOrder, RemovedIdempotent, RemovedAbsent and RemovedIsGone state what it does. |
| UseFavorites.IsFavorited | movie-meter-frontend/src/hooks/useFavorites.js:110-112 | `favorites.some(fav => fav.movie_id === movieId)`. IsFavoritedIff characterises it. |
| UseFavorites.GetFavoriteByMovieId | movie-meter-frontend/src/hooks/useFavorites.js:114-116 | A found value is an element of the mirror with that movie_id. GetFavoriteIsFirst adds that it is the first such element, and defined exactly when isFavorited holds. |
| UseFavorites.ReplacedAt | movie-meter-frontend/src/hooks/useFavorites.js:76-78 | The map-replace keeps length, and position i holds the returned record exactly when element i had that id, and the old element otherwise. |
| UseFavorites.ReplacedIdempotent | movie-meter-frontend/src/hooks/useFavorites.js:76-78 | Applying the same update twice equals applying it once. |
| UseFavorites.RemovedMembers | movie-meter-frontend/src/hooks/useFavorites.js:98 | An element survives a remove iff it was present and its id differs. |
| UseFavorites.RemovedKeepsOrder | movie-meter-frontend/src/hooks/useFavorites.js:98 | Removing from a concatenation is removing from each part, so relative order is kept. |
| UseFavorites.RemovedIdempotent | movie-meter-frontend/src/hooks/useFavorites.js:98 | Removing twice equals removing once. |
| UseFavorites.RemovedAbsent | movie-meter-frontend/src/hooks/useFavorites.js:98 | Removing an id no element has leaves the mirror as it was. |
| UseFavorites.RemovedIsGone | movie-meter-frontend/src/hooks/useFavorites.js:98 | After a remove no element carries that id. |
| UseFavorites.IsFavoritedIff | movie-meter-frontend/src/hooks/useFavorites.js:110-112 | isFavorited(m) holds iff some element has movie_id m. |
| UseFavorites.GetFavoriteIsFirst | movie-meter-frontend/src/hooks/useFavorites.js:114-116 | getFavoriteByMovieId(m) is defined iff isFavorited(m); it is then the first element with movie_id m. |
| UseFavorites.AddedIsFound | movie-meter-frontend/src/hooks/useFavorites.js:51 | After a prepend, both lookups for the added movie find the added favorite. |
| Passport.UserStore.Verify | movie-meter-backend/src/config/passport.js:12-50 | A store failure hands an error to done and leaves the table unchanged. Otherwise the new table and the user handed to done are exactly those of Resolve on the old table; the invariant, including google_id uniqueness, is kept. |
| Passport.UserStore.Tick | movie-meter-backend/src/config/passport.js:36 | CURRENT_TIMESTAMP advances; the users table is unchanged. |
| Passport.UserStore.constructor | movie-meter-backend/src/config/migrations.js:5-15 | The empty users table satisfies the invariant. |
| Passport.Resolve | movie-meter-backend/src/config/passport.js:12-46 | The verify callback as a function. The user it hands to `done` always has the profile's google_id. It is either a row already in the table, or the one row appended. The clock is unchanged. ResolveInserts and ResolveUpdates give each branch in full. |
| Passport.SerializeUser | movie-meter-backend/src/config/passport.js:54-56 | Only the user's id goes into the session. SessionRoundTrip is its round trip with DeserializeUser. |
| Passport.DeserializeUser | movie-meter-backend/src/config/passport.js:58-61 | Lookup by id: absent iff no row has that id; otherwise a stored row with that id. |
| Passport.ResolveInserts | movie-meter-backend/src/config/passport.js:15-31 | An unknown google_id gets exactly one new row. Its id is the next id; its google_id, email (first email or ''), name (displayName) and picture (first photo or '') come from the profile. That row is returned. |
| Passport.ResolveUpdates | movie-meter-backend/src/config/passport.js:32-46 | A known google_id in row k: nothing is inserted. Row k gets the profile's email, name and picture and a new updated_at; its id, google_id and created_at and every other row stay. The user returned is row k as it was before. |
| Passport.ResolveKeepsInvariant | movie-meter-backend/src/config/passport.js:15-43 | Every login keeps ids and google_ids unique and timestamps ordered. |
| Passport.ResolveKeepsGoogleIds | movie-meter-backend/src/config/passport.js:15-43 | After a login, the profile's google_id and every google_id already present are carried by some row. |
| Passport.AtMostOneRow | movie-meter-backend/src/config/migrations.js:8 | Rows in invariant order carry any google_id at most once. |
| Passport.ExactlyOneRow | movie-meter-backend/src/config/migrations.js:8 | Under the invariant, a google_id that some row has is carried by exactly one row. |
| Passport.ResolveAllKeepsInvariant | movie-meter-backend/src/config/passport.js:15-43 | Any sequence of logins keeps the users invariant. |
| Passport.ResolveAllKnown | movie-meter-backend/src/config/passport.js:15-31 | Once a google_id is present or in the login sequence, some row carries it afterwards. |
| Passport.ResolveAllOneRow | movie-meter-backend/src/config/passport.js:15-18 | After any sequence of logins, interleaved with other profiles, a google_id that was present or logged in is carried by exactly one row. |
| Passport.SessionRoundTrip | movie-meter-backend/src/config/passport.js:54-61 | For a stored user u, deserializeUser(serializeUser(u)) is that same row. |
| Passport.StaleUserOnUpdate | movie-meter-backend/src/config/passport.js:15-46 | On the update branch the user handed to done carries the old email, name and picture. Deserialising its id afterwards gives the refreshed row. |
| Seqs.Filter | movie-meter-frontend/src/hooks/useFavorites.js:98 | Array filter: never longer, and an element is in the result iff it is in the input and passes. |
| Seqs.FilterAppend | movie-meter-frontend/src/hooks/useFavorites.js:98 | Filtering distributes over concatenation, so relative order is kept. |
| Seqs.FilterIdempotent | movie-meter-frontend/src/hooks/useFavorites.js:98 | Filtering twice with one predicate is filtering once. |
| Seqs.FilterRemovesOne | movie-meter-backend/src/routes/favoriteRoutes.js:166-167 | A filter that rejects only position k removes that element, and no other. |
| Seqs.Map | movie-meter-frontend/src/hooks/useFavorites.js:76-78 | Array map: same length, and element i is f applied to input element i. |
| Seqs.AnyExists | movie-meter-frontend/src/hooks/useFavorites.js:110-112 | Array some holds iff some index passes. |
| Seqs.FirstIndex | movie-meter-frontend/src/hooks/useFavorites.js:114-116 | The first passing index, or the length when none passes. |
| Seqs.Find | movie-meter-frontend/src/hooks/useFavorites.js:114-116 | Array find: absent iff no element passes; otherwise it is the first passing element. |
| Seqs.FindAny | movie-meter-frontend/src/hooks/useFavorites.js:114-116 | find is defined exactly when some holds. |
| Seqs.Reverse | movie-meter-backend/src/routes/favoriteRoutes.js:18 | Element i of the result is element n-1-i of the input. |

## Left out

- Express routing, JSON bodies, CORS, sessions and the server's health, 404
  and error handlers. A handler's reply is a `Response` value, and the
  session is reduced to the caller's `Principal`.
- The SQL engine. Tables are in-memory sequences and statements are
  functions over them.
- The `movies` table is a constant map. The foreign key from `favorites` to
  `movies` is a class invariant, so the inner JOIN never drops a row. The
  cascade deletes are not modelled, because no modelled operation deletes
  movies or users.
- Store faults other than the rating CHECK in the favorites handlers, such
  as a locked or corrupt database. In the source these give a 500 with a
  generic message; the model has no fault input for them. The read handlers
  `List` and `Check` therefore always succeed for a signed-in caller.
- Passport.UserStore.Verify: `storeFails` models a fault raised before any
  write. A fault between the INSERT and the re-read is not modelled. A
  missing `displayName` is not modelled either; the profile always carries
  a string.
- Passport.DeserializeUser: its `catch` (a store fault while reading the
  session user) is not modelled.
- The JavaScript coercions between strings and numbers are not modelled.
  - Route parameters such as `:id` and `:movieId` arrive as strings; SQLite
    compares them with integer columns by type affinity.
  - In the body, a non-integer rating, a string movie id and a non-string
    review would pass through to the database.
  - The model takes integers and strings that are already typed.
- UseFavorites.FavoritesMirror: these parts of the hook are not modelled:
  - the request each call sends (method, URL, body);
  - the `loading` flag;
  - the `useEffect` refetch trigger;
  - the interleaving of concurrent awaits.

  Each call is one atomic transition, and the reply it received is its
  input.
- The success messages ("Movie added to favorites", "Favorite updated",
  "Removed from favorites") are not part of `Response`.
- The fetch-error 500 messages of `List` and `Check` are not modelled,
  because those handlers have no fault input (see above).
- The Google OAuth redirect flow and `movie-meter-backend/src/routes/authRoutes.js`.
  These run inside a third-party strategy library; the profile it produces
  is plain input to `Verify`.
- The favorite toggle in `movie-meter-frontend/src/components/MovieCard.jsx`
  is UI glue that calls the mirror's add or remove. The React components
  only render.
- The foreign key `favorites.user_id REFERENCES users(id)` is not part of
  the favorites invariant, and `Authenticated` accepts any user id. This is
  harmless here: no modelled operation deletes users, and the session gate
  admits only users that `DeserializeUser` found in the users table.
- Wall-clock time. `CURRENT_TIMESTAMP` is a clock that only `Tick` advances.
- FavoriteRoutes.FavoritesTable.List: for rows created in the same second,
  the contract claims no order beyond `created_at` descending.
