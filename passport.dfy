/**
 * The Google strategy's verify callback and the session (de)serialisers of
 * movie-meter-backend/src/config/passport.js, over an in-memory `users` table.
 * The provider profile is plain input: the OAuth exchange that produces it
 * happens inside the strategy library and is not part of this model.
 */
module Passport {
  import opened Wrappers
  import opened Seqs
  import opened Schema

  /** The fields of the provider profile the callback reads; absent lists are empty. */
  datatype Profile = Profile(id: string, displayName: string, emails: seq<string>, photos: seq<string>)

  /** What the callback hands to `done`: `done(null, user)` or `done(error, null)`. */
  datatype Done = DoneUser(user: User) | DoneError

  /** The `users` table as a value: rows in insertion order, next AUTOINCREMENT id, clock. */
  datatype UsersTable = UsersTable(rows: seq<User>, nextId: int, clock: nat)
  {
    ghost predicate Valid()
    {
      UsersInvariant(rows, nextId, clock)
    }
  }

  /** `list?.[0]?.value || ''` */
  function FirstValue(values: seq<string>): string
  {
    if |values| > 0 then values[0] else ""
  }

  /** `WHERE google_id = ?` */
  function GoogleIdIs(googleId: string): User -> bool
  {
    (u: User) => u.googleId == googleId
  }

  /** `WHERE id = ?` */
  function IdIs(id: int): User -> bool
  {
    (u: User) => u.id == id
  }

  /** `UPDATE users SET email = ?, name = ?, picture = ?, updated_at = CURRENT_TIMESTAMP WHERE google_id = ?` */
  function Refresh(profile: Profile, now: nat): User -> User
  {
    (u: User) =>
      if u.googleId == profile.id
      then u.(email := FirstValue(profile.emails), name := profile.displayName,
              picture := FirstValue(profile.photos), updatedAt := now)
      else u
  }

  /** The row the INSERT branch creates for a profile. */
  function NewUser(profile: Profile, id: int, now: nat): User
  {
    User(id, profile.id, FirstValue(profile.emails), profile.displayName, FirstValue(profile.photos), now, now)
  }

  /**
   * The verify callback as a function: the new table and the user handed to
   * `done`.  On the update branch that user is the row as read BEFORE the
   * update.
   */
  function Resolve(t: UsersTable, profile: Profile): (r: (UsersTable, User))
    ensures r.1.googleId == profile.id && r.0.clock == t.clock
    ensures r.1 in t.rows || r.0.rows == t.rows + [r.1]
  {
    match Find(t.rows, GoogleIdIs(profile.id))
    case None =>
      var u := NewUser(profile, t.nextId, t.clock);
      (t.(rows := t.rows + [u], nextId := t.nextId + 1), u)
    case Some(existing) =>
      (t.(rows := Map(t.rows, Refresh(profile, t.clock))), existing)
  }

  /** A sequence of logins, one after the other. */
  function ResolveAll(t: UsersTable, profiles: seq<Profile>): UsersTable
    decreases |profiles|
  {
    if profiles == [] then t else ResolveAll(Resolve(t, profiles[0]).0, profiles[1..])
  }

  /** `passport.serializeUser`: only the id goes into the session. */
  function SerializeUser(u: User): int
  {
    u.id
  }

  /** `passport.deserializeUser`: `SELECT * FROM users WHERE id = ?`, `undefined` when there is no such row. */
  function DeserializeUser(rows: seq<User>, id: int): (r: Option<User>)
    ensures r.None? <==> forall i :: 0 <= i < |rows| ==> rows[i].id != id
    ensures r.Some? ==> r.value in rows && r.value.id == id
  {
    Find(rows, IdIs(id))
  }

  /** The rows with a given `google_id`. */
  function WithGoogleId(rows: seq<User>, googleId: string): seq<User>
  {
    Filter(rows, GoogleIdIs(googleId))
  }

  /** A profile id no row has yet: exactly one row is inserted, with the profile's fields, and returned. */
  lemma ResolveInserts(t: UsersTable, profile: Profile)
    requires t.Valid()
    requires forall i :: 0 <= i < |t.rows| ==> t.rows[i].googleId != profile.id
    ensures Resolve(t, profile).0.rows == t.rows + [Resolve(t, profile).1]
    ensures Resolve(t, profile).0.nextId == t.nextId + 1
    ensures var u := Resolve(t, profile).1;
            && u.id == t.nextId && u.googleId == profile.id
            && u.email == FirstValue(profile.emails) && u.name == profile.displayName
            && u.picture == FirstValue(profile.photos)
  {
  }

  /**
   * A profile id some row `k` has: nothing is inserted; row `k` gets the new
   * email, name and picture and a new `updated_at`; its id and google_id and
   * every other row stay; and the user handed back is row `k` as it was.
   */
  lemma ResolveUpdates(t: UsersTable, profile: Profile, k: nat)
    requires t.Valid()
    requires k < |t.rows| && t.rows[k].googleId == profile.id
    ensures Resolve(t, profile).0 ==
              t.(rows := t.rows[k := t.rows[k].(email := FirstValue(profile.emails), name := profile.displayName,
                                                picture := FirstValue(profile.photos), updatedAt := t.clock)])
    ensures Resolve(t, profile).1 == t.rows[k]
  {
    UserKeysUnique(t.rows, t.nextId, t.clock);
    FindOnly(t.rows, GoogleIdIs(profile.id), k);
    var refreshed := Map(t.rows, Refresh(profile, t.clock));
    assert refreshed == t.rows[k := Refresh(profile, t.clock)(t.rows[k])];
  }

  /** Every login keeps the table invariant, in particular `google_id` stays unique. */
  lemma ResolveKeepsInvariant(t: UsersTable, profile: Profile)
    requires t.Valid()
    ensures Resolve(t, profile).0.Valid()
  {
    var found := Find(t.rows, GoogleIdIs(profile.id));
    var t' := Resolve(t, profile).0;
    if found.None? {
      var u := NewUser(profile, t.nextId, t.clock);
      forall i, j | 0 <= i < j < |t'.rows| ensures UserBefore(t'.rows[i], t'.rows[j]) {
        if j < |t.rows| {
          assert UserBefore(t.rows[i], t.rows[j]);
        } else {
          assert t.rows[i] in t.rows;
        }
      }
      forall v | v in t'.rows ensures UserRowOk(v, t'.nextId, t'.clock) {
        if v in t.rows {
          assert UserRowOk(v, t.nextId, t.clock);
        }
      }
    } else {
      var i :| 0 <= i < |t.rows| && t.rows[i] == found.value && t.rows[i].googleId == profile.id;
      ResolveUpdates(t, profile, i);
      forall a, b | 0 <= a < b < |t'.rows| ensures UserBefore(t'.rows[a], t'.rows[b]) {
        assert UserBefore(t.rows[a], t.rows[b]);
      }
      forall v | v in t'.rows ensures UserRowOk(v, t'.nextId, t'.clock) {
        var j :| 0 <= j < |t'.rows| && t'.rows[j] == v;
        assert t.rows[j] in t.rows;
      }
    }
  }

  /** Some row carries `googleId`. */
  ghost predicate Known(rows: seq<User>, googleId: string)
  {
    exists u :: u in rows && u.googleId == googleId
  }

  /** After a login with `profile`, some row carries its google_id; rows are never deleted or re-keyed. */
  lemma ResolveKeepsGoogleIds(t: UsersTable, profile: Profile, googleId: string)
    requires t.Valid()
    requires googleId == profile.id || Known(t.rows, googleId)
    ensures Known(Resolve(t, profile).0.rows, googleId)
  {
    var t' := Resolve(t, profile).0;
    if forall i :: 0 <= i < |t.rows| ==> t.rows[i].googleId != profile.id {
      ResolveInserts(t, profile);
      if googleId == profile.id {
        assert t'.rows[|t.rows|].googleId == googleId;
      } else {
        var u :| u in t.rows && u.googleId == googleId;
        assert u in t'.rows;
      }
    } else {
      var k :| 0 <= k < |t.rows| && t.rows[k].googleId == profile.id;
      ResolveUpdates(t, profile, k);
      if googleId == profile.id {
        assert t'.rows[k].googleId == googleId;
      } else {
        var u :| u in t.rows && u.googleId == googleId;
        var j :| 0 <= j < |t.rows| && t.rows[j] == u;
        assert t'.rows[j].googleId == googleId;
      }
    }
  }

  /** Rows ordered by `UserBefore` carry each google_id at most once. */
  lemma {:induction false} AtMostOneRow(rows: seq<User>, googleId: string)
    requires Pairwise(rows, UserBefore)
    ensures |WithGoogleId(rows, googleId)| <= 1
  {
    if rows != [] {
      var tail := rows[1..];
      assert forall i, j :: 0 <= i < j < |tail| ==> tail[i] == rows[i + 1] && tail[j] == rows[j + 1];
      AtMostOneRow(tail, googleId);
      if rows[0].googleId == googleId {
        forall i | 0 <= i < |tail| ensures tail[i].googleId != googleId {
          assert UserBefore(rows[0], rows[i + 1]);
        }
        FilterNone(tail, GoogleIdIs(googleId));
      }
    }
  }

  /** Under the invariant, a google_id that some row has is carried by exactly one row. */
  lemma ExactlyOneRow(rows: seq<User>, nextId: int, clock: nat, googleId: string)
    requires UsersInvariant(rows, nextId, clock)
    requires Known(rows, googleId)
    ensures |WithGoogleId(rows, googleId)| == 1
  {
    var u :| u in rows && u.googleId == googleId;
    assert u in WithGoogleId(rows, googleId);
    AtMostOneRow(rows, googleId);
  }

  /** Any sequence of logins keeps the table invariant. */
  lemma {:induction false} ResolveAllKeepsInvariant(t: UsersTable, profiles: seq<Profile>)
    requires t.Valid()
    ensures ResolveAll(t, profiles).Valid()
    decreases |profiles|
  {
    if profiles != [] {
      ResolveKeepsInvariant(t, profiles[0]);
      ResolveAllKeepsInvariant(Resolve(t, profiles[0]).0, profiles[1..]);
    }
  }

  /** Once a profile id has logged in, some row carries it after any further logins. */
  lemma {:induction false} ResolveAllKnown(t: UsersTable, profiles: seq<Profile>, googleId: string)
    requires t.Valid()
    requires Known(t.rows, googleId) || exists k :: 0 <= k < |profiles| && profiles[k].id == googleId
    ensures Known(ResolveAll(t, profiles).rows, googleId)
    decreases |profiles|
  {
    if profiles != [] {
      var t' := Resolve(t, profiles[0]).0;
      ResolveKeepsInvariant(t, profiles[0]);
      if Known(t.rows, googleId) || profiles[0].id == googleId {
        ResolveKeepsGoogleIds(t, profiles[0], googleId);
      } else {
        var k :| 0 <= k < |profiles| && profiles[k].id == googleId;
        assert profiles[1..][k - 1].id == googleId;
      }
      ResolveAllKnown(t', profiles[1..], googleId);
    }
  }

  /**
   * However many logins happen, and whatever other profiles log in between,
   * once a profile id has logged in exactly one row carries it.
   */
  lemma ResolveAllOneRow(t: UsersTable, profiles: seq<Profile>, googleId: string)
    requires t.Valid()
    requires Known(t.rows, googleId) || exists k :: 0 <= k < |profiles| && profiles[k].id == googleId
    ensures |WithGoogleId(ResolveAll(t, profiles).rows, googleId)| == 1
  {
    ResolveAllKeepsInvariant(t, profiles);
    ResolveAllKnown(t, profiles, googleId);
    var t' := ResolveAll(t, profiles);
    ExactlyOneRow(t'.rows, t'.nextId, t'.clock, googleId);
  }

  /** Round trip: the id kept in the session deserialises to the stored row it came from. */
  lemma SessionRoundTrip(t: UsersTable, u: User)
    requires t.Valid() && u in t.rows
    ensures DeserializeUser(t.rows, SerializeUser(u)) == Some(u)
  {
    UserKeysUnique(t.rows, t.nextId, t.clock);
    var k :| 0 <= k < |t.rows| && t.rows[k] == u;
    FindOnly(t.rows, IdIs(u.id), k);
  }

  /**
   * On the update branch the user handed to `done` carries the old email,
   * name and picture, while deserialising its id on the next request yields
   * the refreshed row.
   */
  lemma StaleUserOnUpdate(t: UsersTable, profile: Profile, k: nat)
    requires t.Valid()
    requires k < |t.rows| && t.rows[k].googleId == profile.id
    ensures var (t', done) := Resolve(t, profile);
            && done.email == t.rows[k].email && done.name == t.rows[k].name && done.picture == t.rows[k].picture
            && DeserializeUser(t'.rows, SerializeUser(done))
               == Some(done.(email := FirstValue(profile.emails), name := profile.displayName,
                             picture := FirstValue(profile.photos), updatedAt := t.clock))
  {
    ResolveUpdates(t, profile, k);
    ResolveKeepsInvariant(t, profile);
    var t' := Resolve(t, profile).0;
    assert t'.rows[k] in t'.rows;
    SessionRoundTrip(t', t'.rows[k]);
  }

  /** The `users` table, written by the verify callback. */
  class UserStore {
    var users: seq<User>
    var nextId: int
    var clock: nat

    ghost function Table(): UsersTable
      reads this
    {
      UsersTable(users, nextId, clock)
    }

    ghost predicate Valid()
      reads this
    {
      Table().Valid()
    }

    constructor ()
      ensures Valid() && users == [] && nextId == 1 && clock == 0
    {
      users, nextId, clock := [], 1, 0;
    }

    /** One second passes: CURRENT_TIMESTAMP moves on. */
    method Tick()
      requires Valid()
      modifies this
      ensures Valid()
      ensures users == old(users) && nextId == old(nextId) && clock == old(clock) + 1
    {
      clock := clock + 1;
    }

    /**
     * The verify callback `(accessToken, refreshToken, profile, done)`.
     * `storeFails` stands for the database throwing before it writes anything.
     */
    method Verify(profile: Profile, storeFails: bool) returns (r: Done)
      requires Valid()
      modifies this
      ensures Valid()
      ensures storeFails ==> r == DoneError && Table() == old(Table())
      ensures !storeFails ==> Table() == Resolve(old(Table()), profile).0 && r == DoneUser(Resolve(old(Table()), profile).1)
    {
      if storeFails {
        return DoneError;
      }
      ResolveKeepsInvariant(Table(), profile);
      var user := Find(users, GoogleIdIs(profile.id));
      if user.None? {
        var inserted := NewUser(profile, nextId, clock);
        users := users + [inserted];
        nextId := nextId + 1;
        UserKeysUnique(users, nextId, clock);
        FindOnly(users, IdIs(inserted.id), |users| - 1);
        user := Find(users, IdIs(inserted.id));
      } else {
        users := Map(users, Refresh(profile, clock));
      }
      r := DoneUser(user.value);
    }
  }
}
