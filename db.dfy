/**
 * The database: the `pastes` table keyed by paste id and the `users` table keyed
 * by an AUTOINCREMENT integer with a UNIQUE username, held in memory as maps.
 * Each method stands for one SQL statement the handlers issue; the expiry sweep
 * is `cleanup_expired_pastes`.
 */
module Db {
  import opened Wrappers
  import Text
  import opened Models

  /** A paste past its expiry: one with an expiry time strictly before `now`. */
  predicate Expired(p: Paste, now: int)
    ensures p.expiresAt.None? ==> !Expired(p, now)
    ensures p.expiresAt.Some? ==> (Expired(p, now) <==> now > p.expiresAt.value)
  {
    p.expiresAt.Some? && p.expiresAt.value < now
  }

  /** The ids a sweep at `now` deletes. */
  ghost function ExpiredIds(m: map<string, Paste>, now: int): set<string> {
    set id | id in m && Expired(m[id], now)
  }

  /** The table a sweep at `now` leaves behind. */
  function Swept(m: map<string, Paste>, now: int): (r: map<string, Paste>)
    ensures forall id :: id in r ==> id in m && r[id] == m[id] && !Expired(m[id], now)
    ensures forall id :: id in m && !Expired(m[id], now) ==> id in r
  {
    map id | id in m && !Expired(m[id], now) :: m[id]
  }

  /** Whether a user named `name` exists already. */
  predicate UsernameTaken(users: map<int, User>, name: string) {
    exists uid :: uid in users && users[uid].username == name
  }

  class Store {
    var pastes: map<string, Paste>
    var users: map<int, User>
    /** The next value of the `users.id` AUTOINCREMENT sequence. */
    var nextUserId: int

    /**
     * The schema's constraints: each paste row sits under its own id (the
     * primary key), user ids are positive, below the sequence counter and
     * within `i64`, and usernames are UNIQUE.
     */
    ghost predicate Valid()
      reads this
    {
      && (forall id :: id in pastes ==> pastes[id].id == id)
      && 1 <= nextUserId <= Text.I64Max + 1
      && (forall uid :: uid in users ==> users[uid].id == uid && 1 <= uid < nextUserId)
      && (forall a, b :: a in users && b in users && users[a].username == users[b].username ==> a == b)
    }

    /** Freshly created tables hold no rows. */
    constructor ()
      ensures Valid()
      ensures pastes == map[] && users == map[] && nextUserId == 1
    {
      pastes := map[];
      users := map[];
      nextUserId := 1;
    }

    /** `DELETE FROM pastes WHERE id = ?`: removing a missing id changes nothing. */
    method DeletePaste(id: string)
      requires Valid()
      modifies this
      ensures Valid()
      ensures pastes == old(pastes) - {id}
      ensures users == old(users) && nextUserId == old(nextUserId)
    {
      pastes := pastes - {id};
    }

    /** `UPDATE pastes SET view_count = view_count + 1 WHERE id = ?`. */
    method IncrementViewCount(id: string)
      requires Valid()
      modifies this
      ensures Valid()
      ensures id in old(pastes) ==> pastes == old(pastes)[id := old(pastes)[id].(viewCount := old(pastes)[id].viewCount + 1)]
      ensures id !in old(pastes) ==> pastes == old(pastes)
      ensures users == old(users) && nextUserId == old(nextUserId)
    {
      if id in pastes {
        var p := pastes[id];
        pastes := pastes[id := p.(viewCount := p.viewCount + 1)];
      }
    }

    /** `INSERT INTO pastes ...`: refused when the id is taken (primary key). */
    method InsertPaste(p: Paste) returns (ok: bool)
      requires Valid()
      modifies this
      ensures Valid()
      ensures ok <==> p.id !in old(pastes)
      ensures pastes == if ok then old(pastes)[p.id := p] else old(pastes)
      ensures users == old(users) && nextUserId == old(nextUserId)
    {
      ok := p.id !in pastes;
      if ok {
        pastes := pastes[p.id := p];
      }
    }

    /**
     * `INSERT INTO users (username, password_hash)`: refused when the name is
     * taken (UNIQUE) or the AUTOINCREMENT sequence is past `i64::MAX`; otherwise
     * the new row gets the next id and `created_at` is `now`.
     */
    method InsertUser(username: string, passwordHash: string, now: int) returns (id: Option<int>)
      requires Valid()
      modifies this
      ensures Valid()
      ensures id.None? <==> UsernameTaken(old(users), username) || old(nextUserId) > Text.I64Max
      ensures id.None? ==> users == old(users) && nextUserId == old(nextUserId)
      ensures id.Some? ==>
        && id.value == old(nextUserId) && id.value !in old(users)
        && users == old(users)[id.value := User(id.value, username, passwordHash, now)]
        && nextUserId == old(nextUserId) + 1
      ensures pastes == old(pastes)
    {
      if UsernameTaken(users, username) || nextUserId > Text.I64Max {
        return None;
      }
      id := Some(nextUserId);
      users := users[nextUserId := User(nextUserId, username, passwordHash, now)];
      nextUserId := nextUserId + 1;
    }

    /**
     * `cleanup_expired_pastes`: deletes every paste whose expiry is strictly
     * before `now` and returns how many rows went. Pastes without expiry, or
     * expiring at `now` or later, stay as they were, and none expired remains.
     */
    method CleanupExpiredPastes(now: int) returns (count: nat)
      requires Valid()
      modifies this
      ensures Valid()
      ensures pastes == Swept(old(pastes), now)
      ensures forall id :: id in old(pastes) ==> (id !in pastes <==> Expired(old(pastes)[id], now))
      ensures forall id :: id in pastes ==> pastes[id] == old(pastes)[id]
      ensures count == |old(pastes)| - |pastes| == |ExpiredIds(old(pastes), now)|
      ensures ExpiredIds(pastes, now) == {}
      ensures users == old(users) && nextUserId == old(nextUserId)
    {
      var todo := pastes.Keys;
      count := 0;
      while todo != {}
        invariant todo <= old(pastes).Keys
        invariant forall id :: id in pastes <==> id in old(pastes) && (id in todo || !Expired(old(pastes)[id], now))
        invariant forall id :: id in pastes ==> pastes[id] == old(pastes)[id]
        invariant count == |old(pastes)| - |pastes|
        invariant Valid() && users == old(users) && nextUserId == old(nextUserId)
        decreases todo
      {
        var id :| id in todo;
        if Expired(pastes[id], now) {
          assert (pastes - {id}).Keys == pastes.Keys - {id};
          pastes := pastes - {id};
          count := count + 1;
        }
        todo := todo - {id};
      }
      assert pastes == Swept(old(pastes), now);
      SweptRemovesExpired(old(pastes), now);
      SweptIdempotent(old(pastes), now);
    }
  }

  /** A sweep removes exactly the expired ids, so it shrinks the table by their number. */
  lemma SweptRemovesExpired(m: map<string, Paste>, now: int)
    ensures Swept(m, now).Keys == m.Keys - ExpiredIds(m, now)
    ensures |m| - |Swept(m, now)| == |ExpiredIds(m, now)|
  {
  }

  /** After a sweep nothing expired is left, so a second sweep at the same time removes nothing. */
  lemma SweptIdempotent(m: map<string, Paste>, now: int)
    ensures ExpiredIds(Swept(m, now), now) == {}
    ensures Swept(Swept(m, now), now) == Swept(m, now)
  {
  }

  /**
   * The periodic sweeper: a sweep at `now` followed by one at a later `later`
   * leaves what a single sweep at `later` leaves.
   */
  lemma SweepsCompose(m: map<string, Paste>, now: int, later: int)
    requires now <= later
    ensures Swept(Swept(m, now), later) == Swept(m, later)
  {
  }

  /**
   * The two deletion paths agree: deleting an expired paste on access (the lazy
   * path of `view_paste`) and then sweeping gives what sweeping alone gives.
   */
  lemma LazyDeleteThenSweep(m: map<string, Paste>, id: string, now: int)
    requires id in m && Expired(m[id], now)
    ensures Swept(m - {id}, now) == Swept(m, now)
  {
  }
}
