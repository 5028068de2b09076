/**
 * The two paste listings: a signed-in user's own pastes (the dashboard) and
 * the public pastes. Both select rows, order them newest first by
 * `created_at` and keep at most the first 50.
 */
module Listings {
  import opened Wrappers
  import opened Models
  import opened Db
  import opened Auth

  const PageLimit: nat := 50

  /** Which rows a listing selects. */
  datatype Listing = OwnedBy(userId: int) | PublicAt(now: int)

  /**
   * The dashboard selects the user's own pastes; the public page selects pastes
   * without a password whose expiry is absent or strictly after `now`.
   */
  predicate Selects(q: Listing, p: Paste)
    ensures Selects(q, p) && q.OwnedBy? ==> p.userId.Some?
    ensures Selects(q, p) && q.PublicAt? ==> p.passwordHash.None? && !Expired(p, q.now)
  {
    match q
    case OwnedBy(uid) => p.userId == Some(uid)
    case PublicAt(now) => p.passwordHash.None? && (p.expiresAt.None? || p.expiresAt.value > now)
  }

  ghost function SelectedIds(m: map<string, Paste>, q: Listing): set<string> {
    set id | id in m && Selects(q, m[id])
  }

  predicate NewestFirst(s: seq<Paste>) {
    forall i, j :: 0 <= i < j < |s| ==> s[i].createdAt >= s[j].createdAt
  }

  /**
   * `r` is a page of listing `q` over table `m`: at most 50 selected rows of
   * the table, each once, newest first; a selected row left out means the page
   * is full and the row is no newer than the page's last one.
   */
  ghost predicate IsPage(m: map<string, Paste>, q: Listing, r: seq<Paste>)
    ensures IsPage(m, q, r) && r != [] ==>
      forall id :: id in m && Selects(q, m[id]) ==> m[id].createdAt <= r[0].createdAt
  {
    && |r| <= PageLimit
    && (forall i :: 0 <= i < |r| ==> r[i].id in m && m[r[i].id] == r[i] && Selects(q, r[i]))
    && DistinctIds(r)
    && NewestFirst(r)
    && (forall id :: id in m && Selects(q, m[id]) && m[id] !in r ==>
          |r| == PageLimit && m[id].createdAt <= r[PageLimit - 1].createdAt)
  }

  /**
   * Where `p` goes in a newest-first sequence: after every row at least as new,
   * before the first strictly older one.
   */
  function InsertionPoint(s: seq<Paste>, p: Paste): (k: nat)
    ensures k <= |s|
    ensures forall i :: 0 <= i < k ==> s[i].createdAt >= p.createdAt
    ensures k < |s| ==> s[k].createdAt < p.createdAt
  {
    if s == [] || s[0].createdAt < p.createdAt then 0 else 1 + InsertionPoint(s[1..], p)
  }

  /** Every id in `s` appears once. */
  predicate DistinctIds(s: seq<Paste>) {
    forall i, j :: 0 <= i < j < |s| ==> s[i].id != s[j].id
  }

  /**
   * `p` inserted at its place in a newest-first sequence: the order is kept,
   * the rows are those of `s` and `p`, and ids stay distinct if `p`'s is new.
   */
  function InsertNewest(s: seq<Paste>, p: Paste): (r: seq<Paste>)
    requires NewestFirst(s)
    ensures |r| == |s| + 1 && NewestFirst(r)
    ensures forall x :: x in r <==> x in s || x == p
    ensures DistinctIds(s) && (forall i :: 0 <= i < |s| ==> s[i].id != p.id) ==> DistinctIds(r)
  {
    var k := InsertionPoint(s, p);
    var r := s[..k] + [p] + s[k..];
    assert forall i :: 0 <= i < |r| ==> r[i] == if i < k then s[i] else if i == k then p else s[i - 1];
    r
  }

  /** The loop's invariant: `acc` holds exactly the selected rows among the ids in `done`, newest first. */
  ghost predicate Collected(m: map<string, Paste>, q: Listing, done: set<string>, acc: seq<Paste>) {
    && NewestFirst(acc)
    && DistinctIds(acc)
    && (forall i :: 0 <= i < |acc| ==> acc[i].id in done && acc[i].id in m && m[acc[i].id] == acc[i] && Selects(q, acc[i]))
    && (forall id :: id in done && id in m && Selects(q, m[id]) ==> m[id] in acc)
  }

  /** Scanning one more row keeps the invariant. */
  lemma CollectStep(m: map<string, Paste>, q: Listing, done: set<string>, acc: seq<Paste>, id: string)
    requires forall k :: k in m ==> m[k].id == k
    requires Collected(m, q, done, acc) && id in m && id !in done
    ensures Collected(m, q, done + {id}, if Selects(q, m[id]) then InsertNewest(acc, m[id]) else acc)
  {
  }

  /** The first 50 of everything selected, newest first, make a page. */
  lemma CollectedPage(m: map<string, Paste>, q: Listing, acc: seq<Paste>)
    requires Collected(m, q, m.Keys, acc)
    ensures IsPage(m, q, if |acc| <= PageLimit then acc else acc[..PageLimit])
  {
  }

  /**
   * The `ORDER BY created_at DESC LIMIT 50` query over the rows `q` selects:
   * the table is scanned, each selected row is inserted at its place in a
   * newest-first sequence, and the first 50 are kept.
   */
  method Newest(db: Store, q: Listing) returns (r: seq<Paste>)
    requires db.Valid()
    ensures IsPage(db.pastes, q, r)
  {
    var todo := db.pastes.Keys;
    ghost var done: set<string> := {};
    var acc: seq<Paste> := [];
    while todo != {}
      invariant todo !! done && todo + done == db.pastes.Keys
      invariant Collected(db.pastes, q, done, acc)
      decreases todo
    {
      var id :| id in todo;
      CollectStep(db.pastes, q, done, acc, id);
      var p := db.pastes[id];
      if Selects(q, p) {
        acc := InsertNewest(acc, p);
      }
      done := done + {id};
      todo := todo - {id};
    }
    CollectedPage(db.pastes, q, acc);
    r := if |acc| <= PageLimit then acc else acc[..PageLimit];
  }

  /** A page holds exactly the 50 newest selected rows, or all of them when there are fewer. */
  lemma {:induction false} PageLength(m: map<string, Paste>, q: Listing, r: seq<Paste>)
    requires forall id :: id in m ==> m[id].id == id
    requires IsPage(m, q, r)
    ensures |r| == if |SelectedIds(m, q)| < PageLimit then |SelectedIds(m, q)| else PageLimit
  {
    var ids := set i | 0 <= i < |r| :: r[i].id;
    DistinctIdsCount(r);
    assert ids <= SelectedIds(m, q);
    if |r| < PageLimit {
      forall id | id in SelectedIds(m, q) ensures id in ids {
        var i :| 0 <= i < |r| && r[i] == m[id];
      }
      assert ids == SelectedIds(m, q);
    } else {
      assert SelectedIds(m, q) == ids + (SelectedIds(m, q) - ids);
    }
  }

  /** Rows with pairwise different ids carry as many ids as there are rows. */
  lemma {:induction false} DistinctIdsCount(r: seq<Paste>)
    requires DistinctIds(r)
    ensures |set i | 0 <= i < |r| :: r[i].id| == |r|
  {
    if r != [] {
      var rest := r[1..];
      DistinctIdsCount(rest);
      var ids := set i | 0 <= i < |r| :: r[i].id;
      var restIds := set i | 0 <= i < |rest| :: rest[i].id;
      assert ids == restIds + {r[0].id} by {
        forall x | x in ids ensures x in restIds + {r[0].id} {
          var i :| 0 <= i < |r| && r[i].id == x;
          if i > 0 { assert rest[i - 1].id == x; }
        }
      }
      assert r[0].id !in restIds;
    }
  }

  datatype DashboardOutcome = RedirectToLogin | Dashboard(user: User, pastes: seq<Paste>)

  /**
   * `dashboard`: a visitor whose session does not resolve is sent to the login
   * page; a signed-in user sees a page of their own pastes and no one else's.
   */
  method ShowDashboard(db: Store, session: Option<string>) returns (r: DashboardOutcome)
    requires db.Valid()
    ensures r.RedirectToLogin? <==> CurrentUser(db, session).None?
    ensures r.Dashboard? ==> Some(r.user) == CurrentUser(db, session) && IsPage(db.pastes, OwnedBy(r.user.id), r.pastes)
    ensures r.Dashboard? ==> forall i :: 0 <= i < |r.pastes| ==> r.pastes[i].userId == Some(r.user.id)
  {
    var user := CurrentUser(db, session);
    if user.None? {
      return RedirectToLogin;
    }
    var pastes := Newest(db, OwnedBy(user.value.id));
    r := Dashboard(user.value, pastes);
  }

  /**
   * `public_pastes`: a page of pastes that have no password and have not
   * expired by `now`, for any visitor, signed in or not.
   */
  method PublicPastes(db: Store, session: Option<string>, now: int) returns (user: Option<User>, pastes: seq<Paste>)
    requires db.Valid()
    ensures user == CurrentUser(db, session)
    ensures IsPage(db.pastes, PublicAt(now), pastes)
    ensures forall i :: 0 <= i < |pastes| ==>
      pastes[i].passwordHash.None? && !Expired(pastes[i], now) && (pastes[i].expiresAt.None? || pastes[i].expiresAt.value > now)
  {
    user := CurrentUser(db, session);
    pastes := Newest(db, PublicAt(now));
  }
}
