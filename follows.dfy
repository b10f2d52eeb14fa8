/** backEnd/src/controllers/follow.controller.js: `followUnfollowUser` toggles
    a follow edge, the 'follow' notification that goes with it and the two
    cached counters; `getFollowers` and `getFollowing` list one side of the
    edges. */
module Follows {
  import opened Wrappers
  import opened TweetModel
  import opened Store

  /** Who follows u. */
  function Followers(follows: set<(UserId, UserId)>, u: UserId): (r: set<UserId>)
    ensures forall v :: v in r <==> (v, u) in follows
  {
    set e | e in follows && e.1 == u :: e.0
  }

  /** Whom u follows. */
  function Following(follows: set<(UserId, UserId)>, u: UserId): (r: set<UserId>)
    ensures forall v :: v in r <==> (u, v) in follows
  {
    set e | e in follows && e.0 == u :: e.1
  }

  /** `followersCount` is the in-degree and `followingCount` the out-degree of
      every existing user. */
  predicate FollowCountsOk(follows: set<(UserId, UserId)>, users: map<UserId, Profile>) {
    forall u :: u in users ==>
      users[u].followersCount == |Followers(follows, u)| && users[u].followingCount == |Following(follows, u)|
  }

  /** There is exactly one 'follow' notification per edge and no other
      notification. */
  predicate NotificationsMatch(follows: set<(UserId, UserId)>, notes: multiset<Notification>) {
    && (forall n :: n in notes ==> n.kind == FOLLOW && (n.fromUser, n.user) in follows && notes[n] == 1)
    && (forall e :: e in follows ==> Notification(e.1, FOLLOW, e.0) in notes)
  }

  /** The two `$inc` updates: the target's followers and the follower's
      following, each skipped when that user does not exist. */
  function IncFollow(users: map<UserId, Profile>, target: UserId, follower: UserId, d: int): (r: map<UserId, Profile>)
    requires target != follower
    ensures r.Keys == users.Keys
    ensures forall k :: k in users && k != target && k != follower ==> r[k] == users[k]
    ensures target in users ==> r[target] == users[target].(followersCount := users[target].followersCount + d)
    ensures follower in users ==> r[follower] == users[follower].(followingCount := users[follower].followingCount + d)
  {
    var u1 := if target in users
      then users[target := users[target].(followersCount := users[target].followersCount + d)]
      else users;
    if follower in u1 then u1[follower := u1[follower].(followingCount := u1[follower].followingCount + d)] else u1
  }

  datatype Graph = Graph(follows: set<(UserId, UserId)>, notes: multiset<Notification>, users: map<UserId, Profile>)

  /** The graph with edge e and its notification n removed (d = -1) or added
      (d = 1), and the two counters of the edge's ends moved by d. */
  function Toggled(g: Graph, e: (UserId, UserId), n: Notification, d: int): Graph
    requires e.0 != e.1
  {
    if d < 0 then Graph(g.follows - {e}, g.notes - multiset{n}, IncFollow(g.users, e.1, e.0, d))
    else Graph(g.follows + {e}, g.notes + multiset{n}, IncFollow(g.users, e.1, e.0, d))
  }

  /** The graph and the status after `follower` asks to follow or unfollow
      `target`. Both counter updates run before the 404 for a missing user. */
  function FollowStep(g: Graph, follower: UserId, target: IdParam): (r: (Graph, nat))
    ensures r.1 in {OK, CREATED, BAD_REQUEST, NOT_FOUND}
  {
    match target
    case Malformed => (g, BAD_REQUEST)
    case ObjectId(u) =>
      if u == follower then (g, BAD_REQUEST)
      else
        var e := (follower, u);
        var found := u in g.users && follower in g.users;
        if e in g.follows then
          (Toggled(g, e, Notification(u, FOLLOW, follower), -1), if found then OK else NOT_FOUND)
        else
          (Toggled(g, e, Notification(u, FOLLOW, follower), 1), if found then CREATED else NOT_FOUND)
  }

  /** What a request does: 400 with no change for a malformed id or a
      self-follow; otherwise the edge is toggled and nothing else in the edge
      set changes, 404 exactly when either user is missing, 200 for an
      unfollow and 201 for a follow; only the two users' counters move. */
  lemma FollowStepMeaning(g: Graph, follower: UserId, target: IdParam)
    ensures var r := FollowStep(g, follower, target);
      && (r.1 == BAD_REQUEST <==> target.Malformed? || target.id == follower)
      && (r.1 == BAD_REQUEST ==> r.0 == g)
      && r.0.users.Keys == g.users.Keys
      && (forall k :: k in g.users && (target.Malformed? || (k != target.id && k != follower)) ==>
            r.0.users[k] == g.users[k])
    ensures var r := FollowStep(g, follower, target);
      target.ObjectId? && target.id != follower ==>
      && ((follower, target.id) in r.0.follows <==> (follower, target.id) !in g.follows)
      && r.0.follows - {(follower, target.id)} == g.follows - {(follower, target.id)}
      && (r.1 == NOT_FOUND <==> target.id !in g.users || follower !in g.users)
      && (r.1 == OK ==> (follower, target.id) in g.follows)
      && (r.1 == CREATED ==> (follower, target.id) !in g.follows)
  {
  }

  /** Adding or removing one edge moves the in-degree of its target and the
      out-degree of its source by one, and no other degree. */
  lemma DegreesAfterToggle(follows: set<(UserId, UserId)>, a: UserId, b: UserId, k: UserId)
    ensures (a, b) !in follows ==>
      && Followers(follows + {(a, b)}, k) == (if k == b then Followers(follows, k) + {a} else Followers(follows, k))
      && Following(follows + {(a, b)}, k) == (if k == a then Following(follows, k) + {b} else Following(follows, k))
    ensures (a, b) in follows ==>
      && Followers(follows - {(a, b)}, k) == (if k == b then Followers(follows, k) - {a} else Followers(follows, k))
      && Following(follows - {(a, b)}, k) == (if k == a then Following(follows, k) - {b} else Following(follows, k))
  {
  }

  /** Toggling edge (a, b) and moving the two counters by one keeps the
      counters equal to the degrees. */
  lemma CountsAfterToggle(follows: set<(UserId, UserId)>, users: map<UserId, Profile>, a: UserId, b: UserId)
    requires a != b
    requires FollowCountsOk(follows, users)
    ensures (a, b) !in follows ==> FollowCountsOk(follows + {(a, b)}, IncFollow(users, b, a, 1))
    ensures (a, b) in follows ==> FollowCountsOk(follows - {(a, b)}, IncFollow(users, b, a, -1))
  {
    var had := (a, b) in follows;
    var f2 := if had then follows - {(a, b)} else follows + {(a, b)};
    var u2 := IncFollow(users, b, a, if had then -1 else 1);
    forall k | k in u2
      ensures u2[k].followersCount == |Followers(f2, k)| && u2[k].followingCount == |Following(f2, k)|
    {
      CountAfterToggleAt(follows, users, a, b, k);
    }
  }

  lemma CountAfterToggleAt(follows: set<(UserId, UserId)>, users: map<UserId, Profile>, a: UserId, b: UserId, k: UserId)
    requires a != b && k in users
    requires users[k].followersCount == |Followers(follows, k)| && users[k].followingCount == |Following(follows, k)|
    ensures var had := (a, b) in follows;
      var f2 := if had then follows - {(a, b)} else follows + {(a, b)};
      var u2 := IncFollow(users, b, a, if had then -1 else 1);
      u2[k].followersCount == |Followers(f2, k)| && u2[k].followingCount == |Following(f2, k)|
  {
    DegreesAfterToggle(follows, a, b, k);
    assert a in Followers(follows, b) <==> (a, b) in follows;
    assert b in Following(follows, a) <==> (a, b) in follows;
  }

  /** Toggling edge (a, b) together with its notification keeps one
      notification per edge. */
  lemma NotesAfterToggle(follows: set<(UserId, UserId)>, notes: multiset<Notification>, a: UserId, b: UserId)
    requires NotificationsMatch(follows, notes)
    ensures (a, b) !in follows ==>
      NotificationsMatch(follows + {(a, b)}, notes + multiset{Notification(b, FOLLOW, a)})
    ensures (a, b) in follows ==>
      NotificationsMatch(follows - {(a, b)}, notes - multiset{Notification(b, FOLLOW, a)})
  {
    var n := Notification(b, FOLLOW, a);
    if (a, b) in follows {
      assert notes[n] == 1;
    } else {
      assert n !in notes;
    }
  }

  /** Every request keeps both counters equal to the degrees and keeps one
      notification per edge. */
  lemma {:induction false} FollowStepKeepsInvariants(g: Graph, follower: UserId, target: IdParam)
    requires FollowCountsOk(g.follows, g.users) && NotificationsMatch(g.follows, g.notes)
    ensures var g2 := FollowStep(g, follower, target).0;
      FollowCountsOk(g2.follows, g2.users) && NotificationsMatch(g2.follows, g2.notes)
  {
    if target.ObjectId? && target.id != follower {
      CountsAfterToggle(g.follows, g.users, follower, target.id);
      NotesAfterToggle(g.follows, g.notes, follower, target.id);
    }
  }

  /** With one notification per edge, a second identical request restores the
      edges, the notifications and every counter. */
  lemma FollowTwiceRestores(g: Graph, follower: UserId, target: UserId)
    requires target != follower
    requires NotificationsMatch(g.follows, g.notes)
    ensures var (g1, s1) := FollowStep(g, follower, ObjectId(target));
      var (g2, s2) := FollowStep(g1, follower, ObjectId(target));
      && g2 == g
      && (target in g.users && follower in g.users ==> {s1, s2} == {OK, CREATED})
  {
    var e := (follower, target);
    var n := Notification(target, FOLLOW, follower);
    var d := if e in g.follows then -1 else 1;
    var g1 := Toggled(g, e, n, d);
    assert e in g1.follows <==> e !in g.follows;
    assert g1.users.Keys == g.users.Keys;
    ToggledTwice(g, e, n, d);
  }

  lemma ToggledTwice(g: Graph, e: (UserId, UserId), n: Notification, d: int)
    requires e.0 != e.1
    requires d == (if e in g.follows then -1 else 1)
    requires e in g.follows ==> g.notes[n] == 1
    ensures Toggled(Toggled(g, e, n, d), e, n, -d) == g
  {
    IncFollowUndo(g.users, e.1, e.0, d);
    if e in g.follows {
      assert (g.notes - multiset{n}) + multiset{n} == g.notes;
      assert (g.follows - {e}) + {e} == g.follows;
    } else {
      assert (g.notes + multiset{n}) - multiset{n} == g.notes;
      assert (g.follows + {e}) - {e} == g.follows;
    }
  }

  lemma IncFollowUndo(users: map<UserId, Profile>, target: UserId, follower: UserId, d: int)
    requires target != follower
    ensures IncFollow(IncFollow(users, target, follower, d), target, follower, -d) == users
  {
    var r := IncFollow(IncFollow(users, target, follower, d), target, follower, -d);
    forall k | k in users ensures r[k] == users[k] {
    }
  }

  /** The handler. */
  method ToggleFollow(db: Db, follower: UserId, target: IdParam) returns (status: nat)
    modifies db`follows, db`notifications, db`users
    ensures (Graph(db.follows, db.notifications, db.users), status)
      == FollowStep(Graph(old(db.follows), old(db.notifications), old(db.users)), follower, target)
  {
    if target.Malformed? {
      return BAD_REQUEST;
    }
    var u := target.id;
    if u == follower {
      return BAD_REQUEST;
    }
    var note := Notification(u, FOLLOW, follower);
    var d: int;
    if (follower, u) in db.follows {
      db.follows := db.follows - {(follower, u)};
      db.notifications := db.notifications - multiset{note};
      d := -1;
    } else {
      db.follows := db.follows + {(follower, u)};
      db.notifications := db.notifications + multiset{note};
      d := 1;
    }
    var targetFound := u in db.users;
    if targetFound {
      db.users := db.users[u := db.users[u].(followersCount := db.users[u].followersCount + d)];
    }
    var followerFound := follower in db.users;
    if followerFound {
      db.users := db.users[follower := db.users[follower].(followingCount := db.users[follower].followingCount + d)];
    }
    if !targetFound || !followerFound {
      return NOT_FOUND;
    }
    status := if d == 1 then CREATED else OK;
  }

  /** `getFollowers`: the followers of a user that still exist (the
      `$unwind` of the user lookup drops the others). */
  function GetFollowers(follows: set<(UserId, UserId)>, users: map<UserId, Profile>, target: IdParam)
    : (r: Result<set<UserId>>)
    ensures r.Fail? <==> target.Malformed?
    ensures r.Fail? ==> r.status == BAD_REQUEST
    ensures r.Ok? ==> r.status == OK && forall v :: v in r.value <==> (v, target.id) in follows && v in users
  {
    match target
    case Malformed => Fail(BAD_REQUEST)
    case ObjectId(u) => Ok(OK, set v | v in Followers(follows, u) && v in users)
  }

  /** `getFollowing`: the existing users a user follows. */
  function GetFollowing(follows: set<(UserId, UserId)>, users: map<UserId, Profile>, target: IdParam)
    : (r: Result<set<UserId>>)
    ensures r.Fail? <==> target.Malformed?
    ensures r.Fail? ==> r.status == BAD_REQUEST
    ensures r.Ok? ==> r.status == OK && forall v :: v in r.value <==> (target.id, v) in follows && v in users
  {
    match target
    case Malformed => Fail(BAD_REQUEST)
    case ObjectId(u) => Ok(OK, set v | v in Following(follows, u) && v in users)
  }

  /** An edge shows up on both sides: u lists v among its followings exactly
      when v lists u among its followers (when both exist). */
  lemma FollowListsAgree(follows: set<(UserId, UserId)>, users: map<UserId, Profile>, u: UserId, v: UserId)
    requires u in users && v in users
    ensures v in GetFollowing(follows, users, ObjectId(u)).value <==> u in GetFollowers(follows, users, ObjectId(v)).value
  {
  }
}
