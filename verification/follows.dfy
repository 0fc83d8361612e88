/** The follow routes: follow (with its unconditional notification),
    unfollow, and the following / followers lists. */
module Follows {
  import opened Base
  import opened Store

  /** POST /follows/follow/:userId.  Following oneself is refused with 400.
      Otherwise the edge is inserted `ON CONFLICT DO NOTHING` and a 'follow'
      notification goes to the target every time, even when the edge was
      already there. */
  function Follow(db: Db, requester: UserId, target: UserId): (r: Reply<()>)
    ensures requester == target ==> r.status == BadRequest && r.db == db
    ensures requester != target ==>
      && r.status == OK
      && r.db.follows == db.follows + {(requester, target)}
      && |r.db.notifications| == |db.notifications| + 1
      && r.db.notifications[..|db.notifications|] == db.notifications
      && var n := r.db.notifications[|db.notifications|];
         n.recipient == target && n.sender == requester && n.kind == Followed && n.post.None?
    ensures r.db.users == db.users && r.db.posts == db.posts
    ensures r.db.comments == db.comments && r.db.likes == db.likes
  {
    if requester == target then Reply(BadRequest, None, db)
    else
      var db1 := db.(follows := db.follows + {(requester, target)});
      Reply(OK, None, Notify(db1, target, requester, Followed, None))
  }

  /** DELETE /follows/unfollow/:userId: removes the edge; no row
      deleted means 404. */
  function Unfollow(db: Db, requester: UserId, target: UserId): (r: Reply<()>)
    ensures r.status == OK <==> (requester, target) in db.follows
    ensures r.status != OK ==> r.status == NotFound && r.db == db
    ensures r.status == OK ==>
      && (requester, target) !in r.db.follows
      && r.db.follows + {(requester, target)} == db.follows
      && r.db == db.(follows := r.db.follows)
  {
    var edge := (requester, target);
    if edge in db.follows then Reply(OK, None, db.(follows := db.follows - {edge}))
    else Reply(NotFound, None, db)
  }

  /** GET /follows/following/:userId: the users `u` follows, joined on the
      followed side. */
  function Following(db: Db, u: UserId): (r: set<UserSummary>)
    ensures forall s :: s in r ==> (u, s.id) in db.follows && s.id in UserIds(db.users)
    ensures forall v :: v in db.users && (u, v.id) in db.follows ==> Summary(v) in r
    ensures forall s :: s in r ==> exists v :: v in db.users && s == Summary(v) && (u, v.id) in db.follows
  {
    set v | v in db.users && (u, v.id) in db.follows :: Summary(v)
  }

  /** GET /follows/followers/:userId: the users following `u`, joined on the
      follower side. */
  function Followers(db: Db, u: UserId): (r: set<UserSummary>)
    ensures forall s :: s in r ==> (s.id, u) in db.follows && s.id in UserIds(db.users)
    ensures forall v :: v in db.users && (v.id, u) in db.follows ==> Summary(v) in r
    ensures forall s :: s in r ==> exists v :: v in db.users && s == Summary(v) && (v.id, u) in db.follows
  {
    set v | v in db.users && (v.id, u) in db.follows :: Summary(v)
  }

  lemma FollowKeepsValid(db: Db, requester: UserId, target: UserId)
    requires Valid(db)
    ensures Valid(Follow(db, requester, target).db)
  {
    if requester != target {
      var db1 := db.(follows := db.follows + {(requester, target)});
      NotifyKeepsValid(db1, target, requester, Followed, None);
    }
  }

  /** Removing a follow edge keeps the invariant. */
  lemma UnfollowKeepsValid(db: Db, requester: UserId, target: UserId)
    requires Valid(db)
    ensures Valid(Unfollow(db, requester, target).db)
  {
  }

  /** Following twice leaves a single edge but logs two notifications. */
  lemma RepeatedFollow(db: Db, requester: UserId, target: UserId)
    requires requester != target
    ensures var r1 := Follow(db, requester, target);
      var r2 := Follow(r1.db, requester, target);
      && r2.status == OK
      && r2.db.follows == r1.db.follows == db.follows + {(requester, target)}
      && |r2.db.notifications| == |db.notifications| + 2
      && r2.db.notifications[|db.notifications|].kind == Followed
      && r2.db.notifications[|db.notifications| + 1].kind == Followed
  {
    var r1 := Follow(db, requester, target);
    assert Follow(r1.db, requester, target).db.notifications[..|r1.db.notifications|] == r1.db.notifications;
    assert Follow(r1.db, requester, target).db.notifications[|db.notifications|] == r1.db.notifications[|db.notifications|];
  }

  /** Follow then unfollow restores the edge set when the edge was new; the
      follow notification stays in the log. */
  lemma FollowThenUnfollow(db: Db, requester: UserId, target: UserId)
    requires requester != target && (requester, target) !in db.follows
    ensures var r1 := Follow(db, requester, target);
      var r2 := Unfollow(r1.db, requester, target);
      && r2.status == OK
      && r2.db.follows == db.follows
      && r2.db.notifications == r1.db.notifications
      && |r2.db.notifications| == |db.notifications| + 1
  {
    var r1 := Follow(db, requester, target);
    assert r1.db.follows - {(requester, target)} == db.follows;
  }

  /** The following list holds exactly the existing users with an edge out
      of `u` to them, and the followers list the existing users with an
      edge into `u`. */
  lemma FollowListsMatchEdges(db: Db, u: UserId, v: User)
    requires v in db.users
    ensures Summary(v) in Following(db, u) <== (u, v.id) in db.follows
    ensures Summary(v) in Followers(db, u) <== (v.id, u) in db.follows
    ensures Valid(db) ==> (Summary(v) in Following(db, u) ==> (u, v.id) in db.follows)
    ensures Valid(db) ==> (Summary(v) in Followers(db, u) ==> (v.id, u) in db.follows)
  {
    if Valid(db) && Summary(v) in Following(db, u) {
      var w :| w in db.users && (u, w.id) in db.follows && Summary(w) == Summary(v);
      AscendingKeyUnique(db.users, UserKey, v, w);
    }
    if Valid(db) && Summary(v) in Followers(db, u) {
      var w :| w in db.users && (w.id, u) in db.follows && Summary(w) == Summary(v);
      AscendingKeyUnique(db.users, UserKey, v, w);
    }
  }

  /** After a follow the target shows on the follower's following list and
      the follower on the target's followers list. */
  lemma FollowShowsInLists(db: Db, requester: User, target: User)
    requires requester in db.users && target in db.users && requester.id != target.id
    ensures var r := Follow(db, requester.id, target.id);
      Summary(target) in Following(r.db, requester.id) && Summary(requester) in Followers(r.db, target.id)
  {
    var r := Follow(db, requester.id, target.id);
    FollowListsMatchEdges(r.db, requester.id, target);
    FollowListsMatchEdges(r.db, target.id, requester);
  }

  /** In a valid state, after an unfollow the target is gone from the
      follower's following list. */
  lemma UnfollowHidesFromList(db: Db, requester: UserId, target: User)
    requires Valid(db) && target in db.users
    ensures var r := Unfollow(db, requester, target.id);
      r.status == OK ==> Summary(target) !in Following(r.db, requester)
  {
    var r := Unfollow(db, requester, target.id);
    if r.status == OK {
      assert Valid(r.db);
      FollowListsMatchEdges(r.db, requester, target);
    }
  }
}
