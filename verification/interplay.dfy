/** Properties that connect several routes: what a follow or a new post
    does to a profile, and how the feed page's local updates after a like
    or a comment agree with the feed the server would send next. */
module Interplay {
  import opened Base
  import opened Store
  import opened Comments
  import opened Posts
  import opened Follows
  import opened Users
  import opened FeedClient

  // ------------------------------------------------------------ profiles

  /** A follow raises the target's follower count by one when the edge is
      new, leaves their following count alone, and the follower now sees
      "following" on the target's profile. */
  lemma FollowRaisesFollowerCount(db: Db, requester: UserId, target: UserId, viewer: UserId, username: string)
    requires requester != target
    requires GetProfile(db, viewer, username).status == OK
    requires GetProfile(db, viewer, username).body.value.user.id == target
    ensures var before := GetProfile(db, viewer, username).body.value;
      var after := GetProfile(Follow(db, requester, target).db, viewer, username);
      && after.status == OK
      && after.body.value.user == before.user
      && after.body.value.stats.followers == before.stats.followers + (if (requester, target) in db.follows then 0 else 1)
      && after.body.value.stats.following == before.stats.following
      && (viewer == requester ==> after.body.value.isFollowing)
  {
    var e := (requester, target);
    var r := Follow(db, requester, target);
    assert r.db.follows == db.follows + {e};
    if e in db.follows {
      assert EdgesInto(r.db.follows, target) == EdgesInto(db.follows, target);
    } else {
      assert EdgesInto(r.db.follows, target) == EdgesInto(db.follows, target) + {e};
    }
    assert EdgesOutOf(r.db.follows, target) == EdgesOutOf(db.follows, target);
  }

  /** An unfollow lowers the target's follower count by one and the former
      follower no longer sees "following". */
  lemma UnfollowLowersFollowerCount(db: Db, requester: UserId, target: UserId, viewer: UserId, username: string)
    requires (requester, target) in db.follows
    requires GetProfile(db, viewer, username).status == OK
    requires GetProfile(db, viewer, username).body.value.user.id == target
    ensures var before := GetProfile(db, viewer, username).body.value;
      var after := GetProfile(Unfollow(db, requester, target).db, viewer, username);
      && after.status == OK
      && after.body.value.stats.followers == before.stats.followers - 1
      && (viewer == requester ==> !after.body.value.isFollowing)
  {
    var e := (requester, target);
    var r := Unfollow(db, requester, target);
    assert r.db.follows == db.follows - {e};
    assert EdgesInto(r.db.follows, target) == EdgesInto(db.follows, target) - {e};
  }

  lemma PostsOfAfterCreate(db: Db, requester: UserId, content: string, image: Option<string>)
    ensures var r := CreatePost(db, requester, content, image);
      PostsOf(r.db, requester) == PostsOf(db, requester) + [r.body.value]
  {
    var r := CreatePost(db, requester, content, image);
    FilterAppend(db.posts, r.body.value, OwnedByUser(requester));
  }

  /** A new post adds one to its author's post count and heads the post
      list on their profile. */
  lemma CreatedPostOnProfile(db: Db, requester: UserId, content: string, image: Option<string>, viewer: UserId, username: string)
    requires GetProfile(db, viewer, username).status == OK
    requires GetProfile(db, viewer, username).body.value.user.id == requester
    ensures var before := GetProfile(db, viewer, username).body.value;
      var r := CreatePost(db, requester, content, image);
      var after := GetProfile(r.db, viewer, username);
      && after.status == OK
      && after.body.value.stats.posts == before.stats.posts + 1
      && after.body.value.posts[0] == r.body.value
      && after.body.value.posts[1..] == before.posts
  {
    var r := CreatePost(db, requester, content, image);
    var p := r.body.value;
    PostsOfAfterCreate(db, requester, content, image);
    ReverseSnoc(PostsOf(db, requester), p);
  }

  // ------------------------------------------------------ feed after like

  /** The post list with the counter of post `id` set to `n`. */
  function SetLikes(ps: seq<Post>, id: PostId, n: int): (r: seq<Post>)
    ensures |r| == |ps|
    ensures forall i :: 0 <= i < |r| ==> r[i] == if ps[i].id == id then ps[i].(likes := n) else ps[i]
  {
    seq(|ps|, i requires 0 <= i < |ps| => if ps[i].id == id then ps[i].(likes := n) else ps[i])
  }

  lemma SetLikesConcat(a: seq<Post>, b: seq<Post>, id: PostId, n: int)
    ensures SetLikes(a + b, id, n) == SetLikes(a, id, n) + SetLikes(b, id, n)
  {
    var l := SetLikes(a + b, id, n);
    var r := SetLikes(a, id, n) + SetLikes(b, id, n);
    forall i | 0 <= i < |l|
      ensures l[i] == r[i]
    {
      if i >= |a| {
        assert (a + b)[i] == b[i - |a|];
      }
    }
  }

  /** One step of `FilterSetLikes`: when the counter change does not alter
      the filter's verdict on the head, the head is kept or dropped alike. */
  lemma FilterHeadSetLikes(ps: seq<Post>, f: Post -> bool, id: PostId, n: int)
    requires |ps| > 0 && f(SetLikes(ps, id, n)[0]) == f(ps[0])
    ensures Filter(SetLikes(ps, id, n), f)
         == SetLikes(if f(ps[0]) then [ps[0]] else [], id, n) + Filter(SetLikes(ps[1..], id, n), f)
  {
    var sl := SetLikes(ps, id, n);
    assert sl[1..] == SetLikes(ps[1..], id, n);
    var head := if f(ps[0]) then [ps[0]] else [];
    assert SetLikes(head, id, n) == (if f(sl[0]) then [sl[0]] else []);
  }

  lemma {:induction false} FilterSetLikes(ps: seq<Post>, users: seq<User>, id: PostId, n: int)
    ensures Filter(SetLikes(ps, id, n), IsVisible(users)) == SetLikes(Filter(ps, IsVisible(users)), id, n)
  {
    if |ps| > 0 {
      var f := IsVisible(users);
      var sl := SetLikes(ps, id, n);
      var head := if f(ps[0]) then [ps[0]] else [];
      assert f(sl[0]) == f(ps[0]);
      FilterHeadSetLikes(ps, f, id, n);
      FilterSetLikes(ps[1..], users, id, n);
      SetLikesConcat(head, Filter(ps[1..], f), id, n);
    }
  }

  /** In a valid state the toggle's post table is the old one with that
      post's counter set to the answered value. */
  lemma ToggledPostsAreSetLikes(db: Db, requester: UserId, postId: PostId)
    requires Valid(db) && PostById(db.posts, postId).Some?
    ensures var r := ToggleLike(db, requester, postId);
      r.db.posts == SetLikes(db.posts, postId, r.body.value.likes)
  {
    var r := ToggleLike(db, requester, postId);
    var p := PostById(db.posts, postId).value;
    forall i | 0 <= i < |db.posts| && db.posts[i].id == postId
      ensures db.posts[i] == p
    {
      AscendingKeyUnique(db.posts, PostKey, db.posts[i], p);
    }
  }

  /** A feed row depends on the users and comments tables, not on the rest
      of the post table. */
  lemma RowIgnoresPosts(db: Db, db2: Db, q: Post)
    requires db2.users == db.users && db2.comments == db.comments
    ensures ToFeedRow(db2, q) == ToFeedRow(db, q)
    ensures ToFeedRow(db, q.(likes := 0)).(likes := q.likes) == ToFeedRow(db, q)
  {
    assert Thread(db2, q.id) == Thread(db, q.id);
    assert CommentRows(db2, Thread(db, q.id)) == CommentRows(db, Thread(db, q.id));
  }

  lemma RowAfterSetLikes(db: Db, db2: Db, q: Post, id: PostId, n: int)
    requires db2.users == db.users && db2.comments == db.comments
    ensures var f := ToFeedRow(db, q);
      ToFeedRow(db2, if q.id == id then q.(likes := n) else q) == if q.id == id then f.(likes := n) else f
  {
    RowIgnoresPosts(db, db2, q);
    RowIgnoresPosts(db, db2, q.(likes := n));
    RowIgnoresPosts(db, db, q);
    RowIgnoresPosts(db, db, q.(likes := n));
  }

  /** The visible posts after a counter change are the old ones with that
      counter changed. */
  lemma VisibleAfterSetLikes(db: Db, db2: Db, id: PostId, n: int)
    requires db2.users == db.users && db2.posts == SetLikes(db.posts, id, n)
    ensures VisiblePosts(db2) == SetLikes(VisiblePosts(db), id, n)
  {
    FilterSetLikes(db.posts, db.users, id, n);
  }

  /** Row `i` of the feed after a counter change. */
  lemma FeedRowAfterSetLikes(db: Db, db2: Db, id: PostId, n: int, i: int)
    requires db2.users == db.users && db2.comments == db.comments
    requires VisiblePosts(db2) == SetLikes(VisiblePosts(db), id, n)
    requires 0 <= i < |FeedRows(db)|
    ensures |FeedRows(db2)| == |FeedRows(db)|
    ensures var f := FeedRows(db)[i]; FeedRows(db2)[i] == if f.id == id then f.(likes := n) else f
  {
    var vs := VisiblePosts(db);
    var vs' := VisiblePosts(db2);
    var q := Reverse(vs)[i];
    assert q == vs[|vs| - 1 - i];
    assert Reverse(vs')[i] == vs'[|vs| - 1 - i] == if q.id == id then q.(likes := n) else q;
    RowAfterSetLikes(db, db2, q, id, n);
  }

  lemma FeedAfterSetLikes(db: Db, db2: Db, id: PostId, n: int)
    requires db2.users == db.users && db2.comments == db.comments
    requires db2.posts == SetLikes(db.posts, id, n)
    ensures FeedRows(db2) == ApplyLike(FeedRows(db), id, n)
  {
    VisibleAfterSetLikes(db, db2, id, n);
    var before := FeedRows(db);
    var after := FeedRows(db2);
    var want := ApplyLike(before, id, n);
    assert |after| == |before| == |want|;
    forall i | 0 <= i < |after|
      ensures after[i] == want[i]
    {
      FeedRowAfterSetLikes(db, db2, id, n, i);
    }
  }

  /** In a valid state, after a like or unlike the server's next feed is the
      old feed with that post's counter replaced by the answered value,
      which is exactly the list update the feed page applies. */
  lemma LikeAnswerMatchesFeed(db: Db, requester: UserId, postId: PostId)
    requires Valid(db)
    ensures var r := ToggleLike(db, requester, postId);
      r.status == OK ==> FeedRows(r.db) == ApplyLike(FeedRows(db), postId, r.body.value.likes)
  {
    var r := ToggleLike(db, requester, postId);
    if r.status == OK {
      ToggledPostsAreSetLikes(db, requester, postId);
      FeedAfterSetLikes(db, r.db, postId, r.body.value.likes);
    }
  }

  // --------------------------------------------------- feed after comment

  /** The embedded comments of every post other than the commented one are
      unchanged, and the commented post's gain the new comment at the end. */
  lemma ThreadAfterComment(db: Db, c: Comment, pid: PostId)
    requires c.author in UserIds(db.users)
    ensures Thread(db.(comments := db.comments + [c]), pid) == Thread(db, pid) + (if c.post == pid then [c] else [])
  {
    FilterAppend(db.comments, c, OnPost(db.users, pid));
  }

  /** A feed row after a comment: the commented post's row gains the
      comment at the end of its comments; every other row is unchanged. */
  lemma RowAfterComment(db: Db, db2: Db, c: Comment, row: CommentRow, q: Post)
    requires db2.users == db.users && db2.comments == db.comments + [c]
    requires c.author in UserIds(db.users) && ToCommentRow(db.users, c) == row
    ensures ToFeedRow(db2, q) ==
      if q.id == c.post then ToFeedRow(db, q).(comments := ToFeedRow(db, q).comments + [row]) else ToFeedRow(db, q)
  {
    var db1 := db.(comments := db.comments + [c]);
    ThreadAfterComment(db, c, q.id);
    assert Thread(db2, q.id) == Thread(db1, q.id);
    var t := Thread(db, q.id);
    if q.id == c.post {
      assert CommentRows(db2, t + [c]) == CommentRows(db, t) + [row];
    } else {
      assert CommentRows(db2, t) == CommentRows(db, t);
    }
  }

  lemma FeedAfterComment(db: Db, db2: Db, c: Comment, row: CommentRow)
    requires db2.users == db.users && db2.posts == db.posts && db2.comments == db.comments + [c]
    requires c.author in UserIds(db.users) && ToCommentRow(db.users, c) == row
    ensures FeedRows(db2) == ApplyComment(FeedRows(db), c.post, row)
  {
    assert VisiblePosts(db2) == VisiblePosts(db);
    var rev := Reverse(VisiblePosts(db));
    var before := FeedRows(db);
    var after := FeedRows(db2);
    var want := ApplyComment(before, c.post, row);
    forall i | 0 <= i < |after|
      ensures after[i] == want[i]
    {
      RowAfterComment(db, db2, c, row, rev[i]);
    }
  }

  /** After a comment by an existing user, the server's next feed is the old
      feed with the comment appended to that post's comments, under the
      commenter's username, which is the list update the feed page applies
      when it labels the comment with the stored username. */
  lemma CommentAnswerMatchesFeed(db: Db, requester: User, postId: PostId, content: string)
    requires UserById(db.users, requester.id) == Some(requester)
    ensures var r := AddComment(db, requester.id, postId, content);
      r.status == Created ==>
        FeedRows(r.db) == ApplyComment(FeedRows(db), postId, CommentRow(r.body.value.id, content, requester.username))
  {
    var r := AddComment(db, requester.id, postId, content);
    if r.status == Created {
      var c := r.body.value;
      FeedAfterComment(db, r.db, c, CommentRow(c.id, content, requester.username));
    }
  }
}
