/** The post routes: create, the public paginated feed with embedded
    comments, the like/unlike toggle with its notification, owner-only
    delete and edit, and the single-post view. */
module Posts {
  import opened Base
  import opened Store
  import opened Comments

  /** Rows per feed page. */
  const PageSize: nat := 20

  /** A comment as embedded in a feed row: id, content, commenter's username. */
  datatype CommentRow = CommentRow(id: CommentId, content: string, username: string)

  /** One feed row: the post's columns, its author's id, name and username,
      and its comments oldest first. */
  datatype FeedRow = FeedRow(
    id: PostId, content: string, image: Option<string>, likes: int,
    authorId: UserId, name: string, username: string, comments: seq<CommentRow>)

  /** The like route's answer: "Liked" (true) or "Unliked" (false), and the
      post's counter after the update. */
  datatype LikeBody = LikeBody(liked: bool, likes: int)

  /** GET /posts/:id: the post with its author's fields, and its comments. */
  datatype PostView = PostView(post: Post, username: string, name: string, comments: seq<CommentView>)

  // ---------------------------------------------------------------- create

  /** POST /posts/create: inserts a post owned by the authenticated user;
      the counter starts at its column default 0. */
  function CreatePost(db: Db, requester: UserId, content: string, image: Option<string>): (r: Reply<Post>)
    ensures r.status == Created && r.body.Some?
    ensures r.body.value.owner == requester && r.body.value.content == content
    ensures r.body.value.image == image && r.body.value.likes == 0
    ensures r.db.posts == db.posts + [r.body.value]
    ensures r.db.users == db.users && r.db.comments == db.comments && r.db.likes == db.likes
    ensures r.db.follows == db.follows && r.db.notifications == db.notifications
    ensures KeysFresh(db) ==> forall q :: q in db.posts ==> q.id < r.body.value.id
  {
    var p := Post(db.nextPost, requester, content, image, 0);
    Reply(Created, Some(p), db.(posts := db.posts + [p], nextPost := db.nextPost + 1))
  }

  lemma CreatePostKeepsValid(db: Db, requester: UserId, content: string, image: Option<string>)
    requires Valid(db)
    ensures Valid(CreatePost(db, requester, content, image).db)
  {
    var r := CreatePost(db, requester, content, image);
    var p := r.body.value;
    assert Likers(db.likes, p.id) == {};
  }

  // ------------------------------------------------------------------ feed

  /** The page parameter parsed as an integer, with falsy results replaced
      by 1: `None` stands for NaN (absent or
      non-numeric); NaN and 0 are falsy and become 1. */
  function PageNumber(page: Option<int>): (r: int)
    ensures page.None? || page == Some(0) ==> r == 1
    ensures page.Some? && page.value != 0 ==> r == page.value
  {
    match page
    case None => 1
    case Some(n) => if n == 0 then 1 else n
  }

  function IsVisible(users: seq<User>): Post -> bool {
    (p: Post) => p.owner in UserIds(users)
  }

  /** The posts whose owner joins a user row, oldest first. */
  function VisiblePosts(db: Db): (r: seq<Post>)
    ensures forall p :: p in r ==> p in db.posts && p.owner in UserIds(db.users)
    ensures forall p :: p in db.posts && p.owner in UserIds(db.users) ==> p in r
  {
    Filter(db.posts, IsVisible(db.users))
  }

  lemma VisiblePostsAscending(db: Db)
    requires Ascending(db.posts, PostKey)
    ensures Ascending(VisiblePosts(db), PostKey)
  {
    FilterKeepsAscending(db.posts, IsVisible(db.users), PostKey);
  }

  function ToCommentRow(users: seq<User>, c: Comment): (r: CommentRow)
    ensures r.id == c.id && r.content == c.content
    ensures c.author in UserIds(users) ==> exists u :: u in users && u.id == c.author && r.username == u.username
  {
    match UserById(users, c.author)
    case Some(u) => CommentRow(c.id, c.content, u.username)
    case None => CommentRow(c.id, c.content, "")
  }

  function CommentRows(db: Db, cs: seq<Comment>): (r: seq<CommentRow>)
    ensures |r| == |cs|
    ensures forall i :: 0 <= i < |r| ==> r[i] == ToCommentRow(db.users, cs[i])
  {
    seq(|cs|, i requires 0 <= i < |cs| => ToCommentRow(db.users, cs[i]))
  }

  /** `row` carries the username and display name of user `owner`. */
  ghost predicate NamesAuthor(users: seq<User>, owner: UserId, row: FeedRow) {
    exists u :: u in users && u.id == owner && row.username == u.username && row.name == u.name
  }

  /** A post joined with its author and with the aggregate of its comments
      (an empty list, never null, when it has none). */
  function ToFeedRow(db: Db, p: Post): (r: FeedRow)
    ensures r.id == p.id && r.likes == p.likes && r.authorId == p.owner
    ensures r.comments == CommentRows(db, Thread(db, p.id))
    ensures r.content == p.content && r.image == p.image
    ensures p.owner in UserIds(db.users) ==> NamesAuthor(db.users, p.owner, r)
  {
    var author := UserById(db.users, p.owner);
    var name := if author.Some? then author.value.name else "";
    var username := if author.Some? then author.value.username else "";
    FeedRow(p.id, p.content, p.image, p.likes, p.owner, name, username, CommentRows(db, Thread(db, p.id)))
  }

  /** Every feed row, in reverse creation order (newest first). */
  function FeedRows(db: Db): (r: seq<FeedRow>)
    ensures |r| == |VisiblePosts(db)|
    ensures forall i :: 0 <= i < |r| ==> r[i] == ToFeedRow(db, Reverse(VisiblePosts(db))[i])
  {
    var ps := Reverse(VisiblePosts(db));
    seq(|ps|, i requires 0 <= i < |ps| => ToFeedRow(db, ps[i]))
  }

  /** Page `page` (from 1) of the feed: `LIMIT 20 OFFSET (page-1)*20`. */
  function FeedPage(db: Db, page: int): (r: seq<FeedRow>)
    requires page >= 1
    ensures |r| <= PageSize
    ensures forall i :: 0 <= i < |r| ==> (page - 1) * PageSize + i < |FeedRows(db)| && r[i] == FeedRows(db)[(page - 1) * PageSize + i]
    ensures |r| < PageSize ==> |FeedRows(db)| < page * PageSize
    ensures |FeedRows(db)| >= page * PageSize ==> |r| == PageSize
    ensures |r| == if (page - 1) * PageSize >= |FeedRows(db)| then 0 else Min(PageSize, |FeedRows(db)| - (page - 1) * PageSize)
  {
    Window(FeedRows(db), (page - 1) * PageSize, PageSize)
  }

  /** The largest value of PostgreSQL's `bigint`, the type of OFFSET. */
  const MaxOffset: int := 0x7FFF_FFFF_FFFF_FFFF

  /** GET /posts/feed?page=N.  A negative page gives a negative OFFSET, and
      a huge one an OFFSET beyond `bigint`; the database rejects both, so
      the route answers 500. */
  function Feed(db: Db, page: Option<int>): (r: Answer<seq<FeedRow>>)
    ensures 1 <= PageNumber(page) && (PageNumber(page) - 1) * PageSize <= MaxOffset ==>
      r.status == OK && r.body == Some(FeedPage(db, PageNumber(page)))
    ensures PageNumber(page) < 1 || (PageNumber(page) - 1) * PageSize > MaxOffset ==>
      r.status == ServerError && r.body.None?
    ensures page.None? || page == Some(0) ==> r.body == Some(FeedPage(db, 1))
  {
    var offset := (PageNumber(page) - 1) * PageSize;
    if offset < 0 || offset > MaxOffset then Answer(ServerError, None)
    else Answer(OK, Some(Window(FeedRows(db), offset, PageSize)))
  }

  /** In a valid state the feed is strictly newest first. */
  lemma FeedRowsNewestFirst(db: Db)
    requires Valid(db)
    ensures forall i, j :: 0 <= i < j < |FeedRows(db)| ==> FeedRows(db)[i].id > FeedRows(db)[j].id
  {
    var rows := FeedRows(db);
    var ps := Reverse(VisiblePosts(db));
    VisiblePostsAscending(db);
    ReverseOfAscending(VisiblePosts(db), PostKey);
    forall i, j | 0 <= i < j < |rows|
      ensures rows[i].id > rows[j].id
    {
      assert rows[i].id == ps[i].id;
      assert rows[j].id == ps[j].id;
    }
  }

  /** Every post that joins its author has a row in the feed, and every row
      comes from such a post. */
  lemma FeedRowsComplete(db: Db)
    ensures forall p :: p in db.posts && p.owner in UserIds(db.users) ==>
      exists i :: 0 <= i < |FeedRows(db)| && FeedRows(db)[i] == ToFeedRow(db, p)
    ensures forall i :: 0 <= i < |FeedRows(db)| ==>
      exists p :: p in db.posts && p.owner in UserIds(db.users) && FeedRows(db)[i] == ToFeedRow(db, p)
  {
    var rows := FeedRows(db);
    var ps := Reverse(VisiblePosts(db));
    forall p | p in db.posts && p.owner in UserIds(db.users)
      ensures exists i :: 0 <= i < |rows| && rows[i] == ToFeedRow(db, p)
    {
      var k :| 0 <= k < |ps| && ps[k] == p;
      assert rows[k] == ToFeedRow(db, p);
    }
    forall i | 0 <= i < |rows|
      ensures exists p :: p in db.posts && p.owner in UserIds(db.users) && rows[i] == ToFeedRow(db, p)
    {
      assert ps[i] in ps;
    }
  }

  /** Every comment embedded in a feed row is a comment on that post by an
      existing user. */
  lemma RowCommentsFromPost(db: Db, p: Post, k: int)
    requires 0 <= k < |ToFeedRow(db, p).comments|
    ensures exists c ::
              && c in db.comments && c.post == p.id && c.author in UserIds(db.users)
              && c.id == ToFeedRow(db, p).comments[k].id && c.content == ToFeedRow(db, p).comments[k].content
  {
    var t := Thread(db, p.id);
    var c := t[k];
    assert c in t;
    assert ToFeedRow(db, p).comments[k] == ToCommentRow(db.users, c);
  }

  /** Every comment on the post whose author exists is embedded in its row. */
  lemma RowCommentsComplete(db: Db, p: Post)
    ensures var cs := ToFeedRow(db, p).comments;
      forall c :: c in db.comments && c.post == p.id && c.author in UserIds(db.users) ==>
        exists k :: 0 <= k < |cs| && cs[k].id == c.id
  {
    var t := Thread(db, p.id);
    var cs := CommentRows(db, t);
    assert ToFeedRow(db, p).comments == cs;
    forall c | c in db.comments && c.post == p.id && c.author in UserIds(db.users)
      ensures exists k :: 0 <= k < |cs| && cs[k].id == c.id
    {
      assert c in t;
      var k :| 0 <= k < |t| && t[k] == c;
      assert cs[k].id == c.id;
    }
  }

  /** A post without comments gets the empty list, not a null. */
  lemma RowCommentsEmpty(db: Db, p: Post)
    ensures (forall c :: c in db.comments ==> c.post != p.id) ==> ToFeedRow(db, p).comments == []
  {
    var t := Thread(db, p.id);
    if forall c :: c in db.comments ==> c.post != p.id {
      if |t| > 0 {
        assert t[0] in t;
      }
    }
  }

  /** In a valid state the comments embedded in a feed row are oldest first. */
  lemma RowCommentsOldestFirst(db: Db, p: Post)
    requires Valid(db)
    ensures var cs := ToFeedRow(db, p).comments;
      forall k, l :: 0 <= k < l < |cs| ==> cs[k].id < cs[l].id
  {
    var t := Thread(db, p.id);
    var cs := CommentRows(db, t);
    ThreadAscending(db, p.id);
    assert ToFeedRow(db, p).comments == cs;
    forall k, l | 0 <= k < l < |cs|
      ensures cs[k].id < cs[l].id
    {
      assert cs[k].id == t[k].id && cs[l].id == t[l].id;
    }
  }

  /** Once a page comes back short, every later page is empty. */
  lemma FeedExhaustion(db: Db, n: int, m: int)
    requires 1 <= n < m
    requires |FeedPage(db, n)| < PageSize
    ensures FeedPage(db, m) == []
  {
  }

  /** Pages 1..k laid end to end are the first `k * 20` feed rows. */
  lemma FeedPagesTile(db: Db, k: nat)
    ensures FeedRows(db)[..Min(k * PageSize, |FeedRows(db)|)] + FeedPage(db, k + 1)
         == FeedRows(db)[..Min((k + 1) * PageSize, |FeedRows(db)|)]
  {
    WindowAfterPrefix(FeedRows(db), k * PageSize, PageSize);
  }

  /** In a valid state a post just created by a registered user heads the
      first feed page. */
  lemma CreatedPostHeadsFeed(db: Db, requester: UserId, content: string, image: Option<string>)
    requires Valid(db) && requester in UserIds(db.users)
    ensures var r := CreatePost(db, requester, content, image);
      |FeedPage(r.db, 1)| >= 1 && FeedPage(r.db, 1)[0].id == r.body.value.id
      && FeedPage(r.db, 1)[0].likes == 0 && FeedPage(r.db, 1)[0].authorId == requester
  {
    var r := CreatePost(db, requester, content, image);
    var p := r.body.value;
    FilterAppend(db.posts, p, IsVisible(db.users));
    assert VisiblePosts(r.db) == VisiblePosts(db) + [p];
  }

  // ------------------------------------------------------------------ like

  /** POST /posts/:id/like.  An existing (user, post) like edge is removed
      and the counter becomes `GREATEST(likes - 1, 0)`, with no
      notification; otherwise the edge is inserted, the counter incremented,
      and a 'like' notification goes to the post's owner unless the owner is
      the liker.  The counter update returns no row for a missing post and
      the route then fails with 500. */
  function ToggleLike(db: Db, requester: UserId, postId: PostId): (r: Reply<LikeBody>)
    ensures PostById(db.posts, postId).None? ==> r.status == ServerError && r.db == db
    ensures PostById(db.posts, postId).Some? ==>
      var p := PostById(db.posts, postId).value;
      var liked := (requester, postId) !in db.likes;
      && r.status == OK
      && r.body == Some(LikeBody(liked, if liked then p.likes + 1 else if p.likes - 1 > 0 then p.likes - 1 else 0))
      && ((requester, postId) in r.db.likes <==> liked)
      && r.db.likes - {(requester, postId)} == db.likes - {(requester, postId)}
      && r.db.posts == WithPost(db.posts, p.(likes := r.body.value.likes))
    ensures r.status == OK && (requester, postId) in db.likes ==>
      r.body.value.likes >= 0 && r.db.notifications == db.notifications
    ensures r.status == OK && (requester, postId) !in db.likes ==>
      var owner := PostById(db.posts, postId).value.owner;
      && |r.db.notifications| == |db.notifications| + (if owner != requester then 1 else 0)
      && r.db.notifications[..|db.notifications|] == db.notifications
      && forall n :: n in r.db.notifications[|db.notifications|..] ==>
           n.recipient == owner && n.sender == requester && n.kind == Liked && n.post == Some(postId)
    ensures r.db.users == db.users && r.db.comments == db.comments && r.db.follows == db.follows
  {
    match PostById(db.posts, postId)
    case None => Reply(ServerError, None, db)
    case Some(p) =>
      var edge := (requester, postId);
      if edge in db.likes then
        var n := if p.likes - 1 > 0 then p.likes - 1 else 0;
        Reply(OK, Some(LikeBody(false, n)),
              db.(likes := db.likes - {edge}, posts := WithPost(db.posts, p.(likes := n))))
      else
        var n := p.likes + 1;
        var db1 := db.(likes := db.likes + {edge}, posts := WithPost(db.posts, p.(likes := n)));
        var db2 := if p.owner != requester then Notify(db1, p.owner, requester, Liked, Some(postId)) else db1;
        Reply(OK, Some(LikeBody(true, n)), db2)
  }

  /** Replacing a post by a row with the same id keeps the table ascending. */
  lemma WithPostKeepsAscending(posts: seq<Post>, p: Post)
    requires Ascending(posts, PostKey)
    ensures Ascending(WithPost(posts, p), PostKey)
  {
    var r := WithPost(posts, p);
    forall i, j | 0 <= i < j < |r|
      ensures PostKey(r[i]) < PostKey(r[j])
    {
      assert r[i].id == posts[i].id && r[j].id == posts[j].id;
    }
  }

  lemma WithPostTwice(posts: seq<Post>, a: Post, b: Post)
    requires a.id == b.id
    ensures WithPost(WithPost(posts, a), b) == WithPost(posts, b)
  {
  }

  /** In a valid state, replacing the row of post `p` by `p` itself changes nothing. */
  lemma WithPostSelf(db: Db, p: Post)
    requires Valid(db) && p in db.posts
    ensures WithPost(db.posts, p) == db.posts
  {
    var r := WithPost(db.posts, p);
    forall i | 0 <= i < |r|
      ensures r[i] == db.posts[i]
    {
      if db.posts[i].id == p.id {
        AscendingKeyUnique(db.posts, PostKey, p, db.posts[i]);
      }
    }
  }

  /** The row `p` becomes after `WithPost(posts, p)` is in the table. */
  lemma WithPostContains(posts: seq<Post>, before: Post, p: Post)
    requires before in posts && before.id == p.id
    ensures p in WithPost(posts, p)
  {
    var i :| 0 <= i < |posts| && posts[i] == before;
    assert WithPost(posts, p)[i] == p;
  }

  /** Replacing one post's row keeps every counter in agreement with the
      edges when only that post's likers changed. */
  lemma WithPostKeepsCounts(posts: seq<Post>, likes: set<(UserId, PostId)>, likes': set<(UserId, PostId)>, p: Post)
    requires forall q :: q in posts ==> q.likes == |Likers(likes, q.id)|
    requires forall id :: id != p.id ==> Likers(likes', id) == Likers(likes, id)
    requires p.likes == |Likers(likes', p.id)|
    ensures forall q :: q in WithPost(posts, p) ==> q.likes == |Likers(likes', q.id)|
  {
    var r := WithPost(posts, p);
    forall q | q in r
      ensures q.likes == |Likers(likes', q.id)|
    {
      var i :| 0 <= i < |r| && r[i] == q;
      if posts[i].id != p.id {
        assert q == posts[i];
      }
    }
  }

  /** Toggling one like edge and storing the post's new edge count keeps
      the invariant. */
  lemma ToggledTablesValid(db: Db, p: Post, edge: (UserId, PostId), likes': set<(UserId, PostId)>)
    requires Valid(db) && p in db.posts && edge.1 == p.id
    requires likes' == if edge in db.likes then db.likes - {edge} else db.likes + {edge}
    ensures Valid(db.(likes := likes', posts := WithPost(db.posts, p.(likes := |Likers(likes', p.id)|))))
  {
    var p' := p.(likes := |Likers(likes', p.id)|);
    WithPostKeepsAscending(db.posts, p');
    if edge in db.likes {
      LikersDelete(db.likes, edge);
    } else {
      LikersInsert(db.likes, edge);
    }
    WithPostKeepsCounts(db.posts, db.likes, likes', p');
  }

  /** After replacing post `p` by `p'` with the same id, the lookup by
      that id finds `p'`. */
  lemma WithPostFinds(posts: seq<Post>, p: Post, p': Post)
    requires Ascending(posts, PostKey) && p in posts && p'.id == p.id
    ensures PostById(WithPost(posts, p'), p.id) == Some(p')
  {
    WithPostKeepsAscending(posts, p');
    WithPostContains(posts, p, p');
    var q := PostById(WithPost(posts, p'), p.id).value;
    AscendingKeyUnique(WithPost(posts, p'), PostKey, p', q);
  }

  /** The like counter agrees with the like edges after every toggle. */
  lemma ToggleLikeKeepsValid(db: Db, requester: UserId, postId: PostId)
    requires Valid(db)
    ensures Valid(ToggleLike(db, requester, postId).db)
  {
    var r := ToggleLike(db, requester, postId);
    if PostById(db.posts, postId).Some? {
      var p := PostById(db.posts, postId).value;
      var edge := (requester, postId);
      var likes' := if edge in db.likes then db.likes - {edge} else db.likes + {edge};
      if edge in db.likes {
        LikersDelete(db.likes, edge);
      } else {
        LikersInsert(db.likes, edge);
      }
      assert r.body.value.likes == |Likers(likes', postId)|;
      ToggledTablesValid(db, p, edge, likes');
      var db1 := db.(likes := likes', posts := WithPost(db.posts, p.(likes := r.body.value.likes)));
      if edge !in db.likes && p.owner != requester {
        NotifyKeepsValid(db1, p.owner, requester, Liked, Some(postId));
      }
    }
  }

  /** In a valid state the toggled post is found by its id afterwards,
      carrying the counter the route answered with. */
  lemma ToggledPostFound(db: Db, requester: UserId, postId: PostId)
    requires Valid(db) && PostById(db.posts, postId).Some?
    ensures var r := ToggleLike(db, requester, postId);
      PostById(r.db.posts, postId) == Some(PostById(db.posts, postId).value.(likes := r.body.value.likes))
  {
    var r := ToggleLike(db, requester, postId);
    var p := PostById(db.posts, postId).value;
    var p' := p.(likes := r.body.value.likes);
    ToggleLikeKeepsValid(db, requester, postId);
    WithPostContains(db.posts, p, p');
    PostByIdFinds(r.db, p');
  }

  lemma LikeUnlikeSteps(db: Db, requester: UserId, p: Post)
    requires PostById(db.posts, p.id) == Some(p) && (requester, p.id) !in db.likes && p.likes >= 0
    requires PostById(WithPost(db.posts, p.(likes := p.likes + 1)), p.id) == Some(p.(likes := p.likes + 1))
    requires WithPost(db.posts, p) == db.posts
    ensures var r1 := ToggleLike(db, requester, p.id);
      var r2 := ToggleLike(r1.db, requester, p.id);
      && r1.body.value.liked && !r2.body.value.liked
      && r2.db.likes == db.likes
      && r2.db.posts == db.posts
      && r2.body.value.likes == p.likes
      && r2.db.notifications == r1.db.notifications
  {
    var r1 := ToggleLike(db, requester, p.id);
    assert r1.body.value.likes == p.likes + 1;
    assert r1.db.posts == WithPost(db.posts, p.(likes := p.likes + 1));
    WithPostTwice(db.posts, p.(likes := p.likes + 1), p);
  }

  /** Like followed by unlike restores the like edges, the post table and
      the counter; the 'like' notification stays in the log. */
  lemma LikeThenUnlike(db: Db, requester: UserId, p: Post)
    requires Valid(db) && p in db.posts && (requester, p.id) !in db.likes
    ensures var r1 := ToggleLike(db, requester, p.id);
      var r2 := ToggleLike(r1.db, requester, p.id);
      && r1.body.value.liked && !r2.body.value.liked
      && r2.db.likes == db.likes
      && r2.db.posts == db.posts
      && r2.body.value.likes == p.likes
      && r2.db.notifications == r1.db.notifications
  {
    PostByIdFinds(db, p);
    WithPostFinds(db.posts, p, p.(likes := p.likes + 1));
    WithPostSelf(db, p);
    LikeUnlikeSteps(db, requester, p);
  }

  lemma UnlikeLikeSteps(db: Db, requester: UserId, p: Post)
    requires PostById(db.posts, p.id) == Some(p) && (requester, p.id) in db.likes && p.likes >= 1
    requires PostById(WithPost(db.posts, p.(likes := p.likes - 1)), p.id) == Some(p.(likes := p.likes - 1))
    requires WithPost(db.posts, p) == db.posts
    ensures var r1 := ToggleLike(db, requester, p.id);
      var r2 := ToggleLike(r1.db, requester, p.id);
      && !r1.body.value.liked && r2.body.value.liked
      && r2.db.likes == db.likes
      && r2.db.posts == db.posts
      && r2.body.value.likes == p.likes
  {
    var r1 := ToggleLike(db, requester, p.id);
    assert r1.body.value.likes == p.likes - 1;
    assert r1.db.posts == WithPost(db.posts, p.(likes := p.likes - 1));
    WithPostTwice(db.posts, p.(likes := p.likes - 1), p);
  }

  /** Unlike followed by like restores the like edges, the post table and
      the counter. */
  lemma UnlikeThenLike(db: Db, requester: UserId, p: Post)
    requires Valid(db) && p in db.posts && (requester, p.id) in db.likes
    ensures var r1 := ToggleLike(db, requester, p.id);
      var r2 := ToggleLike(r1.db, requester, p.id);
      && !r1.body.value.liked && r2.body.value.liked
      && r2.db.likes == db.likes
      && r2.db.posts == db.posts
      && r2.body.value.likes == p.likes
  {
    LikersDelete(db.likes, (requester, p.id));
    assert (requester, p.id) in Likers(db.likes, p.id);
    PostByIdFinds(db, p);
    WithPostFinds(db.posts, p, p.(likes := p.likes - 1));
    WithPostSelf(db, p);
    UnlikeLikeSteps(db, requester, p);
  }

  // --------------------------------------------------------- delete / edit

  function OwnedBy(requester: UserId, id: PostId): Post -> bool {
    (p: Post) => p.id == id && p.owner == requester
  }

  function NotOwnedBy(requester: UserId, id: PostId): Post -> bool {
    (p: Post) => !(p.id == id && p.owner == requester)
  }

  /** DELETE /posts/:id: removes the post only when both its id and its
      owner match the request; no row deleted (not the owner, or no such post) means 403.  Comments
      and like edges of the post are left in place. */
  function DeletePost(db: Db, requester: UserId, postId: PostId): (r: Reply<()>)
    ensures r.status == OK <==> exists p :: p in db.posts && p.id == postId && p.owner == requester
    ensures r.status != OK ==> r.status == Forbidden && r.db == db
    ensures r.status == OK ==>
      && (forall p :: p in r.db.posts ==> p in db.posts && !(p.id == postId && p.owner == requester))
      && (forall p :: p in db.posts && p.id != postId ==> p in r.db.posts)
      && r.db == db.(posts := r.db.posts)
  {
    if First(db.posts, OwnedBy(requester, postId)).Some? then
      Reply(OK, None, db.(posts := Filter(db.posts, NotOwnedBy(requester, postId))))
    else
      Reply(Forbidden, None, db)
  }

  lemma DeletePostKeepsValid(db: Db, requester: UserId, postId: PostId)
    requires Valid(db)
    ensures Valid(DeletePost(db, requester, postId).db)
  {
    FilterKeepsAscending(db.posts, NotOwnedBy(requester, postId), PostKey);
  }

  /** The post table after an edit: rows matched by id and owner get the new
      content. */
  function Edited(posts: seq<Post>, requester: UserId, postId: PostId, content: string): (r: seq<Post>)
    ensures |r| == |posts|
    ensures forall i :: 0 <= i < |r| ==>
      r[i] == if posts[i].id == postId && posts[i].owner == requester then posts[i].(content := content) else posts[i]
  {
    seq(|posts|, i requires 0 <= i < |posts| =>
      if posts[i].id == postId && posts[i].owner == requester then posts[i].(content := content) else posts[i])
  }

  /** PUT /posts/:id: replaces the content of the post only when both its
      id and its owner match the request; no row updated means 403. */
  function EditPost(db: Db, requester: UserId, postId: PostId, content: string): (r: Reply<Post>)
    ensures r.status == OK <==> exists p :: p in db.posts && p.id == postId && p.owner == requester
    ensures r.status != OK ==> r.status == Forbidden && r.db == db && r.body.None?
    ensures r.status == OK ==>
      && r.body.Some?
      && r.body.value.id == postId && r.body.value.owner == requester && r.body.value.content == content
      && r.body.value in r.db.posts
      && r.db == db.(posts := r.db.posts)
      && |r.db.posts| == |db.posts|
      && (forall i :: 0 <= i < |db.posts| ==> r.db.posts[i].(content := db.posts[i].content) == db.posts[i])
      && (forall i :: 0 <= i < |db.posts| && r.db.posts[i] != db.posts[i] ==>
            db.posts[i].id == postId && db.posts[i].owner == requester)
  {
    match First(db.posts, OwnedBy(requester, postId))
    case None => Reply(Forbidden, None, db)
    case Some(p) =>
      var posts' := Edited(db.posts, requester, postId, content);
      assert p.(content := content) in posts' by {
        var i :| 0 <= i < |db.posts| && db.posts[i] == p;
        assert posts'[i] == p.(content := content);
      }
      Reply(OK, Some(p.(content := content)), db.(posts := posts'))
  }

  lemma EditedKeepsCounts(db: Db, requester: UserId, postId: PostId, content: string)
    requires LikeCountsAgree(db) && Ascending(db.posts, PostKey)
    requires forall q :: q in db.posts ==> q.id < db.nextPost
    ensures var ps := Edited(db.posts, requester, postId, content);
      && Ascending(ps, PostKey)
      && (forall q :: q in ps ==> q.likes == |Likers(db.likes, q.id)| && q.id < db.nextPost)
  {
    var ps := Edited(db.posts, requester, postId, content);
    assert forall i :: 0 <= i < |ps| ==> ps[i].id == db.posts[i].id && ps[i].likes == db.posts[i].likes;
    forall q | q in ps
      ensures q.likes == |Likers(db.likes, q.id)| && q.id < db.nextPost
    {
      var i :| 0 <= i < |ps| && ps[i] == q;
      assert db.posts[i] in db.posts;
    }
  }

  lemma EditPostKeepsValid(db: Db, requester: UserId, postId: PostId, content: string)
    requires Valid(db)
    ensures Valid(EditPost(db, requester, postId, content).db)
  {
    EditedKeepsCounts(db, requester, postId, content);
  }

  // ----------------------------------------------------------- single post

  /** GET /posts/:id: the post joined with its author (404 when no row
      joins), and its comments oldest first. */
  function GetPost(db: Db, postId: PostId): (r: Answer<PostView>)
    ensures r.status == NotFound <==>
      forall p :: p in db.posts && p.id == postId ==> p.owner !in UserIds(db.users)
    ensures r.status != NotFound ==>
      && r.status == OK && r.body.Some?
      && r.body.value.post in db.posts && r.body.value.post.id == postId
      && (exists u :: u in db.users && u.id == r.body.value.post.owner
                      && u.username == r.body.value.username && u.name == r.body.value.name)
      && r.body.value.comments == ListComments(db, postId)
  {
    match First(VisiblePosts(db), HasPostId(postId))
    case None => Answer(NotFound, None)
    case Some(p) =>
      var u := UserById(db.users, p.owner).value;
      Answer(OK, Some(PostView(p, u.username, u.name, ListComments(db, postId))))
  }
}
