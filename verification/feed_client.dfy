/** The feed page's client state: the rows shown, the last page loaded,
    and whether more pages may exist; the pure list updates applied after
    a like or a comment; and how that state tracks the server's feed. */
module FeedClient {
  import opened Base
  import opened Store
  import opened Posts

  /** `posts`, `page` and `hasMore` of the feed page. */
  datatype FeedState = FeedState(posts: seq<FeedRow>, page: int, hasMore: bool)

  /** The state before anything is loaded. */
  const Init: FeedState := FeedState([], 1, true)

  /** The initial fetch of page 1; `None` is a failed request, which changes
      nothing. */
  function InitialLoad(s: FeedState, resp: Option<seq<FeedRow>>): (r: FeedState)
    ensures resp.None? ==> r == s
    ensures resp.Some? ==> r.posts == resp.value && r.page == s.page
    ensures resp.Some? && |resp.value| < PageSize ==> !r.hasMore
    ensures resp.Some? && |resp.value| >= PageSize ==> r.hasMore == s.hasMore
  {
    match resp
    case None => s
    case Some(rows) => s.(posts := rows, hasMore := if |rows| < PageSize then false else s.hasMore)
  }

  /** Load More: the response to the request for page `s.page + 1`. */
  function LoadMore(s: FeedState, resp: Option<seq<FeedRow>>): (r: FeedState)
    ensures resp.None? ==> r == s
    ensures resp == Some([]) ==> r == s.(hasMore := false)
    ensures resp.Some? && resp.value != [] ==>
      && r.posts == s.posts + resp.value
      && r.page == s.page + 1
      && r.hasMore == (s.hasMore && |resp.value| >= PageSize)
  {
    match resp
    case None => s
    case Some(rows) =>
      if |rows| == 0 then s.(hasMore := false)
      else s.(posts := s.posts + rows, page := s.page + 1, hasMore := if |rows| < PageSize then false else s.hasMore)
  }

  /** The Load More control is rendered. */
  predicate ShowLoadMore(s: FeedState) {
    s.hasMore && |s.posts| > 0
  }

  /** The list after a like answer: the counter of the matching post is
      replaced. */
  function ApplyLike(posts: seq<FeedRow>, postId: PostId, likes: int): (r: seq<FeedRow>)
    ensures |r| == |posts|
    ensures forall i :: 0 <= i < |r| && posts[i].id == postId ==> r[i] == posts[i].(likes := likes)
    ensures forall i :: 0 <= i < |r| && posts[i].id != postId ==> r[i] == posts[i]
  {
    seq(|posts|, i requires 0 <= i < |posts| => if posts[i].id == postId then posts[i].(likes := likes) else posts[i])
  }

  /** The list after a comment answer: the new comment goes at the end of
      the matching post's comments. */
  function ApplyComment(posts: seq<FeedRow>, postId: PostId, row: CommentRow): (r: seq<FeedRow>)
    ensures |r| == |posts|
    ensures forall i :: 0 <= i < |r| && posts[i].id == postId ==> r[i] == posts[i].(comments := posts[i].comments + [row])
    ensures forall i :: 0 <= i < |r| && posts[i].id != postId ==> r[i] == posts[i]
  {
    seq(|posts|, i requires 0 <= i < |posts| =>
      if posts[i].id == postId then posts[i].(comments := posts[i].comments + [row]) else posts[i])
  }

  /** The comment text sent for a post: nothing when the input is missing or
      empty. */
  function CommentToSend(inputs: map<PostId, string>, postId: PostId): (r: Option<string>)
    ensures r.Some? <==> postId in inputs && inputs[postId] != ""
    ensures r.Some? ==> r.value == inputs[postId]
  {
    if postId in inputs && inputs[postId] != "" then Some(inputs[postId]) else None
  }

  /** Clearing a post's input after a comment is sent means nothing more is
      sent for it, while every other post's input is still sent as typed. */
  lemma ClearedInputSendsNothing(inputs: map<PostId, string>, postId: PostId, other: PostId)
    requires other != postId
    ensures CommentToSend(inputs[postId := ""], postId).None?
    ensures CommentToSend(inputs[postId := ""], other) == CommentToSend(inputs, other)
  {
  }

  // --------------------------------------------------- agreement with server

  /** The client holds the first `page` feed pages of `db`; `hasMore` is
      false only once the feed is exhausted, and true only while the last
      page loaded was full. */
  ghost predicate Synced(s: FeedState, db: Db) {
    var all := FeedRows(db);
    && s.page >= 1
    && s.posts == all[..Min(s.page * PageSize, |all|)]
    && (!s.hasMore ==> |all| <= s.page * PageSize)
    && (s.hasMore ==> |all| >= s.page * PageSize)
  }

  /** Loading page 1 from the server synchronises the initial state. */
  lemma InitialLoadSyncs(db: Db)
    ensures Synced(InitialLoad(Init, Feed(db, Some(1)).body), db)
  {
    FeedPagesTile(db, 0);
    assert FeedRows(db)[..0] == [];
  }

  /** Loading the next page from an unchanged server keeps the state in
      sync; a page past the OFFSET range fails and changes nothing. */
  lemma LoadMoreKeepsSync(s: FeedState, db: Db)
    requires Synced(s, db)
    ensures Synced(LoadMore(s, Feed(db, Some(s.page + 1)).body), db)
  {
    var all := FeedRows(db);
    var next := FeedPage(db, s.page + 1);
    if s.page * PageSize > MaxOffset {
      assert Feed(db, Some(s.page + 1)).body.None?;
      return;
    }
    assert Feed(db, Some(s.page + 1)).body == Some(next);
    FeedPagesTile(db, s.page);
    if next == [] {
      assert |all| <= s.page * PageSize;
    } else {
      var t := LoadMore(s, Some(next));
      assert t.posts == s.posts + next && t.page == s.page + 1;
      assert (s.page + 1) * PageSize == s.page * PageSize + PageSize;
    }
  }

  /** Once the client has stopped offering more, it holds the whole feed
      and every later page the server could send is empty. */
  lemma ExhaustedFeed(s: FeedState, db: Db, m: int)
    requires Synced(s, db) && !s.hasMore && m > s.page
    ensures s.posts == FeedRows(db)
    ensures FeedPage(db, m) == []
  {
  }

  /** While the server has rows the client does not show, the Load More
      control is shown. */
  lemma MoreRowsShowControl(s: FeedState, db: Db)
    requires Synced(s, db) && |s.posts| < |FeedRows(db)|
    ensures ShowLoadMore(s)
  {
  }
}
