/** The comment routes: add a comment (notifying the post's owner), list a
    post's comments oldest first, and delete one's own comment. */
module Comments {
  import opened Base
  import opened Store

  /** A listed comment joined with its author's username and display name. */
  datatype CommentView = CommentView(comment: Comment, username: string, name: string)

  function OnPost(users: seq<User>, pid: PostId): Comment -> bool {
    (c: Comment) => c.post == pid && c.author in UserIds(users)
  }

  /** The comments of post `pid` whose author joins a user row, in creation
      order. */
  function Thread(db: Db, pid: PostId): (r: seq<Comment>)
    ensures forall c :: c in r ==> c in db.comments && c.post == pid && c.author in UserIds(db.users)
    ensures forall c :: c in db.comments && c.post == pid && c.author in UserIds(db.users) ==> c in r
  {
    Filter(db.comments, OnPost(db.users, pid))
  }

  lemma ThreadAscending(db: Db, pid: PostId)
    ensures Ascending(db.comments, CommentKey) ==> Ascending(Thread(db, pid), CommentKey)
  {
    FilterKeepsAscending(db.comments, OnPost(db.users, pid), CommentKey);
  }

  function View(users: seq<User>, c: Comment): (r: CommentView)
    ensures r.comment == c
    ensures c.author in UserIds(users) ==>
      exists u :: u in users && u.id == c.author && r.username == u.username && r.name == u.name
  {
    match UserById(users, c.author)
    case Some(u) => CommentView(c, u.username, u.name)
    case None => CommentView(c, "", "")
  }

  function Views(db: Db, cs: seq<Comment>): (r: seq<CommentView>)
    ensures |r| == |cs|
    ensures forall i :: 0 <= i < |r| ==> r[i] == View(db.users, cs[i])
  {
    seq(|cs|, i requires 0 <= i < |cs| => View(db.users, cs[i]))
  }

  /** GET /comments/posts/:postId. */
  function ListComments(db: Db, postId: PostId): (r: seq<CommentView>)
    ensures forall i :: 0 <= i < |r| ==> r[i].comment in db.comments && r[i].comment.post == postId
    ensures forall c :: c in db.comments && c.post == postId && c.author in UserIds(db.users) ==>
      exists i :: 0 <= i < |r| && r[i].comment == c
  {
    var t := Thread(db, postId);
    var r := Views(db, t);
    assert forall c :: c in t ==> exists i :: 0 <= i < |r| && r[i].comment == c by {
      forall c | c in t ensures exists i :: 0 <= i < |r| && r[i].comment == c {
        var i :| 0 <= i < |t| && t[i] == c;
        assert r[i].comment == c;
      }
    }
    r
  }

  /** Every listed comment carries its author's username and display name. */
  lemma ListCommentsAuthors(db: Db, postId: PostId, i: int)
    requires 0 <= i < |ListComments(db, postId)|
    ensures var v := ListComments(db, postId)[i];
      exists u :: u in db.users && u.id == v.comment.author && v.username == u.username && v.name == u.name
  {
    var t := Thread(db, postId);
    assert t[i] in t;
  }

  /** In a valid state the listed comments are oldest first. */
  lemma ListCommentsOldestFirst(db: Db, postId: PostId)
    requires Valid(db)
    ensures var r := ListComments(db, postId);
      forall i, j :: 0 <= i < j < |r| ==> r[i].comment.id < r[j].comment.id
  {
    var t := Thread(db, postId);
    var r := ListComments(db, postId);
    ThreadAscending(db, postId);
    forall i, j | 0 <= i < j < |r|
      ensures r[i].comment.id < r[j].comment.id
    {
      assert r[i].comment == t[i] && r[j].comment == t[j];
    }
  }

  /** POST /comments/posts/:postId: the comment row is inserted, the post's
      owner is looked up, and a 'comment' notification is logged unless the
      owner is the commenter.  The owner lookup dereferences the first row
      without a check, so a missing post ends in a 500. */
  function AddComment(db: Db, requester: UserId, postId: PostId, content: string): (r: Reply<Comment>)
    ensures PostById(db.posts, postId).None? ==> r.status == ServerError && r.db == db
    ensures PostById(db.posts, postId).Some? ==>
      && r.status == Created
      && r.body.Some?
      && r.body.value.post == postId
      && r.body.value.author == requester
      && r.body.value.content == content
      && r.db.comments == db.comments + [r.body.value]
    ensures PostById(db.posts, postId).Some? ==>
      var owner := PostById(db.posts, postId).value.owner;
      && |r.db.notifications| == |db.notifications| + (if owner != requester then 1 else 0)
      && r.db.notifications[..|db.notifications|] == db.notifications
      && forall n :: n in r.db.notifications[|db.notifications|..] ==>
           n.recipient == owner && n.sender == requester && n.kind == Commented && n.post == Some(postId)
    ensures r.db.users == db.users && r.db.posts == db.posts
    ensures r.db.likes == db.likes && r.db.follows == db.follows
  {
    match PostById(db.posts, postId)
    case None => Reply(ServerError, None, db)
    case Some(p) =>
      var c := Comment(db.nextComment, postId, requester, content);
      var db1 := db.(comments := db.comments + [c], nextComment := db.nextComment + 1);
      var db2 := if p.owner != requester then Notify(db1, p.owner, requester, Commented, Some(postId)) else db1;
      Reply(Created, Some(c), db2)
  }

  function AuthoredBy(requester: UserId, id: CommentId): Comment -> bool {
    (c: Comment) => c.id == id && c.author == requester
  }

  function NotAuthoredBy(requester: UserId, id: CommentId): Comment -> bool {
    (c: Comment) => !(c.id == id && c.author == requester)
  }

  /** DELETE /comments/:id: removes the comment only when both its id and
      its author match the request;
      no row deleted means 403. */
  function DeleteComment(db: Db, requester: UserId, commentId: CommentId): (r: Reply<()>)
    ensures r.status == OK <==> exists c :: c in db.comments && c.id == commentId && c.author == requester
    ensures r.status != OK ==> r.status == Forbidden && r.db == db
    ensures r.status == OK ==>
      && (forall c :: c in r.db.comments ==> c in db.comments && !(c.id == commentId && c.author == requester))
      && (forall c :: c in db.comments && c.id != commentId ==> c in r.db.comments)
      && r.db == db.(comments := r.db.comments)
  {
    if First(db.comments, AuthoredBy(requester, commentId)).Some? then
      Reply(OK, None, db.(comments := Filter(db.comments, NotAuthoredBy(requester, commentId))))
    else
      Reply(Forbidden, None, db)
  }

  lemma AddCommentKeepsValid(db: Db, requester: UserId, postId: PostId, content: string)
    requires Valid(db)
    ensures Valid(AddComment(db, requester, postId, content).db)
  {
    var r := AddComment(db, requester, postId, content);
    if PostById(db.posts, postId).Some? {
      var c := r.body.value;
      assert c.id == db.nextComment;
      var db1 := db.(comments := db.comments + [c], nextComment := db.nextComment + 1);
      assert Valid(db1);
      var owner := PostById(db.posts, postId).value.owner;
      if owner != requester {
        NotifyKeepsValid(db1, owner, requester, Commented, Some(postId));
      }
    }
  }

  lemma DeleteCommentKeepsValid(db: Db, requester: UserId, commentId: CommentId)
    requires Valid(db)
    ensures Valid(DeleteComment(db, requester, commentId).db)
  {
    FilterKeepsAscending(db.comments, NotAuthoredBy(requester, commentId), CommentKey);
  }

  /** In a valid state a successful delete removes exactly the one comment
      with that id, leaving every other comment in place and in order. */
  lemma DeleteCommentRemovesOnlyIt(db: Db, requester: UserId, commentId: CommentId)
    requires Valid(db)
    ensures var r := DeleteComment(db, requester, commentId);
      r.status == OK ==> forall c :: c in db.comments ==> (c in r.db.comments <==> c.id != commentId)
  {
    var r := DeleteComment(db, requester, commentId);
    if r.status == OK {
      var d :| d in db.comments && d.id == commentId && d.author == requester;
      forall c | c in db.comments && c.id == commentId
        ensures c !in r.db.comments
      {
        AscendingKeyUnique(db.comments, CommentKey, c, d);
      }
    }
  }
}
