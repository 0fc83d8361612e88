/** The abstract database every route handler works on: one table per
    entity, the two edge tables, the append-only notification log, and the
    id sequences the database hands out.  Row tables are kept in creation
    order, so a row's id is also its creation key. */
module Store {
  import opened Base

  type UserId = int
  type PostId = int
  type CommentId = int

  /** A registered account; `password` holds the stored bcrypt hash. */
  datatype User = User(id: UserId, name: string, username: string, email: string, password: string)

  /** A post with its denormalised like counter. */
  datatype Post = Post(id: PostId, owner: UserId, content: string, image: Option<string>, likes: int)

  datatype Comment = Comment(id: CommentId, post: PostId, author: UserId, content: string)

  /** The notification `type` column: 'like', 'comment' or 'follow'. */
  datatype Kind = Liked | Commented | Followed

  datatype Notification = Notification(id: int, recipient: UserId, sender: UserId, kind: Kind, post: Option<PostId>)

  datatype Db = Db(
    users: seq<User>,
    posts: seq<Post>,
    comments: seq<Comment>,
    likes: set<(UserId, PostId)>,      // post_likes (user_id, post_id)
    follows: set<(UserId, UserId)>,    // follows (follower_id, following_id)
    notifications: seq<Notification>,
    nextUser: int,
    nextPost: int,
    nextComment: int,
    nextNotification: int)

  /** The public columns of a user row (`id, username, name`). */
  datatype UserSummary = UserSummary(id: UserId, username: string, name: string)

  function Summary(u: User): UserSummary {
    UserSummary(u.id, u.username, u.name)
  }

  /** What a state-changing handler answers, with the state it leaves behind. */
  datatype Reply<T> = Reply(status: Status, body: Option<T>, db: Db)

  /** What a read-only handler answers. */
  datatype Answer<T> = Answer(status: Status, body: Option<T>)

  /** The freshly created database: empty tables, sequences starting at 1. */
  const Empty: Db := Db([], [], [], {}, {}, [], 1, 1, 1, 1)

  function UserKey(u: User): int { u.id }
  function PostKey(p: Post): int { p.id }
  function CommentKey(c: Comment): int { c.id }
  function NoteKey(n: Notification): int { n.id }

  function UserIds(users: seq<User>): set<UserId> {
    set u | u in users :: u.id
  }

  function HasUserId(id: UserId): User -> bool {
    (u: User) => u.id == id
  }

  function HasPostId(id: PostId): Post -> bool {
    (p: Post) => p.id == id
  }

  /** The first user row with the given id. */
  function UserById(users: seq<User>, id: UserId): (r: Option<User>)
    ensures r.Some? ==> r.value in users && r.value.id == id
    ensures r.None? <==> id !in UserIds(users)
  {
    First(users, HasUserId(id))
  }

  /** The first post row with the given id. */
  function PostById(posts: seq<Post>, id: PostId): (r: Option<Post>)
    ensures r.Some? ==> r.value in posts && r.value.id == id
    ensures r.None? <==> forall p :: p in posts ==> p.id != id
  {
    First(posts, HasPostId(id))
  }

  /** The like edges that reference post `pid`. */
  function Likers(likes: set<(UserId, PostId)>, pid: PostId): set<(UserId, PostId)> {
    set e | e in likes && e.1 == pid
  }

  lemma LikersInsert(likes: set<(UserId, PostId)>, e: (UserId, PostId))
    requires e !in likes
    ensures |Likers(likes + {e}, e.1)| == |Likers(likes, e.1)| + 1
    ensures forall q :: q != e.1 ==> Likers(likes + {e}, q) == Likers(likes, q)
  {
    assert Likers(likes + {e}, e.1) == Likers(likes, e.1) + {e};
  }

  lemma LikersDelete(likes: set<(UserId, PostId)>, e: (UserId, PostId))
    requires e in likes
    ensures |Likers(likes - {e}, e.1)| == |Likers(likes, e.1)| - 1
    ensures forall q :: q != e.1 ==> Likers(likes - {e}, q) == Likers(likes, q)
  {
    assert Likers(likes - {e}, e.1) == Likers(likes, e.1) - {e};
  }

  /** `posts` with every row whose id is `p.id` replaced by `p`. */
  function WithPost(posts: seq<Post>, p: Post): (r: seq<Post>)
    ensures |r| == |posts|
    ensures forall i :: 0 <= i < |r| ==> r[i] == if posts[i].id == p.id then p else posts[i]
  {
    seq(|posts|, i requires 0 <= i < |posts| => if posts[i].id == p.id then p else posts[i])
  }

  /** Appends one row to the notification log. */
  function Notify(db: Db, recipient: UserId, sender: UserId, kind: Kind, post: Option<PostId>): Db {
    db.(notifications := db.notifications + [Notification(db.nextNotification, recipient, sender, kind, post)],
        nextNotification := db.nextNotification + 1)
  }

  /** Every table is in creation order and every id is below its sequence. */
  ghost predicate KeysFresh(db: Db) {
    && Ascending(db.users, UserKey)
    && Ascending(db.posts, PostKey)
    && Ascending(db.comments, CommentKey)
    && Ascending(db.notifications, NoteKey)
    && (forall u :: u in db.users ==> u.id < db.nextUser)
    && (forall p :: p in db.posts ==> p.id < db.nextPost)
    && (forall c :: c in db.comments ==> c.id < db.nextComment)
    && (forall n :: n in db.notifications ==> n.id < db.nextNotification)
    && (forall e :: e in db.likes ==> e.1 < db.nextPost)
  }

  /** The denormalised counter of every post equals its number of like edges. */
  ghost predicate LikeCountsAgree(db: Db) {
    forall p :: p in db.posts ==> p.likes == |Likers(db.likes, p.id)|
  }

  ghost predicate NoSelfFollow(follows: set<(UserId, UserId)>) {
    forall e :: e in follows ==> e.0 != e.1
  }

  ghost predicate NoSelfNotification(log: seq<Notification>) {
    forall n :: n in log ==> n.recipient != n.sender
  }

  /** No two accounts share a username or an email. */
  ghost predicate UniqueAccounts(users: seq<User>) {
    forall i, j :: 0 <= i < j < |users| ==>
      users[i].username != users[j].username && users[i].email != users[j].email
  }

  /** The invariant every reachable database state satisfies. */
  ghost predicate Valid(db: Db) {
    && KeysFresh(db)
    && LikeCountsAgree(db)
    && NoSelfFollow(db.follows)
    && NoSelfNotification(db.notifications)
    && UniqueAccounts(db.users)
  }

  lemma EmptyIsValid()
    ensures Valid(Empty)
  {
  }

  /** In a valid state a post is found by its id. */
  lemma PostByIdFinds(db: Db, p: Post)
    requires Valid(db) && p in db.posts
    ensures PostById(db.posts, p.id) == Some(p)
  {
    var q := PostById(db.posts, p.id).value;
    AscendingKeyUnique(db.posts, PostKey, p, q);
  }

  /** Appending a notification that is not addressed to its sender keeps the
      invariant. */
  lemma NotifyKeepsValid(db: Db, recipient: UserId, sender: UserId, kind: Kind, post: Option<PostId>)
    requires Valid(db) && recipient != sender
    ensures Valid(Notify(db, recipient, sender, kind, post))
  {
  }
}
