/** The notification list: the requester's notifications joined with the
    sender's username and the referenced post's image, newest first, at
    most twenty. */
module Notifications {
  import opened Base
  import opened Store

  /** Rows per notification list (`LIMIT 20`). */
  const InboxLimit: nat := 20

  /** One listed notification: the log entry, `sender_name`, `post_image`. */
  datatype NoteRow = NoteRow(note: Notification, senderName: string, postImage: Option<string>)

  /** Addressed to the requester, restricted to entries whose sender joins a
      user row. */
  function ToMe(users: seq<User>, requester: UserId): Notification -> bool {
    (n: Notification) => n.recipient == requester && n.sender in UserIds(users)
  }

  /** The requester's joinable notifications, oldest first. */
  function Inbox(db: Db, requester: UserId): (r: seq<Notification>)
    ensures forall n :: n in r ==> n in db.notifications && n.recipient == requester && n.sender in UserIds(db.users)
    ensures forall n :: n in db.notifications && n.recipient == requester && n.sender in UserIds(db.users) ==> n in r
  {
    Filter(db.notifications, ToMe(db.users, requester))
  }

  /** The optional join with the post table: the image of the referenced
      post, or nothing when there is no reference or the post is gone. */
  function PostImage(posts: seq<Post>, n: Notification): (r: Option<string>)
    ensures r.Some? ==> exists p :: p in posts && n.post == Some(p.id) && p.image == r
    ensures n.post.None? ==> r.None?
    ensures n.post.Some? && (forall p :: p in posts ==> p.id != n.post.value) ==> r.None?
    ensures n.post.Some? && PostById(posts, n.post.value).Some? ==> r == PostById(posts, n.post.value).value.image
  {
    match n.post
    case None => None
    case Some(pid) =>
      match PostById(posts, pid)
      case None => None
      case Some(p) => p.image
  }

  /** `row` names the username of its notification's sender. */
  ghost predicate NamesSender(db: Db, row: NoteRow) {
    exists u :: u in db.users && u.id == row.note.sender && u.username == row.senderName
  }

  function ToNoteRow(db: Db, n: Notification): (r: NoteRow)
    ensures r.note == n
    ensures n.sender in UserIds(db.users) ==> NamesSender(db, r)
  {
    var sender := UserById(db.users, n.sender);
    NoteRow(n, if sender.Some? then sender.value.username else "", PostImage(db.posts, n))
  }

  function NoteRows(db: Db, ns: seq<Notification>): (r: seq<NoteRow>)
    ensures |r| == |ns|
    ensures forall i :: 0 <= i < |r| ==> r[i] == ToNoteRow(db, ns[i])
  {
    seq(|ns|, i requires 0 <= i < |ns| => ToNoteRow(db, ns[i]))
  }

  /** The twenty newest of the requester's joinable notifications. */
  function Latest(db: Db, requester: UserId): (r: seq<Notification>)
    ensures |r| <= InboxLimit
    ensures forall i :: 0 <= i < |r| ==>
      r[i] in db.notifications && r[i].recipient == requester && r[i].sender in UserIds(db.users)
  {
    var ns := Window(Reverse(Inbox(db, requester)), 0, InboxLimit);
    assert forall i :: 0 <= i < |ns| ==> ns[i] in Inbox(db, requester);
    ns
  }

  /** GET /notifications. */
  function ListNotifications(db: Db, requester: UserId): (r: seq<NoteRow>)
    ensures |r| <= InboxLimit
    ensures forall i :: 0 <= i < |r| ==> r[i].note in db.notifications && r[i].note.recipient == requester
    ensures forall i :: 0 <= i < |r| ==> NamesSender(db, r[i])
    ensures forall i :: 0 <= i < |r| ==> r[i].postImage == PostImage(db.posts, r[i].note)
  {
    NoteRows(db, Latest(db, requester))
  }

  /** The list read as notifications is a prefix of the inbox read newest
      first. */
  lemma ListIsNewestPrefix(db: Db, requester: UserId)
    ensures var r := ListNotifications(db, requester);
      var rev := Reverse(Inbox(db, requester));
      && |r| == Min(InboxLimit, |rev|)
      && forall i :: 0 <= i < |r| ==> r[i].note == rev[i]
  {
  }

  /** In a valid state the list is strictly newest first. */
  lemma NotificationsNewestFirst(db: Db, requester: UserId)
    requires Valid(db)
    ensures var r := ListNotifications(db, requester);
      forall i, j :: 0 <= i < j < |r| ==> r[i].note.id > r[j].note.id
  {
    var rev := Reverse(Inbox(db, requester));
    FilterKeepsAscending(db.notifications, ToMe(db.users, requester), NoteKey);
    ReverseOfAscending(Inbox(db, requester), NoteKey);
    ListIsNewestPrefix(db, requester);
    var r := ListNotifications(db, requester);
    forall i, j | 0 <= i < j < |r|
      ensures r[i].note.id > r[j].note.id
    {
      assert r[i].note == rev[i] && r[j].note == rev[j];
    }
  }

  /** In a valid state a notification of the requester that is left out of
      the list is older than all twenty listed ones. */
  lemma NotificationsComplete(db: Db, requester: UserId, n: Notification)
    requires Valid(db)
    requires n in db.notifications && n.recipient == requester && n.sender in UserIds(db.users)
    ensures var r := ListNotifications(db, requester);
      (forall i :: 0 <= i < |r| ==> r[i].note != n) ==>
        |r| == InboxLimit && forall i :: 0 <= i < |r| ==> r[i].note.id > n.id
  {
    var inbox := Inbox(db, requester);
    var rev := Reverse(inbox);
    var r := ListNotifications(db, requester);
    FilterKeepsAscending(db.notifications, ToMe(db.users, requester), NoteKey);
    ReverseOfAscending(inbox, NoteKey);
    ListIsNewestPrefix(db, requester);
    if forall i :: 0 <= i < |r| ==> r[i].note != n {
      assert n in rev;
      assert forall i :: 0 <= i < Min(InboxLimit, |rev|) ==> rev[i] != n by {
        forall i | 0 <= i < Min(InboxLimit, |rev|)
          ensures rev[i] != n
        {
          assert r[i].note == rev[i];
        }
      }
      DescendingMissedPrefix(rev, InboxLimit, NoteKey, n);
      forall i | 0 <= i < |r|
        ensures r[i].note.id > n.id
      {
        assert r[i].note == rev[i];
      }
    }
  }

  /** In a valid state nobody is shown a notification about their own
      action. */
  lemma NoSelfNotificationListed(db: Db, requester: UserId)
    requires Valid(db)
    ensures var r := ListNotifications(db, requester);
      forall i :: 0 <= i < |r| ==> r[i].note.sender != requester
  {
  }
}
