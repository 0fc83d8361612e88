/** The user routes: the case-insensitive search box (at most five hits)
    and the profile page (user, post / follower / following counts, whether
    the requester follows them, and their posts). */
module Users {
  import opened Base
  import opened Store

  /** Rows returned by a search (`LIMIT 5`). */
  const SearchLimit: nat := 5

  // ------------------------------------------------------------- case fold

  /** ASCII lower-casing of one character. */
  function FoldChar(c: char): char {
    if 'A' <= c <= 'Z' then (c as int + 32) as char else c
  }

  /** The case fold `ILIKE` compares under, on ASCII letters. */
  function Fold(s: string): (r: string)
    ensures |r| == |s|
    ensures forall i :: 0 <= i < |s| ==> r[i] == FoldChar(s[i])
  {
    seq(|s|, i requires 0 <= i < |s| => FoldChar(s[i]))
  }

  lemma FoldIdempotent(s: string)
    ensures Fold(Fold(s)) == Fold(s)
  {
  }

  // ------------------------------------------------------------- substring

  /** The pattern `%q%` matches `s`: `q` occurs at some position. */
  ghost predicate Occurs(s: string, q: string) {
    exists i :: OccursAt(s, q, i)
  }

  /** When `q` is not a prefix of a non-empty `s`, it occurs in `s` exactly
      when it occurs in the tail. */
  lemma OccursAfterHead(s: string, q: string)
    requires |s| > 0 && !(q <= s)
    ensures Occurs(s, q) <==> Occurs(s[1..], q)
  {
    if Occurs(s, q) {
      var i :| OccursAt(s, q, i);
      if 0 < i {
        assert s[1..][i - 1..i - 1 + |q|] == q;
        assert OccursAt(s[1..], q, i - 1);
      }
    }
    if Occurs(s[1..], q) {
      var i :| OccursAt(s[1..], q, i);
      assert s[i + 1..i + 1 + |q|] == q;
      assert OccursAt(s, q, i + 1);
    }
  }

  /** Whether `q` occurs in `s`, scanning start positions left to right. */
  function Contains(s: string, q: string): (r: bool)
    ensures r <==> Occurs(s, q)
    decreases |s|
  {
    if q <= s then
      assert s[0..|q|] == q;
      assert OccursAt(s, q, 0);
      true
    else if |s| == 0 then
      assert forall i :: !OccursAt(s, q, i);
      false
    else
      OccursAfterHead(s, q);
      Contains(s[1..], q)
  }

  // ---------------------------------------------------------------- search

  /** The username or the display name contains the query, ignoring case. */
  function Matches(u: User, q: string): (r: bool)
    ensures r <==> Occurs(Fold(u.username), Fold(q)) || Occurs(Fold(u.name), Fold(q))
  {
    Contains(Fold(u.username), Fold(q)) || Contains(Fold(u.name), Fold(q))
  }

  function MatchesQuery(q: string): User -> bool {
    (u: User) => Matches(u, q)
  }

  function Summaries(us: seq<User>): (r: seq<UserSummary>)
    ensures |r| == |us|
    ensures forall i :: 0 <= i < |r| ==> r[i] == Summary(us[i])
  {
    seq(|us|, i requires 0 <= i < |us| => Summary(us[i]))
  }

  /** `row` is the summary of a user matching `q`. */
  ghost predicate IsHit(db: Db, q: string, row: UserSummary) {
    exists u :: u in db.users && row == Summary(u) && Matches(u, q)
  }

  /** GET /users/search?query=q.  A missing or empty query answers `[]`
      without looking at the table; otherwise at most five matching users,
      taken in table order. */
  function Search(db: Db, query: Option<string>): (r: Answer<seq<UserSummary>>)
    ensures r.status == OK && r.body.Some?
    ensures query.None? || query == Some("") ==> r.body.value == []
    ensures |r.body.value| <= SearchLimit
    ensures query.Some? ==> forall i :: 0 <= i < |r.body.value| ==> IsHit(db, query.value, r.body.value[i])
    ensures query.Some? && query.value != "" ==>
      |r.body.value| == Min(SearchLimit, |Filter(db.users, MatchesQuery(query.value))|)
    ensures Ascending(db.users, UserKey) ==>
      forall i, j :: 0 <= i < j < |r.body.value| ==> r.body.value[i].id != r.body.value[j].id
  {
    match query
    case None => Answer(OK, Some([]))
    case Some(q) =>
      if q == "" then Answer(OK, Some([]))
      else
        var hits := Window(Filter(db.users, MatchesQuery(q)), 0, SearchLimit);
        var rows := Summaries(hits);
        assert forall i :: 0 <= i < |rows| ==> IsHit(db, q, rows[i]) by {
          forall i | 0 <= i < |rows|
            ensures IsHit(db, q, rows[i])
          {
            assert hits[i] in Filter(db.users, MatchesQuery(q));
          }
        }
        FilterKeepsAscending(db.users, MatchesQuery(q), UserKey);
        Answer(OK, Some(rows))
  }

  /** When fewer than five users match, every match is returned. */
  lemma SearchCompleteWhenFew(db: Db, q: string, u: User)
    requires q != "" && u in db.users && Matches(u, q)
    requires |Filter(db.users, MatchesQuery(q))| <= SearchLimit
    ensures Summary(u) in Search(db, Some(q)).body.value
  {
    var hits := Filter(db.users, MatchesQuery(q));
    var k :| 0 <= k < |hits| && hits[k] == u;
    assert Search(db, Some(q)).body.value[k] == Summary(u);
  }

  /** The search ignores the case of the query. */
  lemma SearchIgnoresCase(db: Db, q: string)
    ensures Search(db, Some(q)) == Search(db, Some(Fold(q)))
  {
    FoldIdempotent(q);
    FilterSameTest(db.users, MatchesQuery(q), MatchesQuery(Fold(q)));
  }

  /** A user whose username contains the query, in any case, is a match. */
  lemma UsernameInfixMatches(u: User, q: string, i: int)
    requires 0 <= i <= |u.username| - |q|
    requires Fold(u.username[i..i + |q|]) == Fold(q)
    ensures Matches(u, q)
  {
    var s := Fold(u.username);
    assert s[i..i + |q|] == Fold(q);
    assert OccursAt(s, Fold(q), i);
  }

  // --------------------------------------------------------------- profile

  datatype Stats = Stats(posts: nat, followers: nat, following: nat)

  /** The profile answer: the user, the three counts, whether the requester
      follows them, and their posts newest first. */
  datatype Profile = Profile(user: UserSummary, stats: Stats, isFollowing: bool, posts: seq<Post>)

  function HasUsername(name: string): User -> bool {
    (u: User) => u.username == name
  }

  function OwnedByUser(id: UserId): Post -> bool {
    (p: Post) => p.owner == id
  }

  /** The posts owned by the user, oldest first. */
  function PostsOf(db: Db, id: UserId): (r: seq<Post>)
    ensures forall p :: p in r ==> p in db.posts && p.owner == id
    ensures forall p :: p in db.posts && p.owner == id ==> p in r
  {
    Filter(db.posts, OwnedByUser(id))
  }

  /** The follow edges into `id`, which the follower count counts. */
  function EdgesInto(follows: set<(UserId, UserId)>, id: UserId): set<(UserId, UserId)> {
    set e | e in follows && e.1 == id
  }

  /** The follow edges out of `id`, which the following count counts. */
  function EdgesOutOf(follows: set<(UserId, UserId)>, id: UserId): set<(UserId, UserId)> {
    set e | e in follows && e.0 == id
  }

  /** The ids of `id`'s followers and of the users `id` follows. */
  function FollowerIds(follows: set<(UserId, UserId)>, id: UserId): set<UserId> {
    set e | e in follows && e.1 == id :: e.0
  }

  function FollowedIds(follows: set<(UserId, UserId)>, id: UserId): set<UserId> {
    set e | e in follows && e.0 == id :: e.1
  }

  /** GET /users/profile/:username. */
  function GetProfile(db: Db, requester: UserId, username: string): (r: Answer<Profile>)
    ensures r.status == NotFound <==> forall u :: u in db.users ==> u.username != username
    ensures r.status != NotFound ==>
      && r.status == OK && r.body.Some?
      && var b := r.body.value;
      && b.user.username == username
      && (exists u :: u in db.users && Summary(u) == b.user)
      && b.stats.posts == |b.posts|
      && (forall p :: p in b.posts ==> p in db.posts && p.owner == b.user.id)
      && (forall p :: p in db.posts && p.owner == b.user.id ==> p in b.posts)
      && (b.isFollowing <==> (requester, b.user.id) in db.follows)
  {
    match First(db.users, HasUsername(username))
    case None => Answer(NotFound, None)
    case Some(u) =>
      var own := PostsOf(db, u.id);
      var stats := Stats(|own|, |EdgesInto(db.follows, u.id)|, |EdgesOutOf(db.follows, u.id)|);
      Answer(OK, Some(Profile(Summary(u), stats, (requester, u.id) in db.follows, Reverse(own))))
  }

  /** Edges that share their second end are as many as their first ends. */
  lemma {:induction false} FirstEndsCount(edges: set<(UserId, UserId)>, id: UserId)
    requires forall e :: e in edges ==> e.1 == id
    ensures |set e | e in edges :: e.0| == |edges|
    decreases |edges|
  {
    if edges != {} {
      var e :| e in edges;
      var rest := edges - {e};
      FirstEndsCount(rest, id);
      assert (set x | x in edges :: x.0) == (set x | x in rest :: x.0) + {e.0};
      assert e.0 !in (set x | x in rest :: x.0);
    }
  }

  /** Edges that share their first end are as many as their second ends. */
  lemma {:induction false} SecondEndsCount(edges: set<(UserId, UserId)>, id: UserId)
    requires forall e :: e in edges ==> e.0 == id
    ensures |set e | e in edges :: e.1| == |edges|
    decreases |edges|
  {
    if edges != {} {
      var e :| e in edges;
      var rest := edges - {e};
      SecondEndsCount(rest, id);
      assert (set x | x in edges :: x.1) == (set x | x in rest :: x.1) + {e.1};
      assert e.1 !in (set x | x in rest :: x.1);
    }
  }

  lemma EdgesIntoCount(follows: set<(UserId, UserId)>, id: UserId)
    ensures |EdgesInto(follows, id)| == |FollowerIds(follows, id)|
  {
    var into := EdgesInto(follows, id);
    FirstEndsCount(into, id);
    assert FollowerIds(follows, id) == set e | e in into :: e.0;
  }

  lemma EdgesOutOfCount(follows: set<(UserId, UserId)>, id: UserId)
    ensures |EdgesOutOf(follows, id)| == |FollowedIds(follows, id)|
  {
    var out := EdgesOutOf(follows, id);
    SecondEndsCount(out, id);
    assert FollowedIds(follows, id) == set e | e in out :: e.1;
  }

  /** The follower count is the number of distinct followers, and the
      following count the number of distinct users followed. */
  lemma ProfileCountsDistinctUsers(db: Db, requester: UserId, username: string)
    ensures var r := GetProfile(db, requester, username);
      r.status == OK ==>
        && r.body.value.stats.followers == |FollowerIds(db.follows, r.body.value.user.id)|
        && r.body.value.stats.following == |FollowedIds(db.follows, r.body.value.user.id)|
  {
    var r := GetProfile(db, requester, username);
    if r.status == OK {
      EdgesIntoCount(db.follows, r.body.value.user.id);
      EdgesOutOfCount(db.follows, r.body.value.user.id);
    }
  }

  /** In a valid state the profile's posts are newest first. */
  lemma ProfilePostsNewestFirst(db: Db, requester: UserId, username: string)
    requires Valid(db)
    ensures var r := GetProfile(db, requester, username);
      r.status == OK ==> Descending(r.body.value.posts, PostKey)
  {
    var r := GetProfile(db, requester, username);
    if r.status == OK {
      var own := PostsOf(db, r.body.value.user.id);
      FilterKeepsAscending(db.posts, OwnedByUser(r.body.value.user.id), PostKey);
      ReverseOfAscending(own, PostKey);
    }
  }
}
