# Gatherly route logic in Dafny

Gatherly is a small social app. It has an Express backend over PostgreSQL and a React front end. This project models the decision logic of the backend's route handlers as a sequential state machine over an abstract database, and proves properties of that model. It also models the small pure pieces around those handlers: the bearer-token middleware, the register and login branches, and the feed page's pagination state.

The database state (`Store.Db`) holds:
- users;
- posts, each with its stored `likes` counter;
- comments;
- the like edges (user, post);
- the follow edges (follower, following);
- the append-only notification log;
- the id sequences the database hands out.

Row tables are sequences in creation order. A row's id doubles as its creation key, so `ORDER BY created_at` is table order, or its reverse. Every state-changing handler is a pure function from the state, the authenticated requester's id and the request's arguments to a `Reply` (status, optional body, new state). Every read route is a pure query that answers an `Answer` (status, optional body).

`Store.Valid` is the invariant that every reachable state keeps:
- ids are ascending and below their sequences;
- each post's counter equals its number of like edges;
- there is no self-follow edge;
- there is no notification addressed to its own sender;
- usernames and emails are unique.

Each state-changing route has a lemma showing that it preserves `Valid`.

bcrypt and jsonwebtoken appear as `Tokens.Crypto`, a record of function values. `Tokens.Sound` states the laws the routes rely on:
- a password matches its own hash;
- a signed payload verifies to itself;
- a token is never empty.

bcrypt's random salt is a parameter of `AuthRoutes.Register`.

Modules follow the source files:
- `Base`: option type, status codes, and the sequence operations that stand in for WHERE, ORDER BY … DESC, LIMIT and OFFSET;
- `Store`: entities and the database;
- `Posts`, `Comments`, `Follows`, `Users`, `Notifications`, `AuthRoutes`: the route files;
- `Tokens` and `Middleware`: the authentication middleware;
- `FeedClient`: the feed page;
- `Interplay`: lemmas that connect several routes, or the feed page to the server.

## Model

| member | source | states |
|---|---|---|
| Store.UserById | backend/routes/posts.js:54 | a lookup by id finds a user with that id, and finds none exactly when no user has it |
| Store.PostById | backend/routes/posts.js:90-91 | a lookup by id finds a post with that id, and finds none exactly when no post has it |
| Store.PostByIdFinds | backend/routes/posts.js:90-91 | in a valid state the lookup of a post's own id returns that very post (ids are unique) |
| Store.NotifyKeepsValid | backend/routes/posts.js:93-99 | appending a notification whose recipient differs from its sender keeps the invariant |
| Posts.CreatePost | backend/routes/posts.js:8-20 | the new post is owned by the requester, carries the given content and image and a zero counter, is appended after every existing post with a larger id than all of them, and nothing else changes |
| Posts.CreatePostKeepsValid | backend/routes/posts.js:13-16 | creating a post keeps the invariant (the new post has no like edges, so its zero counter agrees) |
| Posts.VisiblePosts | backend/routes/posts.js:53-54 | exactly the posts whose owner is an existing user survive the author join |
| Posts.PageNumber | backend/routes/posts.js:30 | an absent, non-numeric or zero page parameter means page 1; any other number is kept as it is, negative ones included |
| Posts.Feed | backend/routes/posts.js:29-32 | absent, non-numeric or 0 mean page 1; a page of 1 or more whose offset fits PostgreSQL's bigint answers that page; a negative page (negative OFFSET) or one whose offset exceeds bigint answers 500 |
| Posts.FeedPage | backend/routes/posts.js:31-32 | page n holds exactly min(20, rows left from position (n-1)*20) rows, none when the feed ends before that position, and they are the newest-first rows from position (n-1)*20 on |
| Posts.FeedRowsNewestFirst | backend/routes/posts.js:55 | in a valid state feed rows are in strictly decreasing post id, i.e. newest first |
| Posts.FeedRowsComplete | backend/routes/posts.js:53-56 | every post whose author exists has a feed row, and every feed row comes from such a post |
| Posts.ToCommentRow | backend/routes/posts.js:44-46 | an embedded comment carries the comment's id and content and, when the commenter exists, the commenter's username |
| Posts.ToFeedRow | backend/routes/posts.js:37-52 | a feed row carries the post's id, content, image and counter, its author's id and, when the author exists, the author's username and name; its comments are the rows of that post's thread |
| Posts.RowCommentsFromPost | backend/routes/posts.js:44-47 | every comment embedded in a post's row is a comment on that post by an existing user, with the same id and content |
| Posts.RowCommentsComplete | backend/routes/posts.js:44-47 | every comment on the post whose author exists is embedded in the post's row |
| Posts.RowCommentsOldestFirst | backend/routes/posts.js:48 | in a valid state a row's embedded comments are in increasing id, oldest first |
| Posts.RowCommentsEmpty | backend/routes/posts.js:40-51 | a post without comments gets the empty list, not null (the COALESCE) |
| Posts.FeedExhaustion | backend/routes/posts.js:31-32 | once a page comes back with fewer than 20 rows, every later page is empty |
| Posts.FeedPagesTile | backend/routes/posts.js:31-32 | pages 1..k laid end to end are the first k*20 rows of the feed, so consecutive pages neither overlap nor skip |
| Posts.CreatedPostHeadsFeed | backend/routes/posts.js:13-16 | in a valid state a post just created by an existing user is the first row of page 1, with zero likes and the requester as author |
| Posts.ToggleLike | backend/routes/posts.js:79-103 | an existing edge is removed and the counter becomes max(likes-1, 0), with no notification; otherwise the edge is added, the counter incremented, and exactly one 'like' notification for the post goes to its owner unless the owner is the liker; a missing post answers 500; no other edge and no other table changes |
| Posts.ToggleLikeKeepsValid | backend/routes/posts.js:81-87 | after every toggle each post's counter still equals its number of like edges |
| Posts.ToggledPostFound | backend/routes/posts.js:82-83 | in a valid state the toggled post is found afterwards carrying exactly the counter the route answered |
| Posts.LikeThenUnlike | backend/routes/posts.js:82-87 | like followed by unlike restores the like edges, the post table and the counter; the 'like' notification stays in the log |
| Posts.UnlikeThenLike | backend/routes/posts.js:82-87 | unlike followed by like restores the like edges, the post table and the counter |
| Posts.DeletePost | backend/routes/posts.js:116-124 | the delete succeeds exactly when the requester owns a post with that id; it then removes only that post and keeps everything else; otherwise, including for a missing post, 403 and nothing changes |
| Posts.DeletePostKeepsValid | backend/routes/posts.js:116-119 | deleting a post keeps the invariant |
| Posts.EditPost | backend/routes/posts.js:178-193 | the edit succeeds exactly when the requester owns a post with that id; only the content of that post changes, and the answered row is in the new table; otherwise 403 and nothing changes |
| Posts.EditPostKeepsValid | backend/routes/posts.js:178-184 | editing a post keeps the invariant |
| Posts.GetPost | backend/routes/posts.js:136-165 | 404 exactly when no post with that id has an existing author; otherwise the post with its author's username and name, and the same comment list as the comment route |
| Comments.Thread | backend/routes/comments.js:48-51 | exactly the comments on the post whose author exists |
| Comments.View | backend/routes/comments.js:48-50 | a listed comment carries its author's username and name |
| Comments.ListComments | backend/routes/comments.js:46-56 | only comments on that post are listed, and every comment on it with an existing author is listed |
| Comments.ListCommentsAuthors | backend/routes/comments.js:48-50 | every listed comment carries the username and name of an existing user who wrote it |
| Comments.ListCommentsOldestFirst | backend/routes/comments.js:52 | in a valid state the listed comments are in increasing id, oldest first |
| Comments.AddComment | backend/routes/comments.js:16-34 | the new comment is on the given post and by the requester and is appended; exactly one 'comment' notification for the post goes to the owner unless the owner is the commenter; a missing post answers 500 |
| Comments.AddCommentKeepsValid | backend/routes/comments.js:16-32 | adding a comment keeps the invariant, in particular no self-notification |
| Comments.DeleteComment | backend/routes/comments.js:68-79 | the delete succeeds exactly when the requester wrote a comment with that id; it then removes nothing else; otherwise 403 and nothing changes |
| Comments.DeleteCommentKeepsValid | backend/routes/comments.js:68-73 | deleting a comment keeps the invariant |
| Comments.DeleteCommentRemovesOnlyIt | backend/routes/comments.js:68-72 | in a valid state a successful delete removes exactly the comment with that id |
| Follows.Follow | backend/routes/follows.js:12-29 | following oneself answers 400 with nothing changed; otherwise the edge is present afterwards and exactly one 'follow' notification without a post goes to the target, even when the edge already existed |
| Follows.FollowKeepsValid | backend/routes/follows.js:12 | no self-follow edge and no self-notification can ever be created |
| Follows.RepeatedFollow | backend/routes/follows.js:16-27 | following twice leaves a single edge but logs two 'follow' notifications |
| Follows.Unfollow | backend/routes/follows.js:42-53 | the unfollow succeeds exactly when the edge exists and then removes only that edge; otherwise 404 and nothing changes |
| Follows.UnfollowKeepsValid | backend/routes/follows.js:42-46 | removing a follow edge keeps the invariant |
| Follows.Following | backend/routes/follows.js:65-69 | every listed entry is the id, username and name of an existing user that `u` has an edge to, and every such user is listed |
| Follows.Followers | backend/routes/follows.js:85-89 | every listed entry is the id, username and name of an existing user with an edge to `u`, and every such user is listed |
| Follows.FollowThenUnfollow | backend/routes/follows.js:16-50 | follow then unfollow of a new edge restores the edge set while the follow notification stays in the log |
| Follows.FollowListsMatchEdges | backend/routes/follows.js:65-89 | an existing user is on u's following list if there is an edge from u to them, and on u's followers list if there is an edge from them to u; in a valid state only then |
| Follows.FollowShowsInLists | backend/routes/follows.js:16-20 | after a follow the target is on the follower's following list and the follower on the target's followers list |
| Follows.UnfollowHidesFromList | backend/routes/follows.js:42-46 | in a valid state after an unfollow the target is gone from the follower's following list |
| Users.Fold | backend/routes/users.js:14 | case folding maps each character to its ASCII lower case |
| Users.FoldIdempotent | backend/routes/users.js:14 | folding twice is folding once |
| Users.Contains | backend/routes/users.js:14-15 | the left-to-right scan finds the query exactly when the `%q%` pattern matches at some position |
| Users.Matches | backend/routes/users.js:14 | a user matches exactly when the folded query occurs in the folded username or the folded display name |
| Users.Search | backend/routes/users.js:10-15 | a missing or empty query answers [] without looking at the users; otherwise min(5, number of matching users) rows, each the summary of a user whose username or name contains the query case-insensitively, and (ids being unique) no user listed twice |
| Users.SearchCompleteWhenFew | backend/routes/users.js:14-15 | when at most five users match, every matching user is returned |
| Users.SearchIgnoresCase | backend/routes/users.js:14 | the answer does not depend on the case of the query |
| Users.UsernameInfixMatches | backend/routes/users.js:14-15 | a user whose username contains the query, in any case, is a match |
| Users.PostsOf | backend/routes/users.js:53-56 | exactly the posts owned by the user |
| Users.GetProfile | backend/routes/users.js:31-66 | 404 exactly when no user has the username; otherwise that user, a post count equal to the number of listed posts, a list holding exactly the user's posts, and isFollowing exactly when the requester follows them |
| Users.ProfileCountsDistinctUsers | backend/routes/users.js:43-44 | the follower count is the number of distinct followers, and the following count the number of distinct users followed |
| Users.ProfilePostsNewestFirst | backend/routes/users.js:54 | in a valid state the profile's posts are newest first |
| Users.FirstEndsCount | backend/routes/users.js:43 | edges into one user are as many as their distinct senders |
| Users.SecondEndsCount | backend/routes/users.js:44 | edges out of one user are as many as their distinct targets |
| Notifications.Inbox | backend/routes/notifications.js:18-20 | exactly the notifications addressed to the requester whose sender exists |
| Notifications.PostImage | backend/routes/notifications.js:19 | exactly the image of the referenced post when that post exists; nothing when there is no reference or the post is gone |
| Notifications.ToNoteRow | backend/routes/notifications.js:14-18 | a row carries its notification and, when the sender exists, the sender's username |
| Notifications.Latest | backend/routes/notifications.js:20-22 | at most 20 notifications, each addressed to the requester and from an existing sender |
| Notifications.ListNotifications | backend/routes/notifications.js:12-22 | at most 20 rows, each a notification addressed to the requester, naming its sender and carrying the image of the post it refers to |
| Notifications.ListIsNewestPrefix | backend/routes/notifications.js:21-22 | the list is the first min(20, n) of the requester's notifications read newest first |
| Notifications.NotificationsNewestFirst | backend/routes/notifications.js:21 | in a valid state the list is in strictly decreasing id, newest first |
| Notifications.NotificationsComplete | backend/routes/notifications.js:20-22 | in a valid state a notification of the requester left out of the list is older than all twenty listed ones |
| Notifications.NoSelfNotificationListed | backend/routes/notifications.js:20 | in a valid state nobody is shown a notification about their own action |
| Middleware.ReplaceFirst | backend/middleware/auth.js:7 | the first occurrence of the pattern is replaced and the rest kept; a string without the pattern is unchanged |
| Middleware.IndexOfFrom | backend/middleware/auth.js:7 | the first position at or after the start where the pattern occurs, or none when it occurs nowhere there |
| Middleware.ExtractToken | backend/middleware/auth.js:6-8 | a token exists exactly when the header starts, case-sensitively, with "Bearer ", and it is the header minus that prefix |
| Middleware.Authenticate | backend/middleware/auth.js:4-20 | 401 exactly when the header is missing, lacks the prefix or has nothing after it; the request proceeds exactly when the token verifies, with the decoded payload; a token that fails verification gives 400 |
| Middleware.EmptyBearerRejected | backend/middleware/auth.js:10-12 | the header "Bearer " with nothing after it is refused with 401 |
| Middleware.LowercaseBearerRejected | backend/middleware/auth.js:6 | a lower-case "bearer " prefix is refused with 401 |
| Middleware.SignedTokenAccepted | backend/middleware/auth.js:14-17 | a freshly signed token passes with exactly its payload |
| AuthRoutes.Register | backend/routes/auth.js:15-33 | 409 with nothing changed exactly when a user has the username or the email; otherwise 201, and exactly one user is appended with the given fields and the hash of the password, not the password |
| AuthRoutes.RegisterKeepsValid | backend/routes/auth.js:15-21 | the conflict check keeps usernames and emails unique |
| AuthRoutes.Login | backend/routes/auth.js:48-73 | 404 and no token exactly when no user has the email; 400 and no token when that user's password does not match; otherwise a token signed over exactly the user's id and username, with their username and name |
| AuthRoutes.RegisterThenLogin | backend/routes/auth.js:29-66 | a fresh registration can log in at once with the same email and password, and its token verifies to the new user's id and username |
| AuthRoutes.RegisterTwiceConflicts | backend/routes/auth.js:15-21 | once a username is registered, registering it again is refused |
| AuthRoutes.LoginTokenAuthenticates | backend/routes/auth.js:58-64 | the token of a successful login passes the middleware as the logged-in user |
| FeedClient.InitialLoad | frontend/src/pages/Feed.jsx:20-22 | a loaded first page replaces the list; fewer than 20 rows turn hasMore off; a failed request changes nothing |
| FeedClient.LoadMore | frontend/src/pages/Feed.jsx:35-47 | an empty page only turns hasMore off; a non-empty one is appended after the shown rows and advances the page, and hasMore stays on only after a full page |
| FeedClient.ApplyLike | frontend/src/pages/Feed.jsx:59-61 | only the post with the matching id gets the new counter; order and every other post are unchanged |
| FeedClient.ApplyComment | frontend/src/pages/Feed.jsx:82-87 | the new comment goes at the end of the matching post's comments only |
| FeedClient.CommentToSend | frontend/src/pages/Feed.jsx:73-74 | a missing or empty input sends nothing; otherwise the input is sent |
| FeedClient.ClearedInputSendsNothing | frontend/src/pages/Feed.jsx:89 | once a post's input is cleared after sending, nothing more is sent for it, and every other post's input is unaffected |
| FeedClient.InitialLoadSyncs | frontend/src/pages/Feed.jsx:20-22 | loading page 1 from the server leaves the client holding the first page of the feed |
| FeedClient.LoadMoreKeepsSync | frontend/src/pages/Feed.jsx:35-47 | against an unchanged server, Load More keeps the client holding exactly the first `page` feed pages, with hasMore false only once the feed is exhausted |
| FeedClient.ExhaustedFeed | frontend/src/pages/Feed.jsx:47 | once the client stops offering more, it holds the whole feed and every later page the server could send is empty |
| FeedClient.MoreRowsShowControl | frontend/src/pages/Feed.jsx:170 | while the server has rows the client does not show, the Load More control is shown |
| Interplay.FollowRaisesFollowerCount | backend/routes/users.js:43-50 | a follow raises the target's follower count by one when the edge is new, leaves their following count alone, and the follower sees "following" |
| Interplay.UnfollowLowersFollowerCount | backend/routes/users.js:43-50 | an unfollow lowers the target's follower count by one and the former follower no longer sees "following" |
| Interplay.PostsOfAfterCreate | backend/routes/users.js:53-56 | a new post is appended to its author's posts |
| Interplay.CreatedPostOnProfile | backend/routes/users.js:40-56 | a new post adds one to its author's post count and heads their profile's post list, followed by the old list |
| Interplay.ToggledPostsAreSetLikes | backend/routes/posts.js:82-87 | in a valid state a toggle changes only the counter of the toggled post in the post table |
| Interplay.FeedAfterSetLikes | backend/routes/posts.js:38 | changing one post's counter changes only that post's feed row, and only its counter |
| Interplay.LikeAnswerMatchesFeed | frontend/src/pages/Feed.jsx:59-61 | in a valid state, after a like or unlike the server's next feed is the old feed updated the way the page updates it with the answered counter |
| Interplay.ThreadAfterComment | backend/routes/comments.js:16-19 | a new comment by an existing user joins only its post's thread, at the end |
| Interplay.FeedAfterComment | backend/routes/posts.js:44-48 | a new comment by an existing user changes only its post's feed row, by appending it to the row's comments |
| Interplay.CommentAnswerMatchesFeed | frontend/src/pages/Feed.jsx:79-87 | after a comment by an existing user the server's next feed is the old feed with the comment appended under the commenter's username, which is the page's own update |

## Left out

- Comments.AddComment: the route inserts the comment before it looks up the post, so with no foreign key a comment on a missing post would stay in the table while the route answers 500. The model treats every handler as atomic: a 500 leaves the state unchanged.
- Posts.ToggleLike: for the same reason, the writes made before the failing counter update on a missing post are not modelled, and the 500 leaves the state unchanged. In the like branch the code would leave a new edge behind. In the unlike branch, an edge to a post that was deleted (deleting a post keeps its like edges) would be deleted by the code, but the model keeps it.
- Schema: the table definitions are not part of this model. The model assumes three facts about them:
  - each (follower, following) pair is unique, so the follow insert's conflict clause has something to conflict on. Follow edges are a set, and Follows.RepeatedFollow and Interplay.FollowRaisesFollowerCount rely on this.
  - a new post's likes counter starts at its column default 0 (Posts.CreatePost).
  - ids come from serial sequences and ascend in insertion order (the next-id counters and the key-freshness part of `Store.Valid`).
- Foreign keys, NOT NULL constraints and cascades are not modelled. Rows that reference missing users are dropped by the inner joins, as the queries do. Deleting a post does not cascade to its comments or like edges.
- Concurrency: each handler issues several queries without a transaction. Interleavings, and the counter drift they could cause, are not modelled.
- Timestamps: the model orders by id, which stands for created_at. The source's order among equal created_at values is unspecified.
- Users.Search: which five users are returned when more match is left to table order, since the query has no ORDER BY. `%`, `_` and the escape character `\` in the query are not escaped by the route, but are matched here as plain characters. Case folding is ASCII only.
- Text parsing of route parameters: ids arrive as `int`. A non-numeric `:userId`, which `parseInt` turns into NaN and the database rejects, is not modelled. The feed's page parameter is modelled, with `None` standing for NaN.
- Posts.Feed: the offset is computed with JavaScript floating-point numbers. Rounding near the bigint bound is not modelled; the model compares the exact offset with the bound.
- COUNT(*) is returned by the driver as a string; the model uses a natural number.
- bcrypt and jsonwebtoken internals, token expiry and the `iat` claim are not modelled. A bcrypt callback error, which gives 500, is not modelled either.
- AuthRoutes.RegisterThenLogin assumes the laws in `Tokens.Sound` rather than proving anything about bcrypt or jwt.
- Generic 500 answers raised by database exceptions in the catch blocks are not modelled.
- FeedClient.ApplyLike / FeedClient.ApplyComment: the model applies each answer to the page's current list. The page applies it to the list it rendered with, not through the updater form Load More uses. So overlapping answers can lose updates: a second like answer can restore the first post's old counter, and an answer that arrives after a Load More append can drop the appended rows.
- Interplay.CommentAnswerMatchesFeed: the page labels the new comment with the username stored in the browser, defaulting to "me". The lemma shows the agreement when that stored name is the commenter's own username.
- Feed page loading flags, error logging and rendering are not modelled. Neither are the other pages, the navigation bar, the axios interceptor or the server wiring, because they hold no decision logic.
