# Twitter-clone backend: the route handlers of `app.js`

The application is an Express server over one sqlite database, `twitterClone.db`, with
five tables: `user`, `follower`, `tweet`, `like` and `reply`. It serves these routes:

- registration and login, with bcrypt password hashes and a JWT signed over `{username}`;
- the `authenticationToken` middleware, which takes the second space-separated field of
  the `Authorization` header and verifies it as a JWT;
- read routes: the feed, the following and followers lists, one tweet with its counts,
  a tweet's likers and replies, and the user's own tweets;
- write routes: posting a tweet, and deleting a tweet together with its likes and replies.

This project models those handlers and proves what they promise.

Layout, one Dafny module per file:

- `tables.dfy` (`Tables`) holds the relational building blocks the SQL is written in. These
  are first-match lookup (`db.get`), filter, map, flat-map and cross product over row
  sequences. It also holds `ORDER BY … DESC LIMIT n` as `TopDesc`, unique keys, and the
  rowid sqlite assigns on INSERT, as `NextKey`.
- `schema.dfy` (`Schema`) holds the rows of the five tables, the JWT payload, the response
  payloads, the response messages and the two constants: minimum password length 6 and
  feed limit 4.
- `auth.dfy` (`Auth`) holds JavaScript's `split(' ')` and the middleware.
- `queries.dfy` (`Queries`) holds each SQL statement as a function over the tables. It also
  holds the shared guard chain of the per-tweet routes (`Authorize`, in two modes: visibility
  for the reads, ownership for delete) and the database constraints (`Consistent`: unique
  keys and usernames, no dangling ids), with the lemmas showing that every write keeps them.
- `app.dfy` (`App`) holds the handlers.
  - `Db` is the five tables as a value. The read routes, including login, are functions on it.
  - `Store` is a class whose five table fields the write routes replace in place. Those
    routes are register, post and delete. Each is a method with a `modifies` clause naming
    exactly the tables it changes.

Details of the code's behaviour that the model keeps:

- The middleware accepts any scheme word before the token, not only `Bearer`.
- An author can read their own tweet, and its likes and replies, only if a `follower` row
  has them following themselves (`Queries.OwnTweetNeedsSelfFollow`).
- An authenticated username with no `user` row makes the handler's `user.user_id` throw.
  The result is 500 "Server error". On the per-tweet routes this happens only after the
  tweet has been found.
- Feed entries are in non-increasing order of `date_time`; equal timestamps are allowed.

## Model

| member | source | states |
|---|---|---|
| Auth.Split | app.js:119 | `split(' ')` yields at least one field and no field contains a space |
| Auth.JoinSplit | app.js:119 | joining the fields of a split with single spaces gives back the header |
| Auth.SplitJoin | app.js:119 | splitting space-free fields joined by single spaces gives back the fields |
| Auth.SecondFieldAt | app.js:119 | `split(' ')[1]` is the text between the first space and the next space or the end |
| Auth.NoSpaceNoSecondField | app.js:119-124 | a header without a space has no second field, so the token is `undefined` |
| Auth.BearerToken | app.js:113-124 | a token survives exactly when the header is present and non-empty and its second field is present and non-empty |
| Auth.BearerTokenOf | app.js:113-124 | `<scheme> <token>` with space-free parts and a non-empty token yields that token |
| Auth.Authenticate | app.js:112-134 | a request is rejected when no token survives or `jwt.verify` fails; otherwise it is bound to the username the payload carries |
| Auth.IssuedTokenAuthenticates | app.js:100-101 | a JWT issued at login, sent as `Bearer <token>`, authenticates the user it was issued to |
| Queries.UserByUsername | app.js:38-41 | the lookup returns a row with that username, and returns nothing exactly when no row has it |
| Queries.UserByUsernameUnique | app.js:38-41 | with unique usernames the lookup returns the one row that has the username |
| Queries.TweetById | app.js:244-245 | the lookup returns a row with that id, and returns nothing exactly when no row has it |
| Queries.TweetByIdUnique | app.js:244-245 | with unique tweet ids the lookup returns the one row with the id |
| Queries.IsFollowing | app.js:226-233 | the helper is true exactly when the follower row (current user, author) exists |
| Queries.UsersWithId | app.js:163 | the join partners of a user id are the user rows with that id: at most one under unique ids, at least one when the user exists |
| Queries.FeedRowsFor | app.js:158-163 | a tweet joined with its author's rows gives exactly one `{username, tweet, dateTime}` per author row, in the order of those rows |
| Queries.AuthorFeedMembers | app.js:162-163 | a followed author contributes exactly the rows of its own tweets under its own username |
| Queries.AuthorFeedRows | app.js:161-163 | with unique user ids, an existing author's part of the join (`AuthorFeed`) holds exactly one row per tweet of the author, in table order, under the author's username |
| Queries.FeedJoinParts | app.js:161-164 | the feed join is the concatenation, over the user's follower rows in table order, of each followed author's part |
| Queries.FeedJoinMembers | app.js:161-164 | the feed join (`FeedJoin`, the follower rows of the user joined with their authors' tweets and user rows) holds a row exactly when it shows a tweet whose author the user follows |
| Queries.FeedRows | app.js:156-167 | the feed has min(join size, 4) rows taken from the join, newest first, and no row left out is newer than one kept |
| Queries.FeedEntriesAreFollowed | app.js:156-166 | every feed row is a tweet by a followed author, shown with that author's username |
| Queries.NewestFollowedTweetInFeed | app.js:156-166 | a followed author's tweet newer than every other tweet appears in the feed |
| Queries.OtherFeedRowOlder | app.js:158-165 | with unique user ids, every other row of the feed join is older than the row of the newest tweet |
| Queries.NamesWithId | app.js:187-189 | the names joined for a user id are those of the user rows with that id: at most one under unique ids |
| Queries.FollowsBy | app.js:188-190 | the follower rows selected are exactly those where the user follows |
| Queries.FollowsByCounts | app.js:188-190 | each follower row where the user follows is selected as often as the table holds it, and no other row is |
| Queries.FollowsOf | app.js:211-213 | the follower rows selected are exactly those where the user is followed |
| Queries.FollowsOfCounts | app.js:211-213 | each follower row where the user is followed is selected as often as the table holds it, and no other row is |
| Queries.FollowingNames | app.js:186-191 | with unique user ids and no dangling follows, one name per follower row of the user, in row order: entry `i` is the name of the user followed in row `i` |
| Queries.FollowingNamesMembers | app.js:186-191 | a name is listed exactly when a user the acting user follows has that name |
| Queries.FollowerNames | app.js:209-214 | with unique user ids and no dangling follows, one name per follower row pointing at the user, in row order: entry `i` is the name of the follower in row `i` |
| Queries.FollowerNamesMembers | app.js:209-214 | a name is listed exactly when a user who follows the acting user has that name |
| Queries.LikesOf | app.js:259-260 | the selected like rows are exactly the tweet's; unique like ids stay unique |
| Queries.RepliesOf | app.js:261-262 | the selected reply rows are exactly the tweet's; unique reply ids stay unique |
| Queries.LikesOfCounts | app.js:259-260 | each like row of the tweet is selected as often as the table holds it, and no other row is |
| Queries.RepliesOfCounts | app.js:261-262 | each reply row of the tweet is selected as often as the table holds it, and no other row is |
| Queries.UsernamesWithId | app.js:304-306 | the usernames joined for a user id are those of the user rows with that id |
| Queries.LikerUsernames | app.js:303-310 | with unique user ids and existing likers, one username per like row of the tweet, in row order: entry `i` is the username of the liker in row `i` |
| Queries.LikerUsernamesMembers | app.js:303-311 | a username is listed exactly when its user liked the tweet |
| Queries.ReplyRowsFor | app.js:346-348 | a reply joined with its author's rows gives exactly one `{name, reply}` per user row, in the order of those rows |
| Queries.ReplyRows | app.js:345-351 | with unique user ids and existing repliers, one row per reply to the tweet, in row order: entry `i` carries the text of reply `i` and its author's name |
| Queries.ReplyRowsMembers | app.js:345-352 | a row is listed exactly when it pairs a reply to the tweet with its author's name |
| Queries.TweetsBy | app.js:374-377 | the selected tweets are exactly the user's |
| Queries.TweetsByCounts | app.js:374-377 | each tweet of the user is selected as often as the table holds it, and no other row is |
| Queries.OrNull | app.js:375-376 | one side of a LEFT JOIN is never empty, and its non-NULL values are exactly the matched ids |
| Queries.DistinctLikesOfJoin | app.js:371-376 | after the double LEFT JOIN (`TweetJoinIds`, the pairs of like and reply ids, NULL when unmatched), the distinct like ids of a tweet's joined rows are exactly its like ids |
| Queries.DistinctRepliesOfJoin | app.js:372-376 | after the double LEFT JOIN, the distinct reply ids of a tweet's joined rows are exactly its reply ids |
| Queries.OwnRowOf | app.js:369-378 | a grouped row carries the tweet, its date, and the numbers of distinct like and reply ids |
| Queries.OwnRowCounts | app.js:371-372 | with unique like and reply ids, the distinct counts equal the numbers of like and reply rows |
| Queries.FreshTweetRow | app.js:368-378 | a tweet whose id no like or reply refers to groups into a row with 0 likes and 0 replies |
| Queries.OwnTweetRows | app.js:368-380 | the result is a permutation of the grouped rows before ORDER BY (`OwnRowsUnordered`, one per tweet of the user in table order), newest first |
| Queries.OwnTweetRowsCountTweets | app.js:368-380 | the grouped row of each tweet of the user is listed at least as often as the tweet table holds the tweet |
| Queries.OwnTweetRowsCover | app.js:368-380 | every tweet of the user has its grouped row in the result |
| Queries.OwnTweetRowsFrom | app.js:368-380 | every row of the result is the grouped row of one of the user's tweets |
| Queries.FirstTweetIsOnlyTweet | app.js:377 | after a user's first tweet is appended, it is the only tweet by that user |
| Queries.FirstTweetIsOnlyRow | app.js:368-380 | a user's first tweet is the one row of the user's own tweets, with no likes and no replies |
| Queries.Authorize | app.js:244-257 | no such tweet, then no acting user row, then the follow (read) or author (delete) rule; granted only when the rule holds, denied only when it fails |
| Queries.AuthorizeByRule | app.js:253-257 | with unique keys, the gate on an existing tweet and user is decided by the rule alone |
| Queries.OwnTweetNeedsSelfFollow | app.js:253-257 | an author may delete their tweet but reads it only if they follow themselves |
| Queries.WithoutTweet | app.js:436 | the DELETE keeps exactly the tweets with another id, and unique ids stay unique |
| Queries.WithoutLikes | app.js:438 | the DELETE keeps exactly the likes of other tweets, and unique ids stay unique |
| Queries.WithoutReplies | app.js:439 | the DELETE keeps exactly the replies to other tweets, and unique ids stay unique |
| Queries.DeleteKeepsOtherRows | app.js:436-439 | every row not of the deleted tweet stays, as many times as it was there |
| Queries.DeletedTweetNotFound | app.js:436 | once the tweet row is gone, the gate no longer finds the tweet |
| Queries.ConsistentAfterRegister | app.js:66-71 | inserting a user with a fresh username and a fresh id keeps the database consistent |
| Queries.ConsistentAfterCreate | app.js:399-403 | inserting a tweet by an existing user under a fresh id keeps the database consistent |
| Queries.ConsistentAfterDelete | app.js:436-439 | the three DELETEs together keep the database consistent |
| Queries.DeletingOnlyTheTweetBreaksLikes | app.js:437-439 | deleting the tweet row without its likes would leave likes dangling |
| Tables.SortDesc | app.js:165 | ORDER BY DESC returns a permutation of its input in non-increasing key order |
| Tables.TopDesc | app.js:165-166 | ORDER BY DESC LIMIT n keeps min(size, n) rows from the input, in non-increasing order, none left out greater than one kept |
| Tables.TakeSortedIsTop | app.js:165-166 | the first n rows of a sorted sequence are at least as great as every row after them |
| Tables.TakeSorted | app.js:165-166 | the first n rows of a sorted table are sorted, taken from it, and at least as great as every row left out |
| Tables.TopDescKeepsGreatest | app.js:165-166 | a row strictly greater than every other row survives the LIMIT |
| Tables.NextKey | app.js:67-71 | the rowid of an inserted row is greater than every id in use, 1 in an empty table, and one more than the largest id otherwise |
| App.GateOutcome | app.js:247-257 | a request stopped at the gate gets 500 exactly when the acting user has no row, and 401 "Invalid Request" otherwise |
| App.Db.Login | app.js:83-107 | an unknown username gives 400 "Invalid user", then a failed password comparison gives 400 "Invalid password"; a known username whose password matches its hash gets the token signed over `{username}`, and only such a login succeeds |
| App.Db.LoginFindsUser | app.js:86-102 | in a consistent database a user whose password matches its hash gets the token for its username |
| App.Db.GetFeed | app.js:148-175 | 500 exactly when the acting user has no row; otherwise 200 with the feed rows of that user's id: at most 4, newest first |
| App.Db.FeedShowsFollowedAuthors | app.js:156-169 | every feed row is a tweet of an author the acting user follows |
| App.Db.FollowerSeesNewestPost | app.js:156-169 | a followed author's tweet that is newer than every other tweet in the table shows in the follower's feed, under the author's username |
| App.Db.GetFollowing | app.js:181-198 | 500 exactly when the acting user has no row; otherwise 200 with the names of the users that user id follows |
| App.Db.FollowingListed | app.js:186-193 | a name is in the list exactly when the acting user follows a user of that name |
| App.Db.GetFollowers | app.js:204-221 | 500 exactly when the acting user has no row; otherwise 200 with the names of the users who follow that user id |
| App.Db.FollowersListed | app.js:209-216 | a name is in the list exactly when a user of that name follows the acting user |
| App.Db.FollowListsCountRows | app.js:186-216 | in a consistent database both lists hold one name per follower row |
| App.Db.GetTweet | app.js:239-274 | an unknown tweet gives 401 "Invalid Request"; a found tweet with no row for the acting user gives 500; success needs a follow edge to the author and returns the tweet, its like and reply counts and its date |
| App.Db.GetLikes | app.js:280-317 | an unknown tweet gives 401; a found tweet with no row for the acting user gives 500; success needs a follow edge to the author and lists the likers |
| App.Db.GetReplies | app.js:323-358 | an unknown tweet gives 401; a found tweet with no row for the acting user gives 500; success needs a follow edge to the author and lists the replies |
| App.Db.GatedReads | app.js:247-257 | in a consistent database the three tweet reads succeed exactly for followers of the author; everyone else gets 401 "Invalid Request" |
| App.Db.VisibleTweetDetails | app.js:259-269 | a follower sees the exact counts, one liker per like row and one reply row per reply |
| App.Db.GetOwnTweets | app.js:364-387 | 500 exactly when the acting user has no row; otherwise 200 with the grouped rows of that user id: one per tweet of the user, newest first |
| App.Db.OwnTweetsCountRows | app.js:368-382 | in a consistent database every own-tweet row counts the tweet's like and reply rows |
| App.Db.Get | app.js:112-134 | a rejected request gets 401 "Invalid JWT Token" and no handler runs; an accepted one runs the route's handler (`Handle`) for the bound username |
| App.Db.LoginTokenOpensRoutes | app.js:100-131 | the token a successful login returns, sent as `Bearer <token>`, opens every GET route for that user |
| App.Store.constructor | app.js:18-23 | opening a consistent database gives a store holding exactly its tables |
| App.Store.Register | app.js:48-77 | a taken username gives 400 "User already exists", then a short password gives 400 "Password is too short", both with no change; otherwise exactly one user row with the hash is appended under the next rowid; consistency is kept |
| App.Store.RegisterThenLogin | app.js:48-102 | registering a fresh username and then logging in with the same password appends exactly the new user row and returns the token for it; a taken username or a short password leaves the users unchanged and gives the matching 400 |
| App.Store.AppendTweet | app.js:399-403 | the INSERT appends exactly the given tweet row and keeps consistency |
| App.Store.PostAs | app.js:394-409 | an acting user with no row gives 500 and no change; otherwise exactly one tweet row is appended under the next rowid, which then lists with 0 likes and 0 replies |
| App.Store.PostTweet | app.js:394-409 | the middleware, then the create handler: a rejected request gets 401 and changes nothing |
| App.Store.PostFirstAndList | app.js:364-409 | a user's first tweet, made with a valid token, appends exactly one tweet row under the next id and is then the only row of their own tweets |
| App.Store.FirstTweetScenario | app.js:48-409 | register, log in, post with the token, list: exactly one user row and one tweet row are appended, under the next ids, and the list is exactly `{tweet, 0, 0, dateTime}` |
| App.Store.RemoveTweet | app.js:436-439 | the tweet row, its likes and its replies are removed and consistency is kept |
| App.Store.DeleteAs | app.js:415-447 | an unknown tweet or another user's tweet gives 401 with no change (500 if the acting user has no row); the author's delete removes exactly the tweet, its likes and its replies, after which the tweet, likes and replies routes give 401 |
| App.Store.DeleteTweet | app.js:415-447 | the middleware, then the delete handler: a rejected request gets 401 and changes nothing |

## Left out

- Express routing, request parsing, `async`/`await` and the sqlite driver's API are not modelled; each handler is one function or method over the tables.
- Concurrency between requests is not modelled, nor the race between a gate check and the statement after it.
- bcrypt is not modelled. `hash` (salt included) and `compare` are parameters.
- JWT signing and verification are not modelled. `sign` and `verify`, under the fixed secret, are parameters. So a tampered or foreign token failing verification is an assumption about `verify`, not a theorem.
- `datetime('now')` is the parameter `now`, and `date_time` is an integer timestamp. The canonical text form sqlite writes sorts the same way.
- The `tweetId` path parameter is an integer. sqlite's conversion of the text parameter to the column's affinity is not modelled.
- Request bodies with missing fields are not modelled: an undefined `password` throws in `password.length` and gives 500, and the text of a tweet is always a string.
- The only 500 "Server error" path modelled is the acting user with no row. Store errors, thrown callbacks and the `console` logging in each `catch` are left out.
- A JWT payload without a `username` claim is not modelled: `Claims` always carries one. The `iat` claim the signing library adds is absorbed into the per-call `sign` parameter, as the salt is absorbed into `hash`.
- Store.Register: `password.length` counts UTF-16 code units; the model counts Unicode scalar values, so an astral character counts once here but twice in the code.
- Tables.NextKey: it assumes each id column is an `INTEGER PRIMARY KEY` without AUTOINCREMENT, so a new row gets the largest id in use plus one. With AUTOINCREMENT, ids of deleted rows would not be reused.
- Tables.NextKey: sqlite falls back to a random unused rowid when the largest rowid is at its 64-bit maximum; the model always uses the largest id plus one.
- Queries.LikerUsernames: the list is stated row by row only when user ids are unique and every liker exists; without those constraints only membership is stated.
- Queries.ReplyRows: the list is stated row by row only when user ids are unique and every replier exists; otherwise only membership is stated.
- Queries.FollowingNames: the list is stated row by row only when user ids are unique and every followed user exists; otherwise only membership is stated.
- Queries.FollowerNames: the list is stated row by row only when user ids are unique and every follower exists; otherwise only membership is stated.
- Queries.OwnTweetRows: a sqlite sort is not stable and the order among tweets with equal `date_time` is unspecified; the model fixes one order and states only non-increasing dates and a permutation. The same holds for the table order of every other query without ORDER BY.
- A consistent database is assumed: the constructor and every write method of `App.Store` require `Consistent` (unique keys and usernames, no dangling ids). `app.js` never checks this, and sqlite does not enforce foreign keys unless they are switched on. It is an assumption about the database the server opens. Facts that rest on it, such as a new tweet listing with 0 likes and 0 replies, hold only for such a database.
- `GROUP BY t.tweet_id` is modelled as one group per tweet row, which relies on unique tweet ids.
- The `follower` table's own `follower_id` key column is not modelled.
- Server start-up (`app.listen`, `process.exit` on a failed open), `JWT_SECRET` and `module.exports` are not modelled.
- App.Store.PostFirstAndList: the own-tweets list is read through the handler, not through the middleware dispatch `Get`. That the login token opens every route is stated separately by App.Db.LoginTokenOpensRoutes.
