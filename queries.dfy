/** The SQL statements of the handlers, each as a function over the five tables,
    the authorization gate that precedes the per-tweet endpoints, and the
    integrity constraints every write keeps. */
module Queries {
  import opened Tables
  import opened Schema

  // ---------------------------------------------------------------- lookups

  /** `SELECT * FROM user WHERE username = ?` through `db.get` (getUserByUsername and
      getCurrentUser run this same query). */
  function UserByUsername(users: seq<User>, username: string): (r: Option<User>)
    ensures r.Some? ==> r.value in users && r.value.username == username
    ensures r.None? <==> forall u :: u in users ==> u.username != username
  {
    First(users, (u: User) => u.username == username)
  }

  /** `SELECT * FROM tweet WHERE tweet_id = ?` through `db.get`. */
  function TweetById(tweets: seq<Tweet>, tweetId: int): (r: Option<Tweet>)
    ensures r.Some? ==> r.value in tweets && r.value.tweetId == tweetId
    ensures r.None? <==> forall t :: t in tweets ==> t.tweetId != tweetId
  {
    First(tweets, (t: Tweet) => t.tweetId == tweetId)
  }

  /** isFollowing: some `follower` row has exactly this follower and this followed user. */
  function IsFollowing(follows: seq<Follower>, currentUserId: int, authorId: int): (r: bool)
    ensures r <==> Follower(currentUserId, authorId) in follows
  {
    First(follows, (f: Follower) => f.followerUserId == currentUserId && f.followingUserId == authorId).Some?
  }

  /** No two users share a username. */
  predicate UniqueUsernames(users: seq<User>)
  {
    forall i, j :: 0 <= i < j < |users| ==> users[i].username != users[j].username
  }

  /** With unique usernames the lookup finds the one row that has the username. */
  lemma UserByUsernameUnique(users: seq<User>, u: User)
    requires UniqueUsernames(users)
    requires u in users
    ensures UserByUsername(users, u.username) == Some(u)
  {
    var r := UserByUsername(users, u.username).value;
    var i :| 0 <= i < |users| && users[i] == r;
    var j :| 0 <= j < |users| && users[j] == u;
    assert !(i < j) && !(j < i);
  }

  /** With a unique tweet id the lookup finds the one row that has the id. */
  lemma TweetByIdUnique(tweets: seq<Tweet>, t: Tweet)
    requires UniqueBy(tweets, TweetIdOf)
    requires t in tweets
    ensures TweetById(tweets, t.tweetId) == Some(t)
  {
    var r := TweetById(tweets, t.tweetId).value;
    var i :| 0 <= i < |tweets| && tweets[i] == r;
    var j :| 0 <= j < |tweets| && tweets[j] == t;
    assert TweetIdOf(tweets[i]) == TweetIdOf(tweets[j]);
    assert !(i < j) && !(j < i);
  }

  // ------------------------------------------------------------ inner joins

  /** The user rows with a given id: the partner rows of `INNER JOIN user u ON u.user_id = ?`. */
  function UsersWithId(users: seq<User>, userId: int): (r: seq<User>)
    ensures forall u :: u in r <==> u in users && u.userId == userId
    ensures UniqueBy(users, UserIdOf) ==> |r| <= 1
    ensures (exists u :: u in users && u.userId == userId) ==> |r| >= 1
  {
    var p := (u: User) => u.userId == userId;
    var r := Filter(users, p);
    FilterKeepsUnique(users, p, UserIdOf);
    SameKeyAtMostOne(r, UserIdOf, userId);
    r
  }

  /** The feed row of tweet `t` for each user row in `us`. */
  function FeedRowsFor(t: Tweet, us: seq<User>): (r: seq<FeedRow>)
    ensures |r| == |us|
    ensures forall i :: 0 <= i < |us| ==> r[i] == FeedRow(us[i].username, t.tweet, t.dateTime)
    ensures forall row :: row in r <==> exists u :: u in us && row == FeedRow(u.username, t.tweet, t.dateTime)
  {
    var rowOf := (u: User) => FeedRow(u.username, t.tweet, t.dateTime);
    MapMembers(us, rowOf);
    Map(us, rowOf)
  }

  /** The rows one followed author contributes to the feed join: the author's tweets, each
      joined with the user rows that carry the author's id. */
  function AuthorFeed(tweets: seq<Tweet>, users: seq<User>, authorId: int): seq<FeedRow>
  {
    var rowsOf := (t: Tweet) => if t.userId == authorId then FeedRowsFor(t, UsersWithId(users, authorId)) else [];
    FlatMap(tweets, rowsOf)
  }

  /** An author contributes the feed row of each of its tweets, under its username. */
  lemma AuthorFeedMembers(tweets: seq<Tweet>, users: seq<User>, authorId: int, row: FeedRow)
    ensures row in AuthorFeed(tweets, users, authorId) <==>
      exists t, u :: t in tweets && t.userId == authorId && u in users && u.userId == authorId &&
                     row == FeedRow(u.username, t.tweet, t.dateTime)
  {
    var rowsOf := (t: Tweet) => if t.userId == authorId then FeedRowsFor(t, UsersWithId(users, authorId)) else [];
    assert AuthorFeed(tweets, users, authorId) == FlatMap(tweets, rowsOf);
    FlatMapMembers(tweets, rowsOf);
    if exists t, u :: t in tweets && t.userId == authorId && u in users && u.userId == authorId &&
                      row == FeedRow(u.username, t.tweet, t.dateTime) {
      var t, u :| t in tweets && t.userId == authorId && u in users && u.userId == authorId &&
                  row == FeedRow(u.username, t.tweet, t.dateTime);
      assert row in rowsOf(t);
    }
  }

  /** With unique user ids, the only user row joined for an existing author is the author's. */
  lemma AuthorIsOnlyUserWithId(users: seq<User>, author: User)
    requires UniqueBy(users, UserIdOf) && author in users
    ensures UsersWithId(users, author.userId) == [author]
  {
    var same := UsersWithId(users, author.userId);
    assert same[0] in same;
    SameKeySameRow(users, UserIdOf, same[0], author);
  }

  /** With unique user ids, an existing author contributes exactly one row per tweet of its
      own, in table order, under its username. */
  lemma {:induction false} AuthorFeedRows(tweets: seq<Tweet>, users: seq<User>, author: User)
    requires UniqueBy(users, UserIdOf) && author in users
    ensures |AuthorFeed(tweets, users, author.userId)| == |TweetsBy(tweets, author.userId)|
    ensures forall i :: 0 <= i < |TweetsBy(tweets, author.userId)| ==>
      AuthorFeed(tweets, users, author.userId)[i] ==
        FeedRow(author.username, TweetsBy(tweets, author.userId)[i].tweet, TweetsBy(tweets, author.userId)[i].dateTime)
    decreases |tweets|
  {
    if |tweets| > 0 {
      AuthorFeedRows(tweets[1..], users, author);
      AuthorFeedStep(tweets, users, author);
    }
  }

  /** The inductive step of `AuthorFeedRows`: the first tweet adds its row in front exactly
      when the author wrote it. */
  lemma AuthorFeedStep(tweets: seq<Tweet>, users: seq<User>, author: User)
    requires UniqueBy(users, UserIdOf) && author in users && |tweets| > 0
    ensures AuthorFeed(tweets, users, author.userId) ==
      (if tweets[0].userId == author.userId then [FeedRow(author.username, tweets[0].tweet, tweets[0].dateTime)] else []) +
      AuthorFeed(tweets[1..], users, author.userId)
    ensures TweetsBy(tweets, author.userId) ==
      (if tweets[0].userId == author.userId then [tweets[0]] else []) + TweetsBy(tweets[1..], author.userId)
  {
    AuthorFeedCons(tweets, users, author.userId);
    AuthorTweetRow(tweets[0], users, author);
    TweetsByCons(tweets, author.userId);
  }

  /** An author's part of the join starts with the rows of the first tweet. */
  lemma AuthorFeedCons(tweets: seq<Tweet>, users: seq<User>, authorId: int)
    requires |tweets| > 0
    ensures AuthorFeed(tweets, users, authorId) ==
      (if tweets[0].userId == authorId then FeedRowsFor(tweets[0], UsersWithId(users, authorId)) else []) +
      AuthorFeed(tweets[1..], users, authorId)
  {
    var rowsOf := (t: Tweet) => if t.userId == authorId then FeedRowsFor(t, UsersWithId(users, authorId)) else [];
    assert AuthorFeed(tweets, users, authorId) == FlatMap(tweets, rowsOf);
    assert AuthorFeed(tweets[1..], users, authorId) == FlatMap(tweets[1..], rowsOf);
  }

  /** With unique user ids, a tweet by an existing author joins to the one row under the author's username. */
  lemma AuthorTweetRow(t: Tweet, users: seq<User>, author: User)
    requires UniqueBy(users, UserIdOf) && author in users
    ensures FeedRowsFor(t, UsersWithId(users, author.userId)) == [FeedRow(author.username, t.tweet, t.dateTime)]
  {
    AuthorIsOnlyUserWithId(users, author);
  }

  /** A user's tweets start with the first tweet when the user wrote it. */
  lemma TweetsByCons(tweets: seq<Tweet>, userId: int)
    requires |tweets| > 0
    ensures TweetsBy(tweets, userId) == (if tweets[0].userId == userId then [tweets[0]] else []) + TweetsBy(tweets[1..], userId)
  {
    var mine := (t: Tweet) => t.userId == userId;
    assert TweetsBy(tweets, userId) == Filter(tweets, mine);
    assert TweetsBy(tweets[1..], userId) == Filter(tweets[1..], mine);
  }

  /** `FROM follower f INNER JOIN tweet t ... INNER JOIN user u ... WHERE f.follower_user_id = ?`,
      before ORDER BY and LIMIT. */
  function FeedJoin(follows: seq<Follower>, tweets: seq<Tweet>, users: seq<User>, userId: int): seq<FeedRow>
  {
    var rowsOf := (f: Follower) => if f.followerUserId == userId then AuthorFeed(tweets, users, f.followingUserId) else [];
    FlatMap(follows, rowsOf)
  }

  /** The join is the concatenation, over the user's follower rows in table order, of the
      followed author's rows. */
  lemma FeedJoinParts(follows: seq<Follower>, tweets: seq<Tweet>, users: seq<User>, userId: int)
    ensures FeedJoin(follows, tweets, users, userId) ==
      FlatMap(FollowsBy(follows, userId), (f: Follower) => AuthorFeed(tweets, users, f.followingUserId))
  {
    var rowsOf := (f: Follower) => if f.followerUserId == userId then AuthorFeed(tweets, users, f.followingUserId) else [];
    var partOf := (f: Follower) => AuthorFeed(tweets, users, f.followingUserId);
    var mine := (f: Follower) => f.followerUserId == userId;
    assert FeedJoin(follows, tweets, users, userId) == FlatMap(follows, rowsOf);
    assert FollowsBy(follows, userId) == Filter(follows, mine);
    FlatMapFilter(follows, mine, partOf, rowsOf);
  }

  /** The join holds the feed row of every tweet by a followed author, and nothing else. */
  lemma FeedJoinMembers(follows: seq<Follower>, tweets: seq<Tweet>, users: seq<User>, userId: int, row: FeedRow)
    ensures row in FeedJoin(follows, tweets, users, userId) <==>
      exists t, u :: t in tweets && u in users && Follower(userId, t.userId) in follows &&
                     u.userId == t.userId && row == FeedRow(u.username, t.tweet, t.dateTime)
  {
    var rowsOf := (f: Follower) => if f.followerUserId == userId then AuthorFeed(tweets, users, f.followingUserId) else [];
    assert FeedJoin(follows, tweets, users, userId) == FlatMap(follows, rowsOf);
    FlatMapMembers(follows, rowsOf);
    if row in FeedJoin(follows, tweets, users, userId) {
      var f :| f in follows && row in rowsOf(f);
      AuthorFeedMembers(tweets, users, f.followingUserId, row);
      var t, u :| t in tweets && t.userId == f.followingUserId && u in users && u.userId == f.followingUserId &&
                  row == FeedRow(u.username, t.tweet, t.dateTime);
      assert f == Follower(userId, t.userId);
    }
    if exists t, u :: t in tweets && u in users && Follower(userId, t.userId) in follows &&
                      u.userId == t.userId && row == FeedRow(u.username, t.tweet, t.dateTime) {
      var t, u :| t in tweets && u in users && Follower(userId, t.userId) in follows &&
                  u.userId == t.userId && row == FeedRow(u.username, t.tweet, t.dateTime);
      AuthorFeedMembers(tweets, users, t.userId, row);
      assert row in rowsOf(Follower(userId, t.userId));
    }
  }

  /** The feed query: the join, `ORDER BY t.date_time DESC LIMIT 4` -- at most four rows,
      newest first, and no row left out is newer than a row kept. */
  function FeedRows(follows: seq<Follower>, tweets: seq<Tweet>, users: seq<User>, userId: int): (r: seq<FeedRow>)
    ensures |r| == if |FeedJoin(follows, tweets, users, userId)| < FeedLimit then |FeedJoin(follows, tweets, users, userId)| else FeedLimit
    ensures multiset(r) <= multiset(FeedJoin(follows, tweets, users, userId))
    ensures SortedDesc(r, FeedTime)
    ensures forall i, row :: 0 <= i < |r| && row in multiset(FeedJoin(follows, tweets, users, userId)) - multiset(r) ==>
      FeedTime(row) <= FeedTime(r[i])
  {
    TopDesc(FeedJoin(follows, tweets, users, userId), FeedTime, FeedLimit)
  }

  /** Every feed entry is a tweet by an author the user follows, shown with the author's username. */
  lemma FeedEntriesAreFollowed(follows: seq<Follower>, tweets: seq<Tweet>, users: seq<User>, userId: int, row: FeedRow)
    requires row in FeedRows(follows, tweets, users, userId)
    ensures exists t, u :: t in tweets && u in users && Follower(userId, t.userId) in follows &&
                           u.userId == t.userId && row == FeedRow(u.username, t.tweet, t.dateTime)
  {
    assert row in multiset(FeedRows(follows, tweets, users, userId));
    FeedJoinMembers(follows, tweets, users, userId, row);
  }

  /** A followed author's tweet that is newer than every other tweet is in the feed. */
  lemma NewestFollowedTweetInFeed(follows: seq<Follower>, tweets: seq<Tweet>, users: seq<User>, userId: int,
                                  author: User, t: Tweet)
    requires UniqueBy(users, UserIdOf)
    requires author in users && t in tweets && t.userId == author.userId
    requires Follower(userId, author.userId) in follows
    requires forall x :: x in tweets && x != t ==> x.dateTime < t.dateTime
    ensures FeedRow(author.username, t.tweet, t.dateTime) in FeedRows(follows, tweets, users, userId)
  {
    var join := FeedJoin(follows, tweets, users, userId);
    var row := FeedRow(author.username, t.tweet, t.dateTime);
    FeedJoinMembers(follows, tweets, users, userId, row);
    forall e | e in join && e != row ensures FeedTime(e) < FeedTime(row) {
      OtherFeedRowOlder(follows, tweets, users, userId, author, t, e);
    }
    TopDescKeepsGreatest(join, FeedTime, FeedLimit, row);
  }

  /** Every other row of the feed join shows an older tweet than the newest tweet's row. */
  lemma OtherFeedRowOlder(follows: seq<Follower>, tweets: seq<Tweet>, users: seq<User>, userId: int,
                          author: User, t: Tweet, e: FeedRow)
    requires UniqueBy(users, UserIdOf)
    requires author in users && t.userId == author.userId
    requires forall x :: x in tweets && x != t ==> x.dateTime < t.dateTime
    requires e in FeedJoin(follows, tweets, users, userId) && e != FeedRow(author.username, t.tweet, t.dateTime)
    ensures e.dateTime < t.dateTime
  {
    FeedJoinMembers(follows, tweets, users, userId, e);
    var x, u :| x in tweets && u in users && Follower(userId, x.userId) in follows &&
                u.userId == x.userId && e == FeedRow(u.username, x.tweet, x.dateTime);
    SameKeySameRow(users, UserIdOf, u, author);
    assert x == t ==> u == author;
  }

  /** The names of users with a given id (`SELECT u.name ... INNER JOIN user u ON u.user_id = ?`). */
  function NamesWithId(users: seq<User>, userId: int): (r: seq<string>)
    ensures forall n :: n in r <==> exists u :: u in users && u.userId == userId && u.name == n
    ensures UniqueBy(users, UserIdOf) ==> |r| <= 1
    ensures (exists u :: u in users && u.userId == userId) ==> |r| >= 1
  {
    var nameOf := (u: User) => u.name;
    MapMembers(UsersWithId(users, userId), nameOf);
    Map(UsersWithId(users, userId), nameOf)
  }

  /** The follower rows a user appears in as the follower (`WHERE f.follower_user_id = ?`). */
  function FollowsBy(follows: seq<Follower>, userId: int): (r: seq<Follower>)
    ensures forall f :: f in r <==> f in follows && f.followerUserId == userId
  {
    Filter(follows, (f: Follower) => f.followerUserId == userId)
  }

  /** The follower rows a user appears in as the followed user (`WHERE f.following_user_id = ?`). */
  function FollowsOf(follows: seq<Follower>, userId: int): (r: seq<Follower>)
    ensures forall f :: f in r <==> f in follows && f.followingUserId == userId
  {
    Filter(follows, (f: Follower) => f.followingUserId == userId)
  }

  /** Each follower row of `userId` is kept as often as the table holds it, and no other row is. */
  lemma FollowsByCounts(follows: seq<Follower>, userId: int, f: Follower)
    ensures multiset(FollowsBy(follows, userId))[f] == if f.followerUserId == userId then multiset(follows)[f] else 0
  {
    var mine := (x: Follower) => x.followerUserId == userId;
    assert FollowsBy(follows, userId) == Filter(follows, mine);
    FilterMultiset(follows, mine);
  }

  /** Each row following `userId` is kept as often as the table holds it, and no other row is. */
  lemma FollowsOfCounts(follows: seq<Follower>, userId: int, f: Follower)
    ensures multiset(FollowsOf(follows, userId))[f] == if f.followingUserId == userId then multiset(follows)[f] else 0
  {
    var theirs := (x: Follower) => x.followingUserId == userId;
    assert FollowsOf(follows, userId) == Filter(follows, theirs);
    FilterMultiset(follows, theirs);
  }

  /** `GET /user/following/`: the names of the users `userId` follows, one per follower row
      when every followed id has exactly one user row. */
  function FollowingNames(follows: seq<Follower>, users: seq<User>, userId: int): (r: seq<string>)
    ensures UniqueBy(users, UserIdOf) && (forall f :: f in follows ==> HasUser(users, f.followingUserId)) ==>
      |r| == |FollowsBy(follows, userId)| &&
      forall i :: 0 <= i < |r| ==> r[i] in NamesWithId(users, FollowsBy(follows, userId)[i].followingUserId)
  {
    var namesOf := (f: Follower) => NamesWithId(users, f.followingUserId);
    var mine := FollowsBy(follows, userId);
    FlatMapSingletons(mine, namesOf);
    FlatMap(mine, namesOf)
  }

  /** A name is listed exactly when it is the name of a user that `userId` follows. */
  lemma FollowingNamesMembers(follows: seq<Follower>, users: seq<User>, userId: int, n: string)
    ensures n in FollowingNames(follows, users, userId) <==>
      exists u :: u in users && Follower(userId, u.userId) in follows && u.name == n
  {
    var namesOf := (f: Follower) => NamesWithId(users, f.followingUserId);
    assert FollowingNames(follows, users, userId) == FlatMap(FollowsBy(follows, userId), namesOf);
    FlatMapMembers(FollowsBy(follows, userId), namesOf);
    if n in FollowingNames(follows, users, userId) {
      var f :| f in FollowsBy(follows, userId) && n in namesOf(f);
      var u :| u in users && u.userId == f.followingUserId && u.name == n;
      assert f == Follower(userId, u.userId);
    }
    if exists u :: u in users && Follower(userId, u.userId) in follows && u.name == n {
      var u :| u in users && Follower(userId, u.userId) in follows && u.name == n;
      assert n in namesOf(Follower(userId, u.userId));
    }
  }

  /** `GET /user/followers/`: the names of the users who follow `userId`, one per follower row
      when every follower id has exactly one user row. */
  function FollowerNames(follows: seq<Follower>, users: seq<User>, userId: int): (r: seq<string>)
    ensures UniqueBy(users, UserIdOf) && (forall f :: f in follows ==> HasUser(users, f.followerUserId)) ==>
      |r| == |FollowsOf(follows, userId)| &&
      forall i :: 0 <= i < |r| ==> r[i] in NamesWithId(users, FollowsOf(follows, userId)[i].followerUserId)
  {
    var namesOf := (f: Follower) => NamesWithId(users, f.followerUserId);
    var theirs := FollowsOf(follows, userId);
    FlatMapSingletons(theirs, namesOf);
    FlatMap(theirs, namesOf)
  }

  /** A name is listed exactly when it is the name of a user who follows `userId`. */
  lemma FollowerNamesMembers(follows: seq<Follower>, users: seq<User>, userId: int, n: string)
    ensures n in FollowerNames(follows, users, userId) <==>
      exists u :: u in users && Follower(u.userId, userId) in follows && u.name == n
  {
    var namesOf := (f: Follower) => NamesWithId(users, f.followerUserId);
    assert FollowerNames(follows, users, userId) == FlatMap(FollowsOf(follows, userId), namesOf);
    FlatMapMembers(FollowsOf(follows, userId), namesOf);
    if n in FollowerNames(follows, users, userId) {
      var f :| f in FollowsOf(follows, userId) && n in namesOf(f);
      var u :| u in users && u.userId == f.followerUserId && u.name == n;
      assert f == Follower(u.userId, userId);
    }
    if exists u :: u in users && Follower(u.userId, userId) in follows && u.name == n {
      var u :| u in users && Follower(u.userId, userId) in follows && u.name == n;
      assert n in namesOf(Follower(u.userId, userId));
    }
  }

  // ------------------------------------------------------- likes and replies

  /** The `like` rows of a tweet (`FROM "like" WHERE tweet_id = ?`). */
  function LikesOf(likes: seq<Like>, tweetId: int): (r: seq<Like>)
    ensures forall l :: l in r <==> l in likes && l.tweetId == tweetId
    ensures UniqueBy(likes, LikeIdOf) ==> UniqueBy(r, LikeIdOf)
  {
    var p := (l: Like) => l.tweetId == tweetId;
    FilterKeepsUnique(likes, p, LikeIdOf);
    Filter(likes, p)
  }

  /** The `reply` rows of a tweet (`FROM reply WHERE tweet_id = ?`). */
  function RepliesOf(replies: seq<Reply>, tweetId: int): (r: seq<Reply>)
    ensures forall x :: x in r <==> x in replies && x.tweetId == tweetId
    ensures UniqueBy(replies, ReplyIdOf) ==> UniqueBy(r, ReplyIdOf)
  {
    var p := (x: Reply) => x.tweetId == tweetId;
    FilterKeepsUnique(replies, p, ReplyIdOf);
    Filter(replies, p)
  }

  /** Each like row of the tweet is kept as often as the table holds it, and no other row is. */
  lemma LikesOfCounts(likes: seq<Like>, tweetId: int, l: Like)
    ensures multiset(LikesOf(likes, tweetId))[l] == if l.tweetId == tweetId then multiset(likes)[l] else 0
  {
    var p := (x: Like) => x.tweetId == tweetId;
    assert LikesOf(likes, tweetId) == Filter(likes, p);
    FilterMultiset(likes, p);
  }

  /** Each reply row of the tweet is kept as often as the table holds it, and no other row is. */
  lemma RepliesOfCounts(replies: seq<Reply>, tweetId: int, x: Reply)
    ensures multiset(RepliesOf(replies, tweetId))[x] == if x.tweetId == tweetId then multiset(replies)[x] else 0
  {
    var p := (y: Reply) => y.tweetId == tweetId;
    assert RepliesOf(replies, tweetId) == Filter(replies, p);
    FilterMultiset(replies, p);
  }

  /** The usernames of users with a given id. */
  function UsernamesWithId(users: seq<User>, userId: int): (r: seq<string>)
    ensures forall n :: n in r <==> exists u :: u in users && u.userId == userId && u.username == n
    ensures UniqueBy(users, UserIdOf) ==> |r| <= 1
    ensures (exists u :: u in users && u.userId == userId) ==> |r| >= 1
  {
    var usernameOf := (u: User) => u.username;
    MapMembers(UsersWithId(users, userId), usernameOf);
    Map(UsersWithId(users, userId), usernameOf)
  }

  /** The likers of a tweet: its `like` rows joined with `user` on the user id, projected to
      the usernames; one per like row when every liker has exactly one user row. */
  function LikerUsernames(likes: seq<Like>, users: seq<User>, tweetId: int): (r: seq<string>)
    ensures UniqueBy(users, UserIdOf) && (forall l :: l in likes ==> HasUser(users, l.userId)) ==>
      |r| == |LikesOf(likes, tweetId)| &&
      forall i :: 0 <= i < |r| ==> r[i] in UsernamesWithId(users, LikesOf(likes, tweetId)[i].userId)
  {
    var namesOf := (l: Like) => UsernamesWithId(users, l.userId);
    var rows := LikesOf(likes, tweetId);
    FlatMapSingletons(rows, namesOf);
    FlatMap(rows, namesOf)
  }

  /** A username is listed exactly when its user liked the tweet. */
  lemma LikerUsernamesMembers(likes: seq<Like>, users: seq<User>, tweetId: int, n: string)
    ensures n in LikerUsernames(likes, users, tweetId) <==>
      exists l, u :: l in likes && l.tweetId == tweetId && u in users && u.userId == l.userId && u.username == n
  {
    var namesOf := (l: Like) => UsernamesWithId(users, l.userId);
    assert LikerUsernames(likes, users, tweetId) == FlatMap(LikesOf(likes, tweetId), namesOf);
    FlatMapMembers(LikesOf(likes, tweetId), namesOf);
    if n in LikerUsernames(likes, users, tweetId) {
      var l :| l in LikesOf(likes, tweetId) && n in namesOf(l);
      var u :| u in users && u.userId == l.userId && u.username == n;
    }
    if exists l, u :: l in likes && l.tweetId == tweetId && u in users && u.userId == l.userId && u.username == n {
      var l, u :| l in likes && l.tweetId == tweetId && u in users && u.userId == l.userId && u.username == n;
      assert n in namesOf(l);
    }
  }

  /** The reply row of reply `x` for each user row in `us`. */
  function ReplyRowsFor(x: Reply, us: seq<User>): (r: seq<ReplyRow>)
    ensures |r| == |us|
    ensures forall i :: 0 <= i < |us| ==> r[i] == ReplyRow(us[i].name, x.reply)
    ensures forall row :: row in r <==> exists u :: u in us && row == ReplyRow(u.name, x.reply)
  {
    var rowOf := (u: User) => ReplyRow(u.name, x.reply);
    MapMembers(us, rowOf);
    Map(us, rowOf)
  }

  /** A row joined from a reply carries the reply's text and the name of a user with the reply's user id. */
  lemma ReplyRowFields(x: Reply, users: seq<User>, row: ReplyRow)
    requires row in ReplyRowsFor(x, UsersWithId(users, x.userId))
    ensures row.reply == x.reply && row.name in NamesWithId(users, x.userId)
  {
    var u :| u in UsersWithId(users, x.userId) && row == ReplyRow(u.name, x.reply);
  }

  /** The replies of a tweet: its `reply` rows joined with `user` on the user id, as
      `{name, reply}`; one row per reply when every replier has exactly one user row. */
  function ReplyRows(replies: seq<Reply>, users: seq<User>, tweetId: int): (r: seq<ReplyRow>)
    ensures UniqueBy(users, UserIdOf) && (forall x :: x in replies ==> HasUser(users, x.userId)) ==>
      |r| == |RepliesOf(replies, tweetId)| &&
      forall i :: 0 <= i < |r| ==>
        r[i].reply == RepliesOf(replies, tweetId)[i].reply &&
        r[i].name in NamesWithId(users, RepliesOf(replies, tweetId)[i].userId)
  {
    var rowsOf := (x: Reply) => ReplyRowsFor(x, UsersWithId(users, x.userId));
    var rows := RepliesOf(replies, tweetId);
    FlatMapSingletons(rows, rowsOf);
    var r := FlatMap(rows, rowsOf);
    assert (forall x :: x in rows ==> |rowsOf(x)| == 1) ==>
      forall i :: 0 <= i < |r| ==> r[i].reply == rows[i].reply && r[i].name in NamesWithId(users, rows[i].userId) by {
      if forall x :: x in rows ==> |rowsOf(x)| == 1 {
        forall i | 0 <= i < |r| ensures r[i].reply == rows[i].reply && r[i].name in NamesWithId(users, rows[i].userId) {
          assert r[i] in rowsOf(rows[i]);
          ReplyRowFields(rows[i], users, r[i]);
        }
      }
    }
    r
  }

  /** A row is listed exactly when it pairs a reply to the tweet with its author's name. */
  lemma ReplyRowsMembers(replies: seq<Reply>, users: seq<User>, tweetId: int, row: ReplyRow)
    ensures row in ReplyRows(replies, users, tweetId) <==>
      exists x, u :: x in replies && x.tweetId == tweetId && u in users && u.userId == x.userId && row == ReplyRow(u.name, x.reply)
  {
    var rowsOf := (x: Reply) => ReplyRowsFor(x, UsersWithId(users, x.userId));
    assert ReplyRows(replies, users, tweetId) == FlatMap(RepliesOf(replies, tweetId), rowsOf);
    FlatMapMembers(RepliesOf(replies, tweetId), rowsOf);
    if row in ReplyRows(replies, users, tweetId) {
      var x :| x in RepliesOf(replies, tweetId) && row in rowsOf(x);
      var u :| u in UsersWithId(users, x.userId) && row == ReplyRow(u.name, x.reply);
    }
    if exists x, u :: x in replies && x.tweetId == tweetId && u in users && u.userId == x.userId && row == ReplyRow(u.name, x.reply) {
      var x, u :| x in replies && x.tweetId == tweetId && u in users && u.userId == x.userId && row == ReplyRow(u.name, x.reply);
      assert u in UsersWithId(users, x.userId);
      assert row in rowsOf(x);
    }
  }

  // ------------------------------------------------------------- own tweets

  /** The tweets a user wrote (`FROM tweet t WHERE t.user_id = ?`). */
  function TweetsBy(tweets: seq<Tweet>, userId: int): (r: seq<Tweet>)
    ensures forall t :: t in r <==> t in tweets && t.userId == userId
  {
    Filter(tweets, (t: Tweet) => t.userId == userId)
  }

  /** Each tweet of `userId` is kept as often as the table holds it, and no other row is. */
  lemma TweetsByCounts(tweets: seq<Tweet>, userId: int, t: Tweet)
    ensures multiset(TweetsBy(tweets, userId))[t] == if t.userId == userId then multiset(tweets)[t] else 0
  {
    var mine := (x: Tweet) => x.userId == userId;
    assert TweetsBy(tweets, userId) == Filter(tweets, mine);
    FilterMultiset(tweets, mine);
  }

  /** One side of a LEFT JOIN: the matched ids, or a single NULL when nothing matched. */
  function OrNull(ids: seq<int>): (r: seq<Option<int>>)
    ensures |r| >= 1
    ensures forall v :: Some(v) in r <==> v in ids
  {
    if |ids| == 0 then [None]
    else
      var some := (v: int) => Some(v);
      MapMembers(ids, some);
      Map(ids, some)
  }

  /** The like id and reply id of every row that one tweet produces when it is left-joined
      first with its like rows and then with its reply rows: every pairing of a like id with a
      reply id, with NULL on a side that has no match. */
  function TweetJoinIds(likes: seq<Like>, replies: seq<Reply>, tweetId: int): seq<(Option<int>, Option<int>)>
  {
    Product(OrNull(Map(LikesOf(likes, tweetId), LikeIdOf)), OrNull(Map(RepliesOf(replies, tweetId), ReplyIdOf)))
  }

  /** `COUNT(DISTINCT l.like_id)` over joined rows (NULLs are not counted). */
  function DistinctLikeIds(rows: seq<(Option<int>, Option<int>)>): set<int>
  {
    set p | p in rows && p.0.Some? :: p.0.value
  }

  /** `COUNT(DISTINCT r.reply_id)` over joined rows (NULLs are not counted). */
  function DistinctReplyIds(rows: seq<(Option<int>, Option<int>)>): set<int>
  {
    set p | p in rows && p.1.Some? :: p.1.value
  }

  /** The cross product with the replies does not inflate the like count: the distinct
      like ids of the joined rows are those of the tweet's own like rows. */
  lemma DistinctLikesOfJoin(likes: seq<Like>, replies: seq<Reply>, tweetId: int)
    ensures DistinctLikeIds(TweetJoinIds(likes, replies, tweetId)) == KeySet(LikesOf(likes, tweetId), LikeIdOf)
  {
    var own := LikesOf(likes, tweetId);
    var left := OrNull(Map(own, LikeIdOf));
    var right := OrNull(Map(RepliesOf(replies, tweetId), ReplyIdOf));
    var rows := TweetJoinIds(likes, replies, tweetId);
    assert rows == Product(left, right);
    MapMembers(own, LikeIdOf);
    forall v | v in KeySet(own, LikeIdOf) ensures v in DistinctLikeIds(rows) {
      assert (Some(v), right[0]) in rows;
    }
    forall v | v in DistinctLikeIds(rows) ensures v in KeySet(own, LikeIdOf) {
      var p :| p in rows && p.0.Some? && p.0.value == v;
      assert v in Map(own, LikeIdOf);
    }
  }

  /** Likewise the distinct reply ids of the joined rows are those of the tweet's own reply rows. */
  lemma DistinctRepliesOfJoin(likes: seq<Like>, replies: seq<Reply>, tweetId: int)
    ensures DistinctReplyIds(TweetJoinIds(likes, replies, tweetId)) == KeySet(RepliesOf(replies, tweetId), ReplyIdOf)
  {
    var own := RepliesOf(replies, tweetId);
    var left := OrNull(Map(LikesOf(likes, tweetId), LikeIdOf));
    var right := OrNull(Map(own, ReplyIdOf));
    var rows := TweetJoinIds(likes, replies, tweetId);
    assert rows == Product(left, right);
    MapMembers(own, ReplyIdOf);
    forall v | v in KeySet(own, ReplyIdOf) ensures v in DistinctReplyIds(rows) {
      assert (left[0], Some(v)) in rows;
    }
    forall v | v in DistinctReplyIds(rows) ensures v in KeySet(own, ReplyIdOf) {
      var p :| p in rows && p.1.Some? && p.1.value == v;
      assert v in Map(own, ReplyIdOf);
    }
  }

  /** The row the own-tweets query groups for one tweet (`GROUP BY t.tweet_id`). */
  function OwnRowOf(t: Tweet, likes: seq<Like>, replies: seq<Reply>): (r: OwnRow)
    ensures r.tweet == t.tweet && r.dateTime == t.dateTime
    ensures r.likes == |KeySet(LikesOf(likes, t.tweetId), LikeIdOf)|
    ensures r.replies == |KeySet(RepliesOf(replies, t.tweetId), ReplyIdOf)|
  {
    var rows := TweetJoinIds(likes, replies, t.tweetId);
    DistinctLikesOfJoin(likes, replies, t.tweetId);
    DistinctRepliesOfJoin(likes, replies, t.tweetId);
    OwnRow(t.tweet, |DistinctLikeIds(rows)|, |DistinctReplyIds(rows)|, t.dateTime)
  }

  /** With unique like and reply ids the distinct counts are the numbers of like and reply
      rows of the tweet, the same numbers `GET /tweets/:tweetId/` reports with COUNT(*). */
  lemma OwnRowCounts(t: Tweet, likes: seq<Like>, replies: seq<Reply>)
    requires UniqueBy(likes, LikeIdOf) && UniqueBy(replies, ReplyIdOf)
    ensures OwnRowOf(t, likes, replies).likes == |LikesOf(likes, t.tweetId)|
    ensures OwnRowOf(t, likes, replies).replies == |RepliesOf(replies, t.tweetId)|
  {
    UniqueKeySetSize(LikesOf(likes, t.tweetId), LikeIdOf);
    UniqueKeySetSize(RepliesOf(replies, t.tweetId), ReplyIdOf);
  }

  /** A tweet whose id no like or reply refers to groups into a row with no likes and no replies. */
  lemma FreshTweetRow(tweets: seq<Tweet>, likes: seq<Like>, replies: seq<Reply>, t: Tweet)
    requires forall l :: l in likes ==> HasTweet(tweets, l.tweetId)
    requires forall x :: x in replies ==> HasTweet(tweets, x.tweetId)
    requires forall x :: x in tweets ==> x.tweetId != t.tweetId
    ensures OwnRowOf(t, likes, replies) == OwnRow(t.tweet, 0, 0, t.dateTime)
  {
    forall l | l in likes ensures l.tweetId != t.tweetId {
      var x :| x in tweets && x.tweetId == l.tweetId;
    }
    forall x | x in replies ensures x.tweetId != t.tweetId {
      var y :| y in tweets && y.tweetId == x.tweetId;
    }
    assert KeySet(LikesOf(likes, t.tweetId), LikeIdOf) == {};
    assert KeySet(RepliesOf(replies, t.tweetId), ReplyIdOf) == {};
  }

  /** One grouped row per tweet of the user, before ORDER BY. */
  function OwnRowsUnordered(tweets: seq<Tweet>, likes: seq<Like>, replies: seq<Reply>, userId: int): (r: seq<OwnRow>)
    ensures |r| == |TweetsBy(tweets, userId)|
    ensures forall i :: 0 <= i < |r| ==> r[i] == OwnRowOf(TweetsBy(tweets, userId)[i], likes, replies)
  {
    Map(TweetsBy(tweets, userId), (t: Tweet) => OwnRowOf(t, likes, replies))
  }

  /** `GET /user/tweets/`: the grouped rows `ORDER BY t.date_time DESC`, one per tweet. */
  function OwnTweetRows(tweets: seq<Tweet>, likes: seq<Like>, replies: seq<Reply>, userId: int): (r: seq<OwnRow>)
    ensures multiset(r) == multiset(OwnRowsUnordered(tweets, likes, replies, userId))
    ensures |r| == |TweetsBy(tweets, userId)|
    ensures SortedDesc(r, OwnTime)
  {
    SortDesc(OwnRowsUnordered(tweets, likes, replies, userId), OwnTime)
  }

  /** The grouped row of each tweet of the user is listed at least as often as the tweet
      table holds that tweet. */
  lemma OwnTweetRowsCountTweets(tweets: seq<Tweet>, likes: seq<Like>, replies: seq<Reply>, userId: int, t: Tweet)
    requires t.userId == userId
    ensures multiset(OwnTweetRows(tweets, likes, replies, userId))[OwnRowOf(t, likes, replies)] >= multiset(tweets)[t]
  {
    var rowOf := (x: Tweet) => OwnRowOf(x, likes, replies);
    assert OwnRowsUnordered(tweets, likes, replies, userId) == Map(TweetsBy(tweets, userId), rowOf);
    MapCounts(TweetsBy(tweets, userId), rowOf, t);
    TweetsByCounts(tweets, userId, t);
  }

  /** Every tweet of the user has its grouped row in the result. */
  lemma OwnTweetRowsCover(tweets: seq<Tweet>, likes: seq<Like>, replies: seq<Reply>, userId: int, t: Tweet)
    requires t in tweets && t.userId == userId
    ensures OwnRowOf(t, likes, replies) in OwnTweetRows(tweets, likes, replies, userId)
  {
    var own := TweetsBy(tweets, userId);
    var unordered := OwnRowsUnordered(tweets, likes, replies, userId);
    var k :| 0 <= k < |own| && own[k] == t;
    assert unordered[k] == OwnRowOf(t, likes, replies);
    assert OwnRowOf(t, likes, replies) in multiset(unordered);
  }

  /** Every row of the result is the grouped row of a tweet of the user. */
  lemma OwnTweetRowsFrom(tweets: seq<Tweet>, likes: seq<Like>, replies: seq<Reply>, userId: int, row: OwnRow)
    requires row in OwnTweetRows(tweets, likes, replies, userId)
    ensures exists t :: t in tweets && t.userId == userId && row == OwnRowOf(t, likes, replies)
  {
    var own := TweetsBy(tweets, userId);
    var unordered := OwnRowsUnordered(tweets, likes, replies, userId);
    assert row in multiset(OwnTweetRows(tweets, likes, replies, userId));
    assert row in unordered;
    var k :| 0 <= k < |unordered| && unordered[k] == row;
    assert own[k] in own;
  }

  /** After a user's first tweet is appended, it is the only tweet the user wrote. */
  lemma FirstTweetIsOnlyTweet(tweets: seq<Tweet>, t: Tweet)
    requires forall x :: x in tweets ==> x.userId != t.userId
    ensures TweetsBy(tweets + [t], t.userId) == [t]
  {
    var ts := tweets + [t];
    var mine := (x: Tweet) => x.userId == t.userId;
    assert TweetsBy(ts, t.userId) == Filter(ts, mine);
    var own := TweetsBy(ts, t.userId);
    FilterMultiset(ts, mine);
    assert multiset(ts) == multiset(tweets) + multiset{t};
    assert multiset(own) == multiset{t} by {
      forall x ensures multiset(own)[x] == multiset{t}[x] {
        if x != t { assert x !in own; }
      }
    }
    assert |own| == |multiset(own)| == 1;
    assert own[0] in own;
  }

  /** A user's first tweet, under an id nothing refers to, is the one row of the user's
      own tweets, with no likes and no replies. */
  lemma FirstTweetIsOnlyRow(tweets: seq<Tweet>, likes: seq<Like>, replies: seq<Reply>, t: Tweet)
    requires forall x :: x in tweets ==> x.userId != t.userId && x.tweetId != t.tweetId
    requires forall l :: l in likes ==> HasTweet(tweets, l.tweetId)
    requires forall x :: x in replies ==> HasTweet(tweets, x.tweetId)
    ensures OwnTweetRows(tweets + [t], likes, replies, t.userId) == [OwnRow(t.tweet, 0, 0, t.dateTime)]
  {
    var ts := tweets + [t];
    FirstTweetIsOnlyTweet(tweets, t);
    FreshTweetRow(tweets, likes, replies, t);
    var rows := OwnTweetRows(ts, likes, replies, t.userId);
    var unordered := OwnRowsUnordered(ts, likes, replies, t.userId);
    assert unordered == [OwnRow(t.tweet, 0, 0, t.dateTime)];
    assert rows[0] in multiset(rows);
  }

  // ------------------------------------------------------- authorization gate

  /** The two checks that guard a single tweet: reading it needs a follow edge to its
      author, deleting it needs to be its author. */
  datatype Mode = Visibility | Ownership

  /** How the gate ends: no such tweet (401), no row for the acting user (the handler's
      `user.user_id` throws, 500), not allowed (401), or allowed. */
  datatype Access = NotFound | NoActingUser | Denied | Granted(tweet: Tweet, user: User)

  /** The access rule each mode stands for. */
  predicate Permits(mode: Mode, follows: seq<Follower>, user: User, tweet: Tweet)
  {
    match mode
    case Visibility => Follower(user.userId, tweet.userId) in follows
    case Ownership => tweet.userId == user.userId
  }

  /** The handlers' shared guard chain: look the tweet up, then use the acting user's
      row, then run `isFollowing` (reads) or compare `tweet.user_id` with `user.user_id` (delete). */
  function Authorize(mode: Mode, users: seq<User>, follows: seq<Follower>, tweets: seq<Tweet>, username: string, tweetId: int): (r: Access)
    ensures r.NotFound? <==> forall t :: t in tweets ==> t.tweetId != tweetId
    ensures r.NoActingUser? <==> (exists t :: t in tweets && t.tweetId == tweetId) && forall u :: u in users ==> u.username != username
    ensures r.Granted? ==> (r.tweet in tweets && r.tweet.tweetId == tweetId && r.user in users && r.user.username == username &&
                            Permits(mode, follows, r.user, r.tweet))
    ensures r.Denied? ==> exists t, u :: t in tweets && t.tweetId == tweetId && u in users && u.username == username &&
                                         !Permits(mode, follows, u, t)
  {
    match TweetById(tweets, tweetId)
    case None => NotFound
    case Some(t) =>
      match UserByUsername(users, username)
      case None => NoActingUser
      case Some(u) =>
        var allowed := match mode
          case Visibility => IsFollowing(follows, u.userId, t.userId)
          case Ownership => t.userId == u.userId;
        if allowed then Granted(t, u) else Denied
  }

  /** With unique keys the gate is decided by the access rule on the tweet's row and the
      acting user's row. */
  lemma AuthorizeByRule(mode: Mode, users: seq<User>, follows: seq<Follower>, tweets: seq<Tweet>, t: Tweet, u: User)
    requires UniqueBy(tweets, TweetIdOf) && UniqueUsernames(users)
    requires t in tweets && u in users
    ensures Authorize(mode, users, follows, tweets, u.username, t.tweetId) ==
            if Permits(mode, follows, u, t) then Granted(t, u) else Denied
  {
    TweetByIdUnique(tweets, t);
    UserByUsernameUnique(users, u);
  }

  /** An author may delete their own tweet, but may read it (and its likes and replies)
      only if they follow themselves. */
  lemma OwnTweetNeedsSelfFollow(users: seq<User>, follows: seq<Follower>, tweets: seq<Tweet>, t: Tweet, u: User)
    requires UniqueBy(tweets, TweetIdOf) && UniqueUsernames(users)
    requires t in tweets && u in users && t.userId == u.userId
    ensures Authorize(Ownership, users, follows, tweets, u.username, t.tweetId) == Granted(t, u)
    ensures Authorize(Visibility, users, follows, tweets, u.username, t.tweetId) ==
            if Follower(u.userId, u.userId) in follows then Granted(t, u) else Denied
  {
    AuthorizeByRule(Ownership, users, follows, tweets, t, u);
    AuthorizeByRule(Visibility, users, follows, tweets, t, u);
  }

  // ----------------------------------------------------------------- deletes

  /** `DELETE FROM tweet WHERE tweet_id = ?`. */
  function WithoutTweet(tweets: seq<Tweet>, tweetId: int): (r: seq<Tweet>)
    ensures forall t :: t in r <==> t in tweets && t.tweetId != tweetId
    ensures UniqueBy(tweets, TweetIdOf) ==> UniqueBy(r, TweetIdOf)
  {
    var p := (t: Tweet) => t.tweetId != tweetId;
    FilterKeepsUnique(tweets, p, TweetIdOf);
    Filter(tweets, p)
  }

  /** `DELETE FROM "like" WHERE tweet_id = ?`. */
  function WithoutLikes(likes: seq<Like>, tweetId: int): (r: seq<Like>)
    ensures forall l :: l in r <==> l in likes && l.tweetId != tweetId
    ensures UniqueBy(likes, LikeIdOf) ==> UniqueBy(r, LikeIdOf)
  {
    var p := (l: Like) => l.tweetId != tweetId;
    FilterKeepsUnique(likes, p, LikeIdOf);
    Filter(likes, p)
  }

  /** `DELETE FROM reply WHERE tweet_id = ?`. */
  function WithoutReplies(replies: seq<Reply>, tweetId: int): (r: seq<Reply>)
    ensures forall x :: x in r <==> x in replies && x.tweetId != tweetId
    ensures UniqueBy(replies, ReplyIdOf) ==> UniqueBy(r, ReplyIdOf)
  {
    var p := (x: Reply) => x.tweetId != tweetId;
    FilterKeepsUnique(replies, p, ReplyIdOf);
    Filter(replies, p)
  }

  /** The three DELETEs touch only the rows of the deleted tweet: every other row stays,
      as often as it was there. */
  lemma DeleteKeepsOtherRows(tweets: seq<Tweet>, likes: seq<Like>, replies: seq<Reply>, tweetId: int)
    ensures forall t: Tweet :: t.tweetId != tweetId ==> multiset(WithoutTweet(tweets, tweetId))[t] == multiset(tweets)[t]
    ensures forall l: Like :: l.tweetId != tweetId ==> multiset(WithoutLikes(likes, tweetId))[l] == multiset(likes)[l]
    ensures forall x: Reply :: x.tweetId != tweetId ==> multiset(WithoutReplies(replies, tweetId))[x] == multiset(replies)[x]
  {
    var pt := (t: Tweet) => t.tweetId != tweetId;
    var pl := (l: Like) => l.tweetId != tweetId;
    var pr := (x: Reply) => x.tweetId != tweetId;
    assert WithoutTweet(tweets, tweetId) == Filter(tweets, pt);
    assert WithoutLikes(likes, tweetId) == Filter(likes, pl);
    assert WithoutReplies(replies, tweetId) == Filter(replies, pr);
    FilterMultiset(tweets, pt);
    FilterMultiset(likes, pl);
    FilterMultiset(replies, pr);
  }

  /** Once the tweet row is deleted the gate no longer finds it. */
  lemma DeletedTweetNotFound(users: seq<User>, follows: seq<Follower>, tweets: seq<Tweet>, username: string, tweetId: int)
    ensures Authorize(Visibility, users, follows, WithoutTweet(tweets, tweetId), username, tweetId) == NotFound
  {
  }

  // ------------------------------------------------------ integrity of the store

  predicate HasUser(users: seq<User>, userId: int)
  {
    exists u :: u in users && u.userId == userId
  }

  predicate HasTweet(tweets: seq<Tweet>, tweetId: int)
  {
    exists t :: t in tweets && t.tweetId == tweetId
  }

  /** The constraints of the database the handlers rely on: every primary key and the
      username are unique, and every id a row refers to names an existing row. */
  predicate Consistent(users: seq<User>, follows: seq<Follower>, tweets: seq<Tweet>, likes: seq<Like>, replies: seq<Reply>)
  {
    && UniqueBy(users, UserIdOf) && UniqueUsernames(users)
    && UniqueBy(tweets, TweetIdOf) && UniqueBy(likes, LikeIdOf) && UniqueBy(replies, ReplyIdOf)
    && (forall f :: f in follows ==> HasUser(users, f.followerUserId) && HasUser(users, f.followingUserId))
    && (forall t :: t in tweets ==> HasUser(users, t.userId))
    && (forall l :: l in likes ==> HasTweet(tweets, l.tweetId) && HasUser(users, l.userId))
    && (forall x :: x in replies ==> HasTweet(tweets, x.tweetId) && HasUser(users, x.userId))
  }

  /** Registering a fresh username under a fresh id keeps the store consistent. */
  lemma ConsistentAfterRegister(users: seq<User>, follows: seq<Follower>, tweets: seq<Tweet>, likes: seq<Like>, replies: seq<Reply>, u: User)
    requires Consistent(users, follows, tweets, likes, replies)
    requires forall x :: x in users ==> x.username != u.username && x.userId != u.userId
    ensures Consistent(users + [u], follows, tweets, likes, replies)
  {
    AppendKeepsUnique(users, u, UserIdOf);
    var us := users + [u];
    forall i, j | 0 <= i < j < |us| ensures us[i].username != us[j].username {
      if j == |users| { assert us[i] == users[i] && users[i] in users; }
      else { assert us[i] == users[i] && us[j] == users[j]; }
    }
    assert forall id :: HasUser(users, id) ==> HasUser(us, id) by {
      forall id | HasUser(users, id) ensures HasUser(us, id) {
        var x :| x in users && x.userId == id;
        assert x in us;
      }
    }
  }

  /** Adding a tweet with a fresh id by an existing user keeps the store consistent. */
  lemma ConsistentAfterCreate(users: seq<User>, follows: seq<Follower>, tweets: seq<Tweet>, likes: seq<Like>, replies: seq<Reply>, t: Tweet)
    requires Consistent(users, follows, tweets, likes, replies)
    requires HasUser(users, t.userId)
    requires forall x :: x in tweets ==> x.tweetId != t.tweetId
    ensures Consistent(users, follows, tweets + [t], likes, replies)
  {
    AppendKeepsUnique(tweets, t, TweetIdOf);
    var ts := tweets + [t];
    assert forall id :: HasTweet(tweets, id) ==> HasTweet(ts, id) by {
      forall id | HasTweet(tweets, id) ensures HasTweet(ts, id) {
        var x :| x in tweets && x.tweetId == id;
        assert x in ts;
      }
    }
  }

  /** The three DELETEs together keep the store consistent. */
  lemma ConsistentAfterDelete(users: seq<User>, follows: seq<Follower>, tweets: seq<Tweet>, likes: seq<Like>, replies: seq<Reply>, tweetId: int)
    requires Consistent(users, follows, tweets, likes, replies)
    ensures Consistent(users, follows, WithoutTweet(tweets, tweetId), WithoutLikes(likes, tweetId), WithoutReplies(replies, tweetId))
  {
    var ts := WithoutTweet(tweets, tweetId);
    assert forall id :: id != tweetId && HasTweet(tweets, id) ==> HasTweet(ts, id) by {
      forall id | id != tweetId && HasTweet(tweets, id) ensures HasTweet(ts, id) {
        var x :| x in tweets && x.tweetId == id;
        assert x in ts;
      }
    }
  }

  /** Deleting the tweet row alone would leave its likes pointing at nothing: this is why
      the handler deletes the likes and replies as well. */
  lemma DeletingOnlyTheTweetBreaksLikes(users: seq<User>, follows: seq<Follower>, tweets: seq<Tweet>, likes: seq<Like>, replies: seq<Reply>, l: Like)
    requires l in likes
    ensures !Consistent(users, follows, WithoutTweet(tweets, l.tweetId), likes, replies)
  {
    assert !HasTweet(WithoutTweet(tweets, l.tweetId), l.tweetId);
  }
}
