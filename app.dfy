/** The route handlers of app.js over one database: a `Store` object holding the
    five tables, whose write routes replace tables and whose read routes query them. */
module App {
  import opened Tables
  import opened Schema
  import opened Auth
  import opened Queries

  /** The authenticated GET routes. */
  datatype Route =
    | FeedRoute                 // GET /user/tweets/feed/
    | FollowingRoute            // GET /user/following/
    | FollowersRoute            // GET /user/followers/
    | TweetRoute(tweetId: int)  // GET /tweets/:tweetId/
    | LikesRoute(tweetId: int)  // GET /tweets/:tweetId/likes/
    | RepliesRoute(tweetId: int) // GET /tweets/:tweetId/replies/
    | OwnTweetsRoute            // GET /user/tweets/

  /** The response of a per-tweet route when the gate does not let the request through. */
  function GateOutcome(a: Access): (r: Outcome)
    requires !a.Granted?
    ensures r.status == 500 <==> a.NoActingUser?
    ensures r.status != 500 ==> r == Fail(401, InvalidRequest)
  {
    if a.NoActingUser? then Fail(500, ServerError) else Fail(401, InvalidRequest)
  }

  /** twitterClone.db as the read routes see it: the five tables. */
  datatype Db = Db(users: seq<User>, follows: seq<Follower>, tweets: seq<Tweet>, likes: seq<Like>, replies: seq<Reply>)
  {
    /** The database keeps its keys unique and its references intact. */
    predicate Valid()
    {
      Consistent(users, follows, tweets, likes, replies)
    }

    /** `POST /login/`: an unknown username, then a password that does not match the stored
        hash, are refused; otherwise the token signed over `{username}` is returned. It only reads. */
    function Login(username: string, password: string, compare: (string, string) -> bool, sign: Claims -> string): (r: Outcome)
      ensures UserByUsername(users, username).None? ==> r == Fail(400, InvalidUser)
      ensures UserByUsername(users, username).Some? && !compare(password, UserByUsername(users, username).value.password) ==>
        r == Fail(400, InvalidPassword)
      ensures UserByUsername(users, username).Some? && compare(password, UserByUsername(users, username).value.password) ==>
        r == Ok(Token(sign(Claims(username))))
      ensures r.status == 200 ==> (r == Ok(Token(sign(Claims(username)))) &&
                                   exists u :: u in users && u.username == username && compare(password, u.password))
    {
      match UserByUsername(users, username)
      case None => Fail(400, InvalidUser)
      case Some(u) =>
        if !compare(password, u.password) then Fail(400, InvalidPassword)
        else Ok(Token(sign(Claims(u.username))))
    }

    /** A user whose password matches its stored hash logs in and gets the token for its own username. */
    lemma LoginFindsUser(u: User, password: string, compare: (string, string) -> bool, sign: Claims -> string)
      requires Valid()
      requires u in users && compare(password, u.password)
      ensures Login(u.username, password, compare, sign) == Ok(Token(sign(Claims(u.username))))
    {
      UserByUsernameUnique(users, u);
    }

    // ------------------------------------------------------------------ read routes

    /** `GET /user/tweets/feed/`: the four newest tweets by the authors the user follows. */
    function GetFeed(username: string): (r: Outcome)
      ensures r.status == 500 <==> UserByUsername(users, username).None?
      ensures r.status == 500 ==> r == Fail(500, ServerError)
      ensures UserByUsername(users, username).Some? ==>
        r == Ok(Feed(FeedRows(follows, tweets, users, UserByUsername(users, username).value.userId)))
      ensures r.status == 200 ==> r.body.Feed? && |r.body.feed| <= FeedLimit && SortedDesc(r.body.feed, FeedTime)
    {
      match UserByUsername(users, username)
      case None => Fail(500, ServerError)
      case Some(u) => Ok(Feed(FeedRows(follows, tweets, users, u.userId)))
    }

    /** Every feed entry is a tweet by an author the acting user follows. */
    lemma FeedShowsFollowedAuthors(username: string, row: FeedRow)
      requires GetFeed(username).body.Feed? && row in GetFeed(username).body.feed
      ensures exists me, t, u :: me in users && me.username == username && t in tweets && u in users &&
                                 Follower(me.userId, t.userId) in follows && u.userId == t.userId &&
                                 row == FeedRow(u.username, t.tweet, t.dateTime)
    {
      var me := UserByUsername(users, username).value;
      FeedEntriesAreFollowed(follows, tweets, users, me.userId, row);
    }

    /** A follower's feed shows the followed author's newest tweet, under the author's username. */
    lemma FollowerSeesNewestPost(me: User, author: User, t: Tweet)
      requires Valid()
      requires me in users && author in users && t in tweets && t.userId == author.userId
      requires Follower(me.userId, author.userId) in follows
      requires forall x :: x in tweets && x != t ==> x.dateTime < t.dateTime
      ensures GetFeed(me.username).body.Feed?
      ensures FeedRow(author.username, t.tweet, t.dateTime) in GetFeed(me.username).body.feed
    {
      UserByUsernameUnique(users, me);
      NewestFollowedTweetInFeed(follows, tweets, users, me.userId, author, t);
    }

    /** `GET /user/following/`: the names of the users the acting user follows. */
    function GetFollowing(username: string): (r: Outcome)
      ensures r.status == 500 <==> UserByUsername(users, username).None?
      ensures r.status == 500 ==> r == Fail(500, ServerError)
      ensures UserByUsername(users, username).Some? ==>
        r == Ok(Names(FollowingNames(follows, users, UserByUsername(users, username).value.userId)))
      ensures r.status == 200 ==> r.body.Names?
    {
      match UserByUsername(users, username)
      case None => Fail(500, ServerError)
      case Some(me) => Ok(Names(FollowingNames(follows, users, me.userId)))
    }

    /** A name is in the following list exactly when the acting user follows a user of that name. */
    lemma FollowingListed(username: string, n: string)
      requires GetFollowing(username).status == 200
      ensures n in GetFollowing(username).body.names <==>
        exists u :: u in users && Follower(UserByUsername(users, username).value.userId, u.userId) in follows && u.name == n
    {
      FollowingNamesMembers(follows, users, UserByUsername(users, username).value.userId, n);
    }

    /** `GET /user/followers/`: the names of the users who follow the acting user. */
    function GetFollowers(username: string): (r: Outcome)
      ensures r.status == 500 <==> UserByUsername(users, username).None?
      ensures r.status == 500 ==> r == Fail(500, ServerError)
      ensures UserByUsername(users, username).Some? ==>
        r == Ok(Names(FollowerNames(follows, users, UserByUsername(users, username).value.userId)))
      ensures r.status == 200 ==> r.body.Names?
    {
      match UserByUsername(users, username)
      case None => Fail(500, ServerError)
      case Some(me) => Ok(Names(FollowerNames(follows, users, me.userId)))
    }

    /** A name is in the followers list exactly when a user of that name follows the acting user. */
    lemma FollowersListed(username: string, n: string)
      requires GetFollowers(username).status == 200
      ensures n in GetFollowers(username).body.names <==>
        exists u :: u in users && Follower(u.userId, UserByUsername(users, username).value.userId) in follows && u.name == n
    {
      FollowerNamesMembers(follows, users, UserByUsername(users, username).value.userId, n);
    }

    /** In a consistent database both lists hold one name per follower row. */
    lemma FollowListsCountRows(username: string)
      requires Valid()
      requires UserByUsername(users, username).Some?
      ensures |GetFollowing(username).body.names| == |FollowsBy(follows, UserByUsername(users, username).value.userId)|
      ensures |GetFollowers(username).body.names| == |FollowsOf(follows, UserByUsername(users, username).value.userId)|
    {
    }

    /** `GET /tweets/:tweetId/`: the tweet with its like and reply counts, for a tweet whose
        author the acting user follows. */
    function GetTweet(username: string, tweetId: int): (r: Outcome)
      ensures (forall t :: t in tweets ==> t.tweetId != tweetId) ==> r == Fail(401, InvalidRequest)
      ensures Authorize(Visibility, users, follows, tweets, username, tweetId).NoActingUser? ==> r == Fail(500, ServerError)
      ensures r.status == 200 ==> (exists t, me :: t in tweets && t.tweetId == tweetId && me in users && me.username == username &&
                                     Follower(me.userId, t.userId) in follows &&
                                     r.body == Stats(t.tweet, |LikesOf(likes, tweetId)|, |RepliesOf(replies, tweetId)|, t.dateTime))
    {
      match Authorize(Visibility, users, follows, tweets, username, tweetId)
      case Granted(t, _) => Ok(Stats(t.tweet, |LikesOf(likes, tweetId)|, |RepliesOf(replies, tweetId)|, t.dateTime))
      case a => GateOutcome(a)
    }

    /** `GET /tweets/:tweetId/likes/`: the usernames of the users who liked a tweet whose
        author the acting user follows. */
    function GetLikes(username: string, tweetId: int): (r: Outcome)
      ensures (forall t :: t in tweets ==> t.tweetId != tweetId) ==> r == Fail(401, InvalidRequest)
      ensures Authorize(Visibility, users, follows, tweets, username, tweetId).NoActingUser? ==> r == Fail(500, ServerError)
      ensures r.status == 200 ==> (exists t, me :: t in tweets && t.tweetId == tweetId && me in users && me.username == username &&
                                     Follower(me.userId, t.userId) in follows && r.body == Likers(LikerUsernames(likes, users, tweetId)))
    {
      match Authorize(Visibility, users, follows, tweets, username, tweetId)
      case Granted(_, _) => Ok(Likers(LikerUsernames(likes, users, tweetId)))
      case a => GateOutcome(a)
    }

    /** `GET /tweets/:tweetId/replies/`: the replies, with their authors' names, of a tweet
        whose author the acting user follows. */
    function GetReplies(username: string, tweetId: int): (r: Outcome)
      ensures (forall t :: t in tweets ==> t.tweetId != tweetId) ==> r == Fail(401, InvalidRequest)
      ensures Authorize(Visibility, users, follows, tweets, username, tweetId).NoActingUser? ==> r == Fail(500, ServerError)
      ensures r.status == 200 ==> (exists t, me :: t in tweets && t.tweetId == tweetId && me in users && me.username == username &&
                                     Follower(me.userId, t.userId) in follows && r.body == Replies(ReplyRows(replies, users, tweetId)))
    {
      match Authorize(Visibility, users, follows, tweets, username, tweetId)
      case Granted(_, _) => Ok(Replies(ReplyRows(replies, users, tweetId)))
      case a => GateOutcome(a)
    }

    /** In a consistent database the three per-tweet reads are open exactly to the followers
        of the tweet's author; everyone else gets 401 "Invalid Request". */
    lemma GatedReads(t: Tweet, me: User)
      requires Valid()
      requires t in tweets && me in users
      ensures GetTweet(me.username, t.tweetId).status == 200 <==> Follower(me.userId, t.userId) in follows
      ensures GetLikes(me.username, t.tweetId).status == 200 <==> Follower(me.userId, t.userId) in follows
      ensures GetReplies(me.username, t.tweetId).status == 200 <==> Follower(me.userId, t.userId) in follows
      ensures Follower(me.userId, t.userId) !in follows ==>
        GetTweet(me.username, t.tweetId) == Fail(401, InvalidRequest) &&
        GetLikes(me.username, t.tweetId) == Fail(401, InvalidRequest) &&
        GetReplies(me.username, t.tweetId) == Fail(401, InvalidRequest)
    {
      AuthorizeByRule(Visibility, users, follows, tweets, t, me);
    }

    /** In a consistent database a visible tweet's counts are its numbers of like and reply
        rows, and its lists hold one entry per like and per reply. */
    lemma VisibleTweetDetails(t: Tweet, me: User)
      requires Valid()
      requires t in tweets && me in users && Follower(me.userId, t.userId) in follows
      ensures GetTweet(me.username, t.tweetId) ==
        Ok(Stats(t.tweet, |LikesOf(likes, t.tweetId)|, |RepliesOf(replies, t.tweetId)|, t.dateTime))
      ensures GetLikes(me.username, t.tweetId).body.Likers? &&
        |GetLikes(me.username, t.tweetId).body.usernames| == |LikesOf(likes, t.tweetId)|
      ensures GetReplies(me.username, t.tweetId).body.Replies? &&
        |GetReplies(me.username, t.tweetId).body.replies| == |RepliesOf(replies, t.tweetId)|
    {
      AuthorizeByRule(Visibility, users, follows, tweets, t, me);
    }

    /** `GET /user/tweets/`: one grouped row per tweet of the acting user, newest first. */
    function GetOwnTweets(username: string): (r: Outcome)
      ensures r.status == 500 <==> UserByUsername(users, username).None?
      ensures r.status == 500 ==> r == Fail(500, ServerError)
      ensures UserByUsername(users, username).Some? ==>
        r == Ok(Own(OwnTweetRows(tweets, likes, replies, UserByUsername(users, username).value.userId)))
      ensures r.status == 200 ==> (r.body.Own? && SortedDesc(r.body.rows, OwnTime) &&
                                   |r.body.rows| == |TweetsBy(tweets, UserByUsername(users, username).value.userId)|)
    {
      match UserByUsername(users, username)
      case None => Fail(500, ServerError)
      case Some(me) => Ok(Own(OwnTweetRows(tweets, likes, replies, me.userId)))
    }

    /** In a consistent database every own-tweets row counts the tweet's like and reply rows. */
    lemma OwnTweetsCountRows(username: string, row: OwnRow)
      requires Valid()
      requires GetOwnTweets(username).body.Own? && row in GetOwnTweets(username).body.rows
      ensures exists t :: (t in tweets && t.userId == UserByUsername(users, username).value.userId &&
                           row == OwnRow(t.tweet, |LikesOf(likes, t.tweetId)|, |RepliesOf(replies, t.tweetId)|, t.dateTime))
    {
      var me := UserByUsername(users, username).value;
      OwnTweetRowsFrom(tweets, likes, replies, me.userId, row);
      var t :| t in tweets && t.userId == me.userId && row == OwnRowOf(t, likes, replies);
      OwnRowCounts(t, likes, replies);
    }

    /** The handler each authenticated GET route runs for `request.username`. */
    function Handle(route: Route, username: string): Outcome
    {
      match route
      case FeedRoute => GetFeed(username)
      case FollowingRoute => GetFollowing(username)
      case FollowersRoute => GetFollowers(username)
      case TweetRoute(id) => GetTweet(username, id)
      case LikesRoute(id) => GetLikes(username, id)
      case RepliesRoute(id) => GetReplies(username, id)
      case OwnTweetsRoute => GetOwnTweets(username)
    }

    /** A GET request as Express runs it: the middleware, then the route's handler. A
        rejected request gets 401 "Invalid JWT Token" and never reaches a handler. */
    function Get(route: Route, header: Option<string>, verify: string -> Option<Claims>): (r: Outcome)
      ensures Authenticate(header, verify).Rejected? ==> r == RejectedOutcome()
      ensures Authenticate(header, verify).Authenticated? ==> r == Handle(route, Authenticate(header, verify).username)
    {
      match Authenticate(header, verify)
      case Rejected => RejectedOutcome()
      case Authenticated(username) => Handle(route, username)
    }

    /** The token a successful login returns opens every route for the user who logged in,
        given that `verify` inverts `sign` and that tokens have no spaces. */
    lemma LoginTokenOpensRoutes(route: Route, username: string, password: string, compare: (string, string) -> bool,
                                sign: Claims -> string, verify: string -> Option<Claims>)
      requires Login(username, password, compare, sign).status == 200
      requires verify(sign(Claims(username))) == Some(Claims(username))
      requires ' ' !in sign(Claims(username)) && sign(Claims(username)) != ""
      ensures Get(route, Some("Bearer " + Login(username, password, compare, sign).body.jwtToken), verify) ==
              Handle(route, username)
    {
      IssuedTokenAuthenticates(username, sign, verify);
    }
  }

  /** The database object the write routes update in place. */
  class Store {
    var users: seq<User>
    var follows: seq<Follower>
    var tweets: seq<Tweet>
    var likes: seq<Like>
    var replies: seq<Reply>

    /** The tables as they stand. */
    function State(): Db
      reads this
    {
      Db(users, follows, tweets, likes, replies)
    }

    /** The database kept in the store is consistent. */
    ghost predicate Valid()
      reads this
    {
      State().Valid()
    }

    /** Opens a database holding the given rows. */
    constructor (db: Db)
      requires db.Valid()
      ensures Valid() && State() == db
    {
      users, follows, tweets, likes, replies := db.users, db.follows, db.tweets, db.likes, db.replies;
    }

    /** `POST /register/`: a taken username is refused before the password is looked at;
        otherwise a password shorter than six characters is refused; otherwise one user row
        is appended under the next rowid, holding the hash of the password. */
    method Register(username: string, password: string, name: string, gender: string, hash: string -> string)
      returns (out: Outcome)
      requires Valid()
      modifies this`users
      ensures Valid()
      ensures UserByUsername(old(users), username).Some? ==> out == Fail(400, UserExists) && unchanged(this)
      ensures UserByUsername(old(users), username).None? && |password| < MinPasswordLength ==>
        out == Fail(400, PasswordTooShort) && unchanged(this)
      ensures UserByUsername(old(users), username).None? && |password| >= MinPasswordLength ==>
        out == Ok(Text(UserCreated)) &&
        users == old(users) + [User(NextKey(old(users), UserIdOf), name, username, hash(password), gender)]
    {
      if UserByUsername(users, username).Some? {
        return Fail(400, UserExists);
      }
      if |password| < MinPasswordLength {
        return Fail(400, PasswordTooShort);
      }
      var u := User(NextKey(users, UserIdOf), name, username, hash(password), gender);
      ConsistentAfterRegister(users, follows, tweets, likes, replies, u);
      users := users + [u];
      out := Ok(Text(UserCreated));
    }

    /** Registering and then logging in with the same password yields a token for the new
        user, given that `compare` accepts a password against its own hash. */
    method RegisterThenLogin(username: string, password: string, name: string, gender: string,
                             hash: string -> string, compare: (string, string) -> bool, sign: Claims -> string)
      returns (created: Outcome, token: Outcome)
      requires Valid()
      requires compare(password, hash(password))
      modifies this`users
      ensures Valid()
      ensures UserByUsername(old(users), username).None? && |password| >= MinPasswordLength ==>
        created == Ok(Text(UserCreated)) && token == Ok(Token(sign(Claims(username)))) &&
        users == old(users) + [User(NextKey(old(users), UserIdOf), name, username, hash(password), gender)]
      ensures UserByUsername(old(users), username).Some? ==> created == Fail(400, UserExists)
      ensures UserByUsername(old(users), username).None? && |password| < MinPasswordLength ==>
        created == Fail(400, PasswordTooShort)
      ensures UserByUsername(old(users), username).Some? || |password| < MinPasswordLength ==> users == old(users)
    {
      created := Register(username, password, name, gender, hash);
      if created == Ok(Text(UserCreated)) {
        var u := users[|users| - 1];
        assert u in users;
        State().LoginFindsUser(u, password, compare, sign);
      }
      token := State().Login(username, password, compare, sign);
    }

    /** A user who has not tweeted yet posts with a token that authenticates it and then
        lists its own tweets: the list holds exactly the new tweet, with no likes and no
        replies. */
    method PostFirstAndList(username: string, text: string, now: int,
                            header: Option<string>, verify: string -> Option<Claims>)
      returns (posted: Outcome, listed: Outcome)
      requires Valid()
      requires Authenticate(header, verify) == Authenticated(username)
      requires UserByUsername(users, username).Some?
      requires forall x :: x in tweets ==> x.userId != UserByUsername(users, username).value.userId
      modifies this`tweets
      ensures Valid()
      ensures tweets == old(tweets) + [Tweet(NextKey(old(tweets), TweetIdOf), text, UserByUsername(users, username).value.userId, now)]
      ensures posted == Ok(Text(TweetCreated))
      ensures listed == Ok(Own([OwnRow(text, 0, 0, now)]))
    {
      var me := UserByUsername(users, username).value;
      var t := Tweet(NextKey(tweets, TweetIdOf), text, me.userId, now);
      FirstTweetIsOnlyRow(tweets, likes, replies, t);
      posted := PostTweet(header, verify, text, now);
      assert tweets == old(tweets) + [t];
      listed := State().GetOwnTweets(username);
    }

    /** A new user registers, logs in, posts with the token it got, and lists its own
        tweets: the list holds exactly the one new tweet, with no likes and no replies.
        `verify` inverts `sign` on the issued token, which has no spaces. */
    method FirstTweetScenario(username: string, password: string, name: string, gender: string, text: string, now: int,
                              hash: string -> string, compare: (string, string) -> bool,
                              sign: Claims -> string, verify: string -> Option<Claims>)
      returns (created: Outcome, token: Outcome, posted: Outcome, listed: Outcome)
      requires Valid()
      requires UserByUsername(users, username).None? && |password| >= MinPasswordLength
      requires compare(password, hash(password))
      requires verify(sign(Claims(username))) == Some(Claims(username))
      requires ' ' !in sign(Claims(username)) && sign(Claims(username)) != ""
      modifies this`users, this`tweets
      ensures Valid()
      ensures users == old(users) + [User(NextKey(old(users), UserIdOf), name, username, hash(password), gender)]
      ensures tweets == old(tweets) + [Tweet(NextKey(old(tweets), TweetIdOf), text, NextKey(old(users), UserIdOf), now)]
      ensures created == Ok(Text(UserCreated)) && token == Ok(Token(sign(Claims(username))))
      ensures posted == Ok(Text(TweetCreated))
      ensures listed == Ok(Own([OwnRow(text, 0, 0, now)]))
    {
      ghost var users0 := users;
      created, token := RegisterThenLogin(username, password, name, gender, hash, compare, sign);
      var header := Some("Bearer " + token.body.jwtToken);
      IssuedTokenAuthenticates(username, sign, verify);
      var me := users[|users| - 1];
      assert me in users;
      UserByUsernameUnique(users, me);
      forall x | x in tweets ensures x.userId != me.userId {
        var y :| y in users0 && y.userId == x.userId;
      }
      posted, listed := PostFirstAndList(username, text, now, header, verify);
    }

    /** The INSERT of a tweet row: a row by an existing user under an unused id keeps the
        database consistent. */
    method AppendTweet(t: Tweet)
      requires Valid()
      requires HasUser(users, t.userId)
      requires forall x :: x in tweets ==> x.tweetId != t.tweetId
      modifies this`tweets
      ensures Valid()
      ensures tweets == old(tweets) + [t]
    {
      ConsistentAfterCreate(users, follows, tweets, likes, replies, t);
      tweets := tweets + [t];
    }

    /** The `POST /user/tweets/` handler for the authenticated `username`: append a tweet by
        that user, stamped `now`, under the next rowid; it is then listed in the user's own
        tweets with no likes and no replies. */
    method PostAs(username: string, text: string, now: int) returns (out: Outcome)
      requires Valid()
      modifies this`tweets
      ensures Valid()
      ensures UserByUsername(users, username).None? ==> out == Fail(500, ServerError) && unchanged(this)
      ensures UserByUsername(users, username).Some? ==>
        out == Ok(Text(TweetCreated)) &&
        tweets == old(tweets) + [Tweet(NextKey(old(tweets), TweetIdOf), text, UserByUsername(users, username).value.userId, now)] &&
        OwnRow(text, 0, 0, now) in State().GetOwnTweets(username).body.rows
    {
      match UserByUsername(users, username)
      case None => return Fail(500, ServerError);
      case Some(me) =>
        var t := Tweet(NextKey(tweets, TweetIdOf), text, me.userId, now);
        FreshTweetRow(tweets, likes, replies, t);
        AppendTweet(t);
        OwnTweetRowsCover(tweets, likes, replies, me.userId, t);
        out := Ok(Text(TweetCreated));
    }

    /** `POST /user/tweets/`: the middleware, then the handler. */
    method PostTweet(header: Option<string>, verify: string -> Option<Claims>, text: string, now: int)
      returns (out: Outcome)
      requires Valid()
      modifies this`tweets
      ensures Valid()
      ensures Authenticate(header, verify).Rejected? ==> out == RejectedOutcome() && unchanged(this)
      ensures Authenticate(header, verify).Authenticated? && UserByUsername(users, Authenticate(header, verify).username).None? ==>
        out == Fail(500, ServerError) && unchanged(this)
      ensures Authenticate(header, verify).Authenticated? && UserByUsername(users, Authenticate(header, verify).username).Some? ==>
        out == Ok(Text(TweetCreated)) &&
        tweets == old(tweets) + [Tweet(NextKey(old(tweets), TweetIdOf), text,
                                       UserByUsername(users, Authenticate(header, verify).username).value.userId, now)] &&
        OwnRow(text, 0, 0, now) in State().GetOwnTweets(Authenticate(header, verify).username).body.rows
    {
      match Authenticate(header, verify)
      case Rejected => return RejectedOutcome();
      case Authenticated(username) => out := PostAs(username, text, now);
    }

    /** The three DELETE statements: the tweet row, then its likes, then its replies. The
        database stays consistent. */
    method RemoveTweet(tweetId: int)
      requires Valid()
      modifies this`tweets, this`likes, this`replies
      ensures Valid()
      ensures tweets == WithoutTweet(old(tweets), tweetId)
      ensures likes == WithoutLikes(old(likes), tweetId)
      ensures replies == WithoutReplies(old(replies), tweetId)
    {
      ConsistentAfterDelete(users, follows, tweets, likes, replies, tweetId);
      tweets, likes, replies := WithoutTweet(tweets, tweetId), WithoutLikes(likes, tweetId), WithoutReplies(replies, tweetId);
    }

    /** The `DELETE /tweets/:tweetId/` handler for the authenticated `username`: only the
        tweet's author may delete it; then the tweet, its likes and its replies go, and the
        tweet, its likes and its replies can no longer be read. */
    method DeleteAs(username: string, tweetId: int) returns (out: Outcome)
      requires Valid()
      modifies this`tweets, this`likes, this`replies
      ensures Valid()
      ensures var a := Authorize(Ownership, old(users), old(follows), old(tweets), username, tweetId);
        (a.Granted? ==> out == Ok(Text(TweetRemoved)) &&
                        tweets == WithoutTweet(old(tweets), tweetId) &&
                        likes == WithoutLikes(old(likes), tweetId) &&
                        replies == WithoutReplies(old(replies), tweetId) &&
                        State().GetTweet(username, tweetId) == Fail(401, InvalidRequest) &&
                        State().GetLikes(username, tweetId) == Fail(401, InvalidRequest) &&
                        State().GetReplies(username, tweetId) == Fail(401, InvalidRequest)) &&
        (!a.Granted? ==> out == GateOutcome(a) && unchanged(this))
    {
      var a := Authorize(Ownership, users, follows, tweets, username, tweetId);
      if !a.Granted? {
        return GateOutcome(a);
      }
      DeletedTweetNotFound(users, follows, tweets, username, tweetId);
      RemoveTweet(tweetId);
      out := Ok(Text(TweetRemoved));
    }

    /** `DELETE /tweets/:tweetId/`: the middleware, then the handler. */
    method DeleteTweet(header: Option<string>, verify: string -> Option<Claims>, tweetId: int)
      returns (out: Outcome)
      requires Valid()
      modifies this`tweets, this`likes, this`replies
      ensures Valid()
      ensures Authenticate(header, verify).Rejected? ==> out == RejectedOutcome() && unchanged(this)
      ensures Authenticate(header, verify).Authenticated? ==>
        var a := Authorize(Ownership, old(users), old(follows), old(tweets), Authenticate(header, verify).username, tweetId);
        (a.Granted? ==> out == Ok(Text(TweetRemoved)) &&
                        tweets == WithoutTweet(old(tweets), tweetId) &&
                        likes == WithoutLikes(old(likes), tweetId) &&
                        replies == WithoutReplies(old(replies), tweetId) &&
                        State().GetTweet(Authenticate(header, verify).username, tweetId) == Fail(401, InvalidRequest) &&
                        State().GetLikes(Authenticate(header, verify).username, tweetId) == Fail(401, InvalidRequest) &&
                        State().GetReplies(Authenticate(header, verify).username, tweetId) == Fail(401, InvalidRequest)) &&
        (!a.Granted? ==> out == GateOutcome(a) && unchanged(this))
    {
      match Authenticate(header, verify)
      case Rejected => return RejectedOutcome();
      case Authenticated(username) => out := DeleteAs(username, tweetId);
    }
  }
}
