/** The rows of the five tables of twitterClone.db, the JWT payload, and the
    status/payload pairs the handlers send. */
module Schema {

  /** A row of `user`; `password` holds the bcrypt hash. */
  datatype User = User(userId: int, name: string, username: string, password: string, gender: string)

  /** A row of `follower`: `followerUserId` follows `followingUserId`. */
  datatype Follower = Follower(followerUserId: int, followingUserId: int)

  /** A row of `tweet`; `dateTime` is the `date_time` column as a timestamp. */
  datatype Tweet = Tweet(tweetId: int, tweet: string, userId: int, dateTime: int)

  /** A row of `like`. */
  datatype Like = Like(likeId: int, tweetId: int, userId: int)

  /** A row of `reply`. */
  datatype Reply = Reply(replyId: int, tweetId: int, reply: string, userId: int)

  /** The JWT payload the login handler passes to `sign`: `{username}`. The issued-at claim
      the signing library adds is part of what `sign` computes, not of this value. */
  datatype Claims = Claims(username: string)

  /** One element of the feed: `{username, tweet, dateTime}`. */
  datatype FeedRow = FeedRow(username: string, tweet: string, dateTime: int)

  /** One element of a tweet's reply list: `{name, reply}`. */
  datatype ReplyRow = ReplyRow(name: string, reply: string)

  /** One element of `GET /user/tweets/`: `{tweet, likes, replies, dateTime}`. */
  datatype OwnRow = OwnRow(tweet: string, likes: nat, replies: nat, dateTime: int)

  /** What `response.send` carries. */
  datatype Body =
    | Text(text: string)                                                     // a plain message
    | Token(jwtToken: string)                                                // `{jwtToken}`
    | Feed(feed: seq<FeedRow>)                                               // the feed array
    | Names(names: seq<string>)                                              // `[{name}]`
    | Stats(tweet: string, likeCount: nat, replyCount: nat, dateTime: int)   // `{tweet, likes, replies, dateTime}`
    | Likers(usernames: seq<string>)                                         // `{likes: [username]}`
    | Replies(replies: seq<ReplyRow>)                                        // `{replies: [{name, reply}]}`
    | Own(rows: seq<OwnRow>)                                                 // the own-tweets array

  /** An HTTP status with its payload; `response.send` without `status` is 200. */
  datatype Outcome = Outcome(status: int, body: Body)

  const UserExists: string := "User already exists"
  const PasswordTooShort: string := "Password is too short"
  const UserCreated: string := "User created successfully"
  const InvalidUser: string := "Invalid user"
  const InvalidPassword: string := "Invalid password"
  const InvalidToken: string := "Invalid JWT Token"
  const InvalidRequest: string := "Invalid Request"
  const TweetCreated: string := "Created a Tweet"
  const TweetRemoved: string := "Tweet Removed"
  const ServerError: string := "Server error"

  /** The shortest password registration accepts. */
  const MinPasswordLength: nat := 6

  /** The number of rows the feed query keeps (`LIMIT 4`). */
  const FeedLimit: nat := 4

  function Ok(body: Body): Outcome { Outcome(200, body) }

  function Fail(status: int, message: string): Outcome { Outcome(status, Text(message)) }

  // Key columns, as named functions so that every member that mentions a key
  // mentions the same function value.
  function UserIdOf(u: User): int { u.userId }
  function TweetIdOf(t: Tweet): int { t.tweetId }
  function LikeIdOf(l: Like): int { l.likeId }
  function ReplyIdOf(r: Reply): int { r.replyId }
  function FeedTime(row: FeedRow): int { row.dateTime }
  function OwnTime(row: OwnRow): int { row.dateTime }
}
