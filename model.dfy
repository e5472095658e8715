/**
 * The entities the feed pipeline works on: a post as the upstream client
 * returns it, the record the pipeline stores for it, the profile snapshot,
 * and the five post categories.
 */
module Model {

  import opened Wrappers

  /** The five categories a post is sorted into. */
  datatype TweetType = Thread | Retweet | Reply | Quote | Post

  /** The category as the string stored in a record and shown in a feed title. */
  function TypeName(t: TweetType): string
  {
    match t
    case Thread => "Thread"
    case Retweet => "Retweet"
    case Reply => "Reply"
    case Quote => "Quote"
    case Post => "Post"
  }

  /** A reply attached to a post: the fields the pipeline snapshots from it. */
  datatype RawReply = RawReply(
    id: string,
    fullText: string,
    authorScreenName: string,
    authorId: string,
    createdAt: string)

  /**
   * A post as the upstream client returns it. Of `thread` and
   * `retweeted_tweet` only their presence is consulted; `replies` may be
   * absent or a (possibly empty) list; `is_quote_status` may be absent, and
   * only the literal value `True` marks a quote.
   */
  datatype RawTweet = RawTweet(
    id: string,
    createdAt: string,
    fullText: string,
    hasThread: bool,
    hasRetweetedTweet: bool,
    replies: Option<seq<RawReply>>,
    inReplyTo: Option<string>,
    isQuoteStatus: Option<bool>)

  function TweetId(t: RawTweet): string { t.id }

  /** The snapshot of one attached reply inside a stored record. */
  datatype ReplyRecord = ReplyRecord(
    id: string,
    fullText: string,
    username: string,
    userId: string,
    createdAt: string)

  /** A processed post as stored in the cache and served to clients. */
  datatype TweetRecord = TweetRecord(
    createdAt: string,
    tweetType: TweetType,
    id: string,
    fullText: string,
    inReplyTo: seq<ReplyRecord>)

  function RecordId(r: TweetRecord): string { r.id }

  /** The profile snapshot stored under `user:{username}`. */
  datatype Profile = Profile(profileImageUrl: string, name: string, screenName: string)

  /** The four include flags of a request. */
  datatype Include = Include(posts: bool, replies: bool, retweets: bool, quotes: bool)
}
