/**
 * The post classifier of xrss/main.py (`_get_tweet_type`): five tests tried
 * in a fixed order, the first that holds decides the category.
 */
module Classifier {

  import opened Wrappers
  import opened Model

  /** The reply signal: a non-empty list of attached replies, or a reply target. */
  predicate HasReplySignal(t: RawTweet)
  {
    (t.replies.Some? && |t.replies.value| > 0) || t.inReplyTo.Some?
  }

  /** Only the literal `True` marks a quote; `False` and an absent flag do not. */
  predicate IsQuote(t: RawTweet)
  {
    t.isQuoteStatus == Some(true)
  }

  function TweetTypeOf(t: RawTweet): (r: TweetType)
    ensures r == Thread <==> t.hasThread
    ensures r == Retweet <==> !t.hasThread && t.hasRetweetedTweet
    ensures r == Reply <==> !t.hasThread && !t.hasRetweetedTweet && HasReplySignal(t)
    ensures r == Quote <==> !t.hasThread && !t.hasRetweetedTweet && !HasReplySignal(t) && IsQuote(t)
    ensures r == Post <==> !t.hasThread && !t.hasRetweetedTweet && !HasReplySignal(t) && !IsQuote(t)
  {
    if t.hasThread then Thread
    else if t.hasRetweetedTweet then Retweet
    else if (t.replies.Some? && |t.replies.value| > 0) || t.inReplyTo.Some? then Reply
    else if t.isQuoteStatus == Some(true) then Quote
    else Post
  }

  /** Thread membership decides alone: no other field can change a Thread. */
  lemma ThreadWins(t: RawTweet, retweeted: bool, replies: Option<seq<RawReply>>,
                   inReplyTo: Option<string>, quote: Option<bool>)
    requires t.hasThread
    ensures TweetTypeOf(t.(hasRetweetedTweet := retweeted, replies := replies,
                           inReplyTo := inReplyTo, isQuoteStatus := quote)) == Thread
  {
  }

  /** Below a thread, a retweet outranks every reply and quote signal. */
  lemma RetweetOutranksReplyAndQuote(t: RawTweet, replies: Option<seq<RawReply>>,
                                     inReplyTo: Option<string>, quote: Option<bool>)
    requires !t.hasThread && t.hasRetweetedTweet
    ensures TweetTypeOf(t.(replies := replies, inReplyTo := inReplyTo,
                           isQuoteStatus := quote)) == Retweet
  {
  }

  /** An empty reply list is no reply signal: such a post is a Quote or a Post. */
  lemma EmptyRepliesIsNoReply(t: RawTweet)
    requires !t.hasThread && !t.hasRetweetedTweet
    requires t.replies == Some([]) && t.inReplyTo.None?
    ensures TweetTypeOf(t) == (if IsQuote(t) then Quote else Post)
  {
  }
}
