/**
 * The batch pipeline of `refresh_user_tweets_cache` in xrss/main.py: the
 * "Tweets" batch and the "Replies" batch are merged keeping the first post
 * of each id, sorted newest first, and each post becomes a stored record.
 */
module Processing {

  import opened Wrappers
  import opened Model
  import opened Classifier
  import opened Utils
  import opened Dedupe
  import opened CreatedAt
  import opened NewestFirst

  /** The sort key of a post: its parsed `created_at`, `None` when it does not parse. */
  function PostedAt(t: RawTweet): Option<DateTime>
  {
    ParseCreatedAt(t.createdAt)
  }

  /** The merge rule: first occurrence of each id, "Tweets" batch before "Replies" batch. */
  function Merged(tweets: seq<RawTweet>, replies: seq<RawTweet>): seq<RawTweet>
  {
    KeepFirst(tweets + replies, TweetId, {})
  }

  /** The posts of the first `n` batches, in batch order. */
  ghost function FirstBatches(results: seq<seq<RawTweet>>, n: nat): seq<RawTweet>
    requires n <= |results|
  {
    if n == 0 then [] else FirstBatches(results, n - 1) + results[n - 1]
  }

  /** The ids of the posts walked so far: the seen-set of the merge loop. */
  ghost function SeenIds(done: seq<RawTweet>): set<string>
  {
    if done == [] then {} else SeenIds(done[..|done| - 1]) + {done[|done| - 1].id}
  }

  /** The seen-set is the id set of the posts walked. */
  lemma {:induction false} SeenIdsIsIdSet(done: seq<RawTweet>)
    ensures SeenIds(done) == IdSet(done, TweetId)
    decreases |done|
  {
    if done == [] {
      assert IdSet(done, TweetId) == {};
    } else {
      var prefix, last := done[..|done| - 1], done[|done| - 1];
      SeenIdsIsIdSet(prefix);
      IdSetSnoc(prefix, last, TweetId);
      assert prefix + [last] == done;
    }
  }

  /** The state of the merge loop after walking `done`: the posts kept and the ids seen. */
  ghost predicate MergedSoFar(done: seq<RawTweet>, allTweets: seq<RawTweet>, seenTweetIds: set<string>)
  {
    allTweets == KeepFirst(done, TweetId, {}) && seenTweetIds == SeenIds(done)
  }

  /** One post of the merge loop: kept, and its id seen, exactly when its id is new. */
  lemma MergeStep(done: seq<RawTweet>, tweet: RawTweet, allTweets: seq<RawTweet>, seenTweetIds: set<string>)
    requires MergedSoFar(done, allTweets, seenTweetIds)
    ensures MergedSoFar(done + [tweet], if tweet.id in seenTweetIds then allTweets else allTweets + [tweet],
                        if tweet.id in seenTweetIds then seenTweetIds else seenTweetIds + {tweet.id})
  {
    SeenIdsIsIdSet(done);
    KeepFirstSnoc(done, tweet, TweetId);
    assert (done + [tweet])[..|done|] == done;
  }

  /**
   * The merge loop: walks the fetched batches in order, appending every
   * post whose id is not yet in the seen-set and adding its id to the set.
   */
  method MergeBatches(tweets: seq<RawTweet>, replies: seq<RawTweet>) returns (allTweets: seq<RawTweet>)
    ensures allTweets == Merged(tweets, replies)
  {
    var results := [tweets, replies];
    allTweets := [];
    var seenTweetIds: set<string> := {};
    ghost var done: seq<RawTweet> := [];
    var b := 0;
    while b < |results|
      invariant 0 <= b <= |results|
      invariant done == FirstBatches(results, b)
      invariant MergedSoFar(done, allTweets, seenTweetIds)
    {
      var tweetList := results[b];
      ghost var before := done;
      var i := 0;
      while i < |tweetList|
        invariant 0 <= i <= |tweetList|
        invariant done == before + tweetList[..i]
        invariant MergedSoFar(done, allTweets, seenTweetIds)
      {
        var tweet := tweetList[i];
        assert tweetList[..i + 1] == tweetList[..i] + [tweet];
        MergeStep(done, tweet, allTweets, seenTweetIds);
        if tweet.id !in seenTweetIds {
          allTweets := allTweets + [tweet];
          seenTweetIds := seenTweetIds + {tweet.id};
        }
        done := done + [tweet];
        i := i + 1;
      }
      assert tweetList[..i] == tweetList;
      assert done == FirstBatches(results, b + 1);
      b := b + 1;
    }
    assert FirstBatches(results, 1) == tweets by { assert [] + tweets == tweets; }
  }

  /**
   * The merged list has pairwise-distinct ids, is no longer than the two
   * batches together, holds every id of either batch, and holds exactly the
   * first occurrence of each id in Tweets-then-Replies order, at the
   * position of that occurrence.
   */
  lemma MergedSpec(tweets: seq<RawTweet>, replies: seq<RawTweet>)
    ensures DistinctIds(Merged(tweets, replies), TweetId)
    ensures |Merged(tweets, replies)| <= |tweets| + |replies|
    ensures IdSet(Merged(tweets, replies), TweetId) == IdSet(tweets, TweetId) + IdSet(replies, TweetId)
    ensures IsSubsequence(Merged(tweets, replies), tweets + replies)
    ensures Merged(tweets, replies) == FirstOccurrences(tweets + replies, TweetId, {}, |tweets + replies|)
    ensures forall j :: 0 <= j < |tweets + replies| ==>
              ((tweets + replies)[j] in Merged(tweets, replies) <==>
               exists j' :: 0 <= j' < |tweets + replies| && (tweets + replies)[j'] == (tweets + replies)[j]
                            && FirstOccurrence(tweets + replies, TweetId, {}, j'))
  {
    var all := tweets + replies;
    KeepFirstDistinct(all, TweetId, {});
    KeepFirstShape(all, TweetId, {});
    KeepFirstIsFirstOccurrences(all, TweetId, {});
    IdSetAppend(tweets, replies, TweetId);
  }

  /** A post fetched in both batches is kept once, at its place among the Tweets. */
  lemma ExampleDuplicateKeptFirst(a: RawTweet, b: RawTweet)
    requires a.id != b.id
    ensures Merged([a, b], [a]) == [a, b]
  {
    assert [a, b] + [a] == [a, b, a];
    assert [a, b, a][1..] == [b, a] && [b, a][1..] == [a] && [a][1..] == [];
    var seenA := {} + {TweetId(a)};
    assert KeepFirst([a], TweetId, seenA + {TweetId(b)}) == [];
    assert KeepFirst([b, a], TweetId, seenA) == [b];
    assert KeepFirst([a, b, a], TweetId, {}) == [a, b];
  }

  /** The snapshot of an attached reply, its text cleaned like the post's. */
  function ReplyRecordOf(r: RawReply): ReplyRecord
  {
    ReplyRecord(r.id, CleanTweet(r.fullText), r.authorScreenName, r.authorId, r.createdAt)
  }

  /** The attached replies, `[]` when the post has none (`tweet.replies or []`). */
  function RepliesOrEmpty(t: RawTweet): seq<RawReply>
  {
    match t.replies
    case None => []
    case Some(rs) => rs
  }

  /** The record stored for one post. */
  function RecordOf(t: RawTweet): TweetRecord
  {
    var rs := RepliesOrEmpty(t);
    TweetRecord(t.createdAt, TweetTypeOf(t), t.id, CleanTweet(t.fullText),
                seq(|rs|, i requires 0 <= i < |rs| => ReplyRecordOf(rs[i])))
  }

  /** The projection comprehension: one record per post, in order. */
  function Project(ts: seq<RawTweet>): seq<TweetRecord>
  {
    seq(|ts|, i requires 0 <= i < |ts| => RecordOf(ts[i]))
  }

  /**
   * Projection keeps length and order; each record carries its post's id and
   * timestamp, its category, its cleaned text, and one cleaned snapshot per
   * attached reply, none at all when the post has no reply list.
   */
  lemma ProjectSpec(ts: seq<RawTweet>)
    ensures |Project(ts)| == |ts|
    ensures forall i :: 0 <= i < |ts| ==>
      var r := Project(ts)[i];
      && r.id == ts[i].id && r.createdAt == ts[i].createdAt
      && r.tweetType == TweetTypeOf(ts[i])
      && r.fullText == CleanTweet(ts[i].fullText)
      && (ts[i].replies.None? ==> r.inReplyTo == [])
      && (ts[i].replies.Some? ==> |r.inReplyTo| == |ts[i].replies.value|)
    ensures forall i, j :: 0 <= i < |ts| && 0 <= j < |RepliesOrEmpty(ts[i])| ==>
      var snapshot, reply := Project(ts)[i].inReplyTo[j], RepliesOrEmpty(ts[i])[j];
      && snapshot.id == reply.id
      && snapshot.fullText == CleanTweet(reply.fullText)
      && snapshot.username == reply.authorScreenName
      && snapshot.userId == reply.authorId
      && snapshot.createdAt == reply.createdAt
  {
  }

  /** Projection commutes with concatenation, so it preserves the order of any split. */
  lemma ProjectAppend(a: seq<RawTweet>, b: seq<RawTweet>)
    ensures Project(a + b) == Project(a) + Project(b)
  {
  }

  /**
   * The whole pipeline: merge, sort newest first (failing when a timestamp
   * does not parse, as `strptime` raises), project.
   */
  function Processed(tweets: seq<RawTweet>, replies: seq<RawTweet>): Option<seq<TweetRecord>>
  {
    match SortNewestFirst(Merged(tweets, replies), PostedAt)
    case None => None
    case Some(sorted) => Some(Project(sorted))
  }

  /** The parsed timestamp of a stored record. */
  function RecordPostedAt(r: TweetRecord): Option<DateTime>
  {
    ParseCreatedAt(r.createdAt)
  }

  /** Every record's timestamp parses and none is newer than the one before it. */
  predicate RecordsNewestFirst(recs: seq<TweetRecord>)
  {
    OrderedByKey(recs, RecordPostedAt)
  }

  /**
   * The pipeline fails exactly when some kept post has a timestamp that does
   * not parse: a later duplicate is dropped before the sort and never parsed.
   */
  lemma ProcessedFailsIff(tweets: seq<RawTweet>, replies: seq<RawTweet>)
    ensures Processed(tweets, replies).None? <==>
      exists t :: t in Merged(tweets, replies) && PostedAt(t).None?
  {
    var merged := Merged(tweets, replies);
    SortSucceedsIff(merged, PostedAt);
    if Processed(tweets, replies).None? {
      var i :| 0 <= i < |merged| && PostedAt(merged[i]).None?;
      assert merged[i] in merged;
    }
  }

  /**
   * When the pipeline succeeds, the records have distinct ids, cover every
   * id of both batches and number at most the two batches together.
   */
  lemma ProcessedIds(tweets: seq<RawTweet>, replies: seq<RawTweet>)
    requires Processed(tweets, replies).Some?
    ensures DistinctIds(Processed(tweets, replies).value, RecordId)
    ensures IdSet(Processed(tweets, replies).value, RecordId) == IdSet(tweets, TweetId) + IdSet(replies, TweetId)
    ensures |Processed(tweets, replies).value| <= |tweets| + |replies|
  {
    var merged := Merged(tweets, replies);
    MergedSpec(tweets, replies);
    SortIsOrderedPermutation(merged, PostedAt);
    var sorted := SortNewestFirst(merged, PostedAt).value;
    assert Processed(tweets, replies).value == Project(sorted);
    PermutationIdSet(merged, sorted, TweetId);
    PermutationDistinct(merged, sorted, TweetId);
    assert |sorted| == |merged| by {
      assert |multiset(sorted)| == |multiset(merged)|;
    }
    ProjectIds(sorted);
  }

  /** When the pipeline succeeds, its records are ordered newest first. */
  lemma ProcessedNewestFirst(tweets: seq<RawTweet>, replies: seq<RawTweet>)
    requires Processed(tweets, replies).Some?
    ensures RecordsNewestFirst(Processed(tweets, replies).value)
  {
    var merged := Merged(tweets, replies);
    SortIsOrderedPermutation(merged, PostedAt);
    var sorted := SortNewestFirst(merged, PostedAt).value;
    var recs := Project(sorted);
    assert Processed(tweets, replies).value == recs;
    forall i | 0 <= i < |recs| ensures RecordPostedAt(recs[i]) == PostedAt(sorted[i]) {
    }
  }

  lemma ProjectIds(ts: seq<RawTweet>)
    ensures IdSet(Project(ts), RecordId) == IdSet(ts, TweetId)
    ensures DistinctIds(ts, TweetId) ==> DistinctIds(Project(ts), RecordId)
  {
    var recs := Project(ts);
    forall y | y in IdSet(recs, RecordId) ensures y in IdSet(ts, TweetId) {
      var i :| 0 <= i < |recs| && RecordId(recs[i]) == y;
    }
    forall y | y in IdSet(ts, TweetId) ensures y in IdSet(recs, RecordId) {
      var i :| 0 <= i < |ts| && TweetId(ts[i]) == y;
      assert RecordId(recs[i]) == y;
    }
  }
}
