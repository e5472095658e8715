/**
 * The earlier single-file service, main.py: its own copies of the post
 * classifier and of the retweet-prefix normaliser, and a `get_tweets`
 * without a cache that, for every user, fetches each requested batch,
 * sorts it newest first, filters and projects it into
 * `tweets[username]`, and finally removes duplicate ids per user.
 */
module Legacy {

  import opened Wrappers
  import opened Model
  import opened Classifier
  import Utils
  import opened Dedupe
  import opened CreatedAt
  import opened NewestFirst
  import opened Processing
  import opened Endpoint

  /** main.py's `_get_tweet_type`, which answers with the category's name. */
  function TweetTypeName(t: RawTweet): string
  {
    if t.hasThread then "Thread"
    else if t.hasRetweetedTweet then "Retweet"
    else if (t.replies.Some? && |t.replies.value| > 0) || t.inReplyTo.Some? then "Reply"
    else if t.isQuoteStatus == Some(true) then "Quote"
    else "Post"
  }

  /** Both classifiers have the same five-way precedence and agree on every post. */
  lemma SameClassifier(t: RawTweet)
    ensures TweetTypeName(t) == TypeName(TweetTypeOf(t))
  {
  }

  /** Python's `str.find` for one character: the first index, or -1 when absent. */
  function Find(s: string, c: char): (r: int)
    ensures -1 <= r < |s|
    ensures r == -1 <==> c !in s
    ensures r >= 0 ==> s[r] == c && c !in s[..r]
  {
    match Utils.FindChar(s, c)
    case None => -1
    case Some(i) => i
  }

  /** Python's `s[k:]` for `k >= 0`: empty once `k` is past the end. */
  function SliceFrom(s: string, k: nat): (r: string)
    ensures k <= |s| ==> s == s[..k] + r
    ensures k >= |s| ==> r == ""
  {
    if k <= |s| then s[k..] else ""
  }

  /** main.py's `clean_tweet`, written with `find` and its -1 result. */
  function CleanTweet(tweet: string): string
  {
    if Utils.StartsWith(tweet, "RT @") then
      var colonIndex := Find(tweet, ':');
      if colonIndex != -1 then SliceFrom(tweet, colonIndex + 2) else tweet
    else tweet
  }

  /** The two copies of the normaliser agree on every input. */
  lemma CleanTweetAgrees(tweet: string)
    ensures CleanTweet(tweet) == Utils.CleanTweet(tweet)
  {
    assert Utils.RetweetMarker == "RT @";
  }

  /** The documented example of a retweet: the prefix through the colon and space goes. */
  lemma DocExampleRetweet()
    ensures CleanTweet("RT @user: This is the actual content") == "This is the actual content"
  {
    var body := "This is the actual content";
    assert Utils.RetweetMarker + "user" + ":" + [' '] == "RT @user: ";
    assert "RT @user: " + body == "RT @user: This is the actual content";
    Utils.CleanRecoversBody("user", ' ', body);
    CleanTweetAgrees("RT @user: This is the actual content");
  }

  /** The documented example of a plain post: it is returned as it is. */
  lemma DocExamplePlain()
    ensures CleanTweet("Regular tweet without RT") == "Regular tweet without RT"
  {
    assert "Regular tweet without RT"[1] != Utils.RetweetMarker[1];
    CleanTweetAgrees("Regular tweet without RT");
  }

  /** The two timelines main.py asks the client for. */
  datatype BatchKind = TweetsBatch | RepliesBatch

  /** "Tweets" serves posts, retweets and quotes; "Replies" serves replies. */
  predicate Requested(kind: BatchKind, flags: Include)
  {
    match kind
    case TweetsBatch => flags.posts || flags.retweets || flags.quotes
    case RepliesBatch => flags.replies
  }

  /** Some flag is set, so at least one batch is fetched per user. */
  predicate AnyRequested(flags: Include)
  {
    flags.posts || flags.replies || flags.retweets || flags.quotes
  }

  /** The batch fetched last for each user: "Replies" when requested, else "Tweets". */
  function LastBatch(flags: Include): BatchKind
  {
    if flags.replies then RepliesBatch else TweetsBatch
  }

  /**
   * Building `tweet_types`: exactly the requested batches, "Tweets" before
   * "Replies", none when every flag is off; so the last one fetched is
   * `LastBatch`.
   */
  method SelectTweetTypes(flags: Include) returns (tweetTypes: seq<BatchKind>)
    ensures forall kind :: kind in tweetTypes <==> Requested(kind, flags)
    ensures |tweetTypes| <= 2
    ensures |tweetTypes| == 2 ==> tweetTypes == [TweetsBatch, RepliesBatch]
    ensures tweetTypes == [] <==> !AnyRequested(flags)
    ensures tweetTypes != [] ==> tweetTypes[|tweetTypes| - 1] == LastBatch(flags)
  {
    tweetTypes := [];
    if flags.posts || flags.retweets || flags.quotes {
      tweetTypes := tweetTypes + [TweetsBatch];
    }
    if flags.replies {
      tweetTypes := tweetTypes + [RepliesBatch];
    }
  }

  /**
   * The comprehension of main.py: the record of every post whose category
   * is enabled, in order. (The record's text goes through the normaliser,
   * which `CleanTweetAgrees` shows is the same in both files.)
   */
  function FilterProject(ts: seq<RawTweet>, flags: Include): seq<TweetRecord>
  {
    if ts == [] then []
    else (if Included(TweetTypeOf(ts[0]), flags) then [RecordOf(ts[0])] else []) + FilterProject(ts[1..], flags)
  }

  /** Filtering while projecting is projecting, then applying the type filter. */
  lemma {:induction false} FilterProjectIsFilterOfProject(ts: seq<RawTweet>, flags: Include)
    ensures FilterProject(ts, flags) == FilterByType(Project(ts), flags)
    decreases |ts|
  {
    if ts != [] {
      FilterProjectIsFilterOfProject(ts[1..], flags);
      ProjectAppend([ts[0]], ts[1..]);
      assert ts == [ts[0]] + ts[1..];
      var recs := Project(ts);
      assert recs[0] == RecordOf(ts[0]);
      assert recs[1..] == Project(ts[1..]);
    }
  }

  /**
   * The per-batch filter keeps, in order, exactly the enabled records of the
   * projection, each as often as it occurs there, and never a Thread.
   */
  lemma FilterProjectSpec(ts: seq<RawTweet>, flags: Include)
    ensures IsSubsequence(FilterProject(ts, flags), Project(ts))
    ensures forall x :: x in FilterProject(ts, flags) <==> x in Project(ts) && Included(x.tweetType, flags)
    ensures forall x :: x in FilterProject(ts, flags) ==> x.tweetType != Thread
    ensures forall x :: multiset(FilterProject(ts, flags))[x] ==
                        if Included(x.tweetType, flags) then multiset(Project(ts))[x] else 0
  {
    FilterProjectIsFilterOfProject(ts, flags);
    FilterByTypeCounts(Project(ts), flags);
  }

  /** The type filter keeps a newest-first list newest first. */
  lemma {:induction false} FilterKeepsNewestFirst(records: seq<TweetRecord>, flags: Include, KeyOf: TweetRecord -> Option<DateTime>)
    requires OrderedByKey(records, KeyOf)
    ensures OrderedByKey(FilterByType(records, flags), KeyOf)
    decreases |records|
  {
    if records != [] {
      var rest := records[1..];
      assert OrderedByKey(rest, KeyOf) by {
        forall i | 0 <= i < |rest| ensures rest[i] == records[i + 1] {}
      }
      FilterKeepsNewestFirst(rest, flags, KeyOf);
      if Included(records[0].tweetType, flags) {
        var kept := FilterByType(rest, flags);
        forall y | y in kept
          ensures NotAfter(KeyOf(y).value, KeyOf(records[0]).value)
        {
          var j :| 0 <= j < |rest| && rest[j] == y;
          assert records[j + 1] == y;
        }
        OrderedCons(records[0], kept, KeyOf);
      }
    }
  }

  /**
   * One batch as main.py turns it into records: sorted newest first (failing
   * when a timestamp does not parse, as `strptime` raises), then filtered and
   * projected.
   */
  function BatchRecords(batch: seq<RawTweet>, flags: Include, KeyOf: RawTweet -> Option<DateTime>): Option<seq<TweetRecord>>
  {
    match SortNewestFirst(batch, KeyOf)
    case None => None
    case Some(sorted) => Some(FilterProject(sorted, flags))
  }

  /**
   * A batch yields records exactly when every timestamp in it parses, and
   * then they are newest first and drawn from the batch's own posts.
   */
  lemma BatchRecordsSpec(batch: seq<RawTweet>, flags: Include)
    ensures BatchRecords(batch, flags, PostedAt).Some? <==> forall i :: 0 <= i < |batch| ==> PostedAt(batch[i]).Some?
    ensures BatchRecords(batch, flags, PostedAt).Some? ==> RecordsNewestFirst(BatchRecords(batch, flags, PostedAt).value)
    ensures BatchRecords(batch, flags, PostedAt).Some? ==>
      forall x :: x in BatchRecords(batch, flags, PostedAt).value ==>
        Included(x.tweetType, flags) && exists t :: t in batch && x == RecordOf(t)
  {
    SortSucceedsIff(batch, PostedAt);
    if BatchRecords(batch, flags, PostedAt).Some? {
      var sorted := SortNewestFirst(batch, PostedAt).value;
      SortIsOrderedPermutation(batch, PostedAt);
      var recs := Project(sorted);
      forall i | 0 <= i < |recs| ensures RecordPostedAt(recs[i]) == PostedAt(sorted[i]) {
      }
      assert RecordsNewestFirst(recs);
      FilterProjectIsFilterOfProject(sorted, flags);
      FilterKeepsNewestFirst(recs, flags, RecordPostedAt);
      forall x | x in BatchRecords(batch, flags, PostedAt).value
        ensures exists t :: t in batch && x == RecordOf(t)
      {
        var i :| 0 <= i < |recs| && recs[i] == x;
        assert sorted[i] in multiset(batch);
      }
    }
  }

  /**
   * What the client answers for a screen name: no such user, or a found user
   * whose two timelines are each either fetched or `None` when
   * `user.get_tweets` raises for that timeline.
   */
  datatype LegacyUser = NoSuchUser | Timelines(tweets: Option<seq<RawTweet>>, replies: Option<seq<RawTweet>>)

  /** The exception that ends the request. */
  datatype LegacyError = UserLookupFailed | TimelineFetchFailed | TimestampUnparsed

  function Batch(user: LegacyUser, kind: BatchKind): Option<seq<RawTweet>>
    requires user.Timelines?
  {
    match kind
    case TweetsBatch => user.tweets
    case RepliesBatch => user.replies
  }

  /** A requested batch whose fetch raises, or that cannot be sorted because some key cannot be read. */
  predicate BatchFails(user: LegacyUser, kind: BatchKind, flags: Include, KeyOf: RawTweet -> Option<DateTime>)
  {
    && user.Timelines? && Requested(kind, flags)
    && (Batch(user, kind).None? || SortNewestFirst(Batch(user, kind).value, KeyOf).None?)
  }

  /** The exception a failing batch raises: the fetch comes before the sort. */
  function BatchError(user: LegacyUser, kind: BatchKind): LegacyError
    requires user.Timelines?
  {
    if Batch(user, kind).None? then TimelineFetchFailed else TimestampUnparsed
  }

  /** Serving this user raises: the lookup fails, or a requested batch does not sort. */
  predicate UserFails(user: LegacyUser, flags: Include, KeyOf: RawTweet -> Option<DateTime>)
  {
    user.NoSuchUser? || BatchFails(user, TweetsBatch, flags, KeyOf) || BatchFails(user, RepliesBatch, flags, KeyOf)
  }

  /**
   * The exception a failing user raises: the lookup comes first, then the
   * "Tweets" batch, then the "Replies" batch.
   */
  function ErrorOf(user: LegacyUser, flags: Include, KeyOf: RawTweet -> Option<DateTime>): LegacyError
  {
    if user.NoSuchUser? then UserLookupFailed
    else if BatchFails(user, TweetsBatch, flags, KeyOf) then BatchError(user, TweetsBatch)
    else BatchError(user, RepliesBatch)
  }

  /**
   * The list served for a user that does not fail: the records of the last
   * requested batch alone (each batch overwrites `tweets[username]`), with
   * duplicate ids removed.
   */
  function UserRecords(user: LegacyUser, flags: Include, KeyOf: RawTweet -> Option<DateTime>): seq<TweetRecord>
    requires !UserFails(user, flags, KeyOf) && AnyRequested(flags)
  {
    KeepFirst(BatchRecords(Batch(user, LastBatch(flags)).value, flags, KeyOf).value, RecordId, {})
  }

  /**
   * The duplicate-removal pass over one user's list (a seen-set of ids):
   * the first record for each id, in order.
   */
  method DedupeById(userTweets: seq<TweetRecord>) returns (deduped: seq<TweetRecord>)
    ensures deduped == KeepFirst(userTweets, RecordId, {})
  {
    var ids: set<string> := {};
    deduped := [];
    var i := 0;
    while i < |userTweets|
      invariant 0 <= i <= |userTweets|
      invariant deduped == KeepFirst(userTweets[..i], RecordId, {})
      invariant ids == IdSet(userTweets[..i], RecordId)
    {
      var tweet := userTweets[i];
      KeepFirstSnoc(userTweets[..i], tweet, RecordId);
      if tweet.id !in ids {
        deduped := deduped + [tweet];
        ids := ids + {tweet.id};
      }
      assert userTweets[..i + 1] == userTweets[..i] + [tweet];
      i := i + 1;
    }
    assert userTweets[..i] == userTweets;
  }

  /**
   * Duplicate removal yields distinct ids, is an order-preserving
   * subsequence keeping each id's first record, and only that, in position
   * order; it loses no id, and leaves a list with distinct ids unchanged.
   */
  lemma DedupeSpec(userTweets: seq<TweetRecord>)
    ensures DistinctIds(KeepFirst(userTweets, RecordId, {}), RecordId)
    ensures IsSubsequence(KeepFirst(userTweets, RecordId, {}), userTweets)
    ensures KeepFirst(userTweets, RecordId, {}) == FirstOccurrences(userTweets, RecordId, {}, |userTweets|)
    ensures IdSet(KeepFirst(userTweets, RecordId, {}), RecordId) == IdSet(userTweets, RecordId)
    ensures forall j :: 0 <= j < |userTweets| && FirstOccurrence(userTweets, RecordId, {}, j) ==>
              userTweets[j] in KeepFirst(userTweets, RecordId, {})
    ensures DistinctIds(userTweets, RecordId) ==> KeepFirst(userTweets, RecordId, {}) == userTweets
  {
    KeepFirstIsFirstOccurrences(userTweets, RecordId, {});
    KeepFirstDistinct(userTweets, RecordId, {});
    KeepFirstShape(userTweets, RecordId, {});
    assert IdSet(userTweets, RecordId) - {} == IdSet(userTweets, RecordId);
    if DistinctIds(userTweets, RecordId) {
      KeepFirstUnique(userTweets, RecordId, {});
    }
  }

  /**
   * One batch: sort it newest first by `KeyOf` (failing when a key cannot be
   * read), then keep and project the posts of enabled categories.
   */
  method FetchBatch(batch: seq<RawTweet>, flags: Include, KeyOf: RawTweet -> Option<DateTime>)
    returns (records: Option<seq<TweetRecord>>)
    ensures records == BatchRecords(batch, flags, KeyOf)
  {
    var sorted := SortNewestFirst(batch, KeyOf);
    if sorted.None? {
      return None;
    }
    records := Some(FilterProject(sorted.value, flags));
  }

  /** When no fetched batch fails and every requested batch is fetched, the user does not fail. */
  lemma AllRequestedSucceed(user: LegacyUser, tweetTypes: seq<BatchKind>, flags: Include, KeyOf: RawTweet -> Option<DateTime>)
    requires user.Timelines?
    requires forall kind :: kind in tweetTypes <==> Requested(kind, flags)
    requires forall m :: 0 <= m < |tweetTypes| ==> !BatchFails(user, tweetTypes[m], flags, KeyOf)
    ensures !UserFails(user, flags, KeyOf)
  {
    forall kind | Requested(kind, flags) ensures !BatchFails(user, kind, flags, KeyOf) {
      var m :| 0 <= m < |tweetTypes| && tweetTypes[m] == kind;
    }
  }

  /** The first requested batch that fails decides the user's exception. */
  lemma FirstFailureDecides(user: LegacyUser, tweetTypes: seq<BatchKind>, k: nat, flags: Include,
                            KeyOf: RawTweet -> Option<DateTime>)
    requires user.Timelines?
    requires forall kind :: kind in tweetTypes <==> Requested(kind, flags)
    requires |tweetTypes| <= 2 && (|tweetTypes| == 2 ==> tweetTypes == [TweetsBatch, RepliesBatch])
    requires k < |tweetTypes| && BatchFails(user, tweetTypes[k], flags, KeyOf)
    requires forall m :: 0 <= m < k ==> !BatchFails(user, tweetTypes[m], flags, KeyOf)
    ensures UserFails(user, flags, KeyOf)
    ensures ErrorOf(user, flags, KeyOf) == BatchError(user, tweetTypes[k])
  {
    if tweetTypes[k] == RepliesBatch && Requested(TweetsBatch, flags) {
      assert TweetsBatch in tweetTypes;
      var m :| 0 <= m < |tweetTypes| && tweetTypes[m] == TweetsBatch;
      assert |tweetTypes| == 2;
      assert !BatchFails(user, tweetTypes[0], flags, KeyOf);
    }
  }

  /**
   * The inner loop for one found user: each requested batch in turn is
   * sorted, filtered and projected into `tweets[username]`, overwriting the
   * previous one; a batch that does not sort raises.
   */
  method StoreBatches(tweets: map<string, seq<TweetRecord>>, username: string, user: LegacyUser,
                      tweetTypes: seq<BatchKind>, flags: Include, KeyOf: RawTweet -> Option<DateTime>)
    returns (r: Result<map<string, seq<TweetRecord>>, LegacyError>)
    requires user.Timelines?
    requires forall kind :: kind in tweetTypes <==> Requested(kind, flags)
    requires |tweetTypes| <= 2 && (|tweetTypes| == 2 ==> tweetTypes == [TweetsBatch, RepliesBatch])
    requires tweetTypes != [] ==> tweetTypes[|tweetTypes| - 1] == LastBatch(flags)
    ensures r.Failure? <==> UserFails(user, flags, KeyOf)
    ensures r.Failure? ==> r.error == ErrorOf(user, flags, KeyOf)
    ensures r.Success? && tweetTypes == [] ==> r.value == tweets
    ensures r.Success? && tweetTypes != [] ==>
              r.value == tweets[username := BatchRecords(Batch(user, LastBatch(flags)).value, flags, KeyOf).value]
  {
    var current := tweets;
    var k := 0;
    while k < |tweetTypes|
      invariant 0 <= k <= |tweetTypes|
      invariant forall m :: 0 <= m < k ==> !BatchFails(user, tweetTypes[m], flags, KeyOf)
      invariant k == 0 ==> current == tweets
      invariant k > 0 ==> && Batch(user, tweetTypes[k - 1]).Some?
                          && current == tweets[username := BatchRecords(Batch(user, tweetTypes[k - 1]).value, flags, KeyOf).value]
    {
      var fetched := Batch(user, tweetTypes[k]);
      if fetched.None? {
        FirstFailureDecides(user, tweetTypes, k, flags, KeyOf);
        return Failure(TimelineFetchFailed);
      }
      var records := FetchBatch(fetched.value, flags, KeyOf);
      if records.None? {
        FirstFailureDecides(user, tweetTypes, k, flags, KeyOf);
        return Failure(TimestampUnparsed);
      }
      current := current[username := records.value];
      k := k + 1;
    }
    AllRequestedSucceed(user, tweetTypes, flags, KeyOf);
    return Success(current);
  }

  /**
   * The users before position `i` all succeeded, and `tweets` maps exactly
   * those users (none when no flag is set) to their last requested batch.
   */
  ghost predicate FetchedSoFar(tweets: map<string, seq<TweetRecord>>, usernames: seq<string>, i: nat,
                               flags: Include, upstream: string -> LegacyUser, KeyOf: RawTweet -> Option<DateTime>)
    requires i <= |usernames|
  {
    && (forall j :: 0 <= j < i ==> !UserFails(upstream(usernames[j]), flags, KeyOf))
    && (forall u :: u in tweets <==> AnyRequested(flags) && u in usernames[..i])
    && (forall u :: u in tweets ==>
          && !UserFails(upstream(u), flags, KeyOf) && AnyRequested(flags)
          && tweets[u] == BatchRecords(Batch(upstream(u), LastBatch(flags)).value, flags, KeyOf).value)
  }

  lemma FetchedStep(tweets: map<string, seq<TweetRecord>>, stored: map<string, seq<TweetRecord>>,
                    usernames: seq<string>, i: nat, flags: Include, upstream: string -> LegacyUser,
                    KeyOf: RawTweet -> Option<DateTime>)
    requires i < |usernames| && FetchedSoFar(tweets, usernames, i, flags, upstream, KeyOf)
    requires !UserFails(upstream(usernames[i]), flags, KeyOf)
    requires !AnyRequested(flags) ==> stored == tweets
    requires AnyRequested(flags) ==>
               stored == tweets[usernames[i] := BatchRecords(Batch(upstream(usernames[i]), LastBatch(flags)).value, flags, KeyOf).value]
    ensures FetchedSoFar(stored, usernames, i + 1, flags, upstream, KeyOf)
  {
    assert usernames[..i + 1] == usernames[..i] + [usernames[i]];
  }

  lemma FetchedAll(tweets: map<string, seq<TweetRecord>>, result: map<string, seq<TweetRecord>>,
                   usernames: seq<string>, flags: Include, upstream: string -> LegacyUser,
                   KeyOf: RawTweet -> Option<DateTime>)
    requires FetchedSoFar(tweets, usernames, |usernames|, flags, upstream, KeyOf)
    requires result.Keys == tweets.Keys
    requires forall u :: u in result ==> result[u] == KeepFirst(tweets[u], RecordId, {})
    ensures forall u :: u in result <==> AnyRequested(flags) && u in usernames
    ensures forall u :: u in result ==>
              !UserFails(upstream(u), flags, KeyOf) && AnyRequested(flags) && result[u] == UserRecords(upstream(u), flags, KeyOf)
  {
    assert usernames[..|usernames|] == usernames;
  }

  /**
   * The body of main.py's `get_tweets`, the client being `upstream` and the
   * sort key `KeyOf`. It fails with the error of the first user (in request
   * order) that fails. Otherwise every requested user has an entry, none
   * when no flag is set, and each entry is that user's last requested
   * batch, sorted, filtered, projected and deduplicated: earlier batches are
   * overwritten and do not contribute.
   */
  method GetTweetsBy(usernames: seq<string>, flags: Include, upstream: string -> LegacyUser, KeyOf: RawTweet -> Option<DateTime>)
    returns (r: Result<map<string, seq<TweetRecord>>, LegacyError>)
    ensures r.Failure? <==> exists i :: 0 <= i < |usernames| && UserFails(upstream(usernames[i]), flags, KeyOf)
    ensures r.Failure? ==>
              exists i :: (&& 0 <= i < |usernames| && UserFails(upstream(usernames[i]), flags, KeyOf)
                           && (forall j :: 0 <= j < i ==> !UserFails(upstream(usernames[j]), flags, KeyOf))
                           && r.error == ErrorOf(upstream(usernames[i]), flags, KeyOf))
    ensures r.Success? ==> forall u :: u in r.value <==> AnyRequested(flags) && u in usernames
    ensures r.Success? ==> forall u :: u in r.value ==>
              !UserFails(upstream(u), flags, KeyOf) && AnyRequested(flags) && r.value[u] == UserRecords(upstream(u), flags, KeyOf)
  {
    var tweets: map<string, seq<TweetRecord>> := map[];
    var tweetTypes := SelectTweetTypes(flags);
    var i := 0;
    while i < |usernames|
      invariant 0 <= i <= |usernames|
      invariant FetchedSoFar(tweets, usernames, i, flags, upstream, KeyOf)
    {
      var username := usernames[i];
      var user := upstream(username);
      if user.NoSuchUser? {
        return Failure(UserLookupFailed);
      }
      var stored := StoreBatches(tweets, username, user, tweetTypes, flags, KeyOf);
      if stored.Failure? {
        return Failure(stored.error);
      }
      FetchedStep(tweets, stored.value, usernames, i, flags, upstream, KeyOf);
      tweets := stored.value;
      i := i + 1;
    }
    var result := RemoveDuplicates(tweets);
    FetchedAll(tweets, result, usernames, flags, upstream, KeyOf);
    return Success(result);
  }

  /** main.py's `get_tweets`: batches are sorted by the `strptime` reading of each post's timestamp. */
  method GetTweets(usernames: seq<string>, flags: Include, upstream: string -> LegacyUser)
    returns (r: Result<map<string, seq<TweetRecord>>, LegacyError>)
    ensures r.Failure? <==> exists i :: 0 <= i < |usernames| && UserFails(upstream(usernames[i]), flags, PostedAt)
    ensures r.Failure? ==>
              exists i :: (&& 0 <= i < |usernames| && UserFails(upstream(usernames[i]), flags, PostedAt)
                           && (forall j :: 0 <= j < i ==> !UserFails(upstream(usernames[j]), flags, PostedAt))
                           && r.error == ErrorOf(upstream(usernames[i]), flags, PostedAt))
    ensures r.Success? ==> forall u :: u in r.value <==> AnyRequested(flags) && u in usernames
    ensures r.Success? ==> forall u :: u in r.value ==>
              && !UserFails(upstream(u), flags, PostedAt) && AnyRequested(flags)
              && r.value[u] == UserRecords(upstream(u), flags, PostedAt)
  {
    r := GetTweetsBy(usernames, flags, upstream, PostedAt);
  }

  /**
   * The final pass over every user's list (in any order: each entry is
   * handled on its own), replacing it by its deduplicated form.
   */
  method RemoveDuplicates(tweets: map<string, seq<TweetRecord>>) returns (result: map<string, seq<TweetRecord>>)
    ensures result.Keys == tweets.Keys
    ensures forall u :: u in result ==> result[u] == KeepFirst(tweets[u], RecordId, {})
  {
    result := tweets;
    var pending := tweets.Keys;
    while pending != {}
      invariant pending <= tweets.Keys && result.Keys == tweets.Keys
      invariant forall u :: u in result ==>
                  result[u] == if u in pending then tweets[u] else KeepFirst(tweets[u], RecordId, {})
      decreases pending
    {
      var username :| username in pending;
      var deduped := DedupeById(tweets[username]);
      result := result[username := deduped];
      pending := pending - {username};
    }
  }
}
