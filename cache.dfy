/**
 * The read-through cache of xrss/main.py: `get_cached_user`,
 * `get_cached_tweets` and `refresh_user_tweets_cache` over the shared Redis
 * store. The store is a map from keys to values; every `setex` call is also
 * recorded, in order, with its TTL. What the upstream client does during one
 * refresh is an input (`Upstream`).
 */
module Cache {

  import opened Wrappers
  import opened Model
  import opened Processing

  function UserKey(username: string): string { "user:" + username }

  function TweetsKey(username: string): string { "tweets:" + username }

  /** The two key families never meet, and each determines its username. */
  lemma KeysCollisionFree(u: string, v: string)
    ensures UserKey(u) != TweetsKey(v)
    ensures UserKey(u) == UserKey(v) ==> u == v
    ensures TweetsKey(u) == TweetsKey(v) ==> u == v
  {
    assert UserKey(u)[0] == 'u' && TweetsKey(v)[0] == 't';
    if UserKey(u) == UserKey(v) {
      assert u == UserKey(u)[5..] && v == UserKey(v)[5..];
    }
    if TweetsKey(u) == TweetsKey(v) {
      assert u == TweetsKey(u)[7..] && v == TweetsKey(v)[7..];
    }
  }

  /** What the store holds: a profile snapshot or a list of processed records. */
  datatype Value = ProfileValue(profile: Profile) | TweetsValue(tweets: seq<TweetRecord>)

  /** One `setex` call: key, TTL in seconds, value. */
  datatype SetExCall = SetExCall(key: string, ttl: nat, value: Value)

  /** What the upstream client does during one refresh. */
  datatype Upstream =
    | UserNotFound                        // the profile lookup raises UserNotFound
    | LookupFailed                        // the profile lookup raises anything else
    | TimelineFailed(profile: Profile)    // the lookup succeeds, then a batch fetch raises
    | Fetched(profile: Profile, tweets: seq<RawTweet>, replies: seq<RawTweet>)

  /** How a refresh fails: an HTTP 404, or the original exception re-raised. */
  datatype RefreshError = NotFound404 | Reraised

  /** The error a refresh ends with, `None` when it completes. */
  function RefreshFailure(upstream: Upstream): Option<RefreshError>
  {
    match upstream
    case UserNotFound => Some(NotFound404)
    case LookupFailed => Some(Reraised)
    case TimelineFailed(_) => Some(Reraised)
    case Fetched(_, tweets, replies) => if Processed(tweets, replies).None? then Some(Reraised) else None
  }

  /** The `setex` calls one refresh makes, in order. */
  function RefreshWrites(username: string, upstream: Upstream, ttl: nat): seq<SetExCall>
  {
    match upstream
    case UserNotFound => []
    case LookupFailed => []
    case TimelineFailed(profile) => [SetExCall(UserKey(username), ttl, ProfileValue(profile))]
    case Fetched(profile, tweets, replies) =>
      [SetExCall(UserKey(username), ttl, ProfileValue(profile))] +
      match Processed(tweets, replies)
      case None => []
      case Some(records) => [SetExCall(TweetsKey(username), ttl, TweetsValue(records))]
  }

  /** The store after a sequence of `setex` calls: each overwrites its key. */
  function Apply(data: map<string, Value>, writes: seq<SetExCall>): map<string, Value>
    decreases |writes|
  {
    if writes == [] then data
    else Apply(data[writes[0].key := writes[0].value], writes[1..])
  }

  /** Profiles live under `user:` keys and record lists under `tweets:` keys. */
  ghost predicate WellTyped(data: map<string, Value>)
  {
    && (forall u :: UserKey(u) in data ==> data[UserKey(u)].ProfileValue?)
    && (forall u :: TweetsKey(u) in data ==> data[TweetsKey(u)].TweetsValue?)
  }

  /**
   * A refresh makes at most two `setex` calls, all with the configured TTL
   * and all on the refreshed user's two keys; the profile is written first;
   * the record list is written exactly when the refresh completes, and it is
   * then the second and last call. A refresh that fails at the lookup
   * writes nothing.
   */
  lemma RefreshWritesSpec(username: string, upstream: Upstream, ttl: nat)
    ensures var w := RefreshWrites(username, upstream, ttl);
      && |w| <= 2
      && (forall i :: 0 <= i < |w| ==> w[i].ttl == ttl && (w[i].key == UserKey(username) || w[i].key == TweetsKey(username)))
      && (|w| > 0 ==> w[0] == SetExCall(UserKey(username), ttl, ProfileValue(upstream.profile)))
      && (w == [] <==> upstream.UserNotFound? || upstream.LookupFailed?)
      && (RefreshFailure(upstream).None? <==> |w| == 2)
      && (RefreshFailure(upstream).None? ==>
            w[1] == SetExCall(TweetsKey(username), ttl, TweetsValue(Processed(upstream.tweets, upstream.replies).value)))
      && (forall i :: 0 <= i < |w| && w[i].key == TweetsKey(username) ==> RefreshFailure(upstream).None?)
  {
    KeysCollisionFree(username, username);
  }

  /** `Apply` of one call. */
  lemma ApplyOne(data: map<string, Value>, w: SetExCall)
    ensures Apply(data, [w]) == data[w.key := w.value]
  {
    assert [w][1..] == [];
  }

  /** `Apply` of two calls. */
  lemma ApplyTwo(data: map<string, Value>, w1: SetExCall, w2: SetExCall)
    ensures Apply(data, [w1, w2]) == data[w1.key := w1.value][w2.key := w2.value]
  {
    assert [w1, w2][1..] == [w2];
    ApplyOne(data[w1.key := w1.value], w2);
  }

  /** Applying two runs of calls is applying their concatenation. */
  lemma {:induction false} ApplyAppend(data: map<string, Value>, a: seq<SetExCall>, b: seq<SetExCall>)
    ensures Apply(data, a + b) == Apply(Apply(data, a), b)
    decreases |a|
  {
    if a != [] {
      assert (a + b)[0] == a[0] && (a + b)[1..] == a[1..] + b;
      ApplyAppend(data[a[0].key := a[0].value], a[1..], b);
    } else {
      assert a + b == b;
    }
  }

  /** A key no call writes keeps its value, or its absence. */
  lemma {:induction false} ApplyFrame(data: map<string, Value>, writes: seq<SetExCall>, k: string)
    requires forall c :: c in writes ==> c.key != k
    ensures k in Apply(data, writes) <==> k in data
    ensures k in data ==> Apply(data, writes)[k] == data[k]
    decreases |writes|
  {
    if writes != [] {
      assert writes[0] in writes;
      assert forall c :: c in writes[1..] ==> c in writes;
      ApplyFrame(data[writes[0].key := writes[0].value], writes[1..], k);
    }
  }

  /**
   * What a refresh leaves in the store: a lookup failure leaves it as it
   * was; otherwise the profile is stored; the record list under `tweets:` is
   * replaced exactly when the refresh completes and otherwise keeps its
   * previous value (or absence); no other key changes.
   */
  lemma RefreshEffect(data: map<string, Value>, username: string, upstream: Upstream, ttl: nat)
    ensures var after := Apply(data, RefreshWrites(username, upstream, ttl));
      && ((upstream.UserNotFound? || upstream.LookupFailed?) ==> after == data)
      && (!(upstream.UserNotFound? || upstream.LookupFailed?) ==>
            UserKey(username) in after && after[UserKey(username)] == ProfileValue(upstream.profile))
      && (RefreshFailure(upstream).None? ==>
            TweetsKey(username) in after &&
            after[TweetsKey(username)] == TweetsValue(Processed(upstream.tweets, upstream.replies).value))
      && (RefreshFailure(upstream).Some? ==>
            (TweetsKey(username) in after <==> TweetsKey(username) in data) &&
            (TweetsKey(username) in data ==> after[TweetsKey(username)] == data[TweetsKey(username)]))
      && (forall k :: k != UserKey(username) && k != TweetsKey(username) ==>
            (k in after <==> k in data) && (k in data ==> after[k] == data[k]))
  {
    KeysCollisionFree(username, username);
    var w := RefreshWrites(username, upstream, ttl);
    match upstream
    case UserNotFound =>
    case LookupFailed =>
    case TimelineFailed(_) => ApplyOne(data, w[0]);
    case Fetched(_, _, _) =>
      if |w| == 1 { ApplyOne(data, w[0]); } else { ApplyTwo(data, w[0], w[1]); }
  }

  /** A refresh keeps the store well typed. */
  lemma RefreshKeepsWellTyped(data: map<string, Value>, username: string, upstream: Upstream, ttl: nat)
    requires WellTyped(data)
    ensures WellTyped(Apply(data, RefreshWrites(username, upstream, ttl)))
  {
    var after := Apply(data, RefreshWrites(username, upstream, ttl));
    RefreshEffect(data, username, upstream, ttl);
    forall u | UserKey(u) in after ensures after[UserKey(u)].ProfileValue? {
      KeysCollisionFree(u, username);
      KeysCollisionFree(username, u);
    }
    forall u | TweetsKey(u) in after ensures after[TweetsKey(u)].TweetsValue? {
      KeysCollisionFree(u, username);
      KeysCollisionFree(username, u);
    }
  }

  /** The shared store and the record of what was done to it. */
  class Store {
    /** The key/value contents. */
    var data: map<string, Value>
    /** Every `setex` call made, in order. */
    var log: seq<SetExCall>
    /** The username of every refresh started, in order. */
    var refreshes: seq<string>
    /** `cache_ttl` of the settings. */
    const cacheTtl: nat

    ghost predicate Valid()
      reads this
    {
      WellTyped(data)
    }

    constructor (ttl: nat, initial: map<string, Value>)
      requires WellTyped(initial)
      ensures Valid()
      ensures cacheTtl == ttl && data == initial && log == [] && refreshes == []
    {
      cacheTtl := ttl;
      data := initial;
      log := [];
      refreshes := [];
    }

    /** Redis `setex`: overwrites the key unconditionally. */
    method SetEx(key: string, value: Value)
      modifies this
      ensures data == old(data)[key := value]
      ensures log == old(log) + [SetExCall(key, cacheTtl, value)]
      ensures refreshes == old(refreshes)
    {
      data := data[key := value];
      log := log + [SetExCall(key, cacheTtl, value)];
    }

    /** `get_cached_user`: the stored profile, or `None` on a miss. */
    function GetCachedUser(username: string): (r: Option<Profile>)
      reads this
      requires Valid()
      ensures r.Some? <==> UserKey(username) in data
      ensures r.Some? ==> data[UserKey(username)] == ProfileValue(r.value)
    {
      if UserKey(username) in data then Some(data[UserKey(username)].profile) else None
    }

    /**
     * `refresh_user_tweets_cache`: look the user up, store the profile,
     * fetch both batches, merge, sort and project them, store the records.
     * A missing user becomes a 404; any other failure is re-raised, after
     * the profile was stored if the lookup had succeeded.
     */
    method RefreshUserTweetsCache(username: string, upstream: Upstream) returns (failure: Option<RefreshError>)
      requires Valid()
      modifies this
      ensures Valid()
      ensures failure == RefreshFailure(upstream)
      ensures log == old(log) + RefreshWrites(username, upstream, cacheTtl)
      ensures data == Apply(old(data), RefreshWrites(username, upstream, cacheTtl))
      ensures refreshes == old(refreshes) + [username]
    {
      refreshes := refreshes + [username];
      ghost var before := data;
      RefreshKeepsWellTyped(data, username, upstream, cacheTtl);
      match upstream
      case UserNotFound =>
        return Some(NotFound404);
      case LookupFailed =>
        return Some(Reraised);
      case TimelineFailed(profile) =>
        SetEx(UserKey(username), ProfileValue(profile));
        ApplyOne(before, SetExCall(UserKey(username), cacheTtl, ProfileValue(profile)));
        return Some(Reraised);
      case Fetched(profile, tweets, replies) =>
        SetEx(UserKey(username), ProfileValue(profile));
        var allTweets := MergeBatches(tweets, replies);
        var sorted := NewestFirst.SortNewestFirst(allTweets, PostedAt);
        if sorted.None? {
          ApplyOne(before, SetExCall(UserKey(username), cacheTtl, ProfileValue(profile)));
          return Some(Reraised);
        }
        var processedTweets := Project(sorted.value);
        SetEx(TweetsKey(username), TweetsValue(processedTweets));
        ApplyTwo(before, SetExCall(UserKey(username), cacheTtl, ProfileValue(profile)),
                 SetExCall(TweetsKey(username), cacheTtl, TweetsValue(processedTweets)));
        return None;
    }

    /**
     * `get_cached_tweets`: a hit returns the stored records and touches
     * nothing; a miss runs one refresh, whose error propagates, then reads
     * the key again, giving `[]` if it is still absent.
     */
    method GetCachedTweets(username: string, upstream: Upstream) returns (r: Result<seq<TweetRecord>, RefreshError>)
      requires Valid()
      modifies this
      ensures Valid()
      ensures old(TweetsKey(username) in data) ==>
        && r == Success(old(data)[TweetsKey(username)].tweets)
        && data == old(data) && log == old(log) && refreshes == old(refreshes)
      ensures old(TweetsKey(username) !in data) ==>
        && refreshes == old(refreshes) + [username]
        && log == old(log) + RefreshWrites(username, upstream, cacheTtl)
        && data == Apply(old(data), RefreshWrites(username, upstream, cacheTtl))
        && r == match RefreshFailure(upstream)
                case Some(e) => Failure(e)
                case None => Success(Processed(upstream.tweets, upstream.replies).value)
    {
      var cacheKey := TweetsKey(username);
      if cacheKey in data {
        return Success(data[cacheKey].tweets);
      }
      RefreshEffect(data, username, upstream, cacheTtl);
      var failure := RefreshUserTweetsCache(username, upstream);
      if failure.Some? {
        return Failure(failure.value);
      }
      if cacheKey in data {
        r := Success(data[cacheKey].tweets);
      } else {
        r := Success([]);
      }
    }
  }
}
