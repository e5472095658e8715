/**
 * The `get_tweets` endpoint of xrss/main.py: read every requested user's
 * records through the cache, schedule one background refresh per user,
 * and keep only the record types the include flags ask for.
 */
module Endpoint {

  import opened Wrappers
  import opened Model
  import opened Dedupe
  import opened Processing
  import opened Cache

  /** The filter condition: a type is kept when its flag is set; Thread has no flag. */
  predicate Included(t: TweetType, flags: Include)
  {
    || (flags.posts && t == Post)
    || (flags.replies && t == Reply)
    || (flags.retweets && t == Retweet)
    || (flags.quotes && t == Quote)
  }

  /**
   * The filter comprehension: an order-preserving subsequence holding
   * exactly the records whose type is included, so never a Thread
   * (`FilterByTypeCounts`: every copy of them).
   */
  function FilterByType(records: seq<TweetRecord>, flags: Include): (r: seq<TweetRecord>)
    ensures IsSubsequence(r, records)
    ensures forall x :: x in r <==> x in records && Included(x.tweetType, flags)
    ensures forall x :: x in r ==> x.tweetType != Thread
  {
    if records == [] then []
    else if Included(records[0].tweetType, flags) then [records[0]] + FilterByType(records[1..], flags)
    else FilterByType(records[1..], flags)
  }

  /** The filter keeps every copy of an included record and none of the others. */
  lemma {:induction false} FilterByTypeCounts(records: seq<TweetRecord>, flags: Include)
    ensures forall x :: multiset(FilterByType(records, flags))[x] ==
                        if Included(x.tweetType, flags) then multiset(records)[x] else 0
    decreases |records|
  {
    if records != [] {
      FilterByTypeCounts(records[1..], flags);
      assert records == [records[0]] + records[1..];
    }
  }

  /** With every flag set, the filter only drops threads. */
  lemma {:induction false} FilterAllFlags(records: seq<TweetRecord>)
    ensures (forall x :: x in records ==> x.tweetType != Thread) ==>
            FilterByType(records, Include(true, true, true, true)) == records
    decreases |records|
  {
    if records != [] {
      assert forall x :: x in records[1..] ==> x in records;
      FilterAllFlags(records[1..]);
      if forall x :: x in records ==> x.tweetType != Thread {
        assert records[0] in records;
        assert records == [records[0]] + records[1..];
      }
    }
  }

  /**
   * The records served for `username`: the cached list on a hit, else the
   * list a refresh stores. The two `[]` fallbacks are never served: a
   * well-typed store holds record lists under `tweets:` keys, and a miss
   * whose refresh does not complete ends the request with an error.
   */
  function CachedOrFetched(data: map<string, Value>, username: string, upstream: Upstream): seq<TweetRecord>
  {
    if TweetsKey(username) in data then
      match data[TweetsKey(username)]
      case TweetsValue(records) => records
      case ProfileValue(_) => []
    else if upstream.Fetched? then
      match Processed(upstream.tweets, upstream.replies)
      case Some(records) => records
      case None => []
    else []
  }

  /**
   * The list each requested user is served, in request order: its cached
   * record list on a hit, and on a miss the records of the refresh the read
   * runs, when that refresh completes.
   */
  function ServedLists(data: map<string, Value>, usernames: seq<string>, upstream: string -> Upstream): (r: seq<seq<TweetRecord>>)
    ensures |r| == |usernames|
    ensures forall i :: 0 <= i < |usernames| && TweetsKey(usernames[i]) in data && data[TweetsKey(usernames[i])].TweetsValue? ==>
              r[i] == data[TweetsKey(usernames[i])].tweets
    ensures forall i :: 0 <= i < |usernames| && TweetsKey(usernames[i]) !in data && RefreshFailure(upstream(usernames[i])).None? ==>
              r[i] == Processed(upstream(usernames[i]).tweets, upstream(usernames[i]).replies).value
  {
    seq(|usernames|, i requires 0 <= i < |usernames| => CachedOrFetched(data, usernames[i], upstream(usernames[i])))
  }

  /** A read of `username` would run a refresh, and that refresh fails. */
  predicate MissFails(data: map<string, Value>, username: string, upstream: Upstream)
  {
    TweetsKey(username) !in data && RefreshFailure(upstream).Some?
  }

  /** The response dictionary, built user by user: a later duplicate username overwrites. */
  function ResultDict(usernames: seq<string>, served: seq<seq<TweetRecord>>, flags: Include): map<string, seq<TweetRecord>>
    requires |served| == |usernames|
    decreases |usernames|
  {
    if usernames == [] then map[]
    else
      var n := |usernames| - 1;
      ResultDict(usernames[..n], served[..n], flags)[usernames[n] := FilterByType(served[n], flags)]
  }

  /** The response has one entry per distinct requested username. */
  lemma {:induction false} ResultDictKeys(usernames: seq<string>, served: seq<seq<TweetRecord>>, flags: Include)
    requires |served| == |usernames|
    ensures forall u :: u in ResultDict(usernames, served, flags) <==> u in usernames
    decreases |usernames|
  {
    if usernames != [] {
      var n := |usernames| - 1;
      ResultDictKeys(usernames[..n], served[..n], flags);
      assert usernames == usernames[..n] + [usernames[n]];
    }
  }

  /** Where the entry of `u` comes from: the last position at which `u` is requested. */
  predicate LastPosition(usernames: seq<string>, u: string, j: int)
  {
    0 <= j < |usernames| && usernames[j] == u && forall k :: j < k < |usernames| ==> usernames[k] != u
  }

  /** The entry of each requested username is the filtered list served at its last position. */
  lemma {:induction false} ResultDictValues(usernames: seq<string>, served: seq<seq<TweetRecord>>, flags: Include, u: string)
    requires |served| == |usernames| && u in usernames
    ensures u in ResultDict(usernames, served, flags)
    ensures exists j :: LastPosition(usernames, u, j) &&
                        ResultDict(usernames, served, flags)[u] == FilterByType(served[j], flags)
    decreases |usernames|
  {
    var n := |usernames| - 1;
    var pre, served' := usernames[..n], served[..n];
    assert usernames == pre + [usernames[n]];
    if usernames[n] == u {
      assert LastPosition(usernames, u, n);
    } else {
      assert u in pre;
      ResultDictValues(pre, served', flags, u);
      var j :| LastPosition(pre, u, j) && ResultDict(pre, served', flags)[u] == FilterByType(served'[j], flags);
      assert served'[j] == served[j];
      assert LastPosition(usernames, u, j);
    }
  }

  /** Every record list cached before is still cached, unchanged. */
  ghost predicate KeepsCached(data0: map<string, Value>, data: map<string, Value>)
  {
    forall u :: TweetsKey(u) in data0 ==> TweetsKey(u) in data && data[TweetsKey(u)] == data0[TweetsKey(u)]
  }

  /** Every record list cached since was stored by a refresh that completed. */
  ghost predicate NewFromRefresh(data0: map<string, Value>, data: map<string, Value>, upstream: string -> Upstream)
  {
    forall u :: TweetsKey(u) in data && TweetsKey(u) !in data0 ==>
      RefreshFailure(upstream(u)).None? &&
      data[TweetsKey(u)] == TweetsValue(Processed(upstream(u).tweets, upstream(u).replies).value)
  }

  /** The refreshes started since position `n0` are for distinct requested users that were misses. */
  ghost predicate RefreshedOnce(refreshes: seq<string>, n0: nat, requested: seq<string>, data0: map<string, Value>)
  {
    && n0 <= |refreshes|
    && (forall k :: n0 <= k < |refreshes| ==> refreshes[k] in requested && TweetsKey(refreshes[k]) !in data0)
    && (forall k, l :: n0 <= k < l < |refreshes| ==> refreshes[k] != refreshes[l])
  }

  /** A completed refresh of a missing user keeps both properties and caches that user. */
  lemma RefreshStep(data0: map<string, Value>, data: map<string, Value>, username: string,
                    upstream: string -> Upstream, ttl: nat)
    requires KeepsCached(data0, data) && NewFromRefresh(data0, data, upstream)
    requires TweetsKey(username) !in data && RefreshFailure(upstream(username)).None?
    ensures var after := Apply(data, RefreshWrites(username, upstream(username), ttl));
      && KeepsCached(data0, after) && NewFromRefresh(data0, after, upstream)
      && TweetsKey(username) in after
      && (forall u :: TweetsKey(u) in data ==> TweetsKey(u) in after)
      && CachedOrFetched(data0, username, upstream(username)) ==
         Processed(upstream(username).tweets, upstream(username).replies).value
  {
    var after := Apply(data, RefreshWrites(username, upstream(username), ttl));
    RefreshEffect(data, username, upstream(username), ttl);
    forall u | TweetsKey(u) in data
      ensures TweetsKey(u) in after && after[TweetsKey(u)] == data[TweetsKey(u)]
    {
      KeysCollisionFree(username, u);
    }
    forall u | TweetsKey(u) in after && TweetsKey(u) !in data0
      ensures RefreshFailure(upstream(u)).None?
      ensures after[TweetsKey(u)] == TweetsValue(Processed(upstream(u).tweets, upstream(u).replies).value)
    {
      KeysCollisionFree(username, u);
      KeysCollisionFree(u, username);
    }
  }

  /** A hit serves what was cached before the request, or what a completed refresh stored since. */
  lemma HitStep(data0: map<string, Value>, data: map<string, Value>, username: string, upstream: string -> Upstream)
    requires KeepsCached(data0, data) && NewFromRefresh(data0, data, upstream)
    requires WellTyped(data) && TweetsKey(username) in data
    ensures data[TweetsKey(username)].tweets == CachedOrFetched(data0, username, upstream(username))
    ensures !MissFails(data0, username, upstream(username))
  {
  }

  /** What a read from store `data0` serves each user. */
  function ServeOf(data0: map<string, Value>, upstream: string -> Upstream): string -> seq<TweetRecord>
  {
    u => CachedOrFetched(data0, u, upstream(u))
  }

  /** Whether a read from store `data0` of each user completes. */
  function CompletesOf(data0: map<string, Value>, upstream: string -> Upstream): string -> bool
  {
    u => !MissFails(data0, u, upstream(u))
  }

  /** The lists served to the first `i` users (`Serve(u)` each), none of whose reads failed. */
  ghost predicate ServedSoFar(usernames: seq<string>, Serve: string -> seq<TweetRecord>, Completes: string -> bool,
                              i: nat, served: seq<seq<TweetRecord>>)
  {
    && i <= |usernames|
    && |served| == i
    && (forall j :: 0 <= j < i ==> served[j] == Serve(usernames[j]) && Completes(usernames[j]))
  }

  /** The refreshes started since `oldRefreshes`: distinct misses among the first `i` users, all completed. */
  ghost predicate RefreshesSoFar(data0: map<string, Value>, oldRefreshes: seq<string>, usernames: seq<string>,
                                 i: nat, data: map<string, Value>, refreshes: seq<string>)
  {
    && i <= |usernames|
    && |oldRefreshes| <= |refreshes| && refreshes[..|oldRefreshes|] == oldRefreshes
    && RefreshedOnce(refreshes, |oldRefreshes|, usernames[..i], data0)
    && (forall k :: |oldRefreshes| <= k < |refreshes| ==> TweetsKey(refreshes[k]) in data)
  }

  /**
   * What holds after the first `i` users were read: cached lists kept, new
   * ones from completed refreshes, the lists served so far, no failed
   * refresh yet, and the refreshes started so far distinct, misses, and
   * completed.
   */
  ghost predicate ReadSoFar(data0: map<string, Value>, oldRefreshes: seq<string>, usernames: seq<string>,
                            upstream: string -> Upstream, i: nat,
                            data: map<string, Value>, refreshes: seq<string>, served: seq<seq<TweetRecord>>)
  {
    && KeepsCached(data0, data) && NewFromRefresh(data0, data, upstream)
    && ServedSoFar(usernames, ServeOf(data0, upstream), CompletesOf(data0, upstream), i, served)
    && RefreshesSoFar(data0, oldRefreshes, usernames, i, data, refreshes)
  }

  lemma ServedStep(usernames: seq<string>, Serve: string -> seq<TweetRecord>, Completes: string -> bool,
                   i: nat, served: seq<seq<TweetRecord>>, next: seq<TweetRecord>)
    requires ServedSoFar(usernames, Serve, Completes, i, served) && i < |usernames|
    requires next == Serve(usernames[i]) && Completes(usernames[i])
    ensures ServedSoFar(usernames, Serve, Completes, i + 1, served + [next])
  {
  }

  /** `ServedStep` for a read from store `data0` against the upstream client. */
  lemma ReadServedStep(data0: map<string, Value>, usernames: seq<string>, upstream: string -> Upstream,
                       i: nat, served: seq<seq<TweetRecord>>, next: seq<TweetRecord>)
    requires ServedSoFar(usernames, ServeOf(data0, upstream), CompletesOf(data0, upstream), i, served) && i < |usernames|
    requires next == CachedOrFetched(data0, usernames[i], upstream(usernames[i]))
    requires !MissFails(data0, usernames[i], upstream(usernames[i]))
    ensures ServedSoFar(usernames, ServeOf(data0, upstream), CompletesOf(data0, upstream), i + 1, served + [next])
  {
    var u := usernames[i];
    assert ServeOf(data0, upstream)(u) == CachedOrFetched(data0, u, upstream(u));
    assert CompletesOf(data0, upstream)(u) == !MissFails(data0, u, upstream(u));
    ServedStep(usernames, ServeOf(data0, upstream), CompletesOf(data0, upstream), i, served, next);
  }

  lemma RefreshedOnceWiden(refreshes: seq<string>, n0: nat, usernames: seq<string>, i: nat, data0: map<string, Value>)
    requires i < |usernames| && RefreshedOnce(refreshes, n0, usernames[..i], data0)
    ensures RefreshedOnce(refreshes, n0, usernames[..i + 1], data0)
  {
    assert usernames[..i + 1] == usernames[..i] + [usernames[i]];
  }

  /** Reading the next user on a hit serves the cached list and changes nothing. */
  lemma ReadHitStep(data0: map<string, Value>, oldRefreshes: seq<string>, usernames: seq<string>,
                    upstream: string -> Upstream, i: nat,
                    data: map<string, Value>, refreshes: seq<string>, served: seq<seq<TweetRecord>>)
    requires ReadSoFar(data0, oldRefreshes, usernames, upstream, i, data, refreshes, served)
    requires i < |usernames| && WellTyped(data) && TweetsKey(usernames[i]) in data
    ensures ReadSoFar(data0, oldRefreshes, usernames, upstream, i + 1, data, refreshes,
                      served + [data[TweetsKey(usernames[i])].tweets])
  {
    HitStep(data0, data, usernames[i], upstream);
    ReadServedStep(data0, usernames, upstream, i, served, data[TweetsKey(usernames[i])].tweets);
    RefreshedOnceWiden(refreshes, |oldRefreshes|, usernames, i, data0);
  }

  /** Starting a refresh for a missing user that was not refreshed yet keeps the refreshes distinct. */
  lemma RefreshesStep(refreshes: seq<string>, oldRefreshes: seq<string>, usernames: seq<string>, i: nat,
                      data0: map<string, Value>)
    requires |oldRefreshes| <= |refreshes| && refreshes[..|oldRefreshes|] == oldRefreshes
    requires i < |usernames| && RefreshedOnce(refreshes, |oldRefreshes|, usernames[..i], data0)
    requires usernames[i] !in refreshes[|oldRefreshes|..] && TweetsKey(usernames[i]) !in data0
    ensures (refreshes + [usernames[i]])[..|oldRefreshes|] == oldRefreshes
    ensures RefreshedOnce(refreshes + [usernames[i]], |oldRefreshes|, usernames[..i + 1], data0)
    ensures RefreshedOnce(refreshes + [usernames[i]], |oldRefreshes|, usernames, data0)
  {
    var n0 := |oldRefreshes|;
    var u := usernames[i];
    var refreshes' := refreshes + [u];
    assert refreshes'[..n0] == refreshes[..n0];
    assert usernames[..i + 1] == usernames[..i] + [u];
    forall k | n0 <= k < |refreshes| ensures refreshes'[k] == refreshes[k] && refreshes[k] != u {
      assert refreshes[k] == refreshes[n0..][k - n0];
    }
    forall k | n0 <= k < |refreshes'| ensures refreshes'[k] in usernames {
      if k < |refreshes| {
        var m :| 0 <= m < i && usernames[..i][m] == refreshes[k];
      }
    }
  }

  /** A user whose list is not cached was not refreshed successfully since position `n0`. */
  lemma NotYetRefreshed(data: map<string, Value>, refreshes: seq<string>, n0: nat, u: string)
    requires n0 <= |refreshes| && forall k :: n0 <= k < |refreshes| ==> TweetsKey(refreshes[k]) in data
    requires TweetsKey(u) !in data
    ensures u !in refreshes[n0..]
  {
  }

  /** Reading the next user on a miss whose refresh completes serves what the refresh stored. */
  lemma ReadMissStep(data0: map<string, Value>, oldRefreshes: seq<string>, usernames: seq<string>,
                     upstream: string -> Upstream, ttl: nat, i: nat,
                     data: map<string, Value>, refreshes: seq<string>, served: seq<seq<TweetRecord>>)
    requires ReadSoFar(data0, oldRefreshes, usernames, upstream, i, data, refreshes, served)
    requires i < |usernames| && TweetsKey(usernames[i]) !in data
    requires RefreshFailure(upstream(usernames[i])).None?
    ensures var u := usernames[i];
      ReadSoFar(data0, oldRefreshes, usernames, upstream, i + 1,
                Apply(data, RefreshWrites(u, upstream(u), ttl)), refreshes + [u],
                served + [Processed(upstream(u).tweets, upstream(u).replies).value])
    ensures var after := Apply(data, RefreshWrites(usernames[i], upstream(usernames[i]), ttl));
      TweetsKey(usernames[i]) in after && forall v :: TweetsKey(v) in data ==> TweetsKey(v) in after
  {
    var u := usernames[i];
    var after := Apply(data, RefreshWrites(u, upstream(u), ttl));
    RefreshStep(data0, data, u, upstream, ttl);
    NotYetRefreshed(data, refreshes, |oldRefreshes|, u);
    RefreshesStep(refreshes, oldRefreshes, usernames, i, data0);
    ReadServedStep(data0, usernames, upstream, i, served, Processed(upstream(u).tweets, upstream(u).replies).value);
    assert forall k :: |oldRefreshes| <= k < |refreshes| ==> (refreshes + [u])[k] == refreshes[k];
  }

  /** Reading the next user on a miss whose refresh fails: the request fails. */
  lemma ReadFailStep(data0: map<string, Value>, oldRefreshes: seq<string>, usernames: seq<string>,
                     upstream: string -> Upstream, ttl: nat, i: nat,
                     data: map<string, Value>, refreshes: seq<string>, served: seq<seq<TweetRecord>>)
    requires ReadSoFar(data0, oldRefreshes, usernames, upstream, i, data, refreshes, served)
    requires i < |usernames| && TweetsKey(usernames[i]) !in data
    requires RefreshFailure(upstream(usernames[i])).Some?
    ensures var u := usernames[i];
      && MissFails(data0, u, upstream(u))
      && KeepsCached(data0, Apply(data, RefreshWrites(u, upstream(u), ttl)))
      && NewFromRefresh(data0, Apply(data, RefreshWrites(u, upstream(u), ttl)), upstream)
      && (refreshes + [u])[..|oldRefreshes|] == oldRefreshes
      && RefreshedOnce(refreshes + [u], |oldRefreshes|, usernames, data0)
  {
    var u := usernames[i];
    RefreshEffect(data, u, upstream(u), ttl);
    forall v | TweetsKey(v) in data0
      ensures TweetsKey(v) in Apply(data, RefreshWrites(u, upstream(u), ttl))
      ensures Apply(data, RefreshWrites(u, upstream(u), ttl))[TweetsKey(v)] == data0[TweetsKey(v)]
    {
      KeysCollisionFree(u, v);
    }
    forall v | TweetsKey(v) in Apply(data, RefreshWrites(u, upstream(u), ttl))
      ensures TweetsKey(v) in data
      ensures Apply(data, RefreshWrites(u, upstream(u), ttl))[TweetsKey(v)] == data[TweetsKey(v)]
    {
      KeysCollisionFree(u, v);
      KeysCollisionFree(v, u);
    }
    NotYetRefreshed(data, refreshes, |oldRefreshes|, u);
    RefreshesStep(refreshes, oldRefreshes, usernames, i, data0);
  }

  /** After every user was read, the promises of `get_tweets` hold. */
  lemma ReadAllDone(data0: map<string, Value>, oldRefreshes: seq<string>, usernames: seq<string>,
                    upstream: string -> Upstream,
                    data: map<string, Value>, refreshes: seq<string>, served: seq<seq<TweetRecord>>)
    requires ReadSoFar(data0, oldRefreshes, usernames, upstream, |usernames|, data, refreshes, served)
    ensures served == ServedLists(data0, usernames, upstream)
    ensures !exists u :: u in usernames && MissFails(data0, u, upstream(u))
    ensures RefreshedOnce(refreshes, |oldRefreshes|, usernames, data0)
  {
    assert usernames[..|usernames|] == usernames;
    var expected := ServedLists(data0, usernames, upstream);
    forall j | 0 <= j < |usernames|
      ensures served[j] == expected[j] && !MissFails(data0, usernames[j], upstream(usernames[j]))
    {
      var u := usernames[j];
      assert ServeOf(data0, upstream)(u) == CachedOrFetched(data0, u, upstream(u));
      assert CompletesOf(data0, upstream)(u) == !MissFails(data0, u, upstream(u));
    }
    assert served == expected;
    forall u | u in usernames ensures !MissFails(data0, u, upstream(u)) {
      var j :| 0 <= j < |usernames| && usernames[j] == u;
    }
  }

  /** `k` is one of the two keys of a user in `usernames`. */
  predicate OwnKey(k: string, usernames: seq<string>)
  {
    exists u :: u in usernames && (k == UserKey(u) || k == TweetsKey(u))
  }

  /** What the reads of `get_tweets` do to the store: the `setex` calls made and the refreshes started. */
  datatype ReadEffects = ReadEffects(writes: seq<SetExCall>, refreshed: seq<string>)

  /** What one refresh of a user ends with: its error, if any, and its `setex` calls. */
  datatype RefreshOutcome = RefreshOutcome(failure: Option<RefreshError>, writes: seq<SetExCall>)

  /** The outcome of refreshing each user against the upstream client. */
  function RefreshOf(upstream: string -> Upstream, ttl: nat): string -> RefreshOutcome
  {
    u => RefreshOutcome(RefreshFailure(upstream(u)), RefreshWrites(u, upstream(u), ttl))
  }

  /**
   * The reads of `get_tweets`, one user after another from store `data`: a
   * hit does nothing, a miss runs a refresh (with outcome `Refresh(u)`),
   * and the first failed refresh ends the reads.
   */
  function ReadAll(data: map<string, Value>, usernames: seq<string>, Refresh: string -> RefreshOutcome): ReadEffects
    decreases |usernames|
  {
    if usernames == [] then ReadEffects([], [])
    else
      var u := usernames[0];
      if TweetsKey(u) in data then ReadAll(data, usernames[1..], Refresh)
      else if Refresh(u).failure.Some? then ReadEffects(Refresh(u).writes, [u])
      else
        var rest := ReadAll(Apply(data, Refresh(u).writes), usernames[1..], Refresh);
        ReadEffects(Refresh(u).writes + rest.writes, [u] + rest.refreshed)
  }

  /** Both keys of the first user are own keys, and an own key of the tail is one of the whole list. */
  lemma {:induction false} OwnKeyCons(k: string, usernames: seq<string>)
    requires usernames != []
    ensures OwnKey(UserKey(usernames[0]), usernames) && OwnKey(TweetsKey(usernames[0]), usernames)
    ensures OwnKey(k, usernames[1..]) ==> OwnKey(k, usernames)
  {
    assert usernames[0] in usernames;
    if OwnKey(k, usernames[1..]) {
      var v :| v in usernames[1..] && (k == UserKey(v) || k == TweetsKey(v));
      assert v in usernames;
    }
  }

  /** The reads write only with the TTL, and only the two keys of requested users. */
  lemma {:induction false} ReadAllOwnWrites(data: map<string, Value>, usernames: seq<string>, upstream: string -> Upstream, ttl: nat)
    ensures forall c :: c in ReadAll(data, usernames, RefreshOf(upstream, ttl)).writes ==> c.ttl == ttl && OwnKey(c.key, usernames)
    decreases |usernames|
  {
    if usernames != [] {
      var u := usernames[0];
      var w := RefreshWrites(u, upstream(u), ttl);
      assert RefreshOf(upstream, ttl)(u) == RefreshOutcome(RefreshFailure(upstream(u)), w);
      RefreshWritesSpec(u, upstream(u), ttl);
      forall c | c in w ensures c.ttl == ttl && OwnKey(c.key, usernames) {
        OwnKeyCons(c.key, usernames);
      }
      if TweetsKey(u) in data {
        ReadAllOwnWrites(data, usernames[1..], upstream, ttl);
        forall c | c in ReadAll(data, usernames[1..], RefreshOf(upstream, ttl)).writes ensures OwnKey(c.key, usernames) {
          OwnKeyCons(c.key, usernames);
        }
      } else if RefreshFailure(upstream(u)).None? {
        ReadAllOwnWrites(Apply(data, w), usernames[1..], upstream, ttl);
        forall c | c in ReadAll(Apply(data, w), usernames[1..], RefreshOf(upstream, ttl)).writes ensures OwnKey(c.key, usernames) {
          OwnKeyCons(c.key, usernames);
        }
      }
    }
  }

  /** The reads change no key but the two keys of the requested users. */
  lemma {:induction false} ReadAllFrame(data: map<string, Value>, usernames: seq<string>, upstream: string -> Upstream, ttl: nat)
    ensures var after := Apply(data, ReadAll(data, usernames, RefreshOf(upstream, ttl)).writes);
      forall k :: !OwnKey(k, usernames) ==> (k in after <==> k in data) && (k in data ==> after[k] == data[k])
  {
    var writes := ReadAll(data, usernames, RefreshOf(upstream, ttl)).writes;
    ReadAllOwnWrites(data, usernames, upstream, ttl);
    forall k | !OwnKey(k, usernames)
      ensures var after := Apply(data, writes); (k in after <==> k in data) && (k in data ==> after[k] == data[k])
    {
      ApplyFrame(data, writes, k);
    }
  }

  /**
   * What the reads so far did: the log and the store are the old ones after
   * the calls `writes`, `started` are the refreshes run, and the reads of the
   * remaining users complete `ReadAll` of the whole request.
   */
  ghost predicate EffectsSoFar(data0: map<string, Value>, log0: seq<SetExCall>, refreshes0: seq<string>,
                               usernames: seq<string>, Refresh: string -> RefreshOutcome, i: nat,
                               data: map<string, Value>, log: seq<SetExCall>, refreshes: seq<string>,
                               writes: seq<SetExCall>, started: seq<string>)
  {
    && i <= |usernames|
    && log == log0 + writes && data == Apply(data0, writes) && refreshes == refreshes0 + started
    && var rest := ReadAll(data, usernames[i..], Refresh);
       ReadAll(data0, usernames, Refresh) == ReadEffects(writes + rest.writes, started + rest.refreshed)
  }

  lemma {:induction false} EffectsStart(data0: map<string, Value>, log0: seq<SetExCall>, refreshes0: seq<string>,
                                        usernames: seq<string>, Refresh: string -> RefreshOutcome)
    ensures EffectsSoFar(data0, log0, refreshes0, usernames, Refresh, 0, data0, log0, refreshes0, [], [])
  {
    assert usernames[0..] == usernames;
    assert log0 + [] == log0 && refreshes0 + [] == refreshes0;
  }

  lemma {:induction false} EffectsHitStep(data0: map<string, Value>, log0: seq<SetExCall>, refreshes0: seq<string>,
                                          usernames: seq<string>, Refresh: string -> RefreshOutcome, i: nat,
                                          data: map<string, Value>, log: seq<SetExCall>, refreshes: seq<string>,
                                          writes: seq<SetExCall>, started: seq<string>)
    requires EffectsSoFar(data0, log0, refreshes0, usernames, Refresh, i, data, log, refreshes, writes, started)
    requires i < |usernames| && TweetsKey(usernames[i]) in data
    ensures EffectsSoFar(data0, log0, refreshes0, usernames, Refresh, i + 1, data, log, refreshes, writes, started)
  {
    assert usernames[i..][0] == usernames[i] && usernames[i..][1..] == usernames[i + 1..];
  }

  lemma {:induction false} EffectsMissStep(data0: map<string, Value>, log0: seq<SetExCall>, refreshes0: seq<string>,
                                           usernames: seq<string>, Refresh: string -> RefreshOutcome, i: nat,
                                           data: map<string, Value>, log: seq<SetExCall>, refreshes: seq<string>,
                                           writes: seq<SetExCall>, started: seq<string>)
    requires EffectsSoFar(data0, log0, refreshes0, usernames, Refresh, i, data, log, refreshes, writes, started)
    requires i < |usernames| && TweetsKey(usernames[i]) !in data && Refresh(usernames[i]).failure.None?
    ensures var u := usernames[i];
      var w := Refresh(u).writes;
      EffectsSoFar(data0, log0, refreshes0, usernames, Refresh, i + 1,
                   Apply(data, w), log + w, refreshes + [u], writes + w, started + [u])
  {
    var u := usernames[i];
    var w := Refresh(u).writes;
    var rest := ReadAll(Apply(data, w), usernames[i + 1..], Refresh);
    assert usernames[i..][0] == u && usernames[i..][1..] == usernames[i + 1..];
    assert ReadAll(data, usernames[i..], Refresh) == ReadEffects(w + rest.writes, [u] + rest.refreshed);
    assert writes + (w + rest.writes) == (writes + w) + rest.writes;
    assert started + ([u] + rest.refreshed) == (started + [u]) + rest.refreshed;
    ApplyAppend(data0, writes, w);
    assert log + w == log0 + (writes + w);
    assert refreshes + [u] == refreshes0 + (started + [u]);
  }

  lemma {:induction false} EffectsFailStep(data0: map<string, Value>, log0: seq<SetExCall>, refreshes0: seq<string>,
                                           usernames: seq<string>, Refresh: string -> RefreshOutcome, i: nat,
                                           data: map<string, Value>, log: seq<SetExCall>, refreshes: seq<string>,
                                           writes: seq<SetExCall>, started: seq<string>)
    requires EffectsSoFar(data0, log0, refreshes0, usernames, Refresh, i, data, log, refreshes, writes, started)
    requires i < |usernames| && TweetsKey(usernames[i]) !in data && Refresh(usernames[i]).failure.Some?
    ensures var u := usernames[i];
      var w := Refresh(u).writes;
      var total := ReadAll(data0, usernames, Refresh);
      && log + w == log0 + total.writes
      && Apply(data, w) == Apply(data0, total.writes)
      && refreshes + [u] == refreshes0 + total.refreshed
  {
    var u := usernames[i];
    var w := Refresh(u).writes;
    assert usernames[i..][0] == u;
    assert ReadAll(data, usernames[i..], Refresh) == ReadEffects(w, [u]);
    ApplyAppend(data0, writes, w);
  }

  lemma {:induction false} EffectsAllDone(data0: map<string, Value>, log0: seq<SetExCall>, refreshes0: seq<string>,
                                          usernames: seq<string>, Refresh: string -> RefreshOutcome,
                                          data: map<string, Value>, log: seq<SetExCall>, refreshes: seq<string>,
                                          writes: seq<SetExCall>, started: seq<string>)
    requires EffectsSoFar(data0, log0, refreshes0, usernames, Refresh, |usernames|, data, log, refreshes, writes, started)
    ensures var total := ReadAll(data0, usernames, Refresh);
      log == log0 + total.writes && data == Apply(data0, total.writes) && refreshes == refreshes0 + total.refreshed
  {
    assert usernames[|usernames|..] == [];
    assert writes + [] == writes && started + [] == started;
  }

  /**
   * The invariant of the read loop of `get_tweets` after `i` users: what
   * was served and refreshed (`ReadSoFar`), what was written
   * (`EffectsSoFar`), and every user read so far is cached.
   */
  ghost predicate Progress(data0: map<string, Value>, log0: seq<SetExCall>, refreshes0: seq<string>,
                           usernames: seq<string>, upstream: string -> Upstream, ttl: nat, i: nat,
                           data: map<string, Value>, log: seq<SetExCall>, refreshes: seq<string>,
                           served: seq<seq<TweetRecord>>, writes: seq<SetExCall>, started: seq<string>)
  {
    && ReadSoFar(data0, refreshes0, usernames, upstream, i, data, refreshes, served)
    && EffectsSoFar(data0, log0, refreshes0, usernames, RefreshOf(upstream, ttl), i, data, log, refreshes, writes, started)
    && forall j :: 0 <= j < i ==> TweetsKey(usernames[j]) in data
  }

  lemma {:induction false} ProgressStart(data0: map<string, Value>, log0: seq<SetExCall>, refreshes0: seq<string>,
                                         usernames: seq<string>, upstream: string -> Upstream, ttl: nat)
    ensures Progress(data0, log0, refreshes0, usernames, upstream, ttl, 0, data0, log0, refreshes0, [], [], [])
  {
    EffectsStart(data0, log0, refreshes0, usernames, RefreshOf(upstream, ttl));
    assert refreshes0[..|refreshes0|] == refreshes0 && usernames[..0] == [];
  }

  lemma {:induction false} ProgressHit(data0: map<string, Value>, log0: seq<SetExCall>, refreshes0: seq<string>,
                                       usernames: seq<string>, upstream: string -> Upstream, ttl: nat, i: nat,
                                       data: map<string, Value>, log: seq<SetExCall>, refreshes: seq<string>,
                                       served: seq<seq<TweetRecord>>, writes: seq<SetExCall>, started: seq<string>)
    requires Progress(data0, log0, refreshes0, usernames, upstream, ttl, i, data, log, refreshes, served, writes, started)
    requires i < |usernames| && WellTyped(data) && TweetsKey(usernames[i]) in data
    ensures Progress(data0, log0, refreshes0, usernames, upstream, ttl, i + 1, data, log, refreshes,
                     served + [data[TweetsKey(usernames[i])].tweets], writes, started)
  {
    ReadHitStep(data0, refreshes0, usernames, upstream, i, data, refreshes, served);
    EffectsHitStep(data0, log0, refreshes0, usernames, RefreshOf(upstream, ttl), i, data, log, refreshes, writes, started);
  }

  lemma {:induction false} ProgressMiss(data0: map<string, Value>, log0: seq<SetExCall>, refreshes0: seq<string>,
                                        usernames: seq<string>, upstream: string -> Upstream, ttl: nat, i: nat,
                                        data: map<string, Value>, log: seq<SetExCall>, refreshes: seq<string>,
                                        served: seq<seq<TweetRecord>>, writes: seq<SetExCall>, started: seq<string>)
    requires Progress(data0, log0, refreshes0, usernames, upstream, ttl, i, data, log, refreshes, served, writes, started)
    requires i < |usernames| && TweetsKey(usernames[i]) !in data && RefreshFailure(upstream(usernames[i])).None?
    ensures var u := usernames[i];
      var w := RefreshWrites(u, upstream(u), ttl);
      Progress(data0, log0, refreshes0, usernames, upstream, ttl, i + 1, Apply(data, w), log + w, refreshes + [u],
               served + [Processed(upstream(u).tweets, upstream(u).replies).value], writes + w, started + [u])
  {
    var u := usernames[i];
    assert RefreshOf(upstream, ttl)(u) == RefreshOutcome(RefreshFailure(upstream(u)), RefreshWrites(u, upstream(u), ttl));
    ReadMissStep(data0, refreshes0, usernames, upstream, ttl, i, data, refreshes, served);
    EffectsMissStep(data0, log0, refreshes0, usernames, RefreshOf(upstream, ttl), i, data, log, refreshes, writes, started);
  }

  /** A failed refresh ends the request with the promises of `get_tweets` for a failure. */
  lemma {:induction false} ProgressFail(data0: map<string, Value>, log0: seq<SetExCall>, refreshes0: seq<string>,
                                        usernames: seq<string>, upstream: string -> Upstream, ttl: nat, i: nat,
                                        data: map<string, Value>, log: seq<SetExCall>, refreshes: seq<string>,
                                        served: seq<seq<TweetRecord>>, writes: seq<SetExCall>, started: seq<string>)
    requires Progress(data0, log0, refreshes0, usernames, upstream, ttl, i, data, log, refreshes, served, writes, started)
    requires i < |usernames| && TweetsKey(usernames[i]) !in data && RefreshFailure(upstream(usernames[i])).Some?
    ensures var u := usernames[i];
      var w := RefreshWrites(u, upstream(u), ttl);
      var total := ReadAll(data0, usernames, RefreshOf(upstream, ttl));
      && MissFails(data0, u, upstream(u))
      && Apply(data, w) == Apply(data0, total.writes)
      && log + w == log0 + total.writes
      && refreshes + [u] == refreshes0 + total.refreshed
      && KeepsCached(data0, Apply(data, w)) && NewFromRefresh(data0, Apply(data, w), upstream)
      && (refreshes + [u])[..|refreshes0|] == refreshes0
      && RefreshedOnce(refreshes + [u], |refreshes0|, usernames, data0)
  {
    var u := usernames[i];
    assert RefreshOf(upstream, ttl)(u) == RefreshOutcome(RefreshFailure(upstream(u)), RefreshWrites(u, upstream(u), ttl));
    ReadFailStep(data0, refreshes0, usernames, upstream, ttl, i, data, refreshes, served);
    EffectsFailStep(data0, log0, refreshes0, usernames, RefreshOf(upstream, ttl), i, data, log, refreshes, writes, started);
  }

  /** After every user was read, the promises of `get_tweets` for a success hold. */
  lemma {:induction false} ProgressDone(data0: map<string, Value>, log0: seq<SetExCall>, refreshes0: seq<string>,
                                        usernames: seq<string>, upstream: string -> Upstream, ttl: nat,
                                        data: map<string, Value>, log: seq<SetExCall>, refreshes: seq<string>,
                                        served: seq<seq<TweetRecord>>, writes: seq<SetExCall>, started: seq<string>)
    requires Progress(data0, log0, refreshes0, usernames, upstream, ttl, |usernames|, data, log, refreshes, served, writes, started)
    ensures var total := ReadAll(data0, usernames, RefreshOf(upstream, ttl));
      && data == Apply(data0, total.writes) && log == log0 + total.writes && refreshes == refreshes0 + total.refreshed
    ensures served == ServedLists(data0, usernames, upstream)
    ensures !exists u :: u in usernames && MissFails(data0, u, upstream(u))
    ensures RefreshedOnce(refreshes, |refreshes0|, usernames, data0)
    ensures KeepsCached(data0, data) && NewFromRefresh(data0, data, upstream)
    ensures refreshes[..|refreshes0|] == refreshes0
    ensures forall u :: u in usernames ==> TweetsKey(u) in data
  {
    ReadAllDone(data0, refreshes0, usernames, upstream, data, refreshes, served);
    EffectsAllDone(data0, log0, refreshes0, usernames, RefreshOf(upstream, ttl), data, log, refreshes, writes, started);
  }

  /**
   * `get_tweets`: an empty username list gives `{}` and touches nothing.
   * Otherwise each user is read through the cache in list order (the
   * concurrent gather, taken one at a time); the first failed refresh is
   * re-raised (a 404 for an unknown user) and nothing is scheduled; else one background refresh per
   * username is scheduled and each user's records are filtered by type.
   * The store and the log end as `ReadAll` says: every list cached
   * before is kept, every new one was stored by a completed refresh, on
   * success every requested user is cached, and no key of another user
   * changes.
   */
  method GetTweets(store: Store, usernames: seq<string>, flags: Include, upstream: string -> Upstream)
    returns (r: Result<map<string, seq<TweetRecord>>, RefreshError>, scheduled: seq<string>)
    requires store.Valid()
    modifies store
    ensures store.Valid()
    ensures usernames == [] ==>
      r == Success(map[]) && scheduled == [] && store.data == old(store.data) &&
      store.log == old(store.log) && store.refreshes == old(store.refreshes)
    ensures r.Failure? <==> exists u :: u in usernames && MissFails(old(store.data), u, upstream(u))
    ensures r.Failure? ==>
      exists u :: u in usernames && MissFails(old(store.data), u, upstream(u)) && r.error == RefreshFailure(upstream(u)).value
    ensures r.Failure? ==> scheduled == []
    ensures r.Success? ==> scheduled == usernames
    ensures r.Success? ==> r.value == ResultDict(usernames, ServedLists(old(store.data), usernames, upstream), flags)
    ensures var effects := ReadAll(old(store.data), usernames, RefreshOf(upstream, store.cacheTtl));
      && store.data == Apply(old(store.data), effects.writes)
      && store.log == old(store.log) + effects.writes
      && store.refreshes == old(store.refreshes) + effects.refreshed
    ensures KeepsCached(old(store.data), store.data)
    ensures NewFromRefresh(old(store.data), store.data, upstream)
    ensures r.Success? ==> forall u :: u in usernames ==> TweetsKey(u) in store.data
    ensures forall k :: !OwnKey(k, usernames) ==>
              (k in store.data <==> k in old(store.data)) && (k in store.data ==> store.data[k] == old(store.data)[k])
    ensures RefreshedOnce(store.refreshes, |old(store.refreshes)|, usernames, old(store.data))
    ensures store.refreshes[..|old(store.refreshes)|] == old(store.refreshes)
  {
    ReadAllFrame(store.data, usernames, upstream, store.cacheTtl);
    if |usernames| == 0 {
      assert store.log + [] == store.log && store.refreshes + [] == store.refreshes;
      return Success(map[]), [];
    }
    ghost var data0, log0, refreshes0 := store.data, store.log, store.refreshes;
    ghost var writes: seq<SetExCall>, started: seq<string> := [], [];
    ProgressStart(data0, log0, refreshes0, usernames, upstream, store.cacheTtl);
    var allTweets: seq<seq<TweetRecord>> := [];
    var i := 0;
    while i < |usernames|
      invariant store.Valid()
      invariant Progress(data0, log0, refreshes0, usernames, upstream, store.cacheTtl, i,
                         store.data, store.log, store.refreshes, allTweets, writes, started)
    {
      var username := usernames[i];
      ghost var dataBefore, logBefore, refreshesBefore := store.data, store.log, store.refreshes;
      var tweets := store.GetCachedTweets(username, upstream(username));
      if TweetsKey(username) in dataBefore {
        ProgressHit(data0, log0, refreshes0, usernames, upstream, store.cacheTtl, i,
                    dataBefore, logBefore, refreshesBefore, allTweets, writes, started);
      } else if RefreshFailure(upstream(username)).None? {
        ProgressMiss(data0, log0, refreshes0, usernames, upstream, store.cacheTtl, i,
                     dataBefore, logBefore, refreshesBefore, allTweets, writes, started);
        writes, started := writes + RefreshWrites(username, upstream(username), store.cacheTtl), started + [username];
      } else {
        ProgressFail(data0, log0, refreshes0, usernames, upstream, store.cacheTtl, i,
                     dataBefore, logBefore, refreshesBefore, allTweets, writes, started);
      }
      if tweets.Failure? {
        assert username in usernames && MissFails(data0, username, upstream(username));
        return Failure(tweets.error), [];
      }
      allTweets := allTweets + [tweets.value];
      i := i + 1;
    }
    ProgressDone(data0, log0, refreshes0, usernames, upstream, store.cacheTtl,
                 store.data, store.log, store.refreshes, allTweets, writes, started);
    r := Success(ResultDict(usernames, allTweets, flags));
    scheduled := usernames;
  }

  /** The `setex` calls of the refreshes of `scheduled` (each with outcome `Refresh(u)`), run one after another. */
  function RefreshAllWrites(scheduled: seq<string>, Refresh: string -> RefreshOutcome): seq<SetExCall>
    decreases |scheduled|
  {
    if scheduled == [] then []
    else RefreshAllWrites(scheduled[..|scheduled| - 1], Refresh) + Refresh(scheduled[|scheduled| - 1]).writes
  }

  /** A refresh against the upstream client writes only the refreshed user's two keys. */
  lemma RefreshOfOwnKeys(upstream: string -> Upstream, ttl: nat)
    ensures forall v, c :: c in RefreshOf(upstream, ttl)(v).writes ==> c.key == UserKey(v) || c.key == TweetsKey(v)
  {
    forall v ensures forall c :: c in RefreshOf(upstream, ttl)(v).writes ==> c.key == UserKey(v) || c.key == TweetsKey(v) {
      RefreshWritesSpec(v, upstream(v), ttl);
    }
  }

  /**
   * The background refreshes that run: the scheduled ones in order, up to
   * and including the first that fails, since the background-task runner stops at the
   * first task that raises. It is a prefix of `scheduled`; every refresh in
   * it but the last completes; it stops short only after a failed refresh.
   */
  function Ran(scheduled: seq<string>, Refresh: string -> RefreshOutcome): (r: seq<string>)
    ensures |r| <= |scheduled| && r == scheduled[..|r|]
    ensures scheduled != [] ==> r != []
    ensures forall j :: 0 <= j < |r| - 1 ==> Refresh(r[j]).failure.None?
    ensures |r| < |scheduled| ==> Refresh(r[|r| - 1]).failure.Some?
    ensures forall j :: 0 <= j < |scheduled| && Refresh(scheduled[j]).failure.Some? ==> |r| <= j + 1
    decreases |scheduled|
  {
    if scheduled == [] then []
    else if Refresh(scheduled[0]).failure.Some? then [scheduled[0]]
    else [scheduled[0]] + Ran(scheduled[1..], Refresh)
  }

  /** When the first `i` refreshes complete and the next fails, exactly the first `i + 1` run. */
  lemma {:induction false} RanStopsAt(scheduled: seq<string>, Refresh: string -> RefreshOutcome, i: nat)
    requires i < |scheduled| && Refresh(scheduled[i]).failure.Some?
    requires forall j :: 0 <= j < i ==> Refresh(scheduled[j]).failure.None?
    ensures Ran(scheduled, Refresh) == scheduled[..i + 1]
    decreases i
  {
    if i > 0 {
      RanStopsAt(scheduled[1..], Refresh, i - 1);
      assert scheduled[..i + 1] == [scheduled[0]] + scheduled[1..][..i];
    }
  }

  /** When every refresh completes, all of them run. */
  lemma {:induction false} RanAll(scheduled: seq<string>, Refresh: string -> RefreshOutcome)
    requires forall j :: 0 <= j < |scheduled| ==> Refresh(scheduled[j]).failure.None?
    ensures Ran(scheduled, Refresh) == scheduled
    decreases |scheduled|
  {
    if scheduled != [] {
      RanAll(scheduled[1..], Refresh);
      assert scheduled == [scheduled[0]] + scheduled[1..];
    }
  }

  /** The store, the log and the refreshes after the first `i` background refreshes. */
  ghost predicate BackgroundSoFar(data0: map<string, Value>, log0: seq<SetExCall>, refreshes0: seq<string>,
                                  scheduled: seq<string>, Refresh: string -> RefreshOutcome, i: nat,
                                  data: map<string, Value>, log: seq<SetExCall>, refreshes: seq<string>)
  {
    && i <= |scheduled|
    && refreshes == refreshes0 + scheduled[..i]
    && data == Apply(data0, RefreshAllWrites(scheduled[..i], Refresh))
    && log == log0 + RefreshAllWrites(scheduled[..i], Refresh)
  }

  /** One more background refresh appends its calls to those of the refreshes before it. */
  lemma BackgroundStep(data0: map<string, Value>, log0: seq<SetExCall>, refreshes0: seq<string>,
                       scheduled: seq<string>, Refresh: string -> RefreshOutcome, i: nat,
                       data: map<string, Value>, log: seq<SetExCall>, refreshes: seq<string>)
    requires BackgroundSoFar(data0, log0, refreshes0, scheduled, Refresh, i, data, log, refreshes) && i < |scheduled|
    ensures var w := Refresh(scheduled[i]).writes;
      BackgroundSoFar(data0, log0, refreshes0, scheduled, Refresh, i + 1, Apply(data, w), log + w, refreshes + [scheduled[i]])
  {
    assert scheduled[..i + 1][..i] == scheduled[..i];
    assert scheduled[..i + 1] == scheduled[..i] + [scheduled[i]];
    ApplyAppend(data0, RefreshAllWrites(scheduled[..i], Refresh), Refresh(scheduled[i]).writes);
  }

  /** The background refreshes after the first `i`, all of which completed. */
  ghost predicate BackgroundRunning(data0: map<string, Value>, log0: seq<SetExCall>, refreshes0: seq<string>,
                                    scheduled: seq<string>, upstream: string -> Upstream, ttl: nat, i: nat,
                                    data: map<string, Value>, log: seq<SetExCall>, refreshes: seq<string>)
  {
    && BackgroundSoFar(data0, log0, refreshes0, scheduled, RefreshOf(upstream, ttl), i, data, log, refreshes)
    && forall j :: 0 <= j < i ==> RefreshOf(upstream, ttl)(scheduled[j]).failure.None?
  }

  /** One more background refresh that completes: the runner goes on. */
  lemma BackgroundCompletedStep(data0: map<string, Value>, log0: seq<SetExCall>, refreshes0: seq<string>,
                                scheduled: seq<string>, upstream: string -> Upstream, ttl: nat, i: nat,
                                data: map<string, Value>, log: seq<SetExCall>, refreshes: seq<string>)
    requires BackgroundRunning(data0, log0, refreshes0, scheduled, upstream, ttl, i, data, log, refreshes)
    requires i < |scheduled| && RefreshFailure(upstream(scheduled[i])).None?
    ensures var u := scheduled[i];
      var w := RefreshWrites(u, upstream(u), ttl);
      BackgroundRunning(data0, log0, refreshes0, scheduled, upstream, ttl, i + 1, Apply(data, w), log + w, refreshes + [u])
  {
    var u := scheduled[i];
    assert RefreshOf(upstream, ttl)(u) == RefreshOutcome(RefreshFailure(upstream(u)), RefreshWrites(u, upstream(u), ttl));
    BackgroundStep(data0, log0, refreshes0, scheduled, RefreshOf(upstream, ttl), i, data, log, refreshes);
  }

  /** One more background refresh that fails: the runner stops, having run exactly `Ran`. */
  lemma BackgroundStopStep(data0: map<string, Value>, log0: seq<SetExCall>, refreshes0: seq<string>,
                           scheduled: seq<string>, upstream: string -> Upstream, ttl: nat, i: nat,
                           data: map<string, Value>, log: seq<SetExCall>, refreshes: seq<string>)
    requires BackgroundRunning(data0, log0, refreshes0, scheduled, upstream, ttl, i, data, log, refreshes)
    requires i < |scheduled| && RefreshFailure(upstream(scheduled[i])).Some?
    ensures var u := scheduled[i];
      var w := RefreshWrites(u, upstream(u), ttl);
      var ran := Ran(scheduled, RefreshOf(upstream, ttl));
      && refreshes + [u] == refreshes0 + ran
      && Apply(data, w) == Apply(data0, RefreshAllWrites(ran, RefreshOf(upstream, ttl)))
      && log + w == log0 + RefreshAllWrites(ran, RefreshOf(upstream, ttl))
  {
    var u := scheduled[i];
    assert RefreshOf(upstream, ttl)(u) == RefreshOutcome(RefreshFailure(upstream(u)), RefreshWrites(u, upstream(u), ttl));
    BackgroundStep(data0, log0, refreshes0, scheduled, RefreshOf(upstream, ttl), i, data, log, refreshes);
    RanStopsAt(scheduled, RefreshOf(upstream, ttl), i);
  }

  /** Once every scheduled refresh completed, all of them ran. */
  lemma BackgroundAllRan(data0: map<string, Value>, log0: seq<SetExCall>, refreshes0: seq<string>,
                         scheduled: seq<string>, upstream: string -> Upstream, ttl: nat,
                         data: map<string, Value>, log: seq<SetExCall>, refreshes: seq<string>)
    requires BackgroundRunning(data0, log0, refreshes0, scheduled, upstream, ttl, |scheduled|, data, log, refreshes)
    ensures var ran := Ran(scheduled, RefreshOf(upstream, ttl));
      && refreshes == refreshes0 + ran
      && data == Apply(data0, RefreshAllWrites(ran, RefreshOf(upstream, ttl)))
      && log == log0 + RefreshAllWrites(ran, RefreshOf(upstream, ttl))
  {
    RanAll(scheduled, RefreshOf(upstream, ttl));
    assert scheduled[..|scheduled|] == scheduled;
  }

  /** The background refreshes of `scheduled` are those of all but the last, then the last one's. */
  lemma BackgroundSplit(data: map<string, Value>, scheduled: seq<string>, Refresh: string -> RefreshOutcome)
    requires scheduled != []
    ensures var n := |scheduled| - 1;
      Apply(data, RefreshAllWrites(scheduled, Refresh)) ==
      Apply(Apply(data, RefreshAllWrites(scheduled[..n], Refresh)), Refresh(scheduled[n]).writes)
  {
    var n := |scheduled| - 1;
    ApplyAppend(data, RefreshAllWrites(scheduled[..n], Refresh), Refresh(scheduled[n]).writes);
  }

  /** Every scheduled user whose refresh completes has the records of that refresh cached afterwards. */
  lemma {:induction false} BackgroundCompleted(data: map<string, Value>, scheduled: seq<string>,
                                               upstream: string -> Upstream, ttl: nat, u: string)
    requires u in scheduled && RefreshFailure(upstream(u)).None?
    ensures var after := Apply(data, RefreshAllWrites(scheduled, RefreshOf(upstream, ttl)));
      TweetsKey(u) in after && after[TweetsKey(u)] == TweetsValue(Processed(upstream(u).tweets, upstream(u).replies).value)
    decreases |scheduled|
  {
    var n := |scheduled| - 1;
    var last := scheduled[n];
    var mid := Apply(data, RefreshAllWrites(scheduled[..n], RefreshOf(upstream, ttl)));
    BackgroundSplit(data, scheduled, RefreshOf(upstream, ttl));
    assert RefreshOf(upstream, ttl)(last).writes == RefreshWrites(last, upstream(last), ttl);
    RefreshEffect(mid, last, upstream(last), ttl);
    if u != last {
      assert scheduled == scheduled[..n] + [last];
      BackgroundCompleted(data, scheduled[..n], upstream, ttl, u);
      KeysCollisionFree(last, u);
    }
  }

  /** A user whose refresh fails keeps the cached list it had, or its absence. */
  lemma {:induction false} BackgroundFailed(data: map<string, Value>, scheduled: seq<string>,
                                            upstream: string -> Upstream, ttl: nat, u: string)
    requires RefreshFailure(upstream(u)).Some?
    ensures var after := Apply(data, RefreshAllWrites(scheduled, RefreshOf(upstream, ttl)));
      (TweetsKey(u) in after <==> TweetsKey(u) in data) && (TweetsKey(u) in data ==> after[TweetsKey(u)] == data[TweetsKey(u)])
    decreases |scheduled|
  {
    if scheduled != [] {
      var n := |scheduled| - 1;
      var last := scheduled[n];
      var mid := Apply(data, RefreshAllWrites(scheduled[..n], RefreshOf(upstream, ttl)));
      BackgroundSplit(data, scheduled, RefreshOf(upstream, ttl));
      BackgroundFailed(data, scheduled[..n], upstream, ttl, u);
      assert RefreshOf(upstream, ttl)(last).writes == RefreshWrites(last, upstream(last), ttl);
      RefreshEffect(mid, last, upstream(last), ttl);
      KeysCollisionFree(last, u);
    }
  }

  /** When each refresh writes only its user's keys, the keys of users not scheduled do not change. */
  lemma {:induction false} BackgroundFrame(data: map<string, Value>, scheduled: seq<string>,
                                           Refresh: string -> RefreshOutcome, k: string)
    requires forall v, c :: c in Refresh(v).writes ==> c.key == UserKey(v) || c.key == TweetsKey(v)
    requires !OwnKey(k, scheduled)
    ensures var after := Apply(data, RefreshAllWrites(scheduled, Refresh));
      (k in after <==> k in data) && (k in data ==> after[k] == data[k])
    decreases |scheduled|
  {
    if scheduled != [] {
      var n := |scheduled| - 1;
      var last := scheduled[n];
      BackgroundSplit(data, scheduled, Refresh);
      assert last in scheduled;
      assert !OwnKey(k, scheduled[..n]) by {
        forall v | v in scheduled[..n] ensures v in scheduled {
          assert scheduled == scheduled[..n] + [last];
        }
      }
      BackgroundFrame(data, scheduled[..n], Refresh, k);
      ApplyFrame(Apply(data, RefreshAllWrites(scheduled[..n], Refresh)), Refresh(last).writes, k);
    }
  }

  /**
   * What the background refreshes leave in the store: every user whose
   * refresh ran and completed has the records of that refresh cached; a
   * user whose refresh fails keeps the cached list it had, or its absence;
   * the keys of every other user, including those scheduled after the first
   * failing refresh, do not change.
   */
  lemma BackgroundRefreshEffect(data: map<string, Value>, scheduled: seq<string>, upstream: string -> Upstream, ttl: nat)
    ensures var ran := Ran(scheduled, RefreshOf(upstream, ttl));
      var after := Apply(data, RefreshAllWrites(ran, RefreshOf(upstream, ttl)));
      && (forall u :: u in ran && RefreshFailure(upstream(u)).None? ==>
            TweetsKey(u) in after && after[TweetsKey(u)] == TweetsValue(Processed(upstream(u).tweets, upstream(u).replies).value))
      && (forall u :: RefreshFailure(upstream(u)).Some? ==>
            (TweetsKey(u) in after <==> TweetsKey(u) in data) && (TweetsKey(u) in data ==> after[TweetsKey(u)] == data[TweetsKey(u)]))
      && (forall k :: !OwnKey(k, ran) ==> (k in after <==> k in data) && (k in data ==> after[k] == data[k]))
  {
    var ran := Ran(scheduled, RefreshOf(upstream, ttl));
    var after := Apply(data, RefreshAllWrites(ran, RefreshOf(upstream, ttl)));
    forall u | u in ran && RefreshFailure(upstream(u)).None?
      ensures TweetsKey(u) in after && after[TweetsKey(u)] == TweetsValue(Processed(upstream(u).tweets, upstream(u).replies).value)
    {
      BackgroundCompleted(data, ran, upstream, ttl, u);
    }
    forall u | RefreshFailure(upstream(u)).Some?
      ensures (TweetsKey(u) in after <==> TweetsKey(u) in data) && (TweetsKey(u) in data ==> after[TweetsKey(u)] == data[TweetsKey(u)])
    {
      BackgroundFailed(data, ran, upstream, ttl, u);
    }
    RefreshOfOwnKeys(upstream, ttl);
    forall k | !OwnKey(k, ran)
      ensures (k in after <==> k in data) && (k in data ==> after[k] == data[k])
    {
      BackgroundFrame(data, ran, RefreshOf(upstream, ttl), k);
    }
  }

  /** A user scheduled after one that is not found is never refreshed. */
  lemma ExampleNotFoundStopsRefreshes(upstream: string -> Upstream, ttl: nat)
    requires upstream("ghost") == UserNotFound
    ensures Ran(["ghost", "alice"], RefreshOf(upstream, ttl)) == ["ghost"]
  {
    assert RefreshOf(upstream, ttl)("ghost").failure == Some(NotFound404);
  }

  /**
   * The scheduled background refreshes, run after the response: one
   * refresh per scheduled username, in order, until the first that raises;
   * the background-task runner stops there and the remaining refreshes never run.
   */
  method RunBackgroundRefreshes(store: Store, scheduled: seq<string>, upstream: string -> Upstream)
    requires store.Valid()
    modifies store
    ensures store.Valid()
    ensures var ran := Ran(scheduled, RefreshOf(upstream, store.cacheTtl));
      && store.refreshes == old(store.refreshes) + ran
      && store.data == Apply(old(store.data), RefreshAllWrites(ran, RefreshOf(upstream, store.cacheTtl)))
      && store.log == old(store.log) + RefreshAllWrites(ran, RefreshOf(upstream, store.cacheTtl))
  {
    ghost var data0, log0, refreshes0 := store.data, store.log, store.refreshes;
    assert scheduled[..0] == [];
    var i := 0;
    while i < |scheduled|
      invariant store.Valid()
      invariant BackgroundRunning(data0, log0, refreshes0, scheduled, upstream, store.cacheTtl, i,
                                  store.data, store.log, store.refreshes)
    {
      ghost var dataBefore, logBefore, refreshesBefore := store.data, store.log, store.refreshes;
      var failure := store.RefreshUserTweetsCache(scheduled[i], upstream(scheduled[i]));
      if failure.Some? {
        BackgroundStopStep(data0, log0, refreshes0, scheduled, upstream, store.cacheTtl, i,
                           dataBefore, logBefore, refreshesBefore);
        return;
      }
      BackgroundCompletedStep(data0, log0, refreshes0, scheduled, upstream, store.cacheTtl, i,
                              dataBefore, logBefore, refreshesBefore);
      i := i + 1;
    }
    BackgroundAllRan(data0, log0, refreshes0, scheduled, upstream, store.cacheTtl,
                     store.data, store.log, store.refreshes);
  }
}
