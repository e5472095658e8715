# XRSS core, modelled in Dafny

XRSS serves X/Twitter timelines as JSON and as an RSS feed. This project models the logic at its core and proves properties of it:

- **Post classifier.** `_get_tweet_type` sorts a post into Thread, Retweet, Reply, Quote or Post, using five tests in a fixed order.
- **Retweet-prefix normaliser.** `clean_tweet` strips a leading "RT @handle: " from a post's text.
- **Refresh pipeline.** `refresh_user_tweets_cache`:
  - merges the "Tweets" and "Replies" batches, keeping the first post for each id;
  - sorts the merged list newest first by the `strptime` reading of each timestamp;
  - projects every post into a stored record;
  - writes the profile and the records to the store with `setex`.
- **Read-through cache.** `get_cached_user` and `get_cached_tweets` work over a key/value store with `user:` and `tweets:` keys. A miss runs one refresh.
- **`get_tweets` endpoint.** It reads every requested user through the cache and schedules one background refresh per user. It keeps only the record types whose include flag is set.
- **Feed templates of `get_feed`.** These are the item title, the permalink (used as link and as guid), and the avatar URL upgraded from "normal" to "400x400".
- **The earlier single-file service `main.py`:**
  - its own copies of the classifier and the normaliser, proved to agree with the packaged ones;
  - the choice of batches from the include flags;
  - the per-batch sort, filter and projection, where each batch overwrites the previous one;
  - the final removal of duplicate ids per user.

The modules follow the program:

| module | contents |
|---|---|
| `Wrappers` | `Option` and `Result` |
| `Model` | the entities |
| `Classifier` | the post classifier |
| `Utils` | the normaliser |
| `Dedupe` | the first-occurrence rule shared by the merge loop and the duplicate removal |
| `CreatedAt` | the timestamp form and its order |
| `NewestFirst` | the stable descending keyed sort |
| `Processing` | merge, sort and projection |
| `Cache` | the store as a class over a map, with its refresh |
| `Endpoint` | `get_tweets` |
| `Feed` | the feed templates |
| `Legacy` | `main.py` |

What stays outside the model:
- The upstream client is a parameter: an `Upstream` outcome per user in the cache, a `LegacyUser` answer in `main.py`.
- Redis is a `map<string, Value>` in `Cache.Store`. That class also records every `setex` call and every refresh started.

## Model

| member | source | states |
|---|---|---|
| Classifier.TweetTypeOf | xrss/main.py:157-179 | Each category holds exactly when its test holds and every earlier test fails. So the classifier is total, and the first matching test wins. |
| Model.TypeName | xrss/main.py:165-179 | The category names are the strings the classifier returns: "Thread", "Retweet", "Reply", "Quote" and "Post". |
| Classifier.ThreadWins | xrss/main.py:167-168 | A post in a thread is a Thread whatever its other fields say. |
| Classifier.RetweetOutranksReplyAndQuote | xrss/main.py:170-176 | Outside a thread, a retweet is a Retweet whatever its reply and quote fields say. |
| Classifier.EmptyRepliesIsNoReply | xrss/main.py:173-179 | With an empty reply list and no reply target, the post is a Quote if `is_quote_status` is `True`, otherwise a Post. |
| Utils.FindChar | xrss/utils.py:52 | Returns the index of the first occurrence of the character, or nothing exactly when the character is absent. |
| Utils.CleanTweet | xrss/utils.py:34-55 | `clean_tweet`: a text starting with "RT @" that has a colon loses everything up to two places after its first colon; any other text is returned unchanged. |
| Utils.NotRetweetUnchanged | xrss/utils.py:51-55 | A text not starting with "RT @" is returned unchanged. |
| Utils.NoColonUnchanged | xrss/utils.py:52-55 | A text starting with "RT @" but with no colon is returned unchanged. |
| Utils.StripsThroughFirstColon | xrss/utils.py:51-54 | For a retweet text, the result is the text from two places after its first colon, or "" when that is past the end. |
| Utils.CleanIsSuffix | xrss/utils.py:51-55 | The result is always a suffix of the input. |
| Utils.CleanRecoversBody | xrss/utils.py:44-46 | Let the handle contain no colon. Then "RT @" + handle + ":" + one character + body gives back exactly body. |
| Utils.ExampleRetweet | tests/test_main.py:40 | "RT @user: Hello world!" becomes "Hello world!". |
| Utils.ExampleLaterColonsSurvive | tests/test_main.py:43 | "RT @user123: This is a: complex: tweet" becomes "This is a: complex: tweet". Only the first colon is consumed. |
| Utils.ExamplePlainText | tests/test_main.py:37 | "Hello world!" is returned unchanged. |
| Utils.ExampleColonLast | xrss/utils.py:54 | "RT @user:" becomes "", because slicing past the end is empty. |
| Dedupe.KeepFirstShape | xrss/main.py:112-118 | The seen-set rule gives a subsequence no longer than its input. Its ids are the input's ids minus those already seen. |
| Dedupe.KeepFirstDistinct | xrss/main.py:112-118 | The kept elements have pairwise-distinct ids. |
| Dedupe.FirstOccurrences | xrss/main.py:114-118 | The elements at the first-occurrence positions of each id, in position order, with no seen set (reference definition). |
| Dedupe.KeepFirstPrefix | xrss/main.py:114-118 | On every prefix, the seen-set loop keeps exactly the elements at that prefix's first-occurrence positions. |
| Dedupe.KeepFirstIsFirstOccurrences | xrss/main.py:114-118 | The seen-set rule equals the position filter `FirstOccurrences`: it keeps, in order, exactly the elements at the first occurrence of each id. So a kept element is the first occurrence of its id, and every first occurrence is kept. |
| Dedupe.KeepFirstAppend | xrss/main.py:114-118 | Running over two lists with one seen-set is the same as running over the first, then over the second with the first's ids already seen. |
| Dedupe.KeepFirstSnoc | xrss/main.py:115-118 | One more element is appended exactly when its id has not been seen, and its id joins the seen set. |
| Dedupe.KeepFirstUnique | main.py:200-203 | A list whose ids are already distinct is left unchanged. |
| Dedupe.PermutationIdSet | xrss/main.py:121-124 | Reordering keeps the set of ids. |
| Dedupe.PermutationDistinct | xrss/main.py:121-124 | Reordering a list with distinct ids keeps them distinct. |
| CreatedAt.NotAfterTotalOrder | xrss/main.py:121-124 | Datetime comparison is reflexive, total, antisymmetric and transitive. |
| CreatedAt.NameIndex | xrss/main.py:122 | Finds the first weekday or month name that the text spells, ignoring case, or reports that none does. |
| CreatedAt.DecimalValue | xrss/main.py:122 | A field has a value exactly when all its characters are digits, and the value is below 10^width. |
| CreatedAt.ParseCreatedAt | xrss/main.py:122 | Every timestamp that is read is a valid datetime: year 1 to 9999, a real calendar day and time. |
| CreatedAt.PaddedRoundTrip | xrss/main.py:122 | Reading a zero-padded number gives the number back. |
| CreatedAt.FormatLayout | tests/test_main.py:74 | The client's timestamp form has every field at its fixed position. |
| CreatedAt.FormatParseRoundTrip | tests/test_main.py:74 | Reading a timestamp the client formats gives back exactly its datetime, whatever the weekday name. |
| CreatedAt.MonthNameRead | xrss/main.py:122 | Each month name is read as its own month. |
| CreatedAt.MonthNamesDiffer | xrss/main.py:122 | Month names differ pairwise, even ignoring case. |
| NewestFirst.InsertSorted | xrss/main.py:121-124 | Inserting one keyed element into a newest-first list keeps it newest first and adds exactly that element. |
| NewestFirst.SortByKeyFacts | xrss/main.py:121-124 | The keyed sort returns a permutation of its input, ordered newest first. Elements with equal keys keep their input order. |
| NewestFirst.KeyAll | xrss/main.py:121-122 | Keying a list succeeds exactly when every timestamp can be read. The keyed list is then the input in order, each element paired with its own timestamp. |
| NewestFirst.SortSucceedsIff | xrss/main.py:121-124 | The sort succeeds exactly when every element's timestamp can be read, as `strptime` raises otherwise. |
| NewestFirst.SortIsOrderedPermutation | xrss/main.py:121-124 | A successful sort is a permutation of its input with non-increasing timestamps. |
| NewestFirst.SortIsStable | xrss/main.py:121-124 | A successful sort is stable: for every timestamp, the elements with it keep their input order (`reverse=True` keeps stability). |
| NewestFirst.SortNewestFirst | xrss/main.py:121-124 | The sort of the refresh: nothing when some timestamp cannot be read, otherwise the stable newest-first order by the read timestamp. |
| Processing.MergeBatches | xrss/main.py:112-118 | The nested merge loop with its seen-set computes exactly the first-occurrence list of Tweets followed by Replies. |
| Processing.Merged | xrss/main.py:105-118 | The merged list: the first post for each id, over "Tweets" followed by "Replies". |
| Processing.MergedSpec | xrss/main.py:105-118 | The merged list has distinct ids and covers every id of both batches. Its length is at most the sum of theirs. It is a subsequence, and it equals `FirstOccurrences` of Tweets then Replies: the first occurrence of each id is kept, at its own position. |
| Processing.ExampleDuplicateKeptFirst | xrss/main.py:112-118 | A post fetched in both batches is kept once, at its place among the Tweets: Tweets `[a, b]` and Replies `[a]` merge to `[a, b]`. |
| Processing.RecordOf | xrss/main.py:126-144 | The stored record of one post: timestamp, category, id, cleaned text, and the projection of each post it replies to (none when it has no reply list). |
| Processing.Project | xrss/main.py:126-144 | The record of every post, in order. |
| Processing.Processed | xrss/main.py:105-144 | The pipeline: merge, then sort newest first, then project; nothing when the sort fails. |
| Processing.ProjectSpec | xrss/main.py:126-144 | Projection keeps length and order. Each record carries its post's id, timestamp, category and cleaned text, and `in_reply_to` is empty when the post has no reply list. Otherwise `in_reply_to` has one snapshot per attached reply, in order. Each snapshot carries the reply's id, cleaned text, author screen name as `username`, author id and timestamp. |
| Processing.ProjectAppend | xrss/main.py:126-144 | Projection commutes with concatenation. |
| Processing.ProjectIds | xrss/main.py:126-144 | Projection keeps the set of ids and their distinctness. |
| Processing.ProcessedFailsIff | xrss/main.py:112-124 | The pipeline fails exactly when some post that survives the merge has a timestamp that cannot be read. |
| Processing.ProcessedIds | xrss/main.py:112-144 | The stored records have distinct ids, cover every id of both batches, and number at most the two batches together. |
| Processing.ProcessedNewestFirst | xrss/main.py:121-144 | The stored records are ordered newest first. |
| Cache.KeysCollisionFree | xrss/main.py:67-74 | `user:` and `tweets:` keys never collide, and each determines its username. |
| Cache.RefreshFailure | xrss/main.py:86-154 | How a refresh ends: 404 when the user is not found, re-raised when the lookup, a batch fetch or the sort fails, and no error otherwise. |
| Cache.RefreshWrites | xrss/main.py:86-154 | The `setex` calls of one refresh: the profile once the lookup succeeds, then the records once the sort succeeds. |
| Cache.Apply | xrss/main.py:92-147 | A sequence of `setex` calls, each overwriting its key. |
| Cache.ApplyAppend | xrss/main.py:92-147 | Applying two runs of calls is applying the first and then the second. |
| Cache.ApplyFrame | xrss/main.py:92-147 | A key that no call writes keeps its value, or its absence. |
| Cache.RefreshWritesSpec | xrss/main.py:92-147 | A refresh makes at most two `setex` calls, all with the configured TTL and on the user's own keys. The profile is written first. The records are written second, and exactly when the refresh completes (the two calls of tests/test_main.py:121). A failed lookup writes nothing. |
| Cache.RefreshEffect | xrss/main.py:86-154 | A failed lookup leaves the store unchanged. Otherwise the profile is stored. The `tweets:` entry is replaced exactly when the refresh completes, and is otherwise kept as it was. No other key changes. |
| Cache.RefreshKeepsWellTyped | xrss/main.py:92-147 | A refresh keeps profiles under `user:` keys and record lists under `tweets:` keys. |
| Cache.Store.SetEx | xrss/main.py:147 | Overwrites one key and logs the call with the configured TTL. |
| Cache.Store.GetCachedUser | xrss/main.py:65-69 | Returns the profile stored under `user:<name>`, or nothing exactly when that key is absent. |
| Cache.Store.RefreshUserTweetsCache | xrss/main.py:86-154 | The result is the refresh's error: 404 when the user is not found, re-raised otherwise. The store and the log become their old values followed by that refresh's writes. |
| Cache.Store.GetCachedTweets | xrss/main.py:72-83 | A hit returns the stored list and changes nothing. A miss runs one refresh and propagates its error, or returns the records it stored. |
| Endpoint.FilterByType | xrss/main.py:247-254 | The filter returns an order-preserving subsequence that holds a record exactly when its type's flag is set. It never holds a Thread. |
| Endpoint.Included | xrss/main.py:247-254 | A category is kept exactly when its own include flag is set; a Thread never is. |
| Endpoint.FilterByTypeCounts | xrss/main.py:247-254 | Each record occurs in the filtered list as often as in its input when its category is kept, and not at all otherwise. |
| Endpoint.FilterAllFlags | xrss/main.py:247-254 | With every flag set, the filter drops only threads. |
| Endpoint.CachedOrFetched | xrss/main.py:72-83 | What one read serves: the cached list on a hit, otherwise the records the refresh stores. |
| Endpoint.ServedLists | xrss/main.py:237-238 | One served list per requested username: its cached record list on a hit, and on a miss the records of the refresh the read runs, when that refresh completes. |
| Endpoint.ResultDictKeys | xrss/main.py:245-256 | The response has an entry exactly for each requested username. |
| Endpoint.ResultDictValues | xrss/main.py:245-256 | The entry of a username repeated in the request is the filtered list served at its last position. |
| Endpoint.ResultDict | xrss/main.py:245-256 | The response dictionary, built user by user from the filtered lists. A later duplicate username overwrites an earlier one. |
| Endpoint.MissFails | xrss/main.py:72-83 | A read misses and the refresh it runs fails. |
| Endpoint.KeepsCached | xrss/main.py:72-83 | Every record list cached before is still cached, unchanged. |
| Endpoint.NewFromRefresh | xrss/main.py:72-83 | Every record list cached since then holds the records of a refresh that completed. |
| Endpoint.RefreshedOnce | xrss/main.py:237-238 | The refreshes started since a point are for distinct requested users that missed. |
| Endpoint.RefreshOf | xrss/main.py:86-154 | The outcome of refreshing a user: its error and its `setex` calls. |
| Endpoint.ReadAll | xrss/main.py:237-238 | The `setex` calls and refreshes of the reads of `get_tweets`, in request order. A hit adds nothing, a miss adds its refresh, and a failed refresh ends the reads. |
| Endpoint.ReadAllOwnWrites | xrss/main.py:237-238 | Every `setex` call of the reads has the configured TTL and is on a requested user's own key. |
| Endpoint.ReadAllFrame | xrss/main.py:237-238 | The reads change no key of a user who was not requested. |
| Endpoint.GetTweets | xrss/main.py:206-256 | An empty request gives `{}` and touches nothing. The call fails exactly when some requested user misses and that refresh fails, and its error is that refresh's error: a 404 for an unknown user, otherwise the re-raised one. On success it returns the filtered lists, schedules every username, and leaves every requested user's list cached. The store and the `setex` log end as the reads' calls (`ReadAll`) applied to the old ones. No key of an unrequested user changes. No cached list is dropped, and every newly cached list is the records of a completed refresh. In the sequential reads of the model, each refresh is for a distinct requested user that missed. |
| Endpoint.Ran | xrss/main.py:149-154 | The refreshes the background-task runner performs: a prefix of the scheduled usernames that is empty only when nothing was scheduled. Every refresh in it but the last completes. It is shorter than the schedule exactly when its last refresh raises, which is the 404 for an unknown user or the re-raised error. No refresh after a failing one runs. |
| Endpoint.RanStopsAt | xrss/main.py:149-154 | When the refresh at position `i` is the first that raises, the runner performs exactly the first `i + 1` refreshes. |
| Endpoint.RanAll | xrss/main.py:240-242 | When no scheduled refresh raises, every scheduled refresh runs. |
| Endpoint.ExampleNotFoundStopsRefreshes | xrss/main.py:149-150 | With `["ghost", "alice"]` scheduled and `ghost` unknown upstream, only `ghost`'s refresh runs, and `alice` is never refreshed. |
| Endpoint.RunBackgroundRefreshes | xrss/main.py:240-242 | The scheduled refreshes run in order until the first that raises (`Ran`). The store's refresh record, data and `setex` log end as the old ones followed by exactly those refreshes and their calls (`RefreshAllWrites`). |
| Endpoint.RefreshAllWrites | xrss/main.py:240-242 | The `setex` calls of the given refreshes, one refresh after another. |
| Endpoint.BackgroundFrame | xrss/main.py:240-242 | When every refresh writes only its own user's keys, the background refreshes change no key of an unscheduled user. |
| Endpoint.BackgroundRefreshEffect | xrss/main.py:240-242 | After the background refreshes, every user whose refresh ran and completed has that refresh's records cached. A user whose refresh fails keeps the list it had, or its absence. No key changes for a user whose refresh did not run, whether unscheduled or scheduled after the first failing refresh. |
| Feed.TitleDeterminesTypeAndUser | xrss/main.py:310 | An item title determines both the category and the username. |
| Feed.FeedTitle | xrss/main.py:310 | The item title: "<category> by <username>". |
| Feed.StatusUrl | xrss/main.py:311-319 | The permalink "https://twitter.com/<username>/status/<id>", used as link and as guid. |
| Feed.StatusUrlDeterminesUserAndId | xrss/main.py:311-319 | For handles without '/', a permalink determines both the username and the post id. |
| Feed.ItemGuidsDistinct | xrss/main.py:308-319 | An item's guid is its link. For a handle without '/', distinct post ids give distinct guids. |
| Feed.ReplaceAll | xrss/main.py:325-326 | `str.replace`: every non-overlapping occurrence of the pattern, left to right, is replaced. |
| Feed.ReplaceAllNoOccurrence | xrss/main.py:325-326 | `str.replace` leaves a text without the pattern unchanged. |
| Feed.ReplaceAllSkipsPrefix | xrss/main.py:325-326 | `str.replace` copies unchanged a prefix in which no occurrence of the pattern starts. |
| Feed.ReplaceAllAtFront | xrss/main.py:325-326 | `str.replace` replaces an occurrence at the front and continues after it. |
| Feed.ReplaceAllSingle | xrss/main.py:325-326 | When the leftmost occurrence is the one after the prefix, and none follows it, exactly that occurrence is replaced. |
| Feed.AvatarUrlPresence | xrss/main.py:322 | An item has a media URL exactly when a profile is cached and its image URL is not empty. |
| Feed.AvatarUrl | xrss/main.py:322-327 | The media URL: the cached profile image URL with "normal" replaced by "400x400", or none when there is no profile or its URL is empty. |
| Feed.ItemFor | xrss/main.py:308-331 | One feed item: title, link, description, timestamp, author, guid and media URL of one record. |
| Feed.AvatarUrlUpgradesSize | xrss/main.py:322-327 | An avatar URL whose only "normal" is its size marker (".../x_normal.jpg") becomes ".../x_400x400.jpg", with everything else kept. |
| Legacy.TweetTypeName | main.py:43-76 | The legacy classifier: the same five tests in the same order, returning the category name. |
| Legacy.SameClassifier | main.py:64-76 | The legacy classifier names the same category as the packaged one, with the same precedence. |
| Legacy.Find | main.py:104 | `find` returns -1 exactly when the character is absent, and otherwise its first index. |
| Legacy.SliceFrom | main.py:107 | Slicing from k gives the rest of the text after k, or "" past the end. |
| Legacy.CleanTweet | main.py:79-109 | The legacy normaliser: a text starting with "RT @" that has a colon loses everything up to two places after its first colon. |
| Legacy.CleanTweetAgrees | main.py:102-109 | The legacy normaliser agrees with xrss/utils.py on every input. |
| Legacy.DocExampleRetweet | main.py:96-97 | "RT @user: This is the actual content" becomes "This is the actual content". |
| Legacy.DocExamplePlain | main.py:98-99 | "Regular tweet without RT" is returned unchanged. |
| Legacy.SelectTweetTypes | main.py:161-167 | "Tweets" is requested if and only if posts, retweets or quotes is set. "Replies" is requested if and only if replies is set. "Tweets" comes before "Replies". The list is empty if and only if every flag is off. |
| Legacy.FilterProject | main.py:180-198 | The comprehension of one batch: the record of every post of an enabled category, in order. |
| Legacy.FilterProjectIsFilterOfProject | main.py:180-198 | The filtering comprehension equals projecting first and then applying the type filter. |
| Legacy.FilterProjectSpec | main.py:194-197 | The per-batch filter keeps, in order, exactly the records of enabled categories, each as often as in the projection, and never a Thread. |
| Legacy.FilterKeepsNewestFirst | main.py:176-198 | Filtering keeps a newest-first list newest first. |
| Legacy.BatchRecords | main.py:175-198 | The records of one batch: nothing when its sort fails, otherwise the sorted batch filtered and projected. |
| Legacy.BatchRecordsSpec | main.py:175-198 | A batch yields records exactly when all its timestamps can be read. The records are then newest first, of enabled categories, and each is the record of one of the batch's posts. |
| Legacy.FetchBatch | main.py:175-198 | Sorting one batch and then filtering and projecting it computes exactly that batch's records. |
| Legacy.BatchError | main.py:175-176 | A batch fails with a fetch error when it cannot be fetched, and otherwise with a timestamp error. |
| Legacy.ErrorOf | main.py:171-176 | The error of a failing user: the lookup's, else the first failing requested batch's. |
| Legacy.FirstFailureDecides | main.py:173-176 | When the batch at position k is the first requested batch to fail, the user fails with that batch's error. |
| Legacy.StoreBatches | main.py:173-198 | Over the requested batches, the user fails exactly when a requested batch cannot be fetched or cannot be sorted, and then with the error of the first such batch. Otherwise `tweets[username]` ends up as the last requested batch's records. |
| Legacy.DedupeById | main.py:201-203 | The seen-set loop computes exactly the first record for each id, in order. |
| Legacy.UserRecords | main.py:173-203 | The entry of a user who does not fail: the last requested batch's records, deduplicated. |
| Legacy.DedupeSpec | main.py:200-203 | The deduplicated list has distinct ids and loses no id. It equals `FirstOccurrences`: the first record of each id, and only that, in position order. A list with distinct ids is left unchanged. |
| Legacy.RemoveDuplicates | main.py:200-203 | Every user's entry is replaced by its deduplicated list, and the keys are kept. |
| Legacy.GetTweetsBy | main.py:159-205 | The call fails exactly when some user fails (the lookup fails, or a requested batch cannot be fetched or sorted), and then with the error of the first one in request order. On success there is an entry for each requested user, or none when no flag is set. Each entry is the user's last requested batch, sorted, filtered, projected and deduplicated. |
| Legacy.GetTweets | main.py:169-205 | The same contract, with batches sorted by the `strptime` reading of each timestamp. |

## Left out

- Authentication and cookie handling are file-system I/O around the foreign client, so they are not modelled (xrss/main.py:209-234, main.py:147-157, xrss/utils.py:58-85).
- The rate limiter, its semaphore and the `request_delay` sleeps control timing only.
- The upstream client is an input: an `Upstream` outcome per username, or a `LegacyUser` answer.
- Endpoint.GetTweets: `asyncio.gather` is modelled as sequential reads in request order that stop at the first failure. In the service, the other reads run concurrently and keep running, and their refreshes may still write to the store. Because the concurrent reads of a username repeated in one request can all miss, the service may refresh it once per occurrence; the distinctness of refreshes holds for the sequential reads only.
- Endpoint.RunBackgroundRefreshes: the background refreshes run after the response and one after another. The first refresh that raises ends the run, and its exception goes to the web server. Which refreshes ran is modelled. What the server does with the exception, and the service's error logging, are not.
- Endpoint.ResultDict: the response is a map, so the insertion order of Python's dictionary, which JSON serialisation keeps, is not modelled. The same holds for `tweets` in main.py.
- Cache.RefreshFailure: a batch fetch that raises (`TimelineFailed`, xrss/main.py:105-109) is always re-raised as is. The client's `UserNotFound` raised by a batch fetch, rather than by the profile lookup, would become a 404 in the service, and the model does not distinguish it.
- Feed.AvatarUrl: the profile image URL is a string, and the avatar is left out exactly when it is empty. A cached profile whose `profile_image_url` is `None` (xrss/main.py:322-331) is not representable.
- Redis is a map and JSON encoding is the identity. The TTL is recorded in the `setex` log, but keys never expire.
- CreatedAt.ParseCreatedAt: reads only the fixed-width form the client produces. `strptime` also accepts one-digit fields and other spacing, which are rejected here.
- NewestFirst.SortNewestFirst: Python's in-place `list.sort` is a pure function returning the sorted list, so the update in place is not modelled.
- The `astimezone(ZoneInfo("UTC"))` conversion of `pubDate` is left out, as is the FeedGenerator/XML output. Only the item fields are modelled (`Feed.ItemFor`), not the loop over users in `get_feed`.
- Legacy.GetTweets: main.py:182 and main.py:194 call the one-argument `_get_tweet_type` with a second argument. As written, this raises for any non-empty batch. The model applies the classifier as intended.
- Legacy.RemoveDuplicates: visits the users in an arbitrary order, not in dictionary order. Each entry is handled on its own, so the result is the same.
- Legacy.GetTweetsBy: is stated for any timestamp reader. Legacy.GetTweets instantiates it with the `strptime` reading.
- Logging, settings (xrss/config.py) and packaging (setup.py) have no logic to model.
