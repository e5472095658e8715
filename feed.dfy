/**
 * The string templates of `get_feed` in xrss/main.py (and main.py): an
 * item's title, its permalink (used as link and as guid), and the
 * higher-resolution avatar URL attached as media.
 */
module Feed {

  import opened Wrappers
  import opened Model

  /** `f"{tweet['type']} by {username}"` */
  function FeedTitle(tweetType: TweetType, username: string): string
  {
    TypeName(tweetType) + " by " + username
  }

  const StatusPrefix: string := "https://twitter.com/"

  /** `f"https://twitter.com/{username}/status/{tweet['id']}"` */
  function StatusUrl(username: string, id: string): string
  {
    StatusPrefix + username + "/status/" + id
  }

  /** A title starts with the first three letters of its category name. */
  lemma TitleHead(t: TweetType, u: string)
    ensures |FeedTitle(t, u)| >= 3 && FeedTitle(t, u)[..3] == TypeName(t)[..3]
  {
  }

  /** The first three letters of the category names already differ. */
  lemma TypeNameHeadsDiffer(t1: TweetType, t2: TweetType)
    ensures TypeName(t1)[..3] == TypeName(t2)[..3] ==> t1 == t2
  {
    var h1, h2 := TypeName(t1)[..3], TypeName(t2)[..3];
    assert h1[0] == TypeName(t1)[0] && h1[2] == TypeName(t1)[2];
    assert h2[0] == TypeName(t2)[0] && h2[2] == TypeName(t2)[2];
  }

  /** A title determines both the category and the username. */
  lemma {:induction false} TitleDeterminesTypeAndUser(t1: TweetType, u1: string, t2: TweetType, u2: string)
    requires FeedTitle(t1, u1) == FeedTitle(t2, u2)
    ensures t1 == t2 && u1 == u2
  {
    var s := FeedTitle(t1, u1);
    TitleHead(t1, u1);
    TitleHead(t2, u2);
    TypeNameHeadsDiffer(t1, t2);
    var n := |TypeName(t1) + " by "|;
    assert u1 == s[n..] == FeedTitle(t2, u2)[n..] == u2;
  }

  /**
   * For usernames without '/', as handles are, a permalink determines both
   * the username and the post id: distinct posts get distinct links and guids.
   */
  lemma {:induction false} StatusUrlDeterminesUserAndId(u1: string, id1: string, u2: string, id2: string)
    requires '/' !in u1 && '/' !in u2
    requires StatusUrl(u1, id1) == StatusUrl(u2, id2)
    ensures u1 == u2 && id1 == id2
  {
    var s := StatusUrl(u1, id1);
    var p := |StatusPrefix|;
    assert s[p..] == u1 + "/status/" + id1;
    assert StatusUrl(u2, id2)[p..] == u2 + "/status/" + id2;
    var r1, r2 := u1 + "/status/" + id1, u2 + "/status/" + id2;
    assert r1 == r2;
    SlashAfterUser(u1, id1);
    SlashAfterUser(u2, id2);
    assert |u1| == |u2|;
    assert u1 == r1[..|u1|] && u2 == r2[..|u2|];
    var q := |u1 + "/status/"|;
    assert id1 == r1[q..] && id2 == r2[q..];
  }

  /** In `u + "/status/" + id`, with no '/' in `u`, the first '/' is at position |u|. */
  lemma SlashAfterUser(u: string, id: string)
    requires '/' !in u
    ensures (u + "/status/" + id)[|u|] == '/'
    ensures forall k :: 0 <= k < |u| ==> (u + "/status/" + id)[k] != '/'
  {
    forall k | 0 <= k < |u| ensures (u + "/status/" + id)[k] != '/' {
      assert (u + "/status/" + id)[k] == u[k];
    }
  }

  /**
   * Python's `str.replace(old, new)`: every non-overlapping occurrence of
   * the pattern `pat`, scanning left to right, is replaced by `rep`.
   */
  function ReplaceAll(s: string, pat: string, rep: string): string
    requires |pat| > 0
    decreases |s|
  {
    if |s| < |pat| then s
    else if s[..|pat|] == pat then rep + ReplaceAll(s[|pat|..], pat, rep)
    else [s[0]] + ReplaceAll(s[1..], pat, rep)
  }

  /** `pat` occurs in `s` starting at position `i`. */
  predicate OccursAt(s: string, pat: string, i: int)
  {
    0 <= i && i + |pat| <= |s| && s[i..i + |pat|] == pat
  }

  /** An occurrence in the tail of `s` is an occurrence in `s`, one place later. */
  lemma OccursAtTail(s: string, pat: string, i: int)
    requires |s| > 0
    ensures OccursAt(s[1..], pat, i) ==> OccursAt(s, pat, i + 1)
  {
    if 0 <= i && i + |pat| <= |s| - 1 {
      assert s[1..][i..i + |pat|] == s[i + 1..i + 1 + |pat|];
    }
  }

  /** A text with no occurrence of `pat` is returned unchanged. */
  lemma {:induction false} ReplaceAllNoOccurrence(s: string, pat: string, rep: string)
    requires |pat| > 0
    requires forall i :: !OccursAt(s, pat, i)
    ensures ReplaceAll(s, pat, rep) == s
    decreases |s|
  {
    if |s| >= |pat| {
      assert !OccursAt(s, pat, 0);
      assert s[0..|pat|] == s[..|pat|];
      forall i ensures !OccursAt(s[1..], pat, i) {
        OccursAtTail(s, pat, i);
      }
      ReplaceAllNoOccurrence(s[1..], pat, rep);
      assert s == [s[0]] + s[1..];
    }
  }

  /** A prefix in which no occurrence of `pat` starts is copied as it is. */
  lemma {:induction false} ReplaceAllSkipsPrefix(a: string, b: string, pat: string, rep: string)
    requires |pat| > 0
    requires forall i :: 0 <= i < |a| ==> !OccursAt(a + b, pat, i)
    ensures ReplaceAll(a + b, pat, rep) == a + ReplaceAll(b, pat, rep)
    decreases |a|
  {
    if a != [] {
      var s := a + b;
      assert s[1..] == a[1..] + b;
      forall i | 0 <= i < |a[1..]| ensures !OccursAt(a[1..] + b, pat, i) {
        OccursAtTail(s, pat, i);
      }
      ReplaceAllSkipsPrefix(a[1..], b, pat, rep);
      if |s| >= |pat| {
        assert !OccursAt(s, pat, 0);
        assert s[0..|pat|] == s[..|pat|];
        assert ReplaceAll(s, pat, rep) == [s[0]] + ReplaceAll(s[1..], pat, rep);
        assert ReplaceAll(s, pat, rep) == [a[0]] + (a[1..] + ReplaceAll(b, pat, rep));
        assert a == [a[0]] + a[1..];
        assert [a[0]] + (a[1..] + ReplaceAll(b, pat, rep)) == ([a[0]] + a[1..]) + ReplaceAll(b, pat, rep);
      } else {
        assert ReplaceAll(b, pat, rep) == b;
        assert a + b == [a[0]] + (a[1..] + b);
      }
    } else {
      assert a + b == b;
    }
  }

  /** An occurrence of `pat` at the front is replaced, and the scan continues after it. */
  lemma ReplaceAllAtFront(b: string, pat: string, rep: string)
    requires |pat| > 0
    ensures ReplaceAll(pat + b, pat, rep) == rep + ReplaceAll(b, pat, rep)
  {
    assert (pat + b)[..|pat|] == pat && (pat + b)[|pat|..] == b;
  }

  /**
   * The media URL of every item of a user: the stored profile image URL
   * with "normal" replaced by "400x400", when a profile is cached and its
   * URL is not empty.
   */
  function AvatarUrl(userData: Option<Profile>): Option<string>
  {
    if userData.Some? && userData.value.profileImageUrl != "" then
      Some(ReplaceAll(userData.value.profileImageUrl, "normal", "400x400"))
    else None
  }

  /** The media URL is present exactly for a cached profile with a non-empty URL. */
  lemma AvatarUrlPresence(userData: Option<Profile>)
    ensures AvatarUrl(userData).Some? <==> userData.Some? && userData.value.profileImageUrl != ""
  {
  }

  /**
   * When the leftmost occurrence of `pat` in `a + pat + b` is the one after
   * `a`, and `b` holds none, just that occurrence is replaced.
   */
  lemma {:induction false} ReplaceAllSingle(a: string, b: string, pat: string, rep: string)
    requires |pat| > 0
    requires forall i :: 0 <= i < |a| ==> !OccursAt(a + pat + b, pat, i)
    requires forall i :: !OccursAt(b, pat, i)
    ensures ReplaceAll(a + pat + b, pat, rep) == a + rep + b
  {
    assert a + pat + b == a + (pat + b);
    ReplaceAllSkipsPrefix(a, pat + b, pat, rep);
    ReplaceAllAtFront(b, pat, rep);
    ReplaceAllNoOccurrence(b, pat, rep);
  }

  /**
   * An avatar URL with one "normal" size marker, as in
   * ".../abc_normal.jpg", gets exactly that marker upgraded to "400x400".
   */
  lemma {:induction false} AvatarUrlUpgradesSize(p: Profile, a: string, b: string)
    requires p.profileImageUrl == a + "normal" + b
    requires forall i :: 0 <= i < |a| ==> !OccursAt(a + "normal" + b, "normal", i)
    requires forall i :: !OccursAt(b, "normal", i)
    ensures AvatarUrl(Some(p)) == Some(a + "400x400" + b)
  {
    ReplaceAllSingle(a, b, "normal", "400x400");
  }

  /** One feed item: title, link, description, raw timestamp, author, guid and media URL. */
  datatype FeedItem = FeedItem(title: string, link: string, description: string, createdAt: string,
                               author: string, guid: string, media: Option<string>)

  /** The item `get_feed` adds for one record of `username`. */
  function ItemFor(username: string, record: TweetRecord, userData: Option<Profile>): (item: FeedItem)
  {
    var url := StatusUrl(username, record.id);
    FeedItem(FeedTitle(record.tweetType, username), url, record.fullText, record.createdAt,
             username, url, AvatarUrl(userData))
  }

  /**
   * Items of distinct records of one user (distinct ids, handles without
   * '/') have distinct guids, and each guid is the item's link.
   */
  lemma ItemGuidsDistinct(username: string, r1: TweetRecord, r2: TweetRecord, userData: Option<Profile>)
    requires '/' !in username && r1.id != r2.id
    ensures ItemFor(username, r1, userData).guid == ItemFor(username, r1, userData).link
    ensures ItemFor(username, r1, userData).guid != ItemFor(username, r2, userData).guid
  {
    if StatusUrl(username, r1.id) == StatusUrl(username, r2.id) {
      StatusUrlDeterminesUserAndId(username, r1.id, username, r2.id);
    }
  }
}
