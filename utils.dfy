/**
 * The retweet-prefix normaliser of xrss/utils.py (`clean_tweet`): a text
 * that starts with "RT @" loses everything up to and including the first
 * colon and the one character after it.
 */
module Utils {

  import opened Wrappers

  const RetweetMarker: string := "RT @"

  /** Python's `str.startswith`. */
  predicate StartsWith(s: string, prefix: string)
  {
    |prefix| <= |s| && s[..|prefix|] == prefix
  }

  /** Python's `str.find` for one character, with `None` for its result -1. */
  function FindChar(s: string, c: char): (r: Option<nat>)
    ensures r.Some? ==> r.value < |s| && s[r.value] == c && c !in s[..r.value]
    ensures r.None? <==> c !in s
  {
    if s == [] then None
    else if s[0] == c then Some(0)
    else match FindChar(s[1..], c)
      case None => None
      case Some(i) => Some(i + 1)
  }

  /**
   * `tweet[colon_index + 2:]` is Python slicing: past the end it is empty,
   * so a colon in last position yields "".
   */
  function CleanTweet(tweet: string): (r: string)
  {
    if StartsWith(tweet, RetweetMarker) then
      match FindChar(tweet, ':')
      case Some(colon) => if colon + 2 <= |tweet| then tweet[colon + 2..] else ""
      case None => tweet
    else tweet
  }

  /** A text without the retweet marker is returned unchanged. */
  lemma NotRetweetUnchanged(tweet: string)
    requires !StartsWith(tweet, RetweetMarker)
    ensures CleanTweet(tweet) == tweet
  {
  }

  /** A marked text without any colon is returned unchanged. */
  lemma NoColonUnchanged(tweet: string)
    requires StartsWith(tweet, RetweetMarker) && ':' !in tweet
    ensures CleanTweet(tweet) == tweet
  {
  }

  /**
   * A marked text with its first colon at `colon` loses exactly the prefix up
   * to two positions past that colon, and is empty when the colon is last.
   */
  lemma StripsThroughFirstColon(tweet: string, colon: nat)
    requires StartsWith(tweet, RetweetMarker)
    requires colon < |tweet| && tweet[colon] == ':' && ':' !in tweet[..colon]
    ensures CleanTweet(tweet) == if colon + 2 <= |tweet| then tweet[colon + 2..] else ""
    ensures colon == |tweet| - 1 ==> CleanTweet(tweet) == ""
  {
  }

  /** The result is always a suffix of the input. */
  lemma CleanIsSuffix(tweet: string)
    ensures |CleanTweet(tweet)| <= |tweet|
    ensures CleanTweet(tweet) == tweet[|tweet| - |CleanTweet(tweet)|..]
  {
  }

  /**
   * Building a retweet text from a handle without colons and a body, then
   * cleaning it, gives back the body: the character after the colon is
   * dropped whatever it is, and colons in the body survive.
   */
  lemma {:induction false} CleanRecoversBody(handle: string, sep: char, body: string)
    requires ':' !in handle
    ensures CleanTweet(RetweetMarker + handle + ":" + [sep] + body) == body
  {
    var tweet := RetweetMarker + handle + ":" + [sep] + body;
    var colon := |RetweetMarker + handle|;
    assert tweet[..|RetweetMarker|] == RetweetMarker;
    assert tweet[colon] == ':';
    assert tweet[..colon] == RetweetMarker + handle;
    StripsThroughFirstColon(tweet, colon);
    assert tweet[colon + 2..] == body;
  }

  /** "RT @user: Hello world!" becomes "Hello world!". */
  lemma ExampleRetweet()
    ensures CleanTweet("RT @user: Hello world!") == "Hello world!"
  {
    assert "RT @user: Hello world!" == RetweetMarker + "user" + ":" + [' '] + "Hello world!";
    CleanRecoversBody("user", ' ', "Hello world!");
  }

  /** Only the first colon is consumed: later colons survive. */
  lemma ExampleLaterColonsSurvive()
    ensures CleanTweet("RT @user123: This is a: complex: tweet") == "This is a: complex: tweet"
  {
    var body := "This is a: complex: tweet";
    assert RetweetMarker + "user123" + ":" + [' '] == "RT @user123: ";
    assert "RT @user123: " + body == "RT @user123: This is a: complex: tweet";
    CleanRecoversBody("user123", ' ', "This is a: complex: tweet");
  }

  lemma ExamplePlainText()
    ensures CleanTweet("Hello world!") == "Hello world!"
  {
    assert "Hello world!"[0] != RetweetMarker[0];
  }

  lemma ExampleColonLast()
    ensures CleanTweet("RT @user:") == ""
  {
    var tweet := "RT @user:";
    assert tweet[..4] == RetweetMarker;
    assert tweet[..8] == "RT @user";
    StripsThroughFirstColon(tweet, 8);
  }
}
