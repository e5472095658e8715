/**
 * The newest-first sort of xrss/main.py and main.py:
 * `posts.sort(key=<parsed created_at>, reverse=True)`. Python's sort first
 * computes every key, failing if one of them cannot be computed, and its
 * reverse order is stable: elements with equal keys keep their order.
 * `KeyOf` is the key function; `None` stands for the exception it raises.
 */
module NewestFirst {

  import opened Wrappers
  import opened CreatedAt

  datatype Keyed<T> = Keyed(key: DateTime, item: T)

  /** Keys never increase along `s`. */
  predicate SortedNewestFirst<T>(s: seq<Keyed<T>>)
  {
    forall i, j :: 0 <= i < j < |s| ==> NotAfter(s[j].key, s[i].key)
  }

  /** Puts `x` before the first element that is not strictly newer than it. */
  function Insert<T>(x: Keyed<T>, s: seq<Keyed<T>>): seq<Keyed<T>>
  {
    if s == [] || NotAfter(s[0].key, x.key) then [x] + s
    else [s[0]] + Insert(x, s[1..])
  }

  /** A stable sort, newest first. */
  function SortByKey<T>(s: seq<Keyed<T>>): seq<Keyed<T>>
  {
    if s == [] then [] else Insert(s[0], SortByKey(s[1..]))
  }

  /** The elements of `s` whose key is `k`, in order. */
  function WithKey<T>(s: seq<Keyed<T>>, k: DateTime): seq<Keyed<T>>
  {
    if s == [] then []
    else (if s[0].key == k then [s[0]] else []) + WithKey(s[1..], k)
  }

  function Items<T>(s: seq<Keyed<T>>): (r: seq<T>)
    ensures |r| == |s| && forall i :: 0 <= i < |s| ==> r[i] == s[i].item
  {
    seq(|s|, i requires 0 <= i < |s| => s[i].item)
  }

  lemma {:induction false} InsertSorted<T>(x: Keyed<T>, s: seq<Keyed<T>>)
    requires SortedNewestFirst(s)
    ensures SortedNewestFirst(Insert(x, s))
    ensures multiset(Insert(x, s)) == multiset(s) + multiset{x}
    decreases |s|
  {
    if s == [] || NotAfter(s[0].key, x.key) {
      var r := [x] + s;
      forall i, j | 0 <= i < j < |r| ensures NotAfter(r[j].key, r[i].key) {
        if i == 0 { NotAfterTotalOrder(r[j].key, s[0].key, x.key); }
      }
    } else {
      var rest := Insert(x, s[1..]);
      InsertSorted(x, s[1..]);
      var r := [s[0]] + rest;
      forall j | 0 < j < |r| ensures NotAfter(r[j].key, s[0].key) {
        var y := r[j];
        assert y in multiset(rest);
        if y == x {
          NotAfterTotalOrder(x.key, s[0].key, x.key);
        } else {
          assert y in s[1..];
        }
      }
      forall i, j | 0 <= i < j < |r| ensures NotAfter(r[j].key, r[i].key) {
        if i > 0 { assert r[i] == rest[i - 1] && r[j] == rest[j - 1]; }
      }
      assert s == [s[0]] + s[1..];
    }
  }

  lemma {:induction false} InsertItems<T>(x: Keyed<T>, s: seq<Keyed<T>>)
    ensures multiset(Items(Insert(x, s))) == multiset(Items(s)) + multiset{x.item}
    decreases |s|
  {
    if s == [] || NotAfter(s[0].key, x.key) {
      assert Items([x] + s) == [x.item] + Items(s);
    } else {
      InsertItems(x, s[1..]);
      assert Items([s[0]] + Insert(x, s[1..])) == [s[0].item] + Items(Insert(x, s[1..]));
      assert Items(s) == [s[0].item] + Items(s[1..]);
    }
  }

  lemma {:induction false} InsertWithKey<T>(x: Keyed<T>, s: seq<Keyed<T>>, k: DateTime)
    ensures WithKey(Insert(x, s), k) == (if x.key == k then [x] else []) + WithKey(s, k)
    decreases |s|
  {
    if s == [] || NotAfter(s[0].key, x.key) {
      assert ([x] + s)[1..] == s;
    } else {
      InsertWithKey(x, s[1..], k);
      assert ([s[0]] + Insert(x, s[1..]))[1..] == Insert(x, s[1..]);
      if x.key == k {
        // s[0] is strictly newer than x, so its key is not k
        assert s[0].key != k;
      }
    }
  }

  /**
   * The sort gives a newest-first permutation of its input and keeps the
   * relative order of elements with equal keys.
   */
  lemma {:induction false} SortByKeyFacts<T>(s: seq<Keyed<T>>)
    ensures SortedNewestFirst(SortByKey(s))
    ensures multiset(SortByKey(s)) == multiset(s)
    ensures multiset(Items(SortByKey(s))) == multiset(Items(s))
    ensures forall k :: WithKey(SortByKey(s), k) == WithKey(s, k)
    decreases |s|
  {
    if s != [] {
      SortByKeyFacts(s[1..]);
      InsertSorted(s[0], SortByKey(s[1..]));
      InsertItems(s[0], SortByKey(s[1..]));
      forall k ensures WithKey(SortByKey(s), k) == WithKey(s, k) {
        InsertWithKey(s[0], SortByKey(s[1..]), k);
      }
      assert s == [s[0]] + s[1..];
      assert Items(s) == [s[0].item] + Items(s[1..]);
    }
  }

  /** Every key of `s` is the key its item has. */
  predicate KeysAreKeyOf<T>(s: seq<Keyed<T>>, KeyOf: T -> Option<DateTime>)
  {
    forall i :: 0 <= i < |s| ==> KeyOf(s[i].item) == Some(s[i].key)
  }

  /** Computes every key first, as Python's keyed sort does; fails if one fails. */
  function KeyAll<T>(s: seq<T>, KeyOf: T -> Option<DateTime>): (r: Option<seq<Keyed<T>>>)
    ensures r.Some? <==> forall i :: 0 <= i < |s| ==> KeyOf(s[i]).Some?
    ensures r.Some? ==> Items(r.value) == s && KeysAreKeyOf(r.value, KeyOf)
  {
    if s == [] then Some([])
    else
      var rest := KeyAll(s[1..], KeyOf);
      if KeyOf(s[0]).None? || rest.None? then None
      else
        var r := [Keyed(KeyOf(s[0]).value, s[0])] + rest.value;
        assert Items(r) == [s[0]] + Items(rest.value);
        assert forall i :: 1 <= i < |s| ==> s[i] == s[1..][i - 1];
        Some(r)
  }

  /** `s` sorted newest first by `KeyOf`, or `None` when some key cannot be computed. */
  function SortNewestFirst<T>(s: seq<T>, KeyOf: T -> Option<DateTime>): Option<seq<T>>
  {
    match KeyAll(s, KeyOf)
    case None => None
    case Some(keyed) => Some(Items(SortByKey(keyed)))
  }

  /** The elements of `s` whose key is `k`, in order. */
  function AtTime<T>(s: seq<T>, KeyOf: T -> Option<DateTime>, k: DateTime): seq<T>
  {
    if s == [] then []
    else (if KeyOf(s[0]) == Some(k) then [s[0]] else []) + AtTime(s[1..], KeyOf, k)
  }

  lemma {:induction false} AtTimeOfItems<T>(s: seq<Keyed<T>>, KeyOf: T -> Option<DateTime>, k: DateTime)
    requires KeysAreKeyOf(s, KeyOf)
    ensures AtTime(Items(s), KeyOf, k) == Items(WithKey(s, k))
    decreases |s|
  {
    if s != [] {
      assert Items(s)[1..] == Items(s[1..]);
      assert KeysAreKeyOf(s[1..], KeyOf) by {
        forall i | 0 <= i < |s[1..]| ensures KeyOf(s[1..][i].item) == Some(s[1..][i].key) {
          assert s[1..][i] == s[i + 1];
        }
      }
      AtTimeOfItems(s[1..], KeyOf, k);
      var head := if s[0].key == k then [s[0]] else [];
      assert Items(head + WithKey(s[1..], k)) == Items(head) + Items(WithKey(s[1..], k));
    }
  }

  lemma KeysAreKeyOfPermutation<T>(a: seq<Keyed<T>>, b: seq<Keyed<T>>, KeyOf: T -> Option<DateTime>)
    requires KeysAreKeyOf(a, KeyOf) && multiset(b) == multiset(a)
    ensures KeysAreKeyOf(b, KeyOf)
  {
    forall i | 0 <= i < |b| ensures KeyOf(b[i].item) == Some(b[i].key) {
      assert b[i] in multiset(a);
      var j :| 0 <= j < |a| && a[j] == b[i];
    }
  }

  /** Sorting succeeds exactly when every key can be computed. */
  lemma SortSucceedsIff<T>(s: seq<T>, KeyOf: T -> Option<DateTime>)
    ensures SortNewestFirst(s, KeyOf).Some? <==> forall i :: 0 <= i < |s| ==> KeyOf(s[i]).Some?
  {
  }

  /** A successful sort is a permutation of its input with non-increasing keys. */
  lemma SortIsOrderedPermutation<T>(s: seq<T>, KeyOf: T -> Option<DateTime>)
    requires SortNewestFirst(s, KeyOf).Some?
    ensures multiset(SortNewestFirst(s, KeyOf).value) == multiset(s)
    ensures OrderedByKey(SortNewestFirst(s, KeyOf).value, KeyOf)
  {
    var keyed := KeyAll(s, KeyOf).value;
    var sorted := SortByKey(keyed);
    SortByKeyFacts(keyed);
    KeysAreKeyOfPermutation(keyed, sorted, KeyOf);
  }

  /** Every key can be computed and none is newer than the one before it. */
  predicate OrderedByKey<T>(s: seq<T>, KeyOf: T -> Option<DateTime>)
  {
    && (forall i :: 0 <= i < |s| ==> KeyOf(s[i]).Some?)
    && (forall i, j :: 0 <= i < j < |s| ==> NotAfter(KeyOf(s[j]).value, KeyOf(s[i]).value))
  }

  /** A head no older than any later element, before an ordered rest, gives an ordered list. */
  lemma OrderedCons<T>(x: T, xs: seq<T>, KeyOf: T -> Option<DateTime>)
    requires KeyOf(x).Some? && OrderedByKey(xs, KeyOf)
    requires forall y :: y in xs ==> NotAfter(KeyOf(y).value, KeyOf(x).value)
    ensures OrderedByKey([x] + xs, KeyOf)
  {
    var s := [x] + xs;
    forall i, j | 0 <= i < j < |s| ensures NotAfter(KeyOf(s[j]).value, KeyOf(s[i]).value) {
      assert s[j] == xs[j - 1];
      if i > 0 {
        assert s[i] == xs[i - 1];
      } else {
        assert xs[j - 1] in xs;
      }
    }
  }

  /** A successful sort is stable: the elements with any one key keep their input order. */
  lemma SortIsStable<T>(s: seq<T>, KeyOf: T -> Option<DateTime>)
    requires SortNewestFirst(s, KeyOf).Some?
    ensures forall k :: AtTime(SortNewestFirst(s, KeyOf).value, KeyOf, k) == AtTime(s, KeyOf, k)
  {
    var keyed := KeyAll(s, KeyOf).value;
    var sorted := SortByKey(keyed);
    SortByKeyFacts(keyed);
    KeysAreKeyOfPermutation(keyed, sorted, KeyOf);
    forall k ensures AtTime(Items(sorted), KeyOf, k) == AtTime(s, KeyOf, k) {
      AtTimeOfItems(sorted, KeyOf, k);
      AtTimeOfItems(keyed, KeyOf, k);
    }
  }
}
