/**
 * Keeping the first element for each id, left to right: the rule of the
 * merge loop of xrss/main.py (a seen-set of ids) and of the duplicate
 * removal of main.py. `IdOf` picks the id of an element.
 */
module Dedupe {

  /** The ids of the elements of `s`. */
  function IdSet<T>(s: seq<T>, IdOf: T -> string): set<string>
  {
    set i | 0 <= i < |s| :: IdOf(s[i])
  }

  /** No id occurs twice in `s`. */
  predicate DistinctIds<T>(s: seq<T>, IdOf: T -> string)
  {
    forall i, j :: 0 <= i < j < |s| ==> IdOf(s[i]) != IdOf(s[j])
  }

  /** `a` is `b` with some elements left out, the rest kept in order. */
  predicate IsSubsequence<T(==)>(a: seq<T>, b: seq<T>)
    decreases |b|
  {
    if a == [] then true
    else if b == [] then false
    else (a[0] == b[0] && IsSubsequence(a[1..], b[1..])) || IsSubsequence(a, b[1..])
  }

  /** Position `j` of `s` holds the first element with its id, and that id is not in `seen`. */
  predicate FirstOccurrence<T>(s: seq<T>, IdOf: T -> string, seen: set<string>, j: int)
    requires 0 <= j < |s|
  {
    IdOf(s[j]) !in seen && forall k :: 0 <= k < j ==> IdOf(s[k]) != IdOf(s[j])
  }

  /**
   * The elements at the first-occurrence positions among the first `n` of
   * `s`, in position order: a filter over positions, with no seen set.
   */
  function FirstOccurrences<T>(s: seq<T>, IdOf: T -> string, seen: set<string>, n: nat): seq<T>
    requires n <= |s|
    decreases n
  {
    if n == 0 then []
    else FirstOccurrences(s, IdOf, seen, n - 1) + (if FirstOccurrence(s, IdOf, seen, n - 1) then [s[n - 1]] else [])
  }

  /** The elements of `s` whose id is new, both to `seen` and to the elements before them. */
  function KeepFirst<T>(s: seq<T>, IdOf: T -> string, seen: set<string>): seq<T>
    decreases |s|
  {
    if s == [] then []
    else if IdOf(s[0]) in seen then KeepFirst(s[1..], IdOf, seen)
    else [s[0]] + KeepFirst(s[1..], IdOf, seen + {IdOf(s[0])})
  }

  /** Basic shape: no longer than the input, a subsequence of it, and no id of `seen`. */
  lemma {:induction false} KeepFirstShape<T>(s: seq<T>, IdOf: T -> string, seen: set<string>)
    ensures |KeepFirst(s, IdOf, seen)| <= |s|
    ensures IsSubsequence(KeepFirst(s, IdOf, seen), s)
    ensures IdSet(KeepFirst(s, IdOf, seen), IdOf) == IdSet(s, IdOf) - seen
    decreases |s|
  {
    if s != [] {
      var tail := s[1..];
      var x := s[0];
      assert s == [x] + tail;
      if IdOf(x) in seen {
        KeepFirstShape(tail, IdOf, seen);
        SubsequenceOfTail(KeepFirst(tail, IdOf, seen), s);
      } else {
        KeepFirstShape(tail, IdOf, seen + {IdOf(x)});
        IdSetCons(x, tail, IdOf);
        IdSetCons(x, KeepFirst(tail, IdOf, seen + {IdOf(x)}), IdOf);
      }
    }
  }

  lemma IdSetCons<T>(x: T, s: seq<T>, IdOf: T -> string)
    ensures IdSet([x] + s, IdOf) == {IdOf(x)} + IdSet(s, IdOf)
  {
    var xs := [x] + s;
    forall y | y in IdSet(xs, IdOf) ensures y in {IdOf(x)} + IdSet(s, IdOf) {
      var i :| 0 <= i < |xs| && IdOf(xs[i]) == y;
      if i > 0 { assert xs[i] == s[i - 1]; }
    }
    forall y | y in IdSet(s, IdOf) ensures y in IdSet(xs, IdOf) {
      var i :| 0 <= i < |s| && IdOf(s[i]) == y;
      assert xs[i + 1] == s[i];
    }
    assert xs[0] == x;
  }

  lemma SubsequenceOfTail<T>(a: seq<T>, b: seq<T>)
    requires b != [] && IsSubsequence(a, b[1..])
    ensures IsSubsequence(a, b)
  {
  }

  /** The result has pairwise-distinct ids. */
  lemma {:induction false} KeepFirstDistinct<T>(s: seq<T>, IdOf: T -> string, seen: set<string>)
    ensures DistinctIds(KeepFirst(s, IdOf, seen), IdOf)
    decreases |s|
  {
    if s != [] {
      var x := s[0];
      if IdOf(x) in seen {
        KeepFirstDistinct(s[1..], IdOf, seen);
      } else {
        var rest := KeepFirst(s[1..], IdOf, seen + {IdOf(x)});
        KeepFirstDistinct(s[1..], IdOf, seen + {IdOf(x)});
        KeepFirstShape(s[1..], IdOf, seen + {IdOf(x)});
        var r := [x] + rest;
        forall i, j | 0 <= i < j < |r| ensures IdOf(r[i]) != IdOf(r[j]) {
          if i == 0 {
            assert r[j] == rest[j - 1];
            assert IdOf(rest[j - 1]) in IdSet(rest, IdOf);
          }
        }
      }
    }
  }

  /** On a prefix of `s`, the seen-set rule keeps exactly the first-occurrence positions of that prefix. */
  lemma {:induction false} KeepFirstPrefix<T>(s: seq<T>, IdOf: T -> string, seen: set<string>, n: nat)
    requires n <= |s|
    ensures KeepFirst(s[..n], IdOf, seen) == FirstOccurrences(s, IdOf, seen, n)
    decreases n
  {
    if n > 0 {
      var prefix, x := s[..n - 1], s[n - 1];
      KeepFirstPrefix(s, IdOf, seen, n - 1);
      assert s[..n] == prefix + [x];
      KeepFirstAppend(prefix, [x], IdOf, seen);
      assert [x][1..] == [];
      assert IdOf(x) in IdSet(prefix, IdOf) <==> exists k :: 0 <= k < n - 1 && IdOf(s[k]) == IdOf(x) by {
        forall k | 0 <= k < n - 1 ensures prefix[k] == s[k] { }
      }
    }
  }

  /**
   * Each kept element is the first occurrence of its id, and every first
   * occurrence is kept: `KeepFirst` is exactly the subsequence of first
   * occurrences, in position order.
   */
  lemma {:induction false} KeepFirstIsFirstOccurrences<T>(s: seq<T>, IdOf: T -> string, seen: set<string>)
    ensures KeepFirst(s, IdOf, seen) == FirstOccurrences(s, IdOf, seen, |s|)
    ensures forall x :: x in KeepFirst(s, IdOf, seen) ==>
              exists j :: 0 <= j < |s| && s[j] == x && FirstOccurrence(s, IdOf, seen, j)
    ensures forall j :: 0 <= j < |s| && FirstOccurrence(s, IdOf, seen, j) ==> s[j] in KeepFirst(s, IdOf, seen)
    decreases |s|
  {
    if s != [] {
      var x := s[0];
      var tail := s[1..];
      var seen' := if IdOf(x) in seen then seen else seen + {IdOf(x)};
      KeepFirstPrefix(s, IdOf, seen, |s|);
      assert s[..|s|] == s;
      KeepFirstIsFirstOccurrences(tail, IdOf, seen');
      var r := KeepFirst(s, IdOf, seen);
      var rest := KeepFirst(tail, IdOf, seen');
      assert r == if IdOf(x) in seen then rest else [x] + rest;
      forall y | y in r
        ensures exists j :: 0 <= j < |s| && s[j] == y && FirstOccurrence(s, IdOf, seen, j)
      {
        if y in rest {
          var j' :| 0 <= j' < |tail| && tail[j'] == y && FirstOccurrence(tail, IdOf, seen', j');
          assert s[j' + 1] == y;
          forall k | 0 <= k < j' + 1 ensures IdOf(s[k]) != IdOf(y) {
            if k > 0 { assert s[k] == tail[k - 1]; }
          }
          assert FirstOccurrence(s, IdOf, seen, j' + 1);
        } else {
          assert y == x && IdOf(x) !in seen;
          assert FirstOccurrence(s, IdOf, seen, 0);
        }
      }
      forall j | 0 <= j < |s| && FirstOccurrence(s, IdOf, seen, j) ensures s[j] in r {
        if j > 0 {
          assert s[j] == tail[j - 1];
          assert IdOf(s[0]) != IdOf(s[j]);
          forall k | 0 <= k < j - 1 ensures IdOf(tail[k]) != IdOf(tail[j - 1]) {
            assert tail[k] == s[k + 1];
          }
          assert FirstOccurrence(tail, IdOf, seen', j - 1);
        }
      }
    }
  }

  /** Splitting the input splits the result: the second part sees the first part's ids. */
  lemma {:induction false} KeepFirstAppend<T>(a: seq<T>, b: seq<T>, IdOf: T -> string, seen: set<string>)
    ensures KeepFirst(a + b, IdOf, seen) == KeepFirst(a, IdOf, seen) + KeepFirst(b, IdOf, seen + IdSet(a, IdOf))
    decreases |a|
  {
    if a == [] {
      assert a + b == b;
      assert IdSet(a, IdOf) == {};
      assert seen + {} == seen;
    } else {
      var x := a[0];
      assert (a + b)[0] == x && (a + b)[1..] == a[1..] + b;
      assert IdSet(a, IdOf) == {IdOf(x)} + IdSet(a[1..], IdOf) by {
        assert a == [x] + a[1..];
      }
      if IdOf(x) in seen {
        KeepFirstAppend(a[1..], b, IdOf, seen);
        assert seen + IdSet(a, IdOf) == seen + IdSet(a[1..], IdOf);
      } else {
        KeepFirstAppend(a[1..], b, IdOf, seen + {IdOf(x)});
        assert seen + IdSet(a, IdOf) == seen + {IdOf(x)} + IdSet(a[1..], IdOf);
      }
    }
  }

  /** A list whose ids are already distinct, and new to `seen`, is left unchanged. */
  lemma {:induction false} KeepFirstUnique<T>(s: seq<T>, IdOf: T -> string, seen: set<string>)
    requires DistinctIds(s, IdOf)
    requires forall x :: x in s ==> IdOf(x) !in seen
    ensures KeepFirst(s, IdOf, seen) == s
    decreases |s|
  {
    if s != [] {
      var x := s[0];
      forall y | y in s[1..] ensures IdOf(y) !in seen + {IdOf(x)} {
        var j :| 0 <= j < |s[1..]| && s[1..][j] == y;
        assert s[j + 1] == y;
      }
      KeepFirstUnique(s[1..], IdOf, seen + {IdOf(x)});
    }
  }

  lemma IdSetSnoc<T>(s: seq<T>, x: T, IdOf: T -> string)
    ensures IdSet(s + [x], IdOf) == IdSet(s, IdOf) + {IdOf(x)}
  {
    var xs := s + [x];
    forall y | y in IdSet(xs, IdOf) ensures y in IdSet(s, IdOf) + {IdOf(x)} {
      var i :| 0 <= i < |xs| && IdOf(xs[i]) == y;
      if i < |s| { assert xs[i] == s[i]; }
    }
    forall y | y in IdSet(s, IdOf) ensures y in IdSet(xs, IdOf) {
      var i :| 0 <= i < |s| && IdOf(s[i]) == y;
      assert xs[i] == s[i];
    }
    assert xs[|s|] == x;
  }

  /**
   * One more element: it is kept exactly when its id is new, which is the
   * step of a loop that keeps a set of the ids seen so far.
   */
  lemma KeepFirstSnoc<T>(s: seq<T>, x: T, IdOf: T -> string)
    ensures KeepFirst(s + [x], IdOf, {}) ==
            KeepFirst(s, IdOf, {}) + (if IdOf(x) in IdSet(s, IdOf) then [] else [x])
    ensures IdSet(s + [x], IdOf) == IdSet(s, IdOf) + {IdOf(x)}
  {
    KeepFirstAppend(s, [x], IdOf, {});
    assert {} + IdSet(s, IdOf) == IdSet(s, IdOf);
    assert [x][1..] == [];
    IdSetSnoc(s, x, IdOf);
  }

  lemma IdSetAppend<T>(a: seq<T>, b: seq<T>, IdOf: T -> string)
    ensures IdSet(a + b, IdOf) == IdSet(a, IdOf) + IdSet(b, IdOf)
  {
    var ab := a + b;
    forall y | y in IdSet(ab, IdOf) ensures y in IdSet(a, IdOf) + IdSet(b, IdOf) {
      var i :| 0 <= i < |ab| && IdOf(ab[i]) == y;
      if i < |a| { assert ab[i] == a[i]; } else { assert ab[i] == b[i - |a|]; }
    }
    forall y | y in IdSet(a, IdOf) ensures y in IdSet(ab, IdOf) {
      var i :| 0 <= i < |a| && IdOf(a[i]) == y;
      assert ab[i] == a[i];
    }
    forall y | y in IdSet(b, IdOf) ensures y in IdSet(ab, IdOf) {
      var i :| 0 <= i < |b| && IdOf(b[i]) == y;
      assert ab[i + |a|] == b[i];
    }
  }

  /** Reordering a list does not change its ids. */
  lemma PermutationIdSet<T>(a: seq<T>, b: seq<T>, IdOf: T -> string)
    requires multiset(a) == multiset(b)
    ensures IdSet(a, IdOf) == IdSet(b, IdOf)
  {
    forall y | y in IdSet(a, IdOf) ensures y in IdSet(b, IdOf) {
      var i :| 0 <= i < |a| && IdOf(a[i]) == y;
      assert a[i] in multiset(b);
      var j :| 0 <= j < |b| && b[j] == a[i];
    }
    forall y | y in IdSet(b, IdOf) ensures y in IdSet(a, IdOf) {
      var j :| 0 <= j < |b| && IdOf(b[j]) == y;
      assert b[j] in multiset(a);
      var i :| 0 <= i < |a| && a[i] == b[j];
    }
  }

  /** Removing position `k` of `b` removes one copy of `b[k]` from its multiset. */
  lemma RemoveAt<T>(b: seq<T>, k: nat)
    requires k < |b|
    ensures multiset(b[..k] + b[k + 1..]) == multiset(b) - multiset{b[k]}
  {
    assert b == b[..k] + [b[k]] + b[k + 1..];
  }

  /** Where an element of `b` off position `k` sits once position `k` is removed. */
  lemma RemovedPosition<T>(b: seq<T>, k: nat, m: nat)
    requires k < |b| && m < |b| && m != k
    ensures b[m] == (b[..k] + b[k + 1..])[if m < k then m else m - 1]
  {
  }

  /** The tail of a list with distinct ids has distinct ids, none of them the head's. */
  lemma DistinctTail<T>(a: seq<T>, IdOf: T -> string)
    requires a != [] && DistinctIds(a, IdOf)
    ensures DistinctIds(a[1..], IdOf)
    ensures forall y :: y in a[1..] ==> IdOf(y) != IdOf(a[0])
  {
    forall i, j | 0 <= i < j < |a[1..]| ensures IdOf(a[1..][i]) != IdOf(a[1..][j]) {
      assert a[1..][i] == a[i + 1] && a[1..][j] == a[j + 1];
    }
    forall y | y in a[1..] ensures IdOf(y) != IdOf(a[0]) {
      var i :| 0 <= i < |a[1..]| && a[1..][i] == y;
      assert a[i + 1] == y;
    }
  }

  /** Putting back at position `k` an element whose id the rest lacks keeps the ids distinct. */
  lemma DistinctWithInserted<T>(b: seq<T>, k: nat, IdOf: T -> string)
    requires k < |b| && DistinctIds(b[..k] + b[k + 1..], IdOf)
    requires forall y :: y in b[..k] + b[k + 1..] ==> IdOf(y) != IdOf(b[k])
    ensures DistinctIds(b, IdOf)
  {
    forall i, j | 0 <= i < j < |b| ensures IdOf(b[i]) != IdOf(b[j]) {
      if i != k { RemovedPosition(b, k, i); }
      if j != k { RemovedPosition(b, k, j); }
    }
  }

  /** Reordering a list keeps its ids distinct. */
  lemma {:induction false} PermutationDistinct<T>(a: seq<T>, b: seq<T>, IdOf: T -> string)
    requires multiset(a) == multiset(b) && DistinctIds(a, IdOf)
    ensures DistinctIds(b, IdOf)
    decreases |a|
  {
    if a != [] {
      var x := a[0];
      assert a == [x] + a[1..];
      assert x in multiset(b);
      var k :| 0 <= k < |b| && b[k] == x;
      var b' := b[..k] + b[k + 1..];
      RemoveAt(b, k);
      assert multiset(a[1..]) == multiset(b');
      DistinctTail(a, IdOf);
      PermutationDistinct(a[1..], b', IdOf);
      forall y | y in b' ensures IdOf(y) != IdOf(x) {
        assert y in multiset(a[1..]);
      }
      DistinctWithInserted(b, k, IdOf);
    }
  }
}
