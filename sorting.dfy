/**
  Ascending order on sequences of nodes, and an insertion sort that stands in
  for the library sort applied to the traversal's result.
 */
module Sorting {

  predicate Sorted(s: seq<int>)
  {
    forall i, j :: 0 <= i < j < |s| ==> s[i] <= s[j]
  }

  /** Ascending with no element repeated. */
  predicate StrictlySorted(s: seq<int>)
  {
    forall i, j :: 0 <= i < j < |s| ==> s[i] < s[j]
  }

  predicate NoDuplicates(s: seq<int>)
  {
    forall i, j :: 0 <= i < j < |s| ==> s[i] != s[j]
  }

  /** Places `x` into the sorted sequence `s`. */
  function Insert(x: int, s: seq<int>): (r: seq<int>)
    requires Sorted(s)
    ensures Sorted(r)
    ensures multiset(r) == multiset(s) + multiset{x}
    ensures StrictlySorted(s) && x !in s ==> StrictlySorted(r)
  {
    if s == [] || x <= s[0] then
      InsertFront(x, s);
      [x] + s
    else
      TailSorted(s);
      var rest := Insert(x, s[1..]);
      InsertBehind(x, s, rest);
      [s[0]] + rest
  }

  /** The tail of a sorted sequence is sorted, and it lies above the head. */
  lemma TailSorted(s: seq<int>)
    requires s != [] && Sorted(s)
    ensures Sorted(s[1..])
    ensures forall k :: 0 <= k < |s| - 1 ==> s[0] <= s[1..][k]
    ensures StrictlySorted(s) ==> StrictlySorted(s[1..]) && s[0] !in s[1..]
  {
    assert forall k :: 0 <= k < |s| - 1 ==> s[1..][k] == s[k + 1];
  }

  /** A head no larger than every element of a sorted sequence keeps it sorted, and strictly so when it is new. */
  lemma ConsSorted(h: int, t: seq<int>)
    requires Sorted(t)
    requires forall k :: 0 <= k < |t| ==> h <= t[k]
    ensures Sorted([h] + t)
    ensures StrictlySorted(t) && h !in t ==> StrictlySorted([h] + t)
  {
    var r := [h] + t;
    assert forall k :: 1 <= k < |r| ==> r[k] == t[k - 1];
    if StrictlySorted(t) && h !in t {
      forall k | 0 <= k < |t|
        ensures h < t[k]
      {
        assert t[k] in t;
      }
    }
  }

  /** An element no larger than the head goes in front. */
  lemma InsertFront(x: int, s: seq<int>)
    requires Sorted(s)
    requires s == [] || x <= s[0]
    ensures Sorted([x] + s)
    ensures multiset([x] + s) == multiset(s) + multiset{x}
    ensures StrictlySorted(s) && x !in s ==> StrictlySorted([x] + s)
  {
    forall k | 0 <= k < |s|
      ensures x <= s[k]
    {
      assert s[0] <= s[k] || k == 0;
    }
    ConsSorted(x, s);
  }

  /** Every element of an insertion of `x` into `t` is `x` or an element of `t`. */
  lemma InsertedFrom(x: int, t: seq<int>, rest: seq<int>)
    requires multiset(rest) == multiset(t) + multiset{x}
    ensures forall k :: 0 <= k < |rest| ==> rest[k] == x || rest[k] in t
  {
    forall k | 0 <= k < |rest|
      ensures rest[k] == x || rest[k] in t
    {
      assert rest[k] in multiset(rest);
    }
  }

  /**
    An element larger than the head goes behind it: the head followed by the
    insertion into the tail is sorted, and strictly so when `s` is and `x` is new.
   */
  lemma InsertBehind(x: int, s: seq<int>, rest: seq<int>)
    requires Sorted(s) && s != [] && s[0] < x
    requires Sorted(rest)
    requires multiset(rest) == multiset(s[1..]) + multiset{x}
    requires StrictlySorted(s[1..]) && x !in s[1..] ==> StrictlySorted(rest)
    ensures Sorted([s[0]] + rest)
    ensures multiset([s[0]] + rest) == multiset(s) + multiset{x}
    ensures StrictlySorted(s) && x !in s ==> StrictlySorted([s[0]] + rest)
  {
    assert s == [s[0]] + s[1..];
    TailSorted(s);
    InsertedFrom(x, s[1..], rest);
    forall k | 0 <= k < |rest|
      ensures s[0] <= rest[k]
    {
      if rest[k] != x {
        var j :| 0 <= j < |s| - 1 && s[1..][j] == rest[k];
      }
    }
    if StrictlySorted(s) && x !in s {
      assert x !in s[1..];
      forall k | 0 <= k < |rest|
        ensures rest[k] != s[0]
      {
      }
    }
    ConsSorted(s[0], rest);
  }

  /** Insertion sort: an ascending permutation of `s`; strictly ascending when `s` has no duplicates. */
  function Sort(s: seq<int>): (r: seq<int>)
    ensures Sorted(r)
    ensures multiset(r) == multiset(s)
    ensures NoDuplicates(s) ==> StrictlySorted(r)
  {
    if s == [] then
      []
    else
      var rest := Sort(s[1..]);
      SortStep(s, rest);
      Insert(s[0], rest)
  }

  /** The facts about the tail that carry the sort's contract from the tail to the whole. */
  lemma SortStep(s: seq<int>, rest: seq<int>)
    requires s != []
    requires multiset(rest) == multiset(s[1..])
    ensures multiset(s) == multiset(rest) + multiset{s[0]}
    ensures NoDuplicates(s) ==> NoDuplicates(s[1..]) && s[0] !in rest
  {
    assert s == [s[0]] + s[1..];
    if NoDuplicates(s) {
      assert forall k :: 0 <= k < |s| - 1 ==> s[1..][k] == s[k + 1];
      assert s[0] !in s[1..];
      assert s[0] !in multiset(s[1..]);
    }
  }

  /** Membership in a sorted copy is membership in the original. */
  lemma SortKeepsElements(s: seq<int>)
    ensures forall x :: x in Sort(s) <==> x in s
  {
    var r := Sort(s);
    forall x
      ensures x in r <==> x in s
    {
      assert x in r <==> x in multiset(r);
      assert x in s <==> x in multiset(s);
    }
  }

  /**
    A strictly ascending sequence is determined by its elements: two of them
    with the same elements are equal.
   */
  lemma {:induction false} StrictlySortedUnique(a: seq<int>, b: seq<int>)
    requires StrictlySorted(a) && StrictlySorted(b)
    requires forall x :: x in a <==> x in b
    ensures a == b
    decreases |a|
  {
    assert |b| == 0 || b[0] in b;
    if a != [] {
      assert a[0] in a && b != [] && b[0] in b;
      assert a[0] == b[0] by {
        var i :| 0 <= i < |b| && b[i] == a[0];
        var j :| 0 <= j < |a| && a[j] == b[0];
        assert b[0] <= b[i] && a[0] <= a[j];
      }
      TailsAgree(a, b);
      StrictlySortedUnique(a[1..], b[1..]);
      assert a == [a[0]] + a[1..] && b == [b[0]] + b[1..];
    }
  }

  /** Two strictly ascending sequences with the same elements and the same head have tails with the same elements. */
  lemma TailsAgree(a: seq<int>, b: seq<int>)
    requires StrictlySorted(a) && StrictlySorted(b)
    requires forall x :: x in a <==> x in b
    requires a != [] && b != [] && a[0] == b[0]
    ensures StrictlySorted(a[1..]) && StrictlySorted(b[1..])
    ensures forall x :: x in a[1..] <==> x in b[1..]
  {
    assert forall k :: 0 <= k < |a| - 1 ==> a[1..][k] == a[k + 1];
    assert forall k :: 0 <= k < |b| - 1 ==> b[1..][k] == b[k + 1];
    forall x
      ensures x in a[1..] <==> x in b[1..]
    {
      if x in a[1..] {
        var i :| 0 <= i < |a| - 1 && a[1..][i] == x;
        assert a[0] < a[i + 1];
        assert x in b;
        var j :| 0 <= j < |b| && b[j] == x;
        assert j != 0;
        assert b[1..][j - 1] == x;
      }
      if x in b[1..] {
        var i :| 0 <= i < |b| - 1 && b[1..][i] == x;
        assert b[0] < b[i + 1];
        assert x in a;
        var j :| 0 <= j < |a| && a[j] == x;
        assert j != 0;
        assert a[1..][j - 1] == x;
      }
    }
  }
}
