/** Descending order on a numeric key, as MongoDB applies it.

    Two places in the handler order documents newest first: `getThreads`
    sorts threads by bump time, newest first, and `createReply` pushes a
    reply with a descending sort on creation time, which re-sorts the whole
    reply array.  Both
    are modelled with the stable insertion sort below, parameterised by the
    key that is compared. */
module Ordering {

  predicate SortedDesc<T>(s: seq<T>, key: T -> nat)
  {
    forall i, j :: 0 <= i < j < |s| ==> key(s[i]) >= key(s[j])
  }

  predicate Distinct<T(==)>(s: seq<T>)
  {
    forall i, j :: 0 <= i < j < |s| ==> s[i] != s[j]
  }

  /** Inserts `x` after every element whose key is at least `x`'s, so that
      among equal keys the earlier element stays first. */
  function Insert<T(==)>(s: seq<T>, x: T, key: T -> nat): (r: seq<T>)
    ensures multiset(r) == multiset(s) + multiset{x}
    ensures |r| == |s| + 1
    decreases |s|
  {
    if |s| == 0 then [x]
    else if key(s[0]) >= key(x) then
      assert s == [s[0]] + s[1..];
      [s[0]] + Insert(s[1..], x, key)
    else [x] + s
  }

  /** Stable insertion sort, newest (largest key) first. */
  function Sort<T(==)>(s: seq<T>, key: T -> nat): (r: seq<T>)
    ensures multiset(r) == multiset(s)
    ensures |r| == |s|
    decreases |s|
  {
    if |s| == 0 then []
    else
      var init := s[..|s| - 1];
      assert s == init + [s[|s| - 1]];
      Insert(Sort(init, key), s[|s| - 1], key)
  }

  lemma InsertMembers<T>(s: seq<T>, x: T, key: T -> nat, y: T)
    ensures y in Insert(s, x, key) <==> y in s || y == x
  {
    var r := Insert(s, x, key);
    assert y in r <==> y in multiset(r);
    assert y in s <==> y in multiset(s);
  }

  lemma {:induction false} InsertSorted<T>(s: seq<T>, x: T, key: T -> nat)
    requires SortedDesc(s, key)
    ensures SortedDesc(Insert(s, x, key), key)
    decreases |s|
  {
    if |s| > 0 && key(s[0]) >= key(x) {
      var tail := Insert(s[1..], x, key);
      InsertSorted(s[1..], x, key);
      forall k | 0 <= k < |tail|
        ensures key(s[0]) >= key(tail[k])
      {
        InsertMembers(s[1..], x, key, tail[k]);
      }
    }
  }

  lemma {:induction false} SortIsSorted<T>(s: seq<T>, key: T -> nat)
    ensures SortedDesc(Sort(s, key), key)
    decreases |s|
  {
    if |s| > 0 {
      SortIsSorted(s[..|s| - 1], key);
      InsertSorted(Sort(s[..|s| - 1], key), s[|s| - 1], key);
    }
  }

  lemma {:induction false} InsertKeepsDistinct<T>(s: seq<T>, x: T, key: T -> nat)
    requires Distinct(s) && x !in s
    ensures Distinct(Insert(s, x, key))
    decreases |s|
  {
    if |s| > 0 && key(s[0]) >= key(x) {
      var tail := Insert(s[1..], x, key);
      assert x !in s[1..];
      InsertKeepsDistinct(s[1..], x, key);
      InsertMembers(s[1..], x, key, s[0]);
      assert s[0] !in tail;
    }
  }

  /** An element no newer than anything already present lands at the end. */
  lemma {:induction false} InsertOldest<T>(s: seq<T>, x: T, key: T -> nat)
    requires forall i :: 0 <= i < |s| ==> key(s[i]) >= key(x)
    ensures Insert(s, x, key) == s + [x]
    decreases |s|
  {
    if |s| > 0 {
      InsertOldest(s[1..], x, key);
      assert s == [s[0]] + s[1..];
    }
  }

  /** Sorting an already sorted sequence leaves it as it is. */
  lemma {:induction false} SortOfSorted<T>(s: seq<T>, key: T -> nat)
    requires SortedDesc(s, key)
    ensures Sort(s, key) == s
    decreases |s|
  {
    if |s| > 0 {
      var init := s[..|s| - 1];
      SortOfSorted(init, key);
      InsertOldest(init, s[|s| - 1], key);
      assert init + [s[|s| - 1]] == s;
    }
  }

  /** Pushing `x` with a re-sort onto a sorted array: when `x` is
      strictly newer than everything present, the array only gains `x` at its
      head and keeps its order. */
  lemma PushNewest<T>(s: seq<T>, x: T, key: T -> nat)
    requires SortedDesc(s, key)
    requires forall i :: 0 <= i < |s| ==> key(s[i]) < key(x)
    ensures Sort(s + [x], key) == [x] + s
  {
    assert (s + [x])[..|s|] == s;
    SortOfSorted(s, key);
  }
}
