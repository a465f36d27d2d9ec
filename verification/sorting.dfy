/**
 * The stable sort `List.sort(comparator)` performs on a sub-list, as a
 * functional insertion sort over a real-valued key. A stable sort's output
 * is determined by the keys, so this is the order the Java library
 * produces (for keys that are neither NaN nor signed zeros).
 */
module Sorting {

  predicate SortedBy<T>(s: seq<T>, key: T -> real) {
    forall i, j :: 0 <= i < j < |s| ==> key(s[i]) <= key(s[j])
  }

  /**
   * Inserts `x` in front of the first element whose key is at least `x`'s,
   * so `x` stays ahead of the equal keys that came after it in the input.
   */
  function Insert<T(==)>(x: T, s: seq<T>, key: T -> real): (s': seq<T>)
    requires SortedBy(s, key)
    ensures SortedBy(s', key)
    ensures multiset(s') == multiset(s) + multiset{x}
    ensures forall y :: y in s' ==> y == x || y in s
  {
    if |s| == 0 then [x]
    else if key(x) <= key(s[0]) then
      HeadLeast(s, key);
      SortedCons(x, s, key);
      [x] + s
    else
      var rest := Insert(x, s[1..], key);
      InsertBehind(x, s, rest, key);
      [s[0]] + rest
  }

  /** Putting the head back in front of the insertion into the tail. */
  lemma InsertBehind<T>(x: T, s: seq<T>, rest: seq<T>, key: T -> real)
    requires SortedBy(s, key) && |s| > 0 && key(s[0]) < key(x)
    requires SortedBy(rest, key) && multiset(rest) == multiset(s[1..]) + multiset{x}
    requires forall y :: y in rest ==> y == x || y in s[1..]
    ensures SortedBy([s[0]] + rest, key)
    ensures multiset([s[0]] + rest) == multiset(s) + multiset{x}
    ensures forall y :: y in [s[0]] + rest ==> y == x || y in s
  {
    assert s == [s[0]] + s[1..];
    HeadLeast(s, key);
    SortedCons(s[0], rest, key);
  }

  /** The head of a sorted sequence has the least key. */
  lemma HeadLeast<T>(s: seq<T>, key: T -> real)
    requires SortedBy(s, key) && |s| > 0
    ensures forall y :: y in s ==> key(s[0]) <= key(y)
  {
    forall y | y in s
      ensures key(s[0]) <= key(y)
    {
      var j :| 0 <= j < |s| && s[j] == y;
      if j > 0 {
        assert key(s[0]) <= key(s[j]);
      }
    }
  }

  /** A sorted sequence stays sorted with an element of least key in front. */
  lemma SortedCons<T>(x: T, s: seq<T>, key: T -> real)
    requires SortedBy(s, key) && forall y :: y in s ==> key(x) <= key(y)
    ensures SortedBy([x] + s, key)
  {
    var t := [x] + s;
    forall i, j | 0 <= i < j < |t|
      ensures key(t[i]) <= key(t[j])
    {
      assert t[j] == s[j - 1];
      if i > 0 {
        assert t[i] == s[i - 1];
      } else {
        assert t[j] in s;
      }
    }
  }

  /** Sorting puts the keys in order and only permutes the elements. */
  function SortBy<T(==)>(s: seq<T>, key: T -> real): (s': seq<T>)
    ensures SortedBy(s', key)
    ensures multiset(s') == multiset(s)
  {
    if |s| == 0 then []
    else
      assert s == [s[0]] + s[1..];
      Insert(s[0], SortBy(s[1..], key), key)
  }

  /** Insertion into a sequence whose keys all exceed `x`'s puts `x` in front. */
  lemma InsertFront<T>(x: T, s: seq<T>, key: T -> real)
    requires SortedBy(s, key) && (|s| == 0 || key(x) <= key(s[0]))
    ensures Insert(x, s, key) == [x] + s
  {
  }

  /** Sorting an already sorted sequence leaves it as it is. */
  lemma {:induction false} SortSorted<T>(s: seq<T>, key: T -> real)
    requires SortedBy(s, key)
    ensures SortBy(s, key) == s
  {
    if |s| > 0 {
      assert SortedBy(s[1..], key);
      SortSorted(s[1..], key);
      assert s == [s[0]] + s[1..];
      InsertFront(s[0], s[1..], key);
    }
  }

  /** Sorting twice is sorting once. */
  lemma SortIdempotent<T>(s: seq<T>, key: T -> real)
    ensures SortBy(SortBy(s, key), key) == SortBy(s, key)
  {
    SortSorted(SortBy(s, key), key);
  }

  /** The elements whose key is `k`, in the order they appear. */
  function WithKey<T>(s: seq<T>, key: T -> real, k: real): seq<T> {
    if |s| == 0 then []
    else (if key(s[0]) == k then [s[0]] else []) + WithKey(s[1..], key, k)
  }

  /** Reading off the elements of one key from a sequence with a known first element. */
  lemma WithKeyCons<T>(x: T, s: seq<T>, key: T -> real, k: real)
    ensures WithKey([x] + s, key, k) == (if key(x) == k then [x] else []) + WithKey(s, key, k)
  {
    assert ([x] + s)[1..] == s;
  }

  /**
   * Insertion puts `x` ahead of every element of its own key: among the
   * elements of any one key, only `x` is added, and at the front.
   */
  lemma {:induction false} InsertWithKey<T>(x: T, s: seq<T>, key: T -> real, k: real)
    requires SortedBy(s, key)
    ensures WithKey(Insert(x, s, key), key, k) == (if key(x) == k then [x] else []) + WithKey(s, key, k)
    decreases |s|, 1
  {
    if |s| == 0 || key(x) <= key(s[0]) {
      InsertFront(x, s, key);
      WithKeyCons(x, s, key, k);
    } else {
      InsertWithKeyBehind(x, s, key, k);
    }
  }

  lemma {:induction false} InsertWithKeyBehind<T>(x: T, s: seq<T>, key: T -> real, k: real)
    requires SortedBy(s, key) && |s| > 0 && key(s[0]) < key(x)
    ensures WithKey(Insert(x, s, key), key, k) == (if key(x) == k then [x] else []) + WithKey(s, key, k)
    decreases |s|, 0
  {
    var rest := Insert(x, s[1..], key);
    assert Insert(x, s, key) == [s[0]] + rest;
    InsertWithKey(x, s[1..], key, k);
    WithKeyCons(s[0], rest, key, k);
    assert WithKey(s, key, k) == (if key(s[0]) == k then [s[0]] else []) + WithKey(s[1..], key, k);
  }

  /**
   * Sorting is stable: for every key, the elements with that key come out in
   * the order they went in.
   */
  lemma {:induction false} SortStable<T>(s: seq<T>, key: T -> real, k: real)
    ensures WithKey(SortBy(s, key), key, k) == WithKey(s, key, k)
  {
    if |s| > 0 {
      SortStable(s[1..], key, k);
      InsertWithKey(s[0], SortBy(s[1..], key), key, k);
    }
  }
}
