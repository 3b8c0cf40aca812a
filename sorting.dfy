/** `Array.prototype.sort` with a numeric comparator `(a, b) => key(a) - key(b)`.
    The language requires that sort to be stable, so the result is determined:
    ordered by key, a permutation of the input, and elements with equal keys in
    their input order. It is modelled by insertion sort. */
module Sorting {

  predicate SortedBy<T>(s: seq<T>, key: T -> int) {
    forall i, j :: 0 <= i < j < |s| ==> key(s[i]) <= key(s[j])
  }

  /** The elements whose key is `k`, in order. */
  function WithKey<T>(s: seq<T>, key: T -> int, k: int): seq<T> {
    if s == [] then []
    else (if key(s[0]) == k then [s[0]] else []) + WithKey(s[1..], key, k)
  }

  /** Puts `x` after every element whose key is not greater than its own. */
  function Insert<T>(s: seq<T>, x: T, key: T -> int): seq<T> {
    if s == [] then [x]
    else if key(x) < key(s[0]) then [x] + s
    else [s[0]] + Insert(s[1..], x, key)
  }

  /** Stable sort by ascending key. */
  function SortBy<T>(s: seq<T>, key: T -> int): seq<T> {
    if s == [] then []
    else Insert(SortBy(s[..|s| - 1], key), s[|s| - 1], key)
  }

  lemma {:induction false} WithKeyAbove<T>(s: seq<T>, key: T -> int, k: int)
    requires forall i :: 0 <= i < |s| ==> key(s[i]) > k
    ensures WithKey(s, key, k) == []
  {
    if s != [] {
      WithKeyAbove(s[1..], key, k);
    }
  }

  lemma {:induction false} WithKeyAppend<T>(s: seq<T>, x: T, key: T -> int, k: int)
    ensures WithKey(s + [x], key, k) == WithKey(s, key, k) + (if key(x) == k then [x] else [])
  {
    if s != [] {
      assert (s + [x])[1..] == s[1..] + [x];
      WithKeyAppend(s[1..], x, key, k);
    }
  }

  lemma {:induction false} InsertPermutes<T>(s: seq<T>, x: T, key: T -> int)
    ensures multiset(Insert(s, x, key)) == multiset(s) + multiset{x}
  {
    if s != [] && key(x) >= key(s[0]) {
      InsertPermutes(s[1..], x, key);
      assert s == [s[0]] + s[1..];
    }
  }

  lemma {:induction false} InsertSorted<T>(s: seq<T>, x: T, key: T -> int)
    requires SortedBy(s, key)
    ensures SortedBy(Insert(s, x, key), key)
  {
    if s != [] && key(x) >= key(s[0]) {
      InsertSorted(s[1..], x, key);
      InsertPermutes(s[1..], x, key);
      var t := Insert(s[1..], x, key);
      forall i | 0 <= i < |t| ensures key(s[0]) <= key(t[i]) {
        assert t[i] in multiset(t);
        if t[i] != x {
          assert t[i] in multiset(s[1..]);
          var j :| 0 <= j < |s[1..]| && s[1..][j] == t[i];
          assert s[j + 1] == t[i];
        }
      }
    }
  }

  lemma WithKeyCons<T>(h: T, t: seq<T>, key: T -> int, k: int)
    ensures WithKey([h] + t, key, k) == (if key(h) == k then [h] else []) + WithKey(t, key, k)
  {
    assert ([h] + t)[0] == h && ([h] + t)[1..] == t;
  }

  lemma {:induction false} InsertStable<T>(s: seq<T>, x: T, key: T -> int, k: int)
    requires SortedBy(s, key)
    ensures WithKey(Insert(s, x, key), key, k) == WithKey(s, key, k) + (if key(x) == k then [x] else [])
  {
    if s == [] {
      WithKeyCons(x, [], key, k);
    } else if key(x) < key(s[0]) {
      WithKeyCons(x, s, key, k);
      if key(x) == k {
        WithKeyAbove(s, key, k);
      }
    } else {
      assert s == [s[0]] + s[1..];
      WithKeyCons(s[0], s[1..], key, k);
      WithKeyCons(s[0], Insert(s[1..], x, key), key, k);
      InsertStable(s[1..], x, key, k);
    }
  }

  /** The sort is ordered by key, a permutation of its input, and stable. */
  lemma {:induction false} SortBySpec<T>(s: seq<T>, key: T -> int)
    ensures SortedBy(SortBy(s, key), key)
    ensures multiset(SortBy(s, key)) == multiset(s)
    ensures |SortBy(s, key)| == |s|
    ensures forall k :: WithKey(SortBy(s, key), key, k) == WithKey(s, key, k)
  {
    if s != [] {
      var n := |s| - 1;
      SortBySpec(s[..n], key);
      InsertPermutes(SortBy(s[..n], key), s[n], key);
      InsertSorted(SortBy(s[..n], key), s[n], key);
      assert s == s[..n] + [s[n]];
      forall k ensures WithKey(SortBy(s, key), key, k) == WithKey(s, key, k) {
        WithKeyAppend(s[..n], s[n], key, k);
        InsertStable(SortBy(s[..n], key), s[n], key, k);
      }
      assert |SortBy(s, key)| == |multiset(SortBy(s, key))|;
    }
  }
}
