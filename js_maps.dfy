/** JavaScript `Map` objects as the app uses them: entries kept in insertion
    order, each key at most once (key equality is structural, which on
    `JsValues.Val` is SameValueZero). `m.set(k, v)` overwrites `k`'s value where
    the entry stands or appends a new entry at the end. */
module JsMaps {

  /** The entries of a `Map`, in iteration order. */
  type Entries<K, V> = seq<(K, V)>

  function Keys<K, V>(m: Entries<K, V>): seq<K> {
    seq(|m|, i requires 0 <= i < |m| => m[i].0)
  }

  function Values<K, V>(m: Entries<K, V>): seq<V> {
    seq(|m|, i requires 0 <= i < |m| => m[i].1)
  }

  predicate DistinctKeys<K(==), V>(m: Entries<K, V>) {
    forall i, j :: 0 <= i < j < |m| ==> m[i].0 != m[j].0
  }

  /** Where the first entry with key `k` stands. */
  function IndexOfKey<K(==), V>(m: Entries<K, V>, k: K): (i: nat)
    requires k in Keys(m)
    ensures i < |m| && m[i].0 == k
    ensures forall j :: 0 <= j < i ==> m[j].0 != k
  {
    if m[0].0 == k then 0
    else
      assert k in Keys(m[1..]) by {
        var j :| 0 <= j < |m| && Keys(m)[j] == k;
        assert Keys(m[1..])[j - 1] == k;
      }
      1 + IndexOfKey(m[1..], k)
  }

  /** Where the last entry with key `k` stands. */
  function LastIndexOfKey<K(==), V>(m: Entries<K, V>, k: K): (i: nat)
    requires k in Keys(m)
    ensures i < |m| && m[i].0 == k
    ensures forall j :: i < j < |m| ==> m[j].0 != k
  {
    var n := |m| - 1;
    if m[n].0 == k then n
    else
      assert k in Keys(m[..n]) by {
        var j :| 0 <= j < |m| && Keys(m)[j] == k;
        assert Keys(m[..n])[j] == k;
      }
      LastIndexOfKey(m[..n], k)
  }

  /** `m.set(k, v)` */
  function Set<K(==), V>(m: Entries<K, V>, k: K, v: V): Entries<K, V> {
    if k in Keys(m) then m[IndexOfKey(m, k) := (k, v)] else m + [(k, v)]
  }

  /** The mapping a `Map` with distinct keys denotes. */
  function ToMap<K(==), V>(m: Entries<K, V>): map<K, V>
    requires DistinctKeys(m)
  {
    map i | 0 <= i < |m| :: m[i].0 := m[i].1
  }

  /** `m.set(k, v)` keeps the position of an existing key and appends a new one. */
  lemma SetKeys<K, V>(m: Entries<K, V>, k: K, v: V)
    ensures Keys(Set(m, k, v)) == if k in Keys(m) then Keys(m) else Keys(m) + [k]
  {
  }

  lemma KeysAppend<K, V>(m: Entries<K, V>, e: (K, V))
    ensures Keys(m + [e]) == Keys(m) + [e.0]
  {
  }

  /** `m.set(k, v)` keeps the keys distinct, and the denoted mapping is the old one
      with `k` bound to `v`. */
  lemma SetDenotes<K, V>(m: Entries<K, V>, k: K, v: V)
    requires DistinctKeys(m)
    ensures DistinctKeys(Set(m, k, v))
    ensures ToMap(Set(m, k, v)) == ToMap(m)[k := v]
  {
    var r := Set(m, k, v);
    SetKeys(m, k, v);
    assert forall j :: 0 <= j < |r| ==> r[j].0 == Keys(r)[j];
    assert DistinctKeys(r) by {
      if k !in Keys(m) {
        forall j | 0 <= j < |m| ensures m[j].0 != k {
          assert Keys(m)[j] == m[j].0;
        }
      }
    }
    var a, b := ToMap(r), ToMap(m)[k := v];
    forall x | x in a ensures x in b && a[x] == b[x] {
      var j :| 0 <= j < |r| && r[j].0 == x;
    }
    forall x | x in b ensures x in a {
      if x == k {
        if k in Keys(m) {
          assert r[IndexOfKey(m, k)].0 == k;
        } else {
          assert r[|m|].0 == k;
        }
      } else {
        var j :| 0 <= j < |m| && m[j].0 == x;
        assert r[j].0 == x;
      }
    }
  }

  /** `new Map(pairs)`: each pair is `set` in turn. */
  function FromEntries<K(==), V>(pairs: seq<(K, V)>): Entries<K, V> {
    if pairs == [] then []
    else
      var n := |pairs| - 1;
      Set(FromEntries(pairs[..n]), pairs[n].0, pairs[n].1)
  }

  /** The map built from a list of pairs has distinct keys, and exactly the keys of
      the list. */
  lemma {:induction false} FromEntriesKeys<K, V>(pairs: seq<(K, V)>)
    ensures DistinctKeys(FromEntries(pairs))
    ensures forall x :: x in Keys(FromEntries(pairs)) <==> x in Keys(pairs)
  {
    if pairs != [] {
      var n := |pairs| - 1;
      var front := pairs[..n];
      FromEntriesKeys(front);
      SetDenotes(FromEntries(front), pairs[n].0, pairs[n].1);
      SetKeys(FromEntries(front), pairs[n].0, pairs[n].1);
      assert pairs == front + [pairs[n]];
      KeysAppend(front, pairs[n]);
    }
  }

  /** In the map built from a list of pairs, each key holds the value of its LAST pair. */
  lemma {:induction false} FromEntriesValues<K, V>(pairs: seq<(K, V)>)
    ensures forall i :: 0 <= i < |FromEntries(pairs)| ==>
      Keys(FromEntries(pairs))[i] in Keys(pairs) &&
      FromEntries(pairs)[i].1 == pairs[LastIndexOfKey(pairs, Keys(FromEntries(pairs))[i])].1
  {
    FromEntriesKeys(pairs);
    if pairs != [] {
      var n := |pairs| - 1;
      var front := pairs[..n];
      var (k, v) := pairs[n];
      var m := FromEntries(front);
      var r := FromEntries(pairs);
      FromEntriesValues(front);
      FromEntriesKeys(front);
      SetKeys(m, k, v);
      assert Keys(pairs)[n] == k;
      forall i | 0 <= i < |r|
        ensures r[i].1 == pairs[LastIndexOfKey(pairs, Keys(r)[i])].1
      {
        var x := Keys(r)[i];
        if x != k {
          assert r[i] == m[i] && Keys(m)[i] == x;
          assert x in Keys(front);
          LastIndexOfKeyPrefix(front, pairs, x);
        }
      }
    }
  }

  /** In the map built from a list of pairs, keys stand in the order of their FIRST pairs. */
  lemma {:induction false} FromEntriesOrder<K, V>(pairs: seq<(K, V)>)
    ensures forall i, j :: 0 <= i < j < |FromEntries(pairs)| ==>
      Keys(FromEntries(pairs))[i] in Keys(pairs) && Keys(FromEntries(pairs))[j] in Keys(pairs) &&
      IndexOfKey(pairs, Keys(FromEntries(pairs))[i]) < IndexOfKey(pairs, Keys(FromEntries(pairs))[j])
  {
    FromEntriesKeys(pairs);
    if pairs != [] {
      var n := |pairs| - 1;
      var front := pairs[..n];
      var (k, v) := pairs[n];
      var m := FromEntries(front);
      var r := FromEntries(pairs);
      FromEntriesOrder(front);
      FromEntriesKeys(front);
      SetKeys(m, k, v);
      assert Keys(pairs)[n] == k;
      forall x | x in Keys(front) ensures IndexOfKey(pairs, x) == IndexOfKey(front, x) {
        IndexOfKeyPrefix(front, pairs, x);
      }
      if k !in Keys(m) {
        assert k !in Keys(front);
        forall j | 0 <= j < n ensures pairs[j].0 != k {
          assert Keys(front)[j] == pairs[j].0;
        }
      }
    }
  }

  lemma IndexOfKeyPrefix<K, V>(front: Entries<K, V>, whole: Entries<K, V>, k: K)
    requires |front| <= |whole| && front == whole[..|front|] && k in Keys(front)
    ensures k in Keys(whole) && IndexOfKey(whole, k) == IndexOfKey(front, k)
  {
    var i := IndexOfKey(front, k);
    assert Keys(whole)[i] == k;
  }

  lemma LastIndexOfKeyPrefix<K, V>(front: Entries<K, V>, whole: Entries<K, V>, k: K)
    requires |whole| == |front| + 1 && front == whole[..|front|]
    requires k in Keys(front) && whole[|front|].0 != k
    ensures k in Keys(whole) && LastIndexOfKey(whole, k) == LastIndexOfKey(front, k)
  {
    var i := LastIndexOfKey(front, k);
    assert Keys(whole)[i] == k;
  }

  /** A map built from a list of pairs has at most one entry per pair. */
  lemma {:induction false} FromEntriesLength<K, V>(pairs: seq<(K, V)>)
    ensures |FromEntries(pairs)| <= |pairs|
  {
    if pairs != [] {
      var n := |pairs| - 1;
      FromEntriesLength(pairs[..n]);
    }
  }
}
