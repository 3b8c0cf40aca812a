/** The vote selection of a Start/Bench/Cut (or Keep/Trade/Cut) round: a `Map`
    from player id to vote label. Choosing a label for a player first removes
    every entry that holds the same label and then sets the player's entry, so
    each label is held by at most one player; submitting needs three players
    holding three different labels. */
module Votes {
  import opened JsMaps

  /** The entries whose vote is not `v`, in order. */
  function WithoutVote<K, V(==)>(m: Entries<K, V>, v: V): Entries<K, V> {
    if m == [] then []
    else (if m[0].1 == v then [] else [m[0]]) + WithoutVote(m[1..], v)
  }

  /** `handleVote(p, v)`: delete every entry voting `v`, then `votes.set(p, v)`. */
  function AfterVote<K(==), V(==)>(m: Entries<K, V>, p: K, v: V): Entries<K, V> {
    Set(WithoutVote(m, v), p, v)
  }

  /** No two players hold the same vote. */
  predicate Injective<K, V(==)>(m: Entries<K, V>) {
    forall i, j :: 0 <= i < j < |m| ==> m[i].1 != m[j].1
  }

  /** `new Set(votes.values())` */
  function VoteSet<K, V(==)>(m: Entries<K, V>): set<V> {
    set i | 0 <= i < |m| :: m[i].1
  }

  /** `votes.size === 3 && new Set(votes.values()).size === 3` */
  predicate IsComplete<K, V(==)>(m: Entries<K, V>) {
    |m| == 3 && |VoteSet(m)| == 3
  }

  /** The mapping with every binding to `v` removed. */
  function Unvoted<K, V(==)>(votes: map<K, V>, v: V): map<K, V> {
    map k | k in votes && votes[k] != v :: votes[k]
  }

  // ----- WithoutVote -----

  /** An entry survives removing the votes for `v` exactly when its vote is not `v`. */
  lemma {:induction false} WithoutVoteMember<K, V>(m: Entries<K, V>, v: V, e: (K, V))
    ensures e in WithoutVote(m, v) <==> e in m && e.1 != v
  {
    if m != [] {
      WithoutVoteMember(m[1..], v, e);
      assert m == [m[0]] + m[1..];
    }
  }

  lemma {:induction false} WithoutVoteKeepsDistinct<K, V>(m: Entries<K, V>, v: V)
    requires DistinctKeys(m)
    ensures DistinctKeys(WithoutVote(m, v))
  {
    if m != [] {
      var rest := WithoutVote(m[1..], v);
      WithoutVoteKeepsDistinct(m[1..], v);
      if m[0].1 != v {
        var w := [m[0]] + rest;
        forall i, j | 0 <= i < j < |w| ensures w[i].0 != w[j].0 {
          if i == 0 {
            var e := rest[j - 1];
            assert w[j] == e && e in rest;
            WithoutVoteMember(m[1..], v, e);
            assert e in m[1..];
            var t :| 0 <= t < |m[1..]| && m[1..][t] == e;
            assert m[t + 1] == w[j];
          } else {
            assert w[i] == rest[i - 1] && w[j] == rest[j - 1];
          }
        }
      }
    }
  }

  lemma {:induction false} WithoutVoteKeepsInjective<K, V>(m: Entries<K, V>, v: V)
    requires Injective(m)
    ensures Injective(WithoutVote(m, v))
  {
    if m != [] {
      var rest := WithoutVote(m[1..], v);
      WithoutVoteKeepsInjective(m[1..], v);
      if m[0].1 != v {
        var w := [m[0]] + rest;
        forall i, j | 0 <= i < j < |w| ensures w[i].1 != w[j].1 {
          if i == 0 {
            var e := rest[j - 1];
            assert w[j] == e && e in rest;
            WithoutVoteMember(m[1..], v, e);
            assert e in m[1..];
            var t :| 0 <= t < |m[1..]| && m[1..][t] == e;
            assert m[t + 1] == w[j];
          } else {
            assert w[i] == rest[i - 1] && w[j] == rest[j - 1];
          }
        }
      }
    }
  }

  lemma {:induction false} WithoutVoteAppend<K, V>(a: Entries<K, V>, b: Entries<K, V>, v: V)
    ensures WithoutVote(a + b, v) == WithoutVote(a, v) + WithoutVote(b, v)
  {
    if a == [] {
      assert a + b == b;
    } else {
      assert (a + b)[0] == a[0];
      assert (a + b)[1..] == a[1..] + b;
      WithoutVoteAppend(a[1..], b, v);
    }
  }

  lemma {:induction false} WithoutVoteNone<K, V>(m: Entries<K, V>, v: V)
    requires forall i :: 0 <= i < |m| ==> m[i].1 != v
    ensures WithoutVote(m, v) == m
  {
    if m != [] {
      WithoutVoteNone(m[1..], v);
    }
  }

  /** Deleting an entry that votes `v` does not change what is left once every
      entry voting `v` is gone. */
  lemma DeleteVoter<K, V>(m: Entries<K, V>, i: nat, v: V)
    requires i < |m| && m[i].1 == v
    ensures WithoutVote(m[..i] + m[i + 1..], v) == WithoutVote(m, v)
  {
    var left, right := m[..i], m[i + 1..];
    var mid := [m[i]] + right;
    assert mid[0] == m[i] && mid[1..] == right;
    assert WithoutVote(mid, v) == WithoutVote(right, v);
    assert m == left + mid;
    WithoutVoteAppend(left, mid, v);
    WithoutVoteAppend(left, right, v);
  }

  lemma DeleteKeepsValid<K, V>(m: Entries<K, V>, i: nat)
    requires i < |m| && DistinctKeys(m) && Injective(m)
    ensures DistinctKeys(m[..i] + m[i + 1..]) && Injective(m[..i] + m[i + 1..])
  {
    var d := m[..i] + m[i + 1..];
    assert forall j :: 0 <= j < |d| ==> d[j] == m[if j < i then j else j + 1];
  }

  lemma WithoutVoteDenotes<K, V>(m: Entries<K, V>, v: V)
    requires DistinctKeys(m)
    ensures DistinctKeys(WithoutVote(m, v))
    ensures ToMap(WithoutVote(m, v)) == Unvoted(ToMap(m), v)
  {
    WithoutVoteKeepsDistinct(m, v);
    var w := WithoutVote(m, v);
    var a, b := ToMap(w), Unvoted(ToMap(m), v);
    forall k | k in a ensures k in b && a[k] == b[k] {
      var j :| 0 <= j < |w| && w[j].0 == k;
      WithoutVoteMember(m, v, w[j]);
      assert w[j] in m;
      var t :| 0 <= t < |m| && m[t] == w[j];
    }
    forall k | k in b ensures k in a {
      var t :| 0 <= t < |m| && m[t].0 == k;
      WithoutVoteMember(m, v, m[t]);
      assert m[t] in w;
      var j :| 0 <= j < |w| && w[j] == m[t];
    }
  }

  // ----- handleVote -----

  /** After `handleVote(p, v)` the keys are still distinct and the votes are the
      old ones without every vote for `v`, with `p` now voting `v`. So `p` holds
      `v`, no other player holds `v`, and every other player keeps its vote unless
      that vote was `v`. Injectivity of the votes is preserved. */
  lemma AfterVoteSpec<K, V>(m: Entries<K, V>, p: K, v: V)
    requires DistinctKeys(m)
    ensures DistinctKeys(AfterVote(m, p, v))
    ensures ToMap(AfterVote(m, p, v)) == Unvoted(ToMap(m), v)[p := v]
    ensures Injective(m) ==> Injective(AfterVote(m, p, v))
  {
    WithoutVoteDenotes(m, v);
    SetDenotes(WithoutVote(m, v), p, v);
    if Injective(m) {
      AfterVoteInjective(m, p, v);
    }
  }

  lemma AfterVoteInjective<K, V>(m: Entries<K, V>, p: K, v: V)
    requires DistinctKeys(m) && Injective(m)
    ensures Injective(AfterVote(m, p, v))
  {
    var w := WithoutVote(m, v);
    WithoutVoteKeepsDistinct(m, v);
    WithoutVoteKeepsInjective(m, v);
    var r := AfterVote(m, p, v);
    SetKeys(w, p, v);
    forall j | 0 <= j < |w| ensures w[j].1 != v {
      var e := w[j];
      assert e in w;
      WithoutVoteMember(m, v, e);
    }
    forall i, j | 0 <= i < j < |r| ensures r[i].1 != r[j].1 {
      assert Keys(r)[i] == r[i].0 && Keys(r)[j] == r[j].0;
      if p in Keys(w) {
        var t := IndexOfKey(w, p);
        assert r == w[t := (p, v)];
      } else {
        assert r == w + [(p, v)];
      }
    }
  }

  /** What a caller of `handleVote(p, v)` observes. */
  lemma HandleVoteObservable<K, V>(m: Entries<K, V>, p: K, v: V)
    requires DistinctKeys(m)
    ensures DistinctKeys(AfterVote(m, p, v))
    ensures p in ToMap(AfterVote(m, p, v)) && ToMap(AfterVote(m, p, v))[p] == v
    ensures forall k :: k in ToMap(AfterVote(m, p, v)) && k != p ==> ToMap(AfterVote(m, p, v))[k] != v
    ensures forall k :: k in ToMap(m) && k != p && ToMap(m)[k] != v ==>
      k in ToMap(AfterVote(m, p, v)) && ToMap(AfterVote(m, p, v))[k] == ToMap(m)[k]
    ensures forall k :: k in ToMap(AfterVote(m, p, v)) ==> k == p || k in ToMap(m)
  {
    AfterVoteSpec(m, p, v);
  }

  // ----- the submit condition -----

  /** The number of distinct votes is at most the number of entries, and equal to
      it exactly when no two players share a vote. */
  lemma {:induction false} VoteCount<K, V>(m: Entries<K, V>)
    ensures |VoteSet(m)| <= |m|
    ensures |VoteSet(m)| == |m| <==> Injective(m)
  {
    if m != [] {
      var rest := m[1..];
      VoteCount(rest);
      assert VoteSet(m) == {m[0].1} + VoteSet(rest) by {
        forall x ensures x in VoteSet(m) <==> x == m[0].1 || x in VoteSet(rest) {
          if x in VoteSet(m) {
            var i :| 0 <= i < |m| && m[i].1 == x;
            if i > 0 { assert rest[i - 1].1 == x; }
          }
          if x in VoteSet(rest) {
            var i :| 0 <= i < |rest| && rest[i].1 == x;
            assert m[i + 1].1 == x;
          }
        }
      }
      if m[0].1 in VoteSet(rest) {
        var i :| 0 <= i < |rest| && rest[i].1 == m[0].1;
        assert m[0].1 == m[i + 1].1;
        assert !Injective(m);
      } else {
        assert Injective(m) <==> Injective(rest) by {
          if Injective(rest) {
            forall i, j | 0 <= i < j < |m| ensures m[i].1 != m[j].1 {
              if i == 0 {
                assert m[j].1 == rest[j - 1].1;
              } else {
                assert m[i].1 == rest[i - 1].1 && m[j].1 == rest[j - 1].1;
              }
            }
          }
          if Injective(m) {
            forall i, j | 0 <= i < j < |rest| ensures rest[i].1 != rest[j].1 {
              assert rest[i] == m[i + 1] && rest[j] == m[j + 1];
            }
          }
        }
      }
    }
  }

  /** Submit is enabled exactly when three players hold three different votes;
      while no two players share a vote this is just `votes.size === 3`, the test
      the submit handler makes. */
  lemma CompleteIff<K, V>(m: Entries<K, V>)
    ensures IsComplete(m) <==> |m| == 3 && Injective(m)
    ensures Injective(m) ==> (IsComplete(m) <==> |m| == 3)
  {
    VoteCount(m);
  }

  lemma SubsetSameSize<T>(a: set<T>, b: set<T>)
    requires a <= b && |a| == |b|
    ensures a == b
  {
    assert b == a + (b - a);
    assert a * (b - a) == {};
    assert |b| == |a| + |b - a|;
  }

  /** With three vote labels, a complete selection uses each label exactly once. */
  lemma CompleteUsesEveryLabel<K, V>(m: Entries<K, V>, labels: set<V>)
    requires |labels| == 3 && forall i :: 0 <= i < |m| ==> m[i].1 in labels
    requires IsComplete(m)
    ensures VoteSet(m) == labels
  {
    SubsetSameSize(VoteSet(m), labels);
  }

  /** The module-level `votes` Map of a voting page. */
  class VoteBoard<K(==), V(==)> {
    var entries: Entries<K, V>

    ghost predicate Valid()
      reads this
    {
      DistinctKeys(entries) && Injective(entries)
    }

    /** `const votes = new Map()` */
    constructor ()
      ensures Valid() && entries == []
    {
      entries := [];
    }

    /** `handleVote(playerId, vote)` (the UI refresh that follows is not modelled). */
    method HandleVote(p: K, v: V)
      requires Valid()
      modifies this
      ensures Valid()
      ensures entries == AfterVote(old(entries), p, v)
    {
      var i := 0;
      while i < |entries|
        invariant 0 <= i <= |entries|
        invariant DistinctKeys(entries) && Injective(entries)
        invariant WithoutVote(entries, v) == WithoutVote(old(entries), v)
        invariant forall j :: 0 <= j < i ==> entries[j].1 != v
        decreases |entries| - i
      {
        if entries[i].1 == v {
          DeleteVoter(entries, i, v);
          DeleteKeepsValid(entries, i);
          entries := entries[..i] + entries[i + 1..];
        } else {
          i := i + 1;
        }
      }
      WithoutVoteNone(entries, v);
      AfterVoteSpec(old(entries), p, v);
      entries := Set(entries, p, v);
    }

    /** `votes.clear()` when a new round of players is loaded. */
    method Clear()
      modifies this
      ensures Valid() && entries == []
    {
      entries := [];
    }

    /** `votes.size` */
    function Size(): nat
      reads this
    {
      |entries|
    }

    /** The `isComplete` test that enables the submit button; while the board
        is valid it is just a size test. */
    predicate SubmitEnabled()
      reads this
      ensures Valid() ==> (SubmitEnabled() <==> Size() == 3)
    {
      CompleteIff(entries);
      IsComplete(entries)
    }
  }
}
