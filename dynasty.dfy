/** The dynasty rankings page: the players that have a Rank, ordered by the
    integer value of that Rank. */
module Dynasty {
  import opened JsValues
  import opened Sorting

  predicate Ranked(p: Obj) {
    Truthy(Get(p, "Rank"))
  }

  /** `players.filter(player => player.Rank)` */
  function RankedOnly(ps: seq<Obj>): seq<Obj> {
    if ps == [] then []
    else (if Ranked(ps[0]) then [ps[0]] else []) + RankedOnly(ps[1..])
  }

  /** `parseInt(player.Rank)` as a sort key. A Rank that does not parse makes the
      comparator `NaN`, which leaves the order up to the engine; the model then
      orders it as 0. */
  function RankKey(p: Obj): int {
    match ParseInt(Get(p, "Rank"))
    case Some(n) => n
    case None => 0
  }

  /** `.sort((a, b) => parseInt(a.Rank) - parseInt(b.Rank))` on the ranked players. */
  function Rankings(ps: seq<Obj>): seq<Obj> {
    SortBy(RankedOnly(ps), RankKey)
  }

  lemma {:induction false} RankedOnlySpec(ps: seq<Obj>)
    ensures |RankedOnly(ps)| <= |ps|
    ensures forall p :: p in multiset(RankedOnly(ps)) ==> Ranked(p)
    ensures forall p :: Ranked(p) ==> multiset(RankedOnly(ps))[p] == multiset(ps)[p]
    ensures multiset(RankedOnly(ps)) <= multiset(ps)
  {
    if ps != [] {
      var rest := ps[1..];
      RankedOnlySpec(rest);
      var head: seq<Obj> := if Ranked(ps[0]) then [ps[0]] else [];
      assert RankedOnly(ps) == head + RankedOnly(rest);
      assert multiset(RankedOnly(ps)) == multiset(head) + multiset(RankedOnly(rest));
      assert ps == [ps[0]] + rest;
      assert multiset(ps) == multiset{ps[0]} + multiset(rest);
    }
  }

  /** The table lists exactly the ranked players, each as often as in the input,
      and no unranked one. */
  lemma RankingsContents(ps: seq<Obj>)
    ensures |Rankings(ps)| <= |ps|
    ensures forall p :: p in Rankings(ps) ==> Ranked(p) && p in ps
    ensures forall p :: Ranked(p) ==> multiset(Rankings(ps))[p] == multiset(ps)[p]
    ensures multiset(Rankings(ps)) == multiset(RankedOnly(ps))
  {
    RankedOnlySpec(ps);
    SortBySpec(RankedOnly(ps), RankKey);
    forall p | p in Rankings(ps) ensures Ranked(p) && p in ps {
      assert p in multiset(Rankings(ps));
      assert p in multiset(ps);
    }
  }

  /** The table is ordered by integer Rank, with equal Ranks in input order. */
  lemma RankingsOrdered(ps: seq<Obj>)
    ensures forall i, j :: 0 <= i < j < |Rankings(ps)| ==> RankKey(Rankings(ps)[i]) <= RankKey(Rankings(ps)[j])
    ensures forall k :: WithKey(Rankings(ps), RankKey, k) == WithKey(RankedOnly(ps), RankKey, k)
  {
    SortBySpec(RankedOnly(ps), RankKey);
  }

  /** When every Rank parses, the order is that of the parsed Ranks. */
  lemma RankingsByParsedRank(ps: seq<Obj>)
    requires forall p :: p in ps && Ranked(p) ==> ParseInt(Get(p, "Rank")).Some?
    ensures forall i, j :: 0 <= i < j < |Rankings(ps)| ==>
      ParseInt(Get(Rankings(ps)[i], "Rank")).Some? && ParseInt(Get(Rankings(ps)[j], "Rank")).Some? &&
      ParseInt(Get(Rankings(ps)[i], "Rank")).value <= ParseInt(Get(Rankings(ps)[j], "Rank")).value
  {
    RankingsContents(ps);
    RankingsOrdered(ps);
  }

  /** A numeric Rank is compared as itself. */
  lemma RankKeyOfNumber(p: Obj, n: int)
    requires Get(p, "Rank") == Num(n)
    ensures RankKey(p) == n
  {
    ParseIntOfNumber(n);
  }
}
