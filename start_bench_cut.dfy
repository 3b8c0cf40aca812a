/** The Start/Bench/Cut page: the normalisation of the loaded player records,
    the Elo value step, and the round reset that clears the vote selection. */
module StartBenchCut {
  import opened JsValues
  import Votes

  const DefaultHeadshot: string :=
    "https://img.mlbstatic.com/mlb-photos/image/upload/w_213,d_people:generic:headshot:silo:current.png,q_auto:best,f_auto/v1/people/generic/headshot/67/current"

  // ----- loading players -----

  /** `'up'` above 9000, `'down'` below 5000, otherwise `'stable'` (a comparison
      with a value that is not a number is false). */
  function Trend(value: Val): (t: string)
    ensures t == "up" <==> GreaterThan(value, 9000)
    ensures t == "down" <==> !GreaterThan(value, 9000) && LessThan(value, 5000)
    ensures t == "stable" <==> !GreaterThan(value, 9000) && !LessThan(value, 5000)
  {
    if GreaterThan(value, 9000) then "up" else if LessThan(value, 5000) then "down" else "stable"
  }

  /** The six fields both pages default when they are falsy. */
  const DefaultedKeys: set<string> := {"Number", "Hand", "Age", "Team", "Position", "Headshot"}

  /** The fields the normaliser adds besides those. */
  const DerivedKeys: set<string> := {"id", "value", "trend"}

  /** The default of a defaulted field for the player at `index`. */
  function DefaultFor(key: string, index: nat): (d: string)
    ensures d != ""
  {
    if key == "Number" then DecimalString(index + 1)
    else if key == "Hand" then "-"
    else if key == "Age" then "??"
    else if key == "Team" then "FA"
    else if key == "Position" then "Unknown"
    else DefaultHeadshot
  }

  /** `Number: player.Number || String(index + 1)`, `Hand: player.Hand || '-'`, and so on. */
  function Defaults(p: Obj, index: nat): Obj {
    map key | key in DefaultedKeys :: Or(Get(p, key), Str(DefaultFor(key, index)))
  }

  /** `id: index.toString()`, `value: player.Value` and the `trend` of that value. */
  function Derived(p: Obj, index: nat): Obj {
    map["id" := Str(DecimalString(index)), "value" := Get(p, "Value"), "trend" := Str(Trend(Get(p, "Value")))]
  }

  /** The record built for the player at `index`: `{...player, <defaults>, <derived>}`. */
  function Normalise(p: Obj, index: nat): Obj {
    p + Defaults(p, index) + Derived(p, index)
  }

  /** A field the normaliser fills in is the raw value when that is truthy and the
      default otherwise. */
  predicate Defaulted(raw: Val, result: Val, default: string)
  {
    (Truthy(raw) ==> result == raw) && (!Truthy(raw) ==> result == Str(default))
  }

  lemma KeysApart(p: Obj, index: nat)
    ensures forall key :: key in DefaultedKeys ==> key !in DerivedKeys && key != "Value"
    ensures Derived(p, index).Keys == DerivedKeys && Defaults(p, index).Keys == DefaultedKeys
  {
  }

  /** The six defaulted fields keep a truthy raw value and otherwise take their
      default, so they are truthy afterwards. */
  lemma NormaliseDefaults(p: Obj, index: nat)
    ensures forall key :: key in DefaultedKeys ==>
      Defaulted(Get(p, key), Get(Normalise(p, index), key), DefaultFor(key, index)) &&
      Truthy(Get(Normalise(p, index), key))
  {
    KeysApart(p, index);
  }

  /** `id` is the index as a string, `value` copies `Value`, and `trend` classifies it. */
  lemma NormaliseDerived(p: Obj, index: nat)
    ensures Get(Normalise(p, index), "id") == Str(DecimalString(index))
    ensures Get(Normalise(p, index), "value") == Get(p, "Value")
    ensures Get(Normalise(p, index), "trend") == Str(Trend(Get(p, "Value")))
  {
  }

  /** Every other field of the raw record passes through. */
  lemma NormaliseKeepsOthers(p: Obj, index: nat)
    ensures forall key :: key !in DefaultedKeys && key !in DerivedKeys ==> Get(Normalise(p, index), key) == Get(p, key)
  {
    KeysApart(p, index);
  }

  lemma OrAbsorbs(x: Val, d: Val)
    requires Truthy(d)
    ensures Truthy(Or(x, d)) && Or(Or(x, d), d) == Or(x, d)
  {
  }

  /** The defaults computed for a record that already holds them are the same. */
  lemma DefaultsStable(p: Obj, q: Obj, index: nat)
    requires forall key :: key in DefaultedKeys ==> Get(q, key) == Defaults(p, index)[key]
    ensures Defaults(q, index) == Defaults(p, index)
  {
    forall key | key in DefaultedKeys ensures Defaults(q, index)[key] == Defaults(p, index)[key] {
      OrAbsorbs(Get(p, key), Str(DefaultFor(key, index)));
    }
  }

  /** Spreading the same fields over a record a second time changes nothing. */
  lemma MergeAgain(p: Obj, d: Obj, v: Obj)
    ensures (p + d + v) + d + v == p + d + v
  {
  }

  /** A normalised record holds its defaults and its raw `Value`. */
  lemma NormaliseHolds(p: Obj, index: nat)
    ensures forall key :: key in DefaultedKeys ==> Get(Normalise(p, index), key) == Defaults(p, index)[key]
    ensures Get(Normalise(p, index), "Value") == Get(p, "Value")
  {
    KeysApart(p, index);
  }

  lemma DerivedStable(p: Obj, q: Obj, index: nat)
    requires Get(q, "Value") == Get(p, "Value")
    ensures Derived(q, index) == Derived(p, index)
  {
  }

  /** Normalising a normalised record again, at the same index, changes nothing. */
  lemma NormaliseIdempotent(p: Obj, index: nat)
    ensures Normalise(Normalise(p, index), index) == Normalise(p, index)
  {
    var q := Normalise(p, index);
    NormaliseHolds(p, index);
    DefaultsStable(p, q, index);
    DerivedStable(p, q, index);
    MergeAgain(p, Defaults(p, index), Derived(p, index));
  }

  /** `ALL_PLAYERS = players.map((player, index) => ...)` */
  function LoadPlayers(raw: seq<Obj>): (ps: seq<Obj>)
    ensures |ps| == |raw|
  {
    seq(|raw|, i requires 0 <= i < |raw| => Normalise(raw[i], i))
  }

  /** The ids handed out by the normaliser are distinct, so a vote names one player. */
  lemma LoadPlayersDistinctIds(raw: seq<Obj>)
    ensures forall i, j :: 0 <= i < j < |raw| ==> Get(LoadPlayers(raw)[i], "id") != Get(LoadPlayers(raw)[j], "id")
  {
    forall i, j | 0 <= i < j < |raw|
      ensures Get(LoadPlayers(raw)[i], "id") != Get(LoadPlayers(raw)[j], "id")
    {
      NormaliseDerived(raw[i], i);
      NormaliseDerived(raw[j], j);
      DecimalStringInjective(i, j);
    }
  }

  // ----- the round reset -----

  /** `loadNewPlayers()`: the vote selection is cleared before the next three players
      are drawn (drawing and rendering them is not modelled). */
  method LoadNewPlayers(votes: Votes.VoteBoard<string, string>)
    modifies votes
    ensures votes.Valid() && votes.entries == []
    ensures !votes.SubmitEnabled()
  {
    votes.Clear();
  }

  // ----- the Elo step -----

  const KFactor: real := 32.0
  const EloScale: real := 400.0

  /** What the model needs of `x => Math.pow(10, x)`: it is positive, maps 0 to 1,
      and maps `-x` to the reciprocal of its value at `x`. */
  ghost predicate IsPow10(pow10: real -> real)
  {
    pow10(0.0) == 1.0 &&
    (forall x :: pow10(x) > 0.0) &&
    (forall x :: pow10(-x) * pow10(x) == 1.0)
  }

  /** `calculateExpectedScore(valueA, valueB)`: the probability the Elo model gives
      to A beating B. */
  function ExpectedScore(pow10: real -> real, valueA: real, valueB: real): (e: real)
    requires IsPow10(pow10)
    ensures 0.0 < e < 1.0
  {
    var t := pow10((valueB - valueA) / EloScale);
    assert t > 0.0;
    1.0 / (1.0 + t)
  }

  /** `Math.round(x)`: the nearest integer, halves rounded up. */
  function Round(x: real): (n: int)
    ensures x - 0.5 < n as real <= x + 0.5
  {
    (x + 0.5).Floor
  }

  /** `calculateNewValue(oldValue, expectedScore, actualScore)` */
  function NewValue(oldValue: int, expected: real, actual: real): (r: int)
    ensures var exact := oldValue as real + KFactor * (actual - expected);
            exact - 0.5 < r as real <= exact + 0.5
  {
    Round(oldValue as real + KFactor * (actual - expected))
  }

  /** The two expected scores of one pairing add up to 1. */
  lemma ExpectedScoreComplement(pow10: real -> real, a: real, b: real)
    requires IsPow10(pow10)
    ensures ExpectedScore(pow10, a, b) + ExpectedScore(pow10, b, a) == 1.0
  {
    var x := (b - a) / EloScale;
    assert (a - b) / EloScale == -x;
    var t, u := pow10(x), pow10(-x);
    assert u * t == 1.0 && t > 0.0 && u > 0.0;
    assert 1.0 / (1.0 + u) == t / (t + 1.0) by {
      assert (1.0 + u) * t == t + 1.0;
    }
    assert 1.0 / (1.0 + t) + t / (t + 1.0) == 1.0;
  }

  /** Two players of equal value are even. */
  lemma ExpectedScoreEven(pow10: real -> real, a: real)
    requires IsPow10(pow10)
    ensures ExpectedScore(pow10, a, a) == 0.5
  {
    assert (a - a) / EloScale == 0.0;
  }

  /** Exactly one side of an uneven pairing is favoured: A's expected score exceeds
      a half exactly when B's falls below it. */
  lemma ExpectedScoreFavourite(pow10: real -> real, a: real, b: real)
    requires IsPow10(pow10)
    ensures ExpectedScore(pow10, a, b) > 0.5 <==> ExpectedScore(pow10, b, a) < 0.5
  {
    ExpectedScoreComplement(pow10, a, b);
  }

  lemma RoundShift(n: int, x: real)
    ensures Round(n as real + x) == n + Round(x)
  {
  }

  /** A win moves a value up by between 0 and `K_FACTOR` points. */
  lemma WinnerGains(oldValue: int, expected: real)
    requires 0.0 <= expected <= 1.0
    ensures oldValue <= NewValue(oldValue, expected, 1.0) <= oldValue + 32
  {
  }

  /** A loss moves a value down by between 0 and `K_FACTOR` points. */
  lemma LoserLoses(oldValue: int, expected: real)
    requires 0.0 <= expected <= 1.0
    ensures oldValue - 32 <= NewValue(oldValue, expected, 0.0) <= oldValue
  {
  }

  /** The new value never falls as the result gets better, and never rises as the
      expectation gets higher. */
  lemma NewValueMonotone(oldValue: int, e1: real, e2: real, s1: real, s2: real)
    requires e2 <= e1 && s1 <= s2
    ensures NewValue(oldValue, e1, s1) <= NewValue(oldValue, e2, s2)
  {
    var x1 := oldValue as real + KFactor * (s1 - e1);
    var x2 := oldValue as real + KFactor * (s2 - e2);
    assert x1 <= x2;
  }

  lemma RoundOpposite(y: real)
    ensures Round(y) + Round(-y) == 0 || Round(y) + Round(-y) == 1
  {
  }

  /** When A beats B with the expected scores of their pairing, the points A gains
      and the points B loses differ by at most one: rounding both at a half point
      rounds both up. */
  lemma PairingNearlyZeroSum(pow10: real -> real, a: int, b: int)
    requires IsPow10(pow10)
    ensures var gain := NewValue(a, ExpectedScore(pow10, a as real, b as real), 1.0) - a;
            var loss := b - NewValue(b, ExpectedScore(pow10, b as real, a as real), 0.0);
            0 <= loss <= gain <= 32 && gain <= loss + 1
  {
    var ea := ExpectedScore(pow10, a as real, b as real);
    var eb := ExpectedScore(pow10, b as real, a as real);
    ExpectedScoreComplement(pow10, a as real, b as real);
    var y := KFactor * (1.0 - ea);
    assert KFactor * (0.0 - eb) == -y;
    RoundShift(a, y);
    RoundShift(b, -y);
    RoundOpposite(y);
    WinnerGains(a, ea);
    LoserLoses(b, eb);
  }

  /** Between equal values the winner gains 16 and the loser gives up 16. */
  lemma EvenPairing(pow10: real -> real, v: int)
    requires IsPow10(pow10)
    ensures NewValue(v, ExpectedScore(pow10, v as real, v as real), 1.0) == v + 16
    ensures NewValue(v, ExpectedScore(pow10, v as real, v as real), 0.0) == v - 16
  {
    ExpectedScoreEven(pow10, v as real);
  }
}
