/** The Keep/Trade/Cut home page: cleaning the loaded player records, removing
    duplicate Names with `Map` semantics, attaching the derived `id`, `value` and
    `trend`, and the player search box. */
module App {
  import opened JsValues
  import opened JsMaps
  import StartBenchCut

  // ----- cleaning the raw records -----

  /** The record kept for the raw player at `index`: exactly seven fields, the six
      defaulted ones and `Name`, copied. */
  function Clean(p: Obj, index: nat): Obj {
    StartBenchCut.Defaults(p, index)["Name" := Get(p, "Name")]
  }

  lemma CleanSpec(p: Obj, index: nat)
    ensures Clean(p, index).Keys == StartBenchCut.DefaultedKeys + {"Name"}
    ensures forall key :: key in StartBenchCut.DefaultedKeys ==>
      StartBenchCut.Defaulted(Get(p, key), Get(Clean(p, index), key), StartBenchCut.DefaultFor(key, index))
    ensures Get(Clean(p, index), "Name") == Get(p, "Name")
  {
  }

  /** Both pages default the six shared fields the same way. */
  lemma CleanAgreesWithStartBenchCut(p: Obj, index: nat)
    ensures forall key :: key in StartBenchCut.DefaultedKeys ==>
      Get(Clean(p, index), key) == Get(StartBenchCut.Normalise(p, index), key)
  {
    StartBenchCut.KeysApart(p, index);
  }

  /** Cleaning a cleaned record again, at the same index, changes nothing. */
  lemma CleanIdempotent(p: Obj, index: nat)
    ensures Clean(Clean(p, index), index) == Clean(p, index)
  {
    var q := Clean(p, index);
    StartBenchCut.DefaultsStable(p, q, index);
    assert Get(q, "Name") == Get(p, "Name");
  }

  /** `players.map((player, index) => ({ ... }))` */
  function CleanAll(raw: seq<Obj>): (ps: seq<Obj>)
    ensures |ps| == |raw|
  {
    seq(|raw|, i requires 0 <= i < |raw| => Clean(raw[i], i))
  }

  // ----- removing duplicate Names -----

  function Name(p: Obj): Val {
    Get(p, "Name")
  }

  function Names(ps: seq<Obj>): seq<Val> {
    seq(|ps|, i requires 0 <= i < |ps| => Name(ps[i]))
  }

  /** `players.map(player => [player.Name, player])` */
  function Pairs(ps: seq<Obj>): seq<(Val, Obj)> {
    seq(|ps|, i requires 0 <= i < |ps| => (Name(ps[i]), ps[i]))
  }

  /** `Array.from(new Map(<the pairs>).values())` */
  function Unique(ps: seq<Obj>): seq<Obj> {
    Values(FromEntries(Pairs(ps)))
  }

  lemma PairsKeys(ps: seq<Obj>)
    ensures Keys(Pairs(ps)) == Names(ps)
  {
  }

  /** Each surviving record sits under its own Name, and that record is the last
      input record with that Name. */
  lemma UniqueEntries(ps: seq<Obj>)
    ensures |Unique(ps)| == |FromEntries(Pairs(ps))|
    ensures forall i :: 0 <= i < |Unique(ps)| ==>
      Name(Unique(ps)[i]) == Keys(FromEntries(Pairs(ps)))[i] &&
      Name(Unique(ps)[i]) in Keys(Pairs(ps)) &&
      Unique(ps)[i] == ps[LastIndexOfKey(Pairs(ps), Name(Unique(ps)[i]))]
  {
    PairsKeys(ps);
    var pairs := Pairs(ps);
    var m := FromEntries(pairs);
    FromEntriesValues(pairs);
    forall i | 0 <= i < |m|
      ensures Name(m[i].1) == Keys(m)[i] && m[i].1 == ps[LastIndexOfKey(pairs, Keys(m)[i])]
    {
      var k := Keys(m)[i];
      var last := LastIndexOfKey(pairs, k);
      assert pairs[last] == (Name(ps[last]), ps[last]);
    }
    assert forall i :: 0 <= i < |m| ==> Unique(ps)[i] == m[i].1;
  }

  /** No two surviving records share a Name. */
  lemma UniqueNamesDistinct(ps: seq<Obj>)
    ensures forall i, j :: 0 <= i < j < |Unique(ps)| ==> Name(Unique(ps)[i]) != Name(Unique(ps)[j])
  {
    UniqueEntries(ps);
    FromEntriesKeys(Pairs(ps));
    var m := FromEntries(Pairs(ps));
    forall i, j | 0 <= i < j < |m| ensures Keys(m)[i] != Keys(m)[j] {
    }
  }

  /** Every Name of the input survives, and no other. */
  lemma UniqueKeepsEveryName(ps: seq<Obj>)
    ensures forall x :: x in Names(Unique(ps)) <==> x in Names(ps)
  {
    UniqueEntries(ps);
    FromEntriesKeys(Pairs(ps));
    PairsKeys(ps);
    var m := FromEntries(Pairs(ps));
    var u := Unique(ps);
    assert Names(u) == Keys(m);
  }

  /** No record after the one at `j` has its Name. */
  predicate LastWithName(ps: seq<Obj>, j: nat)
    requires j < |ps|
  {
    forall k :: j < k < |ps| ==> Name(ps[k]) != Name(ps[j])
  }

  /** The surviving record for a Name is the last input record with that Name. */
  lemma UniqueLastWins(ps: seq<Obj>)
    ensures forall i :: 0 <= i < |Unique(ps)| ==>
      exists j :: 0 <= j < |ps| && Unique(ps)[i] == ps[j] && LastWithName(ps, j)
  {
    UniqueEntries(ps);
    PairsKeys(ps);
    var pairs := Pairs(ps);
    forall i | 0 <= i < |Unique(ps)|
      ensures exists j :: 0 <= j < |ps| && Unique(ps)[i] == ps[j] && LastWithName(ps, j)
    {
      var x := Name(Unique(ps)[i]);
      var j := LastIndexOfKey(pairs, x);
      assert pairs[j].0 == Name(ps[j]);
      forall k | j < k < |ps| ensures Name(ps[k]) != Name(ps[j]) {
        assert pairs[k].0 == Name(ps[k]);
      }
    }
  }

  /** The surviving records stand in the order of the FIRST record with each Name. */
  lemma UniqueFirstPosition(ps: seq<Obj>)
    ensures forall i, j :: 0 <= i < j < |Unique(ps)| ==>
      Name(Unique(ps)[i]) in Keys(Pairs(ps)) && Name(Unique(ps)[j]) in Keys(Pairs(ps)) &&
      IndexOfKey(Pairs(ps), Name(Unique(ps)[i])) < IndexOfKey(Pairs(ps), Name(Unique(ps)[j]))
  {
    UniqueEntries(ps);
    FromEntriesOrder(Pairs(ps));
  }

  /** At most one record per input record survives. */
  lemma UniqueShrinks(ps: seq<Obj>)
    ensures |Unique(ps)| <= |ps|
  {
    UniqueEntries(ps);
    FromEntriesLength(Pairs(ps));
  }

  // ----- the derived fields -----

  /** A value `Math.random()` can return. */
  type Draw = r: real | 0.0 <= r < 1.0

  /** `Math.floor(Math.random() * 2000) + 8000` for a draw `r` of `Math.random()`. */
  function RandomValue(r: Draw): (v: int)
    ensures 8000 <= v <= 9999
  {
    (r * 2000.0).Floor + 8000
  }

  /** `['up', 'down', 'stable'][Math.floor(Math.random() * 3)]` */
  function RandomTrend(r: Draw): (t: string)
    ensures t == "up" || t == "down" || t == "stable"
  {
    ["up", "down", "stable"][(r * 3.0).Floor]
  }

  /** `uniquePlayers.map(player => ({...player, id: player.Number, value, trend}))`,
      where each player consumes two draws of `Math.random()`, given here. */
  function WithDerived(us: seq<Obj>, draws: seq<(Draw, Draw)>): seq<Obj>
    requires |draws| == |us|
  {
    seq(|us|, i requires 0 <= i < |us| =>
      us[i]["id" := Get(us[i], "Number")]
           ["value" := Num(RandomValue(draws[i].0))]
           ["trend" := Str(RandomTrend(draws[i].1))])
  }

  /** A loaded player's `id` is its `Number`, its `value` lies in 8000..9999, its
      `trend` is one of the three labels, and every other field is its own. */
  lemma WithDerivedSpec(us: seq<Obj>, draws: seq<(Draw, Draw)>)
    requires |draws| == |us|
    ensures |WithDerived(us, draws)| == |us|
    ensures forall i :: 0 <= i < |us| ==>
      Get(WithDerived(us, draws)[i], "id") == Get(us[i], "Number") &&
      Get(WithDerived(us, draws)[i], "value").Num? &&
      8000 <= Get(WithDerived(us, draws)[i], "value").n <= 9999 &&
      Get(WithDerived(us, draws)[i], "trend") in {Str("up"), Str("down"), Str("stable")}
    ensures forall i, key :: 0 <= i < |us| && key !in {"id", "value", "trend"} ==>
      Get(WithDerived(us, draws)[i], key) == Get(us[i], key)
  {
  }

  /** One of the built-in sample records: a right-handed pitcher. */
  function Sample(number: string, age: string, team: string, name: string, headshot: string,
                  value: int, trend: string): Obj
  {
    map["Number" := Str(number), "Hand" := Str("R"), "Age" := Str(age), "Team" := Str(team),
        "Name" := Str(name), "Position" := Str("Pitcher"), "Headshot" := Str(headshot),
        "id" := Str(number), "value" := Num(value), "trend" := Str(trend)]
  }

  const HeadshotBase: string := "http://cdn.ssref.net/scripts/image_resize.cgi?min=200&url=https://www.baseball-reference.com/req/202412180/images/headshots/"

  /** The three records `ALL_PLAYERS` falls back to when loading fails. */
  function Fallback(): seq<Obj> {
    [
      Sample("1", "28", "SF", "Logan Webb", HeadshotBase + "a/af25c562_mlbam.jpg", 9500, "up"),
      Sample("2", "34", "Phi", "Zack Wheeler", HeadshotBase + "c/ceefd163_mlbam.jpg", 9300, "stable"),
      Sample("3", "31", "Phi", "Aaron Nola", HeadshotBase + "6/62b4d109_mlbam.jpg", 9100, "down")
    ]
  }

  /** The players a successful load leaves in `ALL_PLAYERS`. */
  function Loaded(raw: seq<Obj>, draws: seq<(Draw, Draw)>): seq<Obj>
    requires |draws| == |Unique(CleanAll(raw))|
  {
    WithDerived(Unique(CleanAll(raw)), draws)
  }

  /** `loadPlayers()`: `raw` is the parsed `players.json`, or `None` when fetching
      or parsing it failed; the result is `ALL_PLAYERS` and whether loading succeeded. */
  function LoadPlayers(raw: Option<seq<Obj>>, draws: seq<(Draw, Draw)>): (r: (seq<Obj>, bool))
    requires raw.Some? ==> |draws| == |Unique(CleanAll(raw.value))|
    ensures r.1 <==> raw.Some?
  {
    match raw
    case None => (Fallback(), false)
    case Some(ps) => (Loaded(ps, draws), true)
  }

  /** Whichever way loading goes, the players have distinct Names, `id` equal to
      `Number`, a `value` in 8000..9999 and one of the three trends. */
  lemma LoadPlayersShape(raw: Option<seq<Obj>>, draws: seq<(Draw, Draw)>)
    requires raw.Some? ==> |draws| == |Unique(CleanAll(raw.value))|
    ensures forall i, j :: 0 <= i < j < |LoadPlayers(raw, draws).0| ==>
      Name(LoadPlayers(raw, draws).0[i]) != Name(LoadPlayers(raw, draws).0[j])
    ensures forall i :: 0 <= i < |LoadPlayers(raw, draws).0| ==>
      Get(LoadPlayers(raw, draws).0[i], "id") == Get(LoadPlayers(raw, draws).0[i], "Number") &&
      Get(LoadPlayers(raw, draws).0[i], "value").Num? &&
      8000 <= Get(LoadPlayers(raw, draws).0[i], "value").n <= 9999 &&
      Get(LoadPlayers(raw, draws).0[i], "trend") in {Str("up"), Str("down"), Str("stable")}
  {
    match raw
    case None =>
    case Some(ps) =>
      var us := Unique(CleanAll(ps));
      var r := WithDerived(us, draws);
      WithDerivedSpec(us, draws);
      UniqueNamesDistinct(CleanAll(ps));
      forall i | 0 <= i < |r| ensures Name(r[i]) == Name(us[i]) {
        assert "Name" !in {"id", "value", "trend"};
      }
      forall i | 0 <= i < |r| ensures Get(r[i], "Number") == Get(us[i], "Number") {
        assert "Number" !in {"id", "value", "trend"};
      }
  }

  // ----- the search box -----

  /** What the dropdown under a search box shows after an input event. */
  datatype Dropdown =
    | Hidden                      // the lower-cased term is shorter than 2
    | Listed(matches: seq<Obj>)   // up to five players; none means "No players found"
    | Thrown                      // the filter hit a Name or Team without `toLowerCase`

  /** `player.Name.toLowerCase().includes(term) || player.Team.toLowerCase().includes(term)`,
      with `None` for the TypeError a field that is not a string raises; `Team` is
      only read when `Name` does not match. */
  function Hit(p: Obj, term: string): Option<bool> {
    match Get(p, "Name")
    case Str(name) =>
      if Includes(ToLower(name), term) then Some(true)
      else (match Get(p, "Team")
            case Str(team) => Some(Includes(ToLower(team), term))
            case _ => None)
    case _ => None
  }

  /** `ALL_PLAYERS.filter(<Hit>)`; the first throwing player aborts it. */
  function Filter(ps: seq<Obj>, term: string): Option<seq<Obj>> {
    if ps == [] then Some([])
    else
      match Hit(ps[0], term)
      case None => None
      case Some(keep) =>
        match Filter(ps[1..], term)
        case None => None
        case Some(rest) => Some((if keep then [ps[0]] else []) + rest)
  }

  /** The search handler: `value.toLowerCase()`, the length test, the filter and `slice(0, 5)`. */
  function Search(ps: seq<Obj>, input: string): Dropdown {
    var term := ToLower(input);
    if Utf16Length(term) < 2 then Hidden
    else
      match Filter(ps, term)
      case None => Thrown
      case Some(ms) => Listed(if |ms| <= 5 then ms else ms[..5])
  }

  /** The filter succeeds exactly when every player can be tested, and it then keeps
      exactly the players that match, each one from the input. */
  lemma {:induction false} FilterSpec(ps: seq<Obj>, term: string)
    ensures Filter(ps, term).Some? <==> forall i :: 0 <= i < |ps| ==> Hit(ps[i], term).Some?
    ensures Filter(ps, term).Some? ==>
      |Filter(ps, term).value| <= |ps| &&
      (forall p :: p in Filter(ps, term).value ==> p in ps && Hit(p, term) == Some(true)) &&
      (forall i :: 0 <= i < |ps| && Hit(ps[i], term) == Some(true) ==> ps[i] in Filter(ps, term).value)
  {
    if ps != [] {
      FilterSpec(ps[1..], term);
      assert forall i :: 1 <= i < |ps| ==> ps[i] == ps[1..][i - 1];
      if (forall i :: 0 <= i < |ps| ==> Hit(ps[i], term).Some?) {
        assert Hit(ps[0], term).Some?;
        assert forall i :: 0 <= i < |ps[1..]| ==> Hit(ps[1..][i], term).Some? by {
          forall i | 0 <= i < |ps[1..]| ensures Hit(ps[1..][i], term).Some? {
            assert ps[1..][i] == ps[i + 1];
          }
        }
      }
      if Filter(ps, term).Some? {
        forall p | p in Filter(ps[1..], term).value ensures p in ps {
          assert p in ps[1..];
        }
      }
    }
  }

  /** `a` is `b` with some elements dropped, the rest in their order. */
  predicate SubsequenceOf(a: seq<Obj>, b: seq<Obj>) {
    if a == [] then true
    else if b == [] then false
    else (a[0] == b[0] && SubsequenceOf(a[1..], b[1..])) || SubsequenceOf(a, b[1..])
  }

  /** The filter result is the matching players in input order: a subsequence of the
      input holding each matching player as often as the input does, and no other. */
  lemma {:induction false} FilterInOrder(ps: seq<Obj>, term: string)
    requires Filter(ps, term).Some?
    ensures SubsequenceOf(Filter(ps, term).value, ps)
    ensures forall p :: multiset(Filter(ps, term).value)[p] == if Hit(p, term) == Some(true) then multiset(ps)[p] else 0
  {
    if ps != [] {
      var rest := Filter(ps[1..], term).value;
      FilterInOrder(ps[1..], term);
      var keep := Hit(ps[0], term) == Some(true);
      var head: seq<Obj> := if keep then [ps[0]] else [];
      var r := head + rest;
      assert Filter(ps, term).value == r;
      assert ps == [ps[0]] + ps[1..];
      assert multiset(ps) == multiset{ps[0]} + multiset(ps[1..]);
      assert multiset(r) == multiset(head) + multiset(rest);
      if keep {
        assert r[0] == ps[0] && r[1..] == rest;
      } else {
        assert r == rest;
        SubsequenceDropHead(rest, ps);
      }
    }
  }

  lemma SubsequenceDropHead(a: seq<Obj>, b: seq<Obj>)
    requires b != [] && SubsequenceOf(a, b[1..])
    ensures SubsequenceOf(a, b)
  {
  }

  /** The filter keeps the players' order: filtering a concatenation concatenates
      the filtered parts. */
  lemma {:induction false} FilterAppend(a: seq<Obj>, b: seq<Obj>, term: string)
    requires Filter(a, term).Some? && Filter(b, term).Some?
    ensures Filter(a + b, term) == Some(Filter(a, term).value + Filter(b, term).value)
  {
    if a == [] {
      assert a + b == b;
      assert Filter(a, term).value + Filter(b, term).value == Filter(b, term).value;
    } else {
      var keep := Hit(a[0], term).value;
      var head: seq<Obj> := if keep then [a[0]] else [];
      var x := Filter(a[1..], term).value;
      var y := Filter(b, term).value;
      assert Filter(a, term).value == head + x;
      FilterAppend(a[1..], b, term);
      assert (a + b)[0] == a[0];
      assert (a + b)[1..] == a[1..] + b;
      assert Filter(a + b, term) == Some(head + (x + y));
      assert head + (x + y) == (head + x) + y;
    }
  }

  /** The dropdown is hidden exactly when the typed term is shorter than two UTF-16
      code units: an empty term, or one character of the Basic Multilingual Plane. */
  lemma SearchHiddenIff(ps: seq<Obj>, input: string)
    ensures Search(ps, input) == Hidden <==> Utf16Length(input) < 2
    ensures Search(ps, input) == Hidden <==> input == [] || (|input| == 1 && input[0] as int < 0x1_0000)
  {
    ToLowerUtf16Length(input);
    Utf16LengthBounds(input);
    if |input| == 1 {
      assert input == [input[0]] + [];
    }
  }

  /** A listed dropdown shows exactly the first `min(5, n)` of the `n` matches. */
  lemma SearchListsFirstFive(ps: seq<Obj>, input: string)
    ensures Search(ps, input).Listed? ==>
      Filter(ps, ToLower(input)).Some? &&
      var ms := Filter(ps, ToLower(input)).value;
      Search(ps, input).matches == ms[..if |ms| <= 5 then |ms| else 5]
    ensures Search(ps, input).Listed? ==>
      forall p :: p in Search(ps, input).matches ==> p in ps && Hit(p, ToLower(input)) == Some(true)
  {
    if Search(ps, input).Listed? {
      FilterSpec(ps, ToLower(input));
    }
  }

  /** When every player has a string Name and Team the search never throws. */
  lemma SearchNeverThrows(ps: seq<Obj>, input: string)
    requires forall i :: 0 <= i < |ps| ==> Get(ps[i], "Name").Str? && Get(ps[i], "Team").Str?
    ensures Search(ps, input) != Thrown
  {
    FilterSpec(ps, ToLower(input));
  }
}
