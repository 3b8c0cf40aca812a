/** The server's write-back of new player values: every stored player is given a
    default id, then each update in the request is applied to the first player
    with its id, or failing that to the first player with its name, and the
    number of updates that found a player is reported. */
module WriteBack {
  import opened JsValues

  /** One element of the request body, `{id, name, newValue}` (a missing field is `Undefined`). */
  datatype Update = Update(id: Val, name: Val, newValue: Val)

  /** The handler's answer on the path that reads and parses the players file. */
  datatype Response = Response(success: bool, updatedCount: nat, message: string)

  /** `{...player, id: player.id !== undefined ? player.id : String(index)}` */
  function WithId(p: Obj, index: nat): Obj {
    p["id" := if Get(p, "id") != Undefined then Get(p, "id") else Str(DecimalString(index))]
  }

  /** Every player leaves with an id: its own when it had one, else its index
      as a string; every other field passes through. */
  function WithDefaultIds(ps: seq<Obj>): (r: seq<Obj>)
    ensures |r| == |ps|
    ensures forall i :: 0 <= i < |ps| ==>
      Get(r[i], "id") == (if Get(ps[i], "id") == Undefined then Str(DecimalString(i)) else Get(ps[i], "id"))
    ensures forall i :: 0 <= i < |ps| ==> Get(r[i], "id") != Undefined
    ensures forall i, key :: 0 <= i < |ps| && key != "id" ==> Get(r[i], key) == Get(ps[i], key)
  {
    seq(|ps|, i requires 0 <= i < |ps| => WithId(ps[i], i))
  }

  /** The player an update lands on (see TargetSpec). */
  function Target(ps: seq<Obj>, u: Update): Option<nat> {
    match FindFirst(ps, "id", u.id)
    case Some(k) => Some(k)
    case None => if Truthy(u.name) then FindFirst(ps, "Name", u.name) else None
  }

  /** An update lands on the first player with the update's id; only when no
      player has that id and the update carries a (truthy) name, on the first
      player with exactly that Name; otherwise on none. */
  lemma TargetSpec(ps: seq<Obj>, u: Update)
    ensures (exists j :: 0 <= j < |ps| && StrictEquals(Get(ps[j], "id"), u.id)) ==>
      Target(ps, u).Some? && Target(ps, u).value < |ps| && StrictEquals(Get(ps[Target(ps, u).value], "id"), u.id) &&
      forall j :: 0 <= j < Target(ps, u).value ==> !StrictEquals(Get(ps[j], "id"), u.id)
    ensures (forall j :: 0 <= j < |ps| ==> !StrictEquals(Get(ps[j], "id"), u.id)) ==>
      if Truthy(u.name) && exists j :: 0 <= j < |ps| && StrictEquals(Get(ps[j], "Name"), u.name) then
        Target(ps, u).Some? && Target(ps, u).value < |ps| && StrictEquals(Get(ps[Target(ps, u).value], "Name"), u.name) &&
        forall j :: 0 <= j < Target(ps, u).value ==> !StrictEquals(Get(ps[j], "Name"), u.name)
      else Target(ps, u).None?
  {
  }

  /** One turn of the `forEach`: `player.Value = update.newValue` on the target. */
  function ApplyUpdate(ps: seq<Obj>, u: Update): seq<Obj> {
    match Target(ps, u)
    case Some(k) => if k < |ps| then ps[k := ps[k]["Value" := u.newValue]] else ps
    case None => ps
  }

  /** The players after the updates are applied in order. */
  function AfterUpdates(ps: seq<Obj>, us: seq<Update>): seq<Obj> {
    if us == [] then ps
    else ApplyUpdate(AfterUpdates(ps, us[..|us| - 1]), us[|us| - 1])
  }

  /** `updatedCount`: how many of the updates found a player when their turn came. */
  function UpdatedCount(ps: seq<Obj>, us: seq<Update>): (r: nat)
    ensures r <= |us|
  {
    if us == [] then 0
    else
      var n := |us| - 1;
      UpdatedCount(ps, us[..n]) + (if Target(AfterUpdates(ps, us[..n]), us[n]).Some? then 1 else 0)
  }

  /** The last update that lands on player `i`, judged against the players `ps`. */
  function LastHit(ps: seq<Obj>, us: seq<Update>, i: nat): (r: Option<nat>)
    ensures r.Some? ==> r.value < |us| && Target(ps, us[r.value]) == Some(i)
    ensures r.Some? ==> forall j :: r.value < j < |us| ==> Target(ps, us[j]) != Some(i)
    ensures r.None? ==> forall j :: 0 <= j < |us| ==> Target(ps, us[j]) != Some(i)
  {
    if us == [] then None
    else if Target(ps, us[|us| - 1]) == Some(i) then Some(|us| - 1)
    else LastHit(ps, us[..|us| - 1], i)
  }

  /** Two player lists that agree on every id and Name send every update to the same place. */
  lemma TargetIgnoresValues(ps: seq<Obj>, qs: seq<Obj>, u: Update)
    requires |ps| == |qs|
    requires forall i :: 0 <= i < |ps| ==> Get(ps[i], "id") == Get(qs[i], "id") && Get(ps[i], "Name") == Get(qs[i], "Name")
    ensures Target(ps, u) == Target(qs, u)
  {
    FindFirstAgrees(ps, qs, "id", u.id);
    FindFirstAgrees(ps, qs, "Name", u.name);
  }

  lemma {:induction false} FindFirstAgrees(ps: seq<Obj>, qs: seq<Obj>, key: string, v: Val)
    requires |ps| == |qs|
    requires forall i :: 0 <= i < |ps| ==> Get(ps[i], key) == Get(qs[i], key)
    ensures FindFirst(ps, key, v) == FindFirst(qs, key, v)
  {
    if ps != [] {
      FindFirstAgrees(ps[1..], qs[1..], key, v);
    }
  }

  /** Applying updates never changes the number or order of the players, nor any
      field but Value: each player either is untouched or has its Value replaced. */
  lemma {:induction false} AfterUpdatesFrame(ps: seq<Obj>, us: seq<Update>)
    ensures |AfterUpdates(ps, us)| == |ps|
    ensures forall i, key :: 0 <= i < |ps| && key != "Value" ==> Get(AfterUpdates(ps, us)[i], key) == Get(ps[i], key)
    ensures forall u :: Target(AfterUpdates(ps, us), u) == Target(ps, u)
  {
    if us != [] {
      var n := |us| - 1;
      AfterUpdatesFrame(ps, us[..n]);
      var before := AfterUpdates(ps, us[..n]);
      var after := AfterUpdates(ps, us);
      assert |after| == |before|;
      assert forall i, key :: 0 <= i < |ps| && key != "Value" ==> Get(after[i], key) == Get(before[i], key);
      forall u ensures Target(after, u) == Target(ps, u) {
        TargetIgnoresValues(after, before, u);
      }
    }
  }

  /** Updates apply in sequence: each player ends with the `newValue` of the LAST
      update that lands on it, and a player no update lands on is unchanged. */
  lemma {:induction false} LastUpdateWins(ps: seq<Obj>, us: seq<Update>, i: nat)
    requires i < |ps|
    ensures |AfterUpdates(ps, us)| == |ps|
    ensures AfterUpdates(ps, us)[i] ==
      match LastHit(ps, us, i)
      case None => ps[i]
      case Some(j) => ps[i]["Value" := us[j].newValue]
  {
    AfterUpdatesFrame(ps, us);
    if us != [] {
      var n := |us| - 1;
      var front := us[..n];
      var before := AfterUpdates(ps, front);
      LastUpdateWins(ps, front, i);
      AfterUpdatesFrame(ps, front);
      var t := Target(ps, us[n]);
      assert Target(before, us[n]) == t;
      assert AfterUpdates(ps, us) == ApplyUpdate(before, us[n]);
      assert LastHit(ps, us, i) == if t == Some(i) then Some(n) else LastHit(ps, front, i);
      if t == Some(i) {
        assert AfterUpdates(ps, us)[i] == before[i]["Value" := us[n].newValue];
        match LastHit(ps, front, i)
        case None =>
        case Some(j) =>
          assert before[i]["Value" := us[n].newValue] == ps[i]["Value" := us[n].newValue];
      } else {
        assert AfterUpdates(ps, us)[i] == before[i];
        match LastHit(ps, front, i)
        case None =>
        case Some(j) =>
          assert front[j] == us[j];
      }
    }
  }

  /** The updates that find a player, judged against the stored players. */
  function Hits(ps: seq<Obj>, us: seq<Update>): set<nat> {
    set j | 0 <= j < |us| && Target(ps, us[j]).Some?
  }

  /** `updatedCount` is the number of updates that found a target by id or by name. */
  lemma {:induction false} UpdatedCountIsHits(ps: seq<Obj>, us: seq<Update>)
    ensures UpdatedCount(ps, us) == |Hits(ps, us)|
  {
    if us != [] {
      var n := |us| - 1;
      var front := us[..n];
      UpdatedCountIsHits(ps, front);
      AfterUpdatesFrame(ps, front);
      var hit := Target(ps, us[n]).Some?;
      assert Target(AfterUpdates(ps, front), us[n]) == Target(ps, us[n]);
      assert UpdatedCount(ps, us) == UpdatedCount(ps, front) + (if hit then 1 else 0);
      HitsStep(ps, us);
    }
  }

  lemma HitsStep(ps: seq<Obj>, us: seq<Update>)
    requires us != []
    ensures Hits(ps, us) == Hits(ps, us[..|us| - 1]) + (if Target(ps, us[|us| - 1]).Some? then {|us| - 1} else {})
    ensures |us| - 1 !in Hits(ps, us[..|us| - 1])
  {
    var n := |us| - 1;
    var front := us[..n];
    forall j ensures j in Hits(ps, us) <==> (j in Hits(ps, front) || (j == n && Target(ps, us[n]).Some?)) {
      if 0 <= j < n {
        assert front[j] == us[j];
      }
    }
  }

  /** The loop at lines 22-41, in place on the parsed players array. */
  method ApplyUpdates(players: array<Obj>, updates: seq<Update>) returns (updatedCount: nat)
    modifies players
    ensures players[..] == AfterUpdates(old(players[..]), updates)
    ensures updatedCount == UpdatedCount(old(players[..]), updates)
  {
    ghost var start := players[..];
    updatedCount := 0;
    for i := 0 to |updates|
      invariant players[..] == AfterUpdates(start, updates[..i])
      invariant updatedCount == UpdatedCount(start, updates[..i])
    {
      assert updates[..i + 1][..i] == updates[..i];
      var u := updates[i];
      var byId := FindFirst(players[..], "id", u.id);
      if byId.Some? {
        var k := byId.value;
        players[k] := players[k]["Value" := u.newValue];
        updatedCount := updatedCount + 1;
      } else if Truthy(u.name) {
        var byName := FindFirst(players[..], "Name", u.name);
        if byName.Some? {
          var k := byName.value;
          players[k] := players[k]["Value" := u.newValue];
          updatedCount := updatedCount + 1;
        }
      }
    }
    assert updates[..|updates|] == updates;
  }

  /** `updatePlayerValues(updates)` given the parsed contents of the players file:
      it always succeeds with the count, and the file is rewritten (with the
      updated players) exactly when some update found a player. */
  method UpdatePlayerValues(stored: seq<Obj>, updates: seq<Update>) returns (response: Response, written: Option<seq<Obj>>)
    ensures response.success
    ensures response.updatedCount == UpdatedCount(WithDefaultIds(stored), updates)
    ensures response.message == "Successfully updated " + DecimalString(response.updatedCount) + " players"
    ensures written.Some? <==> response.updatedCount > 0
    ensures written.Some? ==> written.value == AfterUpdates(WithDefaultIds(stored), updates)
  {
    var players := WithDefaultIds(stored);
    var a := new Obj[|players|](i requires 0 <= i < |players| => players[i]);
    assert a[..] == players;
    var count := ApplyUpdates(a, updates);
    if count > 0 {
      written := Some(a[..]);
    } else {
      written := None;
    }
    response := Response(true, count, "Successfully updated " + DecimalString(count) + " players");
  }
}
