/** The risers and fallers page: joining the current players to an older snapshot
    by id, filtering the joined records by position, ordering them by value change,
    and choosing which snapshot file to compare against. */
module RisersFallers {
  import opened JsValues
  import opened Sorting

  // ----- the join -----

  /** The record for a current player and its snapshot entry:
      `{...current, valueChange: current.Value - snap.Value, oldValue: snap.Value}`. */
  function Change(c: Obj, s: Obj): Obj {
    c["valueChange" := Minus(Get(c, "Value"), Get(s, "Value"))]["oldValue" := Get(s, "Value")]
  }

  /** The record a current player yields: `None` (the `null` the source filters out)
      when no snapshot entry has its id. */
  function Joined(c: Obj, snapshot: seq<Obj>): Option<Obj> {
    match FindFirst(snapshot, "id", Get(c, "id"))
    case None => None
    case Some(j) => Some(Change(c, snapshot[j]))
  }

  /** `calculateValueChanges()`: map each current player to its record, then drop the nulls. */
  function ValueChanges(current: seq<Obj>, snapshot: seq<Obj>): seq<Obj> {
    if current == [] then []
    else
      (match Joined(current[0], snapshot) case None => [] case Some(r) => [r])
      + ValueChanges(current[1..], snapshot)
  }

  /** The record keeps every field of the current player except the two it sets:
      `valueChange` is the current value minus the snapshot value (`NaN` when either
      is not a number) and `oldValue` is the snapshot value. */
  lemma ChangeSpec(c: Obj, s: Obj)
    ensures forall key :: key != "valueChange" && key != "oldValue" ==> Get(Change(c, s), key) == Get(c, key)
    ensures Get(Change(c, s), "oldValue") == Get(s, "Value")
    ensures ToNumber(Get(c, "Value")).Some? && ToNumber(Get(s, "Value")).Some? ==>
      Get(Change(c, s), "valueChange") == Num(ToNumber(Get(c, "Value")).value - ToNumber(Get(s, "Value")).value)
    ensures ToNumber(Get(c, "Value")).None? || ToNumber(Get(s, "Value")).None? ==>
      Get(Change(c, s), "valueChange") == NaN
  {
  }

  /** Joining a concatenation concatenates the joins: the records keep the order
      of the current players. */
  lemma {:induction false} ValueChangesAppend(a: seq<Obj>, b: seq<Obj>, snapshot: seq<Obj>)
    ensures ValueChanges(a + b, snapshot) == ValueChanges(a, snapshot) + ValueChanges(b, snapshot)
  {
    if a == [] {
      assert a + b == b;
    } else {
      assert (a + b)[0] == a[0];
      assert (a + b)[1..] == a[1..] + b;
      ValueChangesAppend(a[1..], b, snapshot);
    }
  }

  /** There is at most one record per current player. */
  lemma {:induction false} ValueChangesLength(current: seq<Obj>, snapshot: seq<Obj>)
    ensures |ValueChanges(current, snapshot)| <= |current|
  {
    if current != [] {
      ValueChangesLength(current[1..], snapshot);
    }
  }

  /** Every record comes from a current player that has a snapshot entry with its id,
      joined with the FIRST such entry. */
  lemma {:induction false} ValueChangesSound(current: seq<Obj>, snapshot: seq<Obj>)
    ensures forall r :: r in ValueChanges(current, snapshot) ==>
      exists i :: 0 <= i < |current| && Joined(current[i], snapshot) == Some(r)
  {
    if current != [] {
      ValueChangesSound(current[1..], snapshot);
      forall r | r in ValueChanges(current, snapshot)
        ensures exists i :: 0 <= i < |current| && Joined(current[i], snapshot) == Some(r)
      {
        if Joined(current[0], snapshot) != Some(r) {
          assert r in ValueChanges(current[1..], snapshot);
          var i :| 0 <= i < |current[1..]| && Joined(current[1..][i], snapshot) == Some(r);
          assert current[i + 1] == current[1..][i];
        }
      }
    }
  }

  /** Every current player with a snapshot entry yields its record; exactly the
      players without one are dropped. */
  lemma {:induction false} ValueChangesComplete(current: seq<Obj>, snapshot: seq<Obj>)
    ensures forall i :: 0 <= i < |current| && Joined(current[i], snapshot).Some? ==>
      Joined(current[i], snapshot).value in ValueChanges(current, snapshot)
  {
    if current != [] {
      ValueChangesComplete(current[1..], snapshot);
      forall i | 0 <= i < |current| && Joined(current[i], snapshot).Some?
        ensures Joined(current[i], snapshot).value in ValueChanges(current, snapshot)
      {
        if i > 0 {
          assert current[i] == current[1..][i - 1];
        }
      }
    }
  }

  /** A player is joined exactly when some snapshot entry has the same id (`===`). */
  lemma JoinedIff(c: Obj, snapshot: seq<Obj>)
    ensures Joined(c, snapshot).Some? <==>
      exists j :: 0 <= j < |snapshot| && StrictEquals(Get(snapshot[j], "id"), Get(c, "id"))
  {
  }

  // ----- filtering and ordering -----

  predicate AtPosition(p: Obj, position: string) {
    StrictEquals(Get(p, "Position"), Str(position))
  }

  /** `filteredPlayers.filter(p => p.Position === position)` */
  function FilterPosition(ps: seq<Obj>, position: string): seq<Obj> {
    if ps == [] then []
    else (if AtPosition(ps[0], position) then [ps[0]] else []) + FilterPosition(ps[1..], position)
  }

  /** The position filter of `renderPlayers`: `'all'` keeps everything. */
  function ByPosition(ps: seq<Obj>, position: string): seq<Obj> {
    if position == "all" then ps else FilterPosition(ps, position)
  }

  /** The filter keeps exactly the records at the position, in order. */
  lemma {:induction false} FilterPositionSpec(ps: seq<Obj>, position: string)
    ensures |FilterPosition(ps, position)| <= |ps|
    ensures forall p :: p in FilterPosition(ps, position) <==> p in ps && AtPosition(p, position)
    ensures multiset(FilterPosition(ps, position)) <= multiset(ps)
  {
    if ps != [] {
      FilterPositionSpec(ps[1..], position);
      assert ps == [ps[0]] + ps[1..];
    }
  }

  lemma {:induction false} FilterPositionAppend(a: seq<Obj>, b: seq<Obj>, position: string)
    ensures FilterPosition(a + b, position) == FilterPosition(a, position) + FilterPosition(b, position)
  {
    if a == [] {
      assert a + b == b;
    } else {
      var ab := a + b;
      assert ab[0] == a[0] && ab[1..] == a[1..] + b;
      var head := if AtPosition(a[0], position) then [a[0]] else [];
      assert FilterPosition(ab, position) == head + FilterPosition(a[1..] + b, position);
      assert FilterPosition(a, position) == head + FilterPosition(a[1..], position);
      FilterPositionAppend(a[1..], b, position);
    }
  }

  /** The value change a record is ordered by; a record whose change is not a number
      is ordered as 0 (see the note on `SortOrder`). */
  function ChangeOf(p: Obj): int {
    match Get(p, "valueChange")
    case Num(n) => n
    case _ => 0
  }

  /** The comparator of `renderPlayers` as a sort key: `b.valueChange - a.valueChange`
      (descending) for `'risers'`, `a.valueChange - b.valueChange` otherwise.
      With a change that is not a number the comparator yields `NaN`, which leaves the
      order up to the engine; the model then uses the order of this key. */
  function SortOrder(sortBy: string): Obj -> int {
    if sortBy == "risers" then (p: Obj) => -ChangeOf(p) else (p: Obj) => ChangeOf(p)
  }

  /** What `renderPlayers(position, sortBy)` shows. */
  function Rendered(ps: seq<Obj>, position: string, sortBy: string): seq<Obj> {
    SortBy(ByPosition(ps, position), SortOrder(sortBy))
  }

  /** The shown records are a permutation of the records at the position, ordered
      by descending change for `'risers'` and ascending change otherwise, with ties
      in their previous order. */
  lemma RenderedSpec(ps: seq<Obj>, position: string, sortBy: string)
    ensures multiset(Rendered(ps, position, sortBy)) == multiset(ByPosition(ps, position))
    ensures position == "all" ==> multiset(Rendered(ps, position, sortBy)) == multiset(ps)
    ensures position != "all" ==> forall p :: p in Rendered(ps, position, sortBy) <==> p in ps && AtPosition(p, position)
    ensures sortBy == "risers" ==> (forall i, j :: 0 <= i < j < |Rendered(ps, position, sortBy)| ==>
      ChangeOf(Rendered(ps, position, sortBy)[i]) >= ChangeOf(Rendered(ps, position, sortBy)[j]))
    ensures sortBy != "risers" ==> (forall i, j :: 0 <= i < j < |Rendered(ps, position, sortBy)| ==>
      ChangeOf(Rendered(ps, position, sortBy)[i]) <= ChangeOf(Rendered(ps, position, sortBy)[j]))
    ensures forall k ::
      WithKey(Rendered(ps, position, sortBy), SortOrder(sortBy), k) == WithKey(ByPosition(ps, position), SortOrder(sortBy), k)
  {
    var key := SortOrder(sortBy);
    var filtered := ByPosition(ps, position);
    SortBySpec(filtered, key);
    FilterPositionSpec(ps, position);
    var r := Rendered(ps, position, sortBy);
    forall p ensures p in r <==> p in filtered {
      assert p in r <==> p in multiset(r);
    }
    forall i, j | 0 <= i < j < |r| ensures key(r[i]) <= key(r[j]) {
    }
  }

  /** A record whose change is a number is ordered by exactly that number. */
  lemma ChangeOfNumber(p: Obj, n: int)
    requires Get(p, "valueChange") == Num(n)
    ensures ChangeOf(p) == n
  {
  }

  // ----- choosing the snapshot -----

  /** `file.split('.')[0]`: the part of a file name before its first dot. */
  function DatePart(file: string): (d: string)
    ensures d <= file && '.' !in d
    ensures |d| < |file| ==> file[|d|] == '.'
  {
    if file == [] || file[0] == '.' then [] else [file[0]] + DatePart(file[1..])
  }

  /** The string order of the default `sort()`: element by element, a proper prefix first. */
  predicate LexLe(a: string, b: string) {
    a == [] || (b != [] && (a[0] < b[0] || (a[0] == b[0] && LexLe(a[1..], b[1..]))))
  }

  lemma {:induction false} LexLeTotal(a: string, b: string)
    ensures LexLe(a, b) || LexLe(b, a)
  {
    if a != [] && b != [] && a[0] == b[0] {
      LexLeTotal(a[1..], b[1..]);
    }
  }

  lemma {:induction false} LexLeTrans(a: string, b: string, c: string)
    requires LexLe(a, b) && LexLe(b, c)
    ensures LexLe(a, c)
  {
    if a != [] && b != [] && c != [] && a[0] == b[0] && b[0] == c[0] {
      LexLeTrans(a[1..], b[1..], c[1..]);
    }
  }

  /** The first element of the sorted list: the least in string order. */
  function Least(s: seq<string>): string
    requires s != []
  {
    if |s| == 1 then s[0]
    else
      var m := Least(s[1..]);
      if LexLe(s[0], m) then s[0] else m
  }

  lemma {:induction false} LeastSpec(s: seq<string>)
    requires s != []
    ensures Least(s) in s
    ensures forall x :: x in s ==> LexLe(Least(s), x)
  {
    if |s| > 1 {
      var rest := s[1..];
      LeastSpec(rest);
      var m := Least(rest);
      LexLeTotal(s[0], m);
      forall x | x in s ensures LexLe(Least(s), x) {
        if x == s[0] {
          LexLeTotal(x, x);
        } else {
          assert x in rest;
          if LexLe(s[0], m) {
            LexLeTrans(s[0], m, x);
          }
        }
      }
    } else {
      LexLeTotal(s[0], s[0]);
    }
  }

  /** `snapshotFiles.filter(file => new Date(file.split('.')[0]) >= thirtyDaysAgo)`;
      the date test against the cutoff is the parameter `onOrAfterCutoff`. */
  function Recent(files: seq<string>, onOrAfterCutoff: string -> bool): seq<string> {
    if files == [] then []
    else
      var head := if onOrAfterCutoff(DatePart(files[0])) then [files[0]] else [];
      head + Recent(files[1..], onOrAfterCutoff)
  }

  lemma {:induction false} RecentSpec(files: seq<string>, onOrAfterCutoff: string -> bool)
    ensures forall f :: f in Recent(files, onOrAfterCutoff) <==> f in files && onOrAfterCutoff(DatePart(f))
  {
    if files != [] {
      RecentSpec(files[1..], onOrAfterCutoff);
      assert files == [files[0]] + files[1..];
    }
  }

  /** `validSnapshots[0] || snapshotFiles[0]`; `None` is `undefined`. */
  function ChooseSnapshot(files: seq<string>, onOrAfterCutoff: string -> bool): Option<string> {
    var valid := Recent(files, onOrAfterCutoff);
    if valid != [] && Least(valid) != "" then Some(Least(valid))
    else if files != [] then Some(files[0])
    else None
  }

  /** The chosen file is the least recent-enough file in string order. When no file
      is recent enough, or the empty name (which is falsy) is among the recent ones,
      it is the first listed file; there is none when the list is empty. */
  lemma ChooseSnapshotSpec(files: seq<string>, onOrAfterCutoff: string -> bool)
    ensures ChooseSnapshot(files, onOrAfterCutoff).None? <==> files == []
    ensures ChooseSnapshot(files, onOrAfterCutoff).Some? ==> ChooseSnapshot(files, onOrAfterCutoff).value in files
    ensures (forall f :: f in files ==> !onOrAfterCutoff(DatePart(f))) && files != [] ==>
      ChooseSnapshot(files, onOrAfterCutoff) == Some(files[0])
    ensures "" in files && onOrAfterCutoff(DatePart("")) ==>
      ChooseSnapshot(files, onOrAfterCutoff) == Some(files[0])
    ensures forall f :: f in files && onOrAfterCutoff(DatePart(f)) && !("" in files && onOrAfterCutoff(DatePart(""))) ==>
      var chosen := ChooseSnapshot(files, onOrAfterCutoff).value;
      chosen in files && onOrAfterCutoff(DatePart(chosen)) && LexLe(chosen, f)
  {
    var valid := Recent(files, onOrAfterCutoff);
    RecentSpec(files, onOrAfterCutoff);
    if valid != [] {
      LeastSpec(valid);
      assert Least(valid) == "" <==> "" in valid;
    } else {
      forall f | f in files ensures !onOrAfterCutoff(DatePart(f)) {
        assert f !in valid;
      }
    }
  }

  // ----- the page state -----

  /** The module-level state of the page. */
  class Page {
    var currentPlayers: seq<Obj>
    var snapshotPlayers: seq<Obj>
    var valueChanges: seq<Obj>

    constructor ()
      ensures currentPlayers == [] && snapshotPlayers == [] && valueChanges == []
    {
      currentPlayers, snapshotPlayers, valueChanges := [], [], [];
    }

    /** `calculateValueChanges()` */
    method CalculateValueChanges()
      modifies this
      ensures valueChanges == ValueChanges(currentPlayers, snapshotPlayers)
      ensures currentPlayers == old(currentPlayers) && snapshotPlayers == old(snapshotPlayers)
    {
      valueChanges := ValueChanges(currentPlayers, snapshotPlayers);
    }

    /** `renderPlayers(position, sortBy)`, returning the records it shows. With
        `'all'` the array it sorts in place is `valueChanges` itself, so the page
        state is left sorted; otherwise it sorts a filtered copy. */
    method RenderPlayers(position: string, sortBy: string) returns (shown: seq<Obj>)
      modifies this
      ensures shown == Rendered(old(valueChanges), position, sortBy)
      ensures valueChanges == (if position == "all" then shown else old(valueChanges))
      ensures currentPlayers == old(currentPlayers) && snapshotPlayers == old(snapshotPlayers)
    {
      var filtered := valueChanges;
      if position != "all" {
        filtered := FilterPosition(filtered, position);
      }
      filtered := SortBy(filtered, SortOrder(sortBy));
      if position == "all" {
        valueChanges := filtered;
      }
      shown := filtered;
    }

    /** `initialize()` once both player lists are loaded: join, then render every
        position with the risers first. */
    method Initialize(current: seq<Obj>, snapshot: seq<Obj>) returns (shown: seq<Obj>)
      modifies this
      ensures currentPlayers == current && snapshotPlayers == snapshot
      ensures shown == Rendered(ValueChanges(current, snapshot), "all", "risers")
      ensures valueChanges == shown
    {
      currentPlayers := current;
      snapshotPlayers := snapshot;
      CalculateValueChanges();
      shown := RenderPlayers("all", "risers");
    }
  }
}
