# KeepTradeCut data logic in Dafny

KeepTradeCut is a small dynasty-baseball site. Visitors are shown three players and
vote Start/Bench/Cut (or Keep/Trade/Cut), and a server endpoint writes new player
values back into the player file. Other pages list risers and fallers since a
snapshot, and the dynasty rankings. This project models the data logic under that
plumbing. Fetch, the file system and the DOM are left out, so every step takes
plain sequences of JSON objects and returns sequences.

- `js_values.dfy`: the JavaScript values the pages handle:
  - `undefined`, `null`, booleans, integers, `NaN` and strings, with objects as maps;
  - truthiness, the `||` default, `===`, `-` and the `<`/`>` coercions;
  - `String(n)`, `parseInt`, `toLowerCase` and `includes`;
  - `Array.prototype.find` on a field.
- `js_maps.dfy`: a JavaScript `Map` as the list of its entries in insertion order.
  `set` overwrites in place or appends. `new Map(pairs)` keeps the last value of each
  key, at the position where that key first appeared.
- `sorting.dfy`: `Array.prototype.sort` with a numeric comparator. The language
  requires this sort to be stable, so it is specified as ordered, a permutation, and
  order-preserving within each key.
- `write_back.dfy` (`api/updatePlayerValues.js`): id defaulting, then the in-place
  update loop over an `array`. Each update matches by id first and by name second,
  and the loop counts the updates that found a player. The response and the
  conditional write follow.
- `votes.dfy` (`handleVote` and `updateSubmitButton` in both voting pages): a
  `VoteBoard` class whose `entries` field is the `votes` Map.
  - `HandleVote` deletes every entry holding the new label, in a loop, then sets the
    player's entry.
  - The class invariant says that keys are distinct and that no label is held twice.
  - The source's comment above the loop speaks of removing "existing votes for this
    player". The code actually removes every entry that holds the same label, the
    player's own included, and `set` then overwrites or appends the player's entry. So
    voting the same label again moves that player to the end of the Map. The model
    follows the code.
- `start_bench_cut.dfy`: the player normalisation of the Start/Bench/Cut page, the
  `votes.clear()` of a new round, and the Elo step.
  - The Elo step works over `real`.
  - `Math.pow(10, ·)` is a parameter `pow10` that satisfies `pow10(0) = 1`, stays
    positive, and has `pow10(-x) * pow10(x) = 1`.
  - `Math.round(x)` is `floor(x + 1/2)`.
- `app.dfy` (`js/app.js`):
  - field cleaning;
  - the `Map`-based de-duplication by Name;
  - id, value and trend, where the two random draws are inputs;
  - the three-player fallback on failure;
  - the search dropdown, including the TypeError a Name or Team that is not a string
    raises.
- `risers_fallers.dfy` (`js/risers-fallers.js`):
  - joining current players to the snapshot by id, and the value deltas;
  - the position filter and the two sort orders;
  - the snapshot choice; the "date is on or after the cutoff" test is a parameter;
  - a `Page` class holding the module-level arrays. `RenderPlayers` sorts the array it
    was given, and with position `all` that array is `valueChanges` itself.
- `dynasty.dfy` (`js/dynasty.js`): keep the ranked players and order them by
  `parseInt(Rank)`.

## Model

| member | source | states |
|---|---|---|
| JsValues.Truthy | js/startbenchcut.js:29-34 | JavaScript truthiness: `undefined`, `null`, `false`, `0`, `NaN` and `""` are falsy, every other value truthy |
| JsValues.Or | js/startbenchcut.js:29-34 | `a \|\| b`: `a` when it is truthy, else `b` |
| JsValues.StrictEquals | api/updatePlayerValues.js:24 | `a === b`: the same value, except that `NaN` equals nothing |
| JsValues.ToNumber | js/risers-fallers.js:90 | `Number(v)`: `null` is 0, booleans 0 and 1, numbers themselves, strings by StringToNumber, `undefined` and `NaN` NaN |
| JsValues.ToStr | js/dynasty.js:11 | `String(v)`, which `parseInt` reads |
| JsValues.DecimalString | js/startbenchcut.js:35 | `index.toString()` is a non-empty digit string with no leading zero |
| JsValues.DecimalStringRoundTrip | js/startbenchcut.js:35 | reading the digits of `String(n)` back gives `n` |
| JsValues.DecimalStringInjective | js/startbenchcut.js:35 | different indices give different id strings |
| JsValues.DigitPrefix | js/dynasty.js:11 | the digit run `parseInt` reads is the longest all-digit prefix |
| JsValues.ParseIntOfNumber | js/dynasty.js:11 | `parseInt` of an integer Rank is that integer |
| JsValues.FindFirst | api/updatePlayerValues.js:24 | `find(p => p[key] === v)` returns the first match, and returns none only when no element matches |
| JsValues.ToLower | js/app.js:226 | lower-casing (of the ASCII letters, in this model) keeps the number of characters |
| JsValues.Utf16Length | js/app.js:227 | `.length` counts UTF-16 code units: two for a character outside the Basic Multilingual Plane |
| JsValues.Utf16LengthBounds | js/app.js:227 | the UTF-16 length is between one and two units per character, and equals the character count iff every character is in the Basic Multilingual Plane |
| JsValues.ToLowerUtf16Length | js/app.js:226-227 | lower-casing keeps the UTF-16 length the test reads |
| JsValues.ParseInt | js/dynasty.js:11 | `parseInt(v)`: leading white space, an optional sign, then the longest digit run; NaN if there are no digits |
| JsValues.StringToNumber | js/startbenchcut.js:37 | `Number(s)` for a string: trimmed, empty is 0, a signed decimal integer is its value, anything else NaN |
| JsValues.Minus | js/risers-fallers.js:90 | `a - b` converts both operands with `Number` and is NaN when either is |
| JsValues.GreaterThan | js/startbenchcut.js:37 | `v > n` converts `v` with `Number`, and is false for NaN |
| JsValues.LessThan | js/startbenchcut.js:37 | `v < n` converts `v` with `Number`, and is false for NaN |
| JsValues.Includes | js/app.js:233-234 | `s.includes(t)`: `t` occurs in `s` at some position |
| JsMaps.Set | js/startbenchcut.js:169 | `votes.set(k, v)`: overwrites the entry of `k` in place, or appends a new entry |
| JsMaps.FromEntries | js/app.js:36 | `new Map(pairs)`: each pair `set` in turn |
| JsMaps.IndexOfKey | js/app.js:36 | the first entry with a key |
| JsMaps.LastIndexOfKey | js/app.js:36 | the last entry with a key |
| JsMaps.SetKeys | js/startbenchcut.js:169 | `set` keeps the key order and appends a new key at the end |
| JsMaps.SetDenotes | js/startbenchcut.js:169 | `set` keeps keys distinct, and the map it denotes is the old one with `k := v` |
| JsMaps.FromEntriesKeys | js/app.js:36 | `new Map(pairs)` has distinct keys: exactly the keys of the pairs |
| JsMaps.FromEntriesValues | js/app.js:36 | each key's value is that of its last pair |
| JsMaps.FromEntriesOrder | js/app.js:36 | keys appear in the order of their first pair |
| JsMaps.FromEntriesLength | js/app.js:36 | the map has no more entries than there are pairs |
| JsMaps.IndexOfKeyPrefix | js/app.js:36 | extending the pair list does not move a key's first position |
| JsMaps.LastIndexOfKeyPrefix | js/app.js:36 | appending a pair for another key does not move a key's last position |
| Sorting.SortBy | js/risers-fallers.js:116-120 | the stable ascending sort by a numeric key that `sort((a, b) => key(a) - key(b))` gives (also js/dynasty.js line 11) |
| Sorting.InsertPermutes | js/risers-fallers.js:116-120 | inserting one element adds exactly that element |
| Sorting.InsertSorted | js/risers-fallers.js:116-120 | inserting into a sorted list keeps it sorted |
| Sorting.InsertStable | js/risers-fallers.js:116-120 | inserting puts the element after every earlier element with its key |
| Sorting.SortBySpec | js/dynasty.js:11 | the sort is ascending by key, a permutation of its input, and keeps input order among equal keys |
| WriteBack.WithId | api/updatePlayerValues.js:18 | `{...player, id: player.id !== undefined ? player.id : String(index)}` |
| WriteBack.WithDefaultIds | api/updatePlayerValues.js:16-19 | a player without an id gets `String(index)`; other ids and all other fields are kept |
| WriteBack.Target | api/updatePlayerValues.js:24-39 | the player an update lands on: by id, else by a truthy name (see TargetSpec) |
| WriteBack.ApplyUpdate | api/updatePlayerValues.js:25-38 | one turn of the loop: the target's Value becomes `newValue`, nothing else changes |
| WriteBack.AfterUpdates | api/updatePlayerValues.js:23-41 | the players after the updates are applied in order |
| WriteBack.TargetSpec | api/updatePlayerValues.js:24-39 | an update lands on the first player with its id; only if none has that id and the name is truthy does it land on the first player with that Name; otherwise on none |
| WriteBack.UpdatedCount | api/updatePlayerValues.js:22-41 | the count is at most the number of updates |
| WriteBack.LastHit | api/updatePlayerValues.js:23-41 | the last update aimed at a player, or none if no update is |
| WriteBack.TargetIgnoresValues | api/updatePlayerValues.js:24-33 | writing Values never changes which player a later update finds |
| WriteBack.FindFirstAgrees | api/updatePlayerValues.js:24 | `find` on a field depends only on that field |
| WriteBack.AfterUpdatesFrame | api/updatePlayerValues.js:16-41 | the updates keep the list's length and order, and change no field but `Value` |
| WriteBack.LastUpdateWins | api/updatePlayerValues.js:23-41 | a player ends with the `newValue` of the last update that found it, or unchanged if none did |
| WriteBack.UpdatedCountIsHits | api/updatePlayerValues.js:22-41 | `updatedCount` is the number of updates that found a player by id or by name |
| WriteBack.HitsStep | api/updatePlayerValues.js:22-41 | each turn of the loop adds one hit exactly when its update finds a player |
| WriteBack.ApplyUpdates | api/updatePlayerValues.js:22-41 | the in-place loop leaves the array as the updates applied in order, and returns their hit count |
| WriteBack.UpdatePlayerValues | api/updatePlayerValues.js:16-53 | the response is success with the count and its message; the file is written exactly when the count is positive, with the updated players |
| Votes.AfterVote | js/startbenchcut.js:161-169 | `handleVote(p, v)` on the entries: every entry holding `v` deleted, then `set(p, v)` |
| Votes.IsComplete | js/startbenchcut.js:197-198 | `votes.size === 3 && new Set(votes.values()).size === 3` |
| Votes.WithoutVoteMember | js/startbenchcut.js:163-167 | an entry survives the delete loop exactly when its vote is not the new label |
| Votes.WithoutVoteKeepsDistinct | js/startbenchcut.js:163-167 | deleting entries keeps keys distinct |
| Votes.WithoutVoteKeepsInjective | js/startbenchcut.js:163-167 | deleting entries keeps each label held at most once |
| Votes.WithoutVoteAppend | js/startbenchcut.js:163-167 | the delete loop works entry by entry |
| Votes.WithoutVoteNone | js/startbenchcut.js:163-167 | with no entry holding the label, the loop deletes nothing |
| Votes.DeleteVoter | js/startbenchcut.js:164-165 | deleting one entry holding the label does not change the loop's outcome |
| Votes.DeleteKeepsValid | js/startbenchcut.js:165 | deleting one entry keeps the map's invariant |
| Votes.WithoutVoteDenotes | js/startbenchcut.js:163-167 | after the loop the map is the old one with every binding to the label removed |
| Votes.AfterVoteSpec | js/startbenchcut.js:161-169 | after `handleVote(p, v)` the map is the old one without `v`, plus `p := v`, and injectivity is preserved |
| Votes.AfterVoteInjective | js/startbenchcut.js:161-169 | from an injective map, `handleVote` yields an injective map |
| Votes.HandleVoteObservable | js/startbenchcut.js:161-169 | afterwards `votes[p] == v` and no other player holds `v`; every entry for another player and another label is kept; no other player is added |
| Votes.VoteCount | js/startbenchcut.js:197-198 | there are at most as many distinct labels as entries, and exactly as many iff no label is held twice |
| Votes.CompleteIff | js/startbenchcut.js:195-201 | complete iff three entries with distinct labels; for an injective map, iff three entries |
| Votes.CompleteUsesEveryLabel | js/startbenchcut.js:195-201 | with three labels in play, a complete vote uses every label once |
| Votes.VoteBoard.constructor | js/startbenchcut.js:4 | a new vote map is empty and valid |
| Votes.VoteBoard.HandleVote | js/startbenchcut.js:161-169 | the method's loop and `set` leave the entries as `AfterVote` of the old ones, and keep the invariant (the same code is at js/app.js lines 136-144) |
| Votes.VoteBoard.Clear | js/startbenchcut.js:80 | `votes.clear()` empties the map |
| Votes.VoteBoard.SubmitEnabled | js/app.js:182-188 | on a valid board, submit is enabled exactly when three players have voted |
| StartBenchCut.Trend | js/startbenchcut.js:37 | `up` iff Value > 9000, `down` iff not and Value < 5000, else `stable` |
| StartBenchCut.DefaultFor | js/startbenchcut.js:29-34 | every default is a non-empty (truthy) string |
| StartBenchCut.KeysApart | js/startbenchcut.js:27-38 | the defaulted and derived fields are different keys |
| StartBenchCut.Normalise | js/startbenchcut.js:27-38 | the spread record with its defaulted and derived fields |
| StartBenchCut.NormaliseDefaults | js/startbenchcut.js:29-34 | each of Number, Hand, Age, Team, Position and Headshot keeps a truthy value and takes its default otherwise, so the field ends truthy |
| StartBenchCut.NormaliseDerived | js/startbenchcut.js:35-37 | `id` is the index as a string, `value` copies Value, `trend` is the Value's trend |
| StartBenchCut.NormaliseKeepsOthers | js/startbenchcut.js:28 | every other field is spread through unchanged |
| StartBenchCut.OrAbsorbs | js/startbenchcut.js:29-34 | defaulting twice with a truthy default is defaulting once |
| StartBenchCut.DefaultsStable | js/startbenchcut.js:29-34 | a record that already holds its defaults gets the same defaults again |
| StartBenchCut.MergeAgain | js/startbenchcut.js:27-38 | spreading the same fields twice is spreading them once |
| StartBenchCut.NormaliseHolds | js/startbenchcut.js:27-38 | a normalised record holds its defaults and keeps its Value |
| StartBenchCut.DerivedStable | js/startbenchcut.js:35-37 | the derived fields depend only on the Value and the index |
| StartBenchCut.NormaliseIdempotent | js/startbenchcut.js:27-38 | normalising a normalised record again at the same index changes nothing |
| StartBenchCut.LoadPlayers | js/startbenchcut.js:27-38 | one normalised record per input record |
| StartBenchCut.LoadPlayersDistinctIds | js/startbenchcut.js:35 | no two loaded players share an id |
| StartBenchCut.LoadNewPlayers | js/startbenchcut.js:78-91 | a new round starts with an empty, valid vote map and submit disabled |
| StartBenchCut.ExpectedScore | js/startbenchcut.js:59-61 | the expected score lies strictly between 0 and 1 |
| StartBenchCut.Round | js/startbenchcut.js:64 | `Math.round(x)` is within a half of `x`, with halves rounding up |
| StartBenchCut.NewValue | js/startbenchcut.js:63-65 | `calculateNewValue` is within a half point of `old + 32 * (actual − expected)` |
| StartBenchCut.ExpectedScoreComplement | js/startbenchcut.js:59-61 | `E(a, b) + E(b, a) == 1` |
| StartBenchCut.ExpectedScoreEven | js/startbenchcut.js:59-61 | `E(a, a) == 1/2` |
| StartBenchCut.ExpectedScoreFavourite | js/startbenchcut.js:59-61 | one side is favoured iff the other is the underdog |
| StartBenchCut.RoundShift | js/startbenchcut.js:64 | rounding commutes with adding an integer |
| StartBenchCut.WinnerGains | js/startbenchcut.js:63-65 | with actual score 1 the new value is in [old, old + 32] |
| StartBenchCut.LoserLoses | js/startbenchcut.js:63-65 | with actual score 0 the new value is in [old − 32, old] |
| StartBenchCut.NewValueMonotone | js/startbenchcut.js:63-65 | a higher actual or a lower expected score never gives a lower new value |
| StartBenchCut.RoundOpposite | js/startbenchcut.js:64 | `round(y) + round(−y)` is 0 or 1 |
| StartBenchCut.PairingNearlyZeroSum | js/startbenchcut.js:56-65 | in a win/loss pairing the winner's gain and the loser's loss are in [0, 32] and differ by at most one |
| StartBenchCut.EvenPairing | js/startbenchcut.js:56-65 | between equal values the winner gains 16 and the loser loses 16 |
| App.Clean | js/app.js:25-33 | the cleaned record: the six defaulted fields and Name, nothing else |
| App.CleanSpec | js/app.js:25-33 | the cleaned record has exactly the seven listed fields; a falsy field takes its default; Name is copied |
| App.CleanAgreesWithStartBenchCut | js/app.js:25-33 | the defaults are those of the Start/Bench/Cut page |
| App.CleanIdempotent | js/app.js:25-33 | cleaning a cleaned record again changes nothing |
| App.CleanAll | js/app.js:25-33 | one cleaned record per input record |
| App.PairsKeys | js/app.js:36 | the Map is keyed by the players' Names, in order |
| App.Unique | js/app.js:36 | `Array.from(new Map(players.map(p => [p.Name, p])).values())` |
| App.UniqueEntries | js/app.js:36 | each surviving record is the last input record with its Name |
| App.UniqueNamesDistinct | js/app.js:36 | no two surviving players share a Name |
| App.UniqueKeepsEveryName | js/app.js:36 | a Name survives iff it occurs in the input |
| App.UniqueLastWins | js/app.js:36 | each survivor is an input record with no later record of the same Name |
| App.UniqueFirstPosition | js/app.js:36 | survivors are ordered by the first occurrence of their Names |
| App.UniqueShrinks | js/app.js:36 | de-duplication never adds players |
| App.RandomValue | js/app.js:42 | `floor(r * 2000) + 8000` lies in [8000, 9999] |
| App.RandomTrend | js/app.js:43 | the random trend is one of `up`, `down`, `stable` |
| App.WithDerived | js/app.js:39-44 | each unique player spread with `id := Number` and its two random draws as value and trend |
| App.WithDerivedSpec | js/app.js:39-44 | `id` is the Number, value and trend are in range, and other fields are kept |
| App.Fallback | js/app.js:50-87 | the three sample players Logan Webb (9500, up), Zack Wheeler (9300, stable) and Aaron Nola (9100, down), with ids and Numbers 1 to 3 |
| App.LoadPlayers | js/app.js:4-90 | reports success exactly when the players file was read |
| App.LoadPlayersShape | js/app.js:39-87 | loaded or fallback, Names are distinct, `id` equals Number, value is in [8000, 9999], and the trend is one of the three |
| App.Hit | js/app.js:233-234 | a player matches when its lower-cased Name, or else its lower-cased Team, contains the term; a Name or Team that is not a string throws |
| App.Filter | js/app.js:232-234 | `ALL_PLAYERS.filter(...)`, aborted by the first player that throws |
| App.Search | js/app.js:226-235 | the search handler: hidden for a short term, the thrown TypeError, or the first five matches |
| App.FilterSpec | js/app.js:232-234 | the filter succeeds iff every player can be tested; it then keeps only matching players from the input, and every matching player |
| App.FilterInOrder | js/app.js:232-234 | the filter result is a subsequence of the input (input order kept), holding each matching player as often as the input does and no other player |
| App.SubsequenceDropHead | js/app.js:232-234 | a subsequence of the tail is a subsequence of the whole |
| App.FilterAppend | js/app.js:232-234 | the filter works player by player |
| App.SearchHiddenIff | js/app.js:226-230 | the dropdown is hidden iff the lower-cased term is shorter than two UTF-16 units: empty, or one character of the Basic Multilingual Plane |
| App.SearchListsFirstFive | js/app.js:232-235 | the listed players are exactly the first `min(5, n)` of the `n` matches |
| App.SearchNeverThrows | js/app.js:232-234 | when every Name and Team is a string the search does not throw |
| RisersFallers.ChangeSpec | js/risers-fallers.js:90-97 | the record is the current player plus `valueChange = current − snapshot` and `oldValue = snapshot.Value`, and is `NaN` when a Value is not numeric |
| RisersFallers.Change | js/risers-fallers.js:90-97 | `{...currentPlayer, valueChange, oldValue}` for a current player and its snapshot entry |
| RisersFallers.Joined | js/risers-fallers.js:87-97 | a current player's record against the first snapshot entry with its id, or none |
| RisersFallers.ValueChanges | js/risers-fallers.js:86-99 | `calculateValueChanges`: the joined records, unmatched players dropped |
| RisersFallers.ValueChangesAppend | js/risers-fallers.js:86-99 | the join works player by player |
| RisersFallers.ValueChangesLength | js/risers-fallers.js:86-99 | there are at most as many records as current players |
| RisersFallers.ValueChangesSound | js/risers-fallers.js:86-99 | every record comes from a current player joined to the first snapshot entry with its id |
| RisersFallers.ValueChangesComplete | js/risers-fallers.js:86-99 | every current player with a snapshot entry yields a record |
| RisersFallers.JoinedIff | js/risers-fallers.js:87-88 | a player joins iff some snapshot entry has its id |
| RisersFallers.FilterPosition | js/risers-fallers.js:111-113 | `filter(p => p.Position === position)` |
| RisersFallers.FilterPositionSpec | js/risers-fallers.js:111-113 | the position filter keeps exactly the records at that position, drawn from the input |
| RisersFallers.FilterPositionAppend | js/risers-fallers.js:112 | the filter works record by record |
| RisersFallers.Rendered | js/risers-fallers.js:108-120 | the position filter then the direction's stable sort |
| RisersFallers.RenderedSpec | js/risers-fallers.js:107-120 | the grid is a permutation of the filtered records (all records for `all`), non-increasing by valueChange for `risers` and non-decreasing otherwise, stable among equal changes |
| RisersFallers.ChangeOfNumber | js/risers-fallers.js:116-120 | a numeric valueChange is compared as itself |
| RisersFallers.DatePart | js/risers-fallers.js:66 | `file.split('.')[0]` is the prefix up to the first dot |
| RisersFallers.LexLeTotal | js/risers-fallers.js:67 | the default string order is total |
| RisersFallers.LexLeTrans | js/risers-fallers.js:67 | the default string order is transitive |
| RisersFallers.Least | js/risers-fallers.js:67-69 | the first file after `sort()`: the least in the default string order |
| RisersFallers.LeastSpec | js/risers-fallers.js:67-69 | `sort()[0]` is a listed file that sorts before every other |
| RisersFallers.Recent | js/risers-fallers.js:65-66 | the files whose date part is on or after the cutoff, in listed order |
| RisersFallers.RecentSpec | js/risers-fallers.js:65-66 | the recent files are exactly the listed files dated on or after the cutoff |
| RisersFallers.ChooseSnapshot | js/risers-fallers.js:65-69 | `validSnapshots[0] \|\| snapshotFiles[0]`, none when there are no files |
| RisersFallers.ChooseSnapshotSpec | js/risers-fallers.js:65-69 | no snapshot iff no files; otherwise a listed file: the least recent one, or the first listed when no file is recent (or the least recent name is empty) |
| RisersFallers.Page.constructor | js/risers-fallers.js:1-3 | the three module-level arrays start empty |
| RisersFallers.Page.CalculateValueChanges | js/risers-fallers.js:85-100 | `valueChanges` becomes the join of the current players with the snapshot |
| RisersFallers.Page.RenderPlayers | js/risers-fallers.js:107-120 | returns the rendered order; with `all`, `valueChanges` itself is left sorted |
| RisersFallers.Page.Initialize | js/risers-fallers.js:5-25 | after loading, the grid shows the join sorted as risers, and that is also `valueChanges` |
| Dynasty.RankedOnly | js/dynasty.js:10 | `filter(player => player.Rank)`: the players with a truthy Rank, in order |
| Dynasty.RankKey | js/dynasty.js:11 | the sort key `parseInt(Rank)`, 0 when it is NaN |
| Dynasty.Rankings | js/dynasty.js:9-11 | the ranked players sorted by their key |
| Dynasty.RankedOnlySpec | js/dynasty.js:10 | the filter keeps exactly the ranked players, each as often as in the input |
| Dynasty.RankingsContents | js/dynasty.js:9-11 | the table lists every ranked player (with multiplicity) and no unranked one, and is no longer than the input |
| Dynasty.RankingsOrdered | js/dynasty.js:11 | the table is non-decreasing by integer Rank and keeps input order among equal Ranks |
| Dynasty.RankingsByParsedRank | js/dynasty.js:9-11 | when every Rank parses, the table is ordered by the parsed Ranks |
| Dynasty.RankKeyOfNumber | js/dynasty.js:11 | a numeric Rank is compared as itself |

## Left out

- Fetching files, the path-fallback loops and `response.ok` checks: the models take the parsed JSON as input. In js/app.js a failed load is an absent input.
- File reads and writes on the server: `UpdatePlayerValues` takes the parsed file contents, and returns what would be written.
- WriteBack.UpdatePlayerValues: the `catch` path answering `success: false` is not modelled. It is reached when the file cannot be read or parsed. It is also reached when the parsed file is not an array (`players.map` throws at line 16), when the request body is not an array (`updates.forEach` throws at line 23), when an update or a stored player is `null` (`update.id` at line 24, `player.id` at line 18), or when the write at line 45 fails. An update that is a number, string or boolean does not throw: its `id` and `name` read as undefined, so it finds no player, as in the model. The model takes the stored players and the updates as lists of objects, so only the success path exists in it.
- The HTML builders, `updateVoteUI`, the modal, click handlers, the debounce timer and `addPlayerToTeam`. These are rendering and event plumbing.
- The submit handler of js/startbenchcut.js (lines 206-220) and the client-side `updatePlayerValues` it calls are not modelled. Nothing in the source fixes what that function does.
- The `getRandomPlayers` shuffle. A comparator that returns random numbers has no stateable result.
- App.RandomValue, App.RandomTrend: `Math.random()` is an input in [0, 1), so the contracts state ranges, not a distribution.
- StartBenchCut.ExpectedScore: `Math.pow(10, x)` is an abstract function with the algebraic laws above. The model uses no floating point, so rounding error is not captured.
- StartBenchCut.Round: modelled over exact reals, not IEEE doubles.
- RisersFallers.ChangeSpec: `percentChange` (`toFixed(1)` of a float division) is not part of the record, because it is float formatting.
- `new Date(...)` parsing and the 30-day cutoff: the "on or after the cutoff" test is a parameter of the snapshot choice.
- Dynasty.RankingsOrdered, RisersFallers.RenderedSpec: a comparator that gives `NaN` (a Rank that does not parse, a non-numeric valueChange) leaves the engine's order unspecified; the model orders those elements by key 0.
- JsValues.ToLower: only ASCII letters are lower-cased. JavaScript also lower-cases other letters, some into several characters (`'İ'.toLowerCase()` has length 2), so the search term's length and contents differ from the model for such input.
- App.SearchHiddenIff: its length test agrees with JavaScript's for every term the model lower-cases as JavaScript does. It differs for a term whose JavaScript lower-casing changes its length.
- RisersFallers.LexLeTotal, RisersFallers.LexLeTrans, RisersFallers.LeastSpec, RisersFallers.ChooseSnapshotSpec: the default `sort()` compares UTF-16 code units, while `LexLe` compares characters. The two orders differ only between a character above U+FFFF and one in U+E000..U+FFFF, which ISO-dated snapshot names do not contain.
- JsValues.ParseInt: only decimal integers are read. Hex and a `0x` prefix are not modelled. Its leading white space (TrimStart) is limited to space, tab, newline and carriage return, so JavaScript white space such as U+00A0 or U+FEFF is not skipped.
- JsValues.StringToNumber: numbers are integers, so `Number("1e4")` and `Number("12.0")`, which are numbers in JavaScript, are NaN in the model. So StartBenchCut.Trend of the string `"1e4"` is `stable` here and `up` in JavaScript. White space is limited as for ParseInt.
- JsValues.ParseIntOfNumber: `Num` is an unbounded integer. JavaScript prints a number of magnitude 1e21 or more in exponent form, so `parseInt` does not read such a number back. Integers beyond 2^53 are not exact in JavaScript either.
- RisersFallers.Page.RenderPlayers: the in-place `sort` is modelled as a stable sort of a `seq` that is then assigned back. The array aliasing is captured only where the source relies on it: with `all`, `valueChanges` is the sorted array.
- Object key order: records are maps, so the order in which `JSON.stringify` would print their fields is not modelled.
- Elements of the JSON arrays that are not objects: every element is taken to be an object.
- Logging: the `console.log` and `console.error` calls (for example api/updatePlayerValues.js lines 10, 26, 30, 35, 46 and 55, and js/app.js lines 37 and 47) are not modelled, because they only write to the console.
- Trade-package valuation and pairwise Elo rounds: neither appears in the modelled files.
- The commented-out rankings merge in js/app.js (lines 381-439): it is dead code.
- server.js and save_snapshot.js are not part of this model. They are an HTTP server and a file copy.
