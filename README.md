# Column collections and the quoted-token parser

This project models two parts of SQLAlchemy, as the test module `test/base/test_utils.py` pins
them down: the column collections of the SQL expression layer (`sqlalchemy.sql`), and the
`quoted_token_parser` helper of its utility layer (`sqlalchemy.util`).

**Column collections.** An ordered, key-addressable collection of columns comes in three forms:

- `ColumnCollection`, the lenient form, keeps every entry it is given, duplicates included.
- `DedupeColumnCollection`, the strict form, keeps at most one column per key. It has
  `add`, `extend`, `replace` and `remove`.
- The read-only view returned by `as_immutable()`.

A collection is three structures kept in step:

- the ordered list of `(key, column)` entries (`_collection`);
- an index from each key to the first column stored under it and from each position to its
  column (`_index`);
- the set of stored columns (`_colset`).

The integrity check the tests apply after every operation (`_assert_collection_integrity`) is
the `Valid()` predicate of `Collections.Store`. Every mutating method keeps it.

All three structures live in one `Store` object. A collection holds a reference to its store,
and a view holds the same reference. A change made through the collection is therefore seen
through every view taken earlier, and this survives a serialize and deserialize of the pair.

**`quoted_token_parser`.** It splits a dotted identifier into parts:

- a dot outside double quotes separates parts;
- the quotes are dropped;
- inside quotes, `""` stands for one `"`.

Input without any `"` takes a fast path that splits on every dot.

Files:

- `column_model.dfy` (`ColumnModel`): columns, entries and the index as a pure function of
  the entry list, with the loop that builds it.
- `dedupe.dfy` (`Dedupe`): the strict collection's operations as functions on entry lists,
  with their properties.
- `collections.dfy` (`Collections`): the `Store` and the three collection classes.
- `readings.dfy` (`Readings`): the store's reads, each stated on the entry list alone.
- `scenarios.dfy` (`Scenarios`) and `strict_scenarios.dfy` (`StrictScenarios`): the tests'
  scenarios, each stated as a postcondition.
- `token_parser.dfy` (`TokenParser`): the parser as a recursive function and as the
  character loop, with round-trip lemmas.

The implementation module (`sqlalchemy/sql/base.py`) is not part of this model. The behaviour
comes from the tests alone. Where the tests leave a choice open, the model makes these
choices:

- A strict `add` of a column whose key is already stored overwrites that slot in place. The
  tests (test_utils.py:707-795) see only the resulting list. Their columns' names equal their
  keys, and for such a column the list is the one `replace` would give
  (`Dedupe.StrictAddIsReplace`).
- `replace` removes every entry keyed by the new column's key. When the new column's name
  differs from its key, it also removes every entry keyed by that name. The tests
  (test_utils.py:797-963) fix this for one target, for no target, and for a key and a name
  that match two different entries.
- `compare` is equality of the entry lists. The tests check it only against an equal list
  and against a proper prefix.
- `in` given anything but a string fails with `ArgumentError`, as test_utils.py:498-503
  checks for a column.

## Model

| member | source | states |
|---|---|---|
| ColumnModel.FirstIndex | test/base/test_utils.py:453-454 | the first position of a key: `None` exactly when the key is absent; otherwise the key sits there and at no earlier position |
| ColumnModel.IndexOfIndexedAs | test/base/test_utils.py:450-456 | the index defined from the entry list maps every key to the first column stored under it and every position to its column, and nothing else |
| ColumnModel.IndexedAsUnique | test/base/test_utils.py:450-456 | any map with that property is the index: the integrity condition fixes `_index` uniquely |
| ColumnModel.KeyIndexOfAt | test/base/test_utils.py:452-454 | the key part of the index holds only stored keys, each mapped to the column at its first position |
| ColumnModel.FirstIndexSnoc | test/base/test_utils.py:454 | appending an entry leaves every earlier key's first position unchanged and gives a new key the new last position |
| ColumnModel.IndexOfSnoc | test/base/test_utils.py:452-455 | appending an entry adds its position, and adds its key only if the key was not stored before |
| ColumnModel.IndexOfUpdate | test/base/test_utils.py:707-728 | overwriting the slot at a key's first position changes exactly that position and that key in the index |
| ColumnModel.BuildIndex | test/base/test_utils.py:450-456 | the loop that first records each key's first column and then every position returns exactly the index |
| ColumnModel.CollectColumns | test/base/test_utils.py:451 | the loop over the entries returns exactly the set of stored columns |
| Dedupe.DedupedAppend | test/base/test_utils.py:707-728 | two key-distinct lists with no key in common concatenate to a key-distinct list |
| Dedupe.ColumnSetAppend | test/base/test_utils.py:451 | the members of a concatenation are the union of the members |
| Dedupe.ColumnUnderKey | test/base/test_utils.py:707-728 | in a strict list, the column stored under key `k` has `.key == k` |
| Dedupe.StrictAddIsReplace | test/base/test_utils.py:707-795 | for a column whose name is its key, strict add gives the same list as `replace` |
| Dedupe.StrictAddedSpec | test/base/test_utils.py:707-728 | strict add: an existing key keeps the key list and length; a new key appends its entry; every other slot is untouched; the members lose the old column under the key and gain the new one |
| Dedupe.StrictAddIdentical | test/base/test_utils.py:751-773 | adding a column that is already stored changes nothing |
| Dedupe.FoldAddDistinct | test/base/test_utils.py:1077-1078 | adding columns with pairwise different keys to an empty strict collection stores each under its own key, in order |
| Dedupe.ExtendKeepsOrder | test/base/test_utils.py:1066-1088 | `extend` never reorders or drops an existing key: the old key list is a prefix of the new one |
| Dedupe.ExtendLastWins | test/base/test_utils.py:1031-1064 | after `extend`, the last given column under each key is the stored one, and entries whose key was not given stay as they were |
| Dedupe.WithoutMembers | test/base/test_utils.py:965-1001 | removal keeps exactly the entries whose column is not removed |
| Dedupe.WithoutUntouched | test/base/test_utils.py:965-1001 | removing columns that are not stored changes nothing |
| Dedupe.WithoutSlice | test/base/test_utils.py:1003-1029 | a stretch holding none of the removed columns survives whole |
| Dedupe.WithoutColumnSet | test/base/test_utils.py:986-990 | after removal the members are the old members minus the removed ones |
| Dedupe.WithoutDeduped | test/base/test_utils.py:965-1001 | removal keeps the strict list's keys distinct |
| Dedupe.WithoutUnion | test/base/test_utils.py:1023-1025 | removing one set of columns and then another equals removing both at once |
| Dedupe.WithoutAppend | test/base/test_utils.py:1003-1029 | removal distributes over concatenation |
| Dedupe.DedupedColumnsDistinct | test/base/test_utils.py:965-1001 | in a strict list a column occupies one slot only |
| Dedupe.WithoutDropOne | test/base/test_utils.py:965-1001 | removing the one removed column between two untouched stretches joins the stretches |
| Dedupe.RemoveShifts | test/base/test_utils.py:965-1001 | `remove(c)` drops c's one slot and shifts every later entry down by one position |
| Dedupe.WithoutSingle | test/base/test_utils.py:965-1001 | a removed set met in exactly one slot drops exactly that slot |
| Dedupe.FirstIn | test/base/test_utils.py:797-963 | the first slot holding a replace target: `None` exactly when there is none |
| Dedupe.ReplaceTargetsSpec | test/base/test_utils.py:797-963 | the replace targets are stored columns, and a slot is a target exactly when its key is the new column's key, or its name when that differs |
| Dedupe.WalkAfterReplaced | test/base/test_utils.py:797-963 | once the new column is placed, the rest of the walk only drops targets |
| Dedupe.WalkIsRemoveThenInsert | test/base/test_utils.py:797-963 | `replace` equals removing every target and inserting the new entry at the first target's slot, or appending it when there is none |
| Dedupe.WalkMembers | test/base/test_utils.py:797-963 | every entry after the walk is the new one or an untouched old one |
| Dedupe.WalkColumnSet | test/base/test_utils.py:812-819 | after the walk the members are the old ones minus the targets plus the new column |
| Dedupe.WalkDeduped | test/base/test_utils.py:797-963 | the walk keeps keys distinct when every entry under the new key is a target |
| Dedupe.FirstInAt | test/base/test_utils.py:797-963 | the first target is found at the first slot holding one |
| Dedupe.WalkSingle | test/base/test_utils.py:797-918 | a single target slot is overwritten in place |
| Dedupe.WalkDouble | test/base/test_utils.py:945-963 | two target slots: the earlier takes the new entry, the later is dropped |
| Dedupe.ReplacedSpec | test/base/test_utils.py:797-963 | `replace` keeps keys distinct; the members become the old ones minus the targets plus the new column |
| Dedupe.ReplaceSingleMatch | test/base/test_utils.py:797-918 | one target: the new column takes its slot and the length is unchanged |
| Dedupe.ReplaceNoMatch | test/base/test_utils.py:920-943 | no target: the new column is appended |
| Dedupe.ReplaceDoubleMatch | test/base/test_utils.py:945-963 | a name matching one key and a key matching another: both go, the new column takes the earlier slot, and the length drops by one |
| Dedupe.ReplacedClears | test/base/test_utils.py:797-824 | after `replace`, the new column sits under its own key and no other entry has that key |
| Dedupe.TargetsOfReplaced | test/base/test_utils.py:797-824 | after `replace`, the only target of the same column is itself |
| Dedupe.ReplacedHolds | test/base/test_utils.py:797-824 | after `replace(c)`, `c` sits in one slot under its own key and is its own only target |
| Dedupe.ReplacedInPlace | test/base/test_utils.py:797-824 | replacing with a column already alone in its own slot changes nothing |
| Dedupe.ReplaceIdempotent | test/base/test_utils.py:797-824 | replacing with the same column twice equals replacing once |
| Collections.Store.constructor | test/base/test_utils.py:461-463 | the store holds exactly the given entries and satisfies the integrity check |
| Collections.Store.Restore | test/base/test_utils.py:675-680 | a deserialized list and index give a store that satisfies the integrity check, with its member set recomputed |
| Collections.Store.Keys | test/base/test_utils.py:458-467 | `keys()` lists the entries' keys in order |
| Collections.Store.Len | test/base/test_utils.py:911 | `len()` counts the entries, duplicates included |
| Collections.Store.GetItem | test/base/test_utils.py:469-478 | a string finds the first column under it, else `KeyError`; an integer in range finds that slot, else `IndexError`; any other object is a `KeyError` |
| Collections.Store.GetAttr | test/base/test_utils.py:535-539 | attribute access finds the first column under the key, else `AttributeError` |
| Collections.Store.Contains | test/base/test_utils.py:487-503 | `in` with a string is key membership; anything else fails with `ArgumentError` |
| Collections.Store.ContainsColumn | test/base/test_utils.py:480-485 | `contains_column` is true exactly when the column occupies some slot |
| Collections.Store.AllColumns | test/base/test_utils.py:530-533 | `_all_columns` lists the columns slot by slot and has the same members as the member set |
| Collections.Store.Compare | test/base/test_utils.py:505-524 | `compare` is true exactly when both entry lists are equal |
| Readings.ReadAll | test/base/test_utils.py:530-533 | `list(cc)` is the columns of the entry list, slot by slot |
| Readings.ReadAt | test/base/test_utils.py:469-478 | `cc[i]` is the column at slot `i` when `i` is in range, else `IndexError` |
| Readings.ReadKey | test/base/test_utils.py:469-478 | `cc[k]` is the column at the first slot keyed `k`, else `KeyError` |
| Readings.ReadOther | test/base/test_utils.py:469-478 | `cc[obj]` for an object that is neither a string nor an integer is `KeyError` |
| Readings.ReadAttr | test/base/test_utils.py:535-539 | `cc.k` is the column at the first slot keyed `k`, else `AttributeError` |
| Readings.ReadHas | test/base/test_utils.py:480-485 | `contains_column(c)` holds exactly when `c` is one of the listed columns |
| Readings.ReadHasKey | test/base/test_utils.py:487-503 | `k in cc` holds exactly when `k` is one of the listed keys |
| Readings.ReadHasOther | test/base/test_utils.py:487-503 | `obj in cc` for anything but a string is `ArgumentError` |
| Collections.Store.ReplaceTargetsOf | test/base/test_utils.py:797-963 | the two index probes `replace` makes find exactly the replace targets |
| Collections.Store.Append | test/base/test_utils.py:552-584 | appending an entry keeps the integrity check |
| Collections.Store.UpdateSlot | test/base/test_utils.py:707-728 | overwriting a key's first slot keeps the integrity check |
| Collections.Store.PositionOf | test/base/test_utils.py:707-728 | the index probe for a key gives its first position |
| Collections.FirstIndexAt | test/base/test_utils.py:576-577 | a key at position i and nowhere before has i as its first position |
| Collections.IndexKeyLookup | test/base/test_utils.py:452-456 | the index has a key exactly when it is stored, and maps it to the column at its first position |
| Collections.StrictAddInPlace | test/base/test_utils.py:707-728 | strict add under a stored key overwrites its slot; index and members change by that slot only |
| Collections.StrictAddAppend | test/base/test_utils.py:707-728 | strict add under a new key appends; the index gains the key and the position, and the members gain the column |
| Collections.StrictAddPresent | test/base/test_utils.py:751-773 | strict add of a stored column changes nothing |
| Collections.WithoutNonMember | test/base/test_utils.py:965-1001 | removing a non-member leaves the list as it was |
| Collections.WalkReplace | test/base/test_utils.py:797-963 | the replace loop over the entries produces the replace walk |
| Collections.FilterOut | test/base/test_utils.py:965-1001 | the remove loop over the entries produces the list without that column |
| Collections.ColumnUnderIndex | test/base/test_utils.py:826-918 | the stored column under a key is the index's entry for that key |
| Collections.LenientAddKeepsLookup | test/base/test_utils.py:576-577 | a lenient add never changes the column a stored key looks up |
| Collections.ColumnCollection.constructor | test/base/test_utils.py:586-615 | lenient construction keeps the entries exactly as given, duplicates included |
| Collections.ColumnCollection.Add | test/base/test_utils.py:552-584 | lenient `add` appends under the given key, or under the column's key; the integrity check holds |
| Collections.ColumnCollection.AsImmutable | test/base/test_utils.py:466-467 | the view shares the collection's store |
| Collections.DedupeColumnCollection.Create | test/base/test_utils.py:644-652 | strict construction succeeds exactly when every column is given under its own key (else `ArgumentError`), and then equals adding the columns one by one |
| Collections.DedupeColumnCollection.GetState | test/base/test_utils.py:664-692 | the serialized state is the list and an index that is exactly the list's index |
| Collections.DedupeColumnCollection.FromState | test/base/test_utils.py:664-692 | a collection read back from that state has the same list and index |
| Collections.DedupeColumnCollection.Add | test/base/test_utils.py:654-662 | strict `add` under a key other than the column's own fails with `ArgumentError` and changes nothing; otherwise it is the strict add |
| Collections.DedupeColumnCollection.Extend | test/base/test_utils.py:1031-1088 | `extend` equals strict adds one by one |
| Collections.DedupeColumnCollection.Replace | test/base/test_utils.py:797-963 | `replace` yields the replaced list and keeps the integrity check and distinct keys |
| Collections.DedupeColumnCollection.Remove | test/base/test_utils.py:965-1001 | `remove` drops the column from list, index and members; a non-member is a `ValueError` |
| Collections.DedupeColumnCollection.AsImmutable | test/base/test_utils.py:797-799 | the view shares the collection's store |
| Collections.ImmutableColumnCollection.constructor | test/base/test_utils.py:466 | a view holds its source's store |
| Collections.ImmutableColumnCollection.Add | test/base/test_utils.py:466 | `add` on a view fails with `ImmutableError` (a chosen behaviour: the tests never call it) |
| Collections.ImmutableColumnCollection.Extend | test/base/test_utils.py:466 | `extend` on a view fails with `ImmutableError` (a chosen behaviour: the tests never call it) |
| Collections.ImmutableColumnCollection.Replace | test/base/test_utils.py:466 | `replace` on a view fails with `ImmutableError` (a chosen behaviour: the tests never call it) |
| Collections.ImmutableColumnCollection.Remove | test/base/test_utils.py:466 | `remove` on a view fails with `ImmutableError` (a chosen behaviour: the tests never call it) |
| Collections.PickleRoundTrip | test/base/test_utils.py:664-684 | a collection and its view read back together share one new store holding the same list, index and members |
| Scenarios.KeysWithView | test/base/test_utils.py:458-467 | keys `c1, foo, c3`, and the view lists the same |
| Scenarios.ContainsColumnScenario | test/base/test_utils.py:480-485 | `contains_column` is true for c1 and false for c3 |
| Scenarios.LenientDupesAdd | test/base/test_utils.py:552-584 | four lenient adds give exactly `[c1, c2a, c3, c2b]`, both `c2` columns are members, and the view lists the same columns |
| Scenarios.LenientDupesLookup | test/base/test_utils.py:552-584 | keys `c1, c2, c3, c2`; lookup of `c2` gives the first `c2` column |
| Scenarios.KeysAndLookup | test/base/test_utils.py:574-577 | on any store keyed `c1, c2, c3, c2`, lookup of `c2` gives slot 1 |
| Scenarios.LookupAt | test/base/test_utils.py:576-577 | lookup by a key gives the column at its first position |
| Scenarios.LenientDupesConstruct | test/base/test_utils.py:586-615 | lenient construction gives exactly `[c1, c2a, c3, c2b]` with keys `c1, c2, c3, c2`; both `c2` columns are members, lookup of `c2` gives c2a, and the view lists the same columns |
| Scenarios.LenientIdenticalDupe | test/base/test_utils.py:617-638 | lenient construction with c2 given twice gives exactly `[c1, c2, c3, c2]`; c2 is a member, and the view lists the same columns |
| Scenarios.SubscriptErrors | test/base/test_utils.py:469-503 | `cc["foo"]` and `cc[object()]` are `KeyError`, `cc[5]` is `IndexError`, `"col1" in cc` holds, and a column in `in` is `ArgumentError` |
| Scenarios.SeparateKeys | test/base/test_utils.py:530-539 | columns stored under `kcol1` and `kcol2` list as exactly `[c1, c2]`, and `cc.kcol1` is c1 and `cc.kcol2` is c2 |
| Scenarios.SeparateKeysIn | test/base/test_utils.py:541-550 | `in` asks about keys: `"col1"` (a name only) is not in the collection and `"kcol2"` is |
| Scenarios.CompareCollections | test/base/test_utils.py:505-524 | equal entry lists compare equal; a proper prefix does not |
| StrictScenarios.AddedNew | test/base/test_utils.py:707-728 | strict add of an unused key appends |
| StrictScenarios.AddedAt | test/base/test_utils.py:707-728 | strict add of a stored key overwrites that slot |
| StrictScenarios.FoldAddSnoc | test/base/test_utils.py:1031-1088 | extending by one more column is one more strict add |
| StrictScenarios.UnderKey | test/base/test_utils.py:826-918 | in a strict list the stored column under a present key is the one in its slot |
| StrictScenarios.UnderNoKey | test/base/test_utils.py:920-943 | no column is stored under an absent key |
| StrictScenarios.StrictKeysWithView | test/base/test_utils.py:458-467 | on the strict collection, keys `c1, foo, c3`, and the view lists the same |
| StrictScenarios.StrictContainsColumn | test/base/test_utils.py:480-485 | on the strict collection, `contains_column` is true for c1 and false for c3 |
| StrictScenarios.StrictSubscriptErrors | test/base/test_utils.py:469-478 | on the strict collection, `cc["foo"]` and `cc[object()]` are `KeyError` and `cc[5]` is `IndexError` |
| StrictScenarios.StrictIn | test/base/test_utils.py:487-503 | on the strict collection, `"col1"` and `"col2"` are in it, and a column in `in` is `ArgumentError` |
| StrictScenarios.StrictCompare | test/base/test_utils.py:505-524 | on the strict collection, equal entry lists compare equal; a proper prefix does not |
| StrictScenarios.StrictDupesAdd | test/base/test_utils.py:707-728 | adding c1, c2a, c3, c2b gives exactly `[c1, c2b, c3]`; c2b is a member and c2a is not |
| StrictScenarios.ConstructWithDupe | test/base/test_utils.py:730-749 | constructing from c1, c2a, c3, c2b gives `[c1, c2b, c3]` |
| StrictScenarios.StrictDupesConstruct | test/base/test_utils.py:730-749 | strict construction from c1, c2a, c3, c2b gives exactly `[c1, c2b, c3]`; c2b is a member and c2a is not |
| StrictScenarios.StrictIdenticalDupe | test/base/test_utils.py:751-773 | re-adding the identical column gives exactly `[c1, c2, c3]`; c2 is a member, and the view lists the same columns |
| StrictScenarios.ConstructIdentical | test/base/test_utils.py:775-795 | constructing from c1, c2, c3, c2 gives `[c1, c2, c3]` |
| StrictScenarios.StrictIdenticalConstruct | test/base/test_utils.py:775-795 | strict construction with c2 given twice gives exactly `[c1, c2, c3]`; c2 is a member, and the view lists the same columns |
| StrictScenarios.SeparateKeyRejected | test/base/test_utils.py:644-662 | construction and `add` under a foreign key both fail with `ArgumentError` |
| StrictScenarios.PickleWithMutation | test/base/test_utils.py:664-692 | after a serialize and deserialize, adding c3 to the collection shows up in the view's keys and members |
| StrictScenarios.KeysAfterReplace | test/base/test_utils.py:694-705 | replacing with a column keyed like a stored one keeps keys `c1, foo, c3` |
| StrictScenarios.TargetIsSecond | test/base/test_utils.py:826-918 | a key or name match against `[c1, c2, c3]` targets slot 1 only |
| StrictScenarios.ReplaceIntoSlot | test/base/test_utils.py:797-918 | replace by key, by name, or by key with another name gives exactly `[c1, c2b, c3]`, and the view lists the same; slot 1 is c2b through both; c2a is no longer a member and c2b is; the view's position 3 is an `IndexError` |
| StrictScenarios.ReplaceNoMatchScenario | test/base/test_utils.py:920-943 | replace with no match gives exactly `[c1, c2, c3, c4]`, and the view lists the same; slot 3 is c4 through both; c2 and c4 are members |
| StrictScenarios.SwitchTargets | test/base/test_utils.py:945-963 | a column named `id` and keyed `street` targets both `id` and `street` |
| StrictScenarios.ReplaceSwitchKeyName | test/base/test_utils.py:945-963 | `[id, street, user_id]` becomes `[c4, user_id]` |
| StrictScenarios.RemoveScenario | test/base/test_utils.py:965-1001 | `remove(c2)` leaves `[c1, c3]`; `"c2"` is absent; the view's position 2 is an `IndexError` |
| StrictScenarios.RemoveUnkept | test/base/test_utils.py:1023-1025 | removing while iterating over a snapshot drops exactly the unkept columns, none skipped |
| StrictScenarios.UnkeptSnoc | test/base/test_utils.py:1023-1025 | one more iteration step adds that step's column to the removed set when unkept |
| StrictScenarios.KeepFirstTwo | test/base/test_utils.py:1003-1029 | keeping `c1, c2` out of `c1..c5` leaves the first two entries |
| StrictScenarios.RemoveDuringIteration | test/base/test_utils.py:1003-1029 | keys afterwards are exactly `c1, c2` |
| StrictScenarios.ExtendTwo | test/base/test_utils.py:1031-1064 | extending `[c1, c2a]` by `[c3, c2b]` gives `[c1, c2b, c3]` |
| StrictScenarios.DupesExtend | test/base/test_utils.py:1031-1064 | `extend([c3, c2b])` onto `[c1, c2a]` gives exactly `[c1, c2b, c3]`, and the view lists the same; position 3 is an `IndexError` through both; in the view c2a is not a member and c2b is |
| StrictScenarios.ExtendOne | test/base/test_utils.py:1081-1082 | extending by one column under a new key appends it |
| StrictScenarios.ExtendThree | test/base/test_utils.py:1085-1087 | extending `[c1, c2, c3]` by `[c4, c2, c5]` appends c4 and c5 and leaves c2 where it was |
| StrictScenarios.ExtendKeepsExisting | test/base/test_utils.py:1066-1088 | the three extends give `[c1, c2, c3, c4, c5]` |
| TokenParser.SplitPartsClean | test/base/test_utils.py:3024-3025 | no part of a split holds the separator |
| TokenParser.JoinSplit | test/base/test_utils.py:3024-3025 | joining a split gives the input back |
| TokenParser.SplitJoin | test/base/test_utils.py:3024-3025 | splitting a join of separator-free parts gives the parts back |
| TokenParser.SplitClean | test/base/test_utils.py:3024-3025 | a separator-free prefix only extends the first part |
| TokenParser.FastPathAgrees | test/base/test_utils.py:3021-3025 | without quotes the character scan and the plain split agree, so the fast path changes no answer |
| TokenParser.TokensAreScan | test/base/test_utils.py:3018-3019 | the parser's answer is the scan's for every input |
| TokenParser.SingleName | test/base/test_utils.py:3021-3022 | a name with no dot and no quote is one part, itself |
| TokenParser.UnquotedRoundTrip | test/base/test_utils.py:3021-3025 | without quotes, the parts are dot-free and joining them with dots gives the input |
| TokenParser.ScanEscaped | test/base/test_utils.py:3030-3058 | inside quotes, an escaped text and its closing quote read back as the text |
| TokenParser.ScanBare | test/base/test_utils.py:3039-3049 | outside quotes, a dot-free, quote-free stretch extends the current part |
| TokenParser.ScanForm | test/base/test_utils.py:3027-3085 | a written part followed by a dot or the end reads back as its text |
| TokenParser.ScanRender | test/base/test_utils.py:3027-3085 | scanning a written identifier gives the parts' texts |
| TokenParser.ParseTwo | test/base/test_utils.py:3027-3058 | two written parts around a dot parse back as their two texts |
| TokenParser.ParseRender | test/base/test_utils.py:3017-3085 | round trip: parsing parts written bare or quoted, with quotes doubled, gives their texts |
| TokenParser.EscapeAppend | test/base/test_utils.py:3030-3058 | escaping works piece by piece |
| TokenParser.EscapeClean | test/base/test_utils.py:3060-3085 | quote-free text escapes to itself |
| TokenParser.EscapeOneQuote | test/base/test_utils.py:3036-3037 | a single quote is doubled and nothing else changes |
| TokenParser.BareBare | test/base/test_utils.py:3024-3025 | `a.b` gives `[a, b]` |
| TokenParser.QuotedBare | test/base/test_utils.py:3027-3037 | a quoted name, a dot and a bare name give the two texts |
| TokenParser.BareQuoted | test/base/test_utils.py:3039-3049 | a bare name, a dot and a quoted name give the two texts |
| TokenParser.QuotedWithQuoteBare | test/base/test_utils.py:3036-3037 | `"x""y".b` gives ``x"y`` and `b` |
| TokenParser.BareQuotedClean | test/base/test_utils.py:3069-3076 | `a."t"` with no quote in t gives `a` and `t`, dots in t included |
| TokenParser.QuotedOnly | test/base/test_utils.py:3051-3058 | a single quoted name gives its text |
| TokenParser.ExampleSingle | test/base/test_utils.py:3021-3022 | `name` gives `[name]` |
| TokenParser.ExampleDotted | test/base/test_utils.py:3024-3025 | `schema.name` gives `[schema, name]` |
| TokenParser.ExampleQuotedLeftWithQuote | test/base/test_utils.py:3036-3037 | `"Sch""ema".name` gives ``[Sch"ema, name]`` |
| TokenParser.ExampleQuotedRightWithDot | test/base/test_utils.py:3075-3076 | `schema."na.me"` gives `[schema, na.me]` |
| TokenParser.ExampleQuotedLeftEdge | test/base/test_utils.py:3051-3052 | `"""name"` gives ``["name]`` |
| TokenParser.ScanStep | test/base/test_utils.py:3018-3019 | each character step of the loop keeps the parts built so far, stitched to the scan of the rest, equal to the scan of the whole |
| TokenParser.QuotedTokenParser | test/base/test_utils.py:3017-3085 | the parser's loop over the characters returns exactly `QuotedTokens(value)` |

## Left out

- The serialization mechanism (`picklers`) is not modelled. Only its consequence is: a
  collection and its view read back together share one store (`Collections.PickleRoundTrip`).
  The columns themselves are not copied.
- Changing a column's `.key` after it is stored is not modelled. `Column.key` is a constant
  here, and the tests set keys only before storing.
- Lenient collections are modelled with construction and `add` only. The tests use no other
  mutator on them.
- Collections.DedupeColumnCollection.Replace and Collections.DedupeColumnCollection.Remove
  rebuild the index from the new list. The implementation may patch the index in place; the
  resulting index is the same either way.
- Collections.ImmutableColumnCollection.Add, Collections.ImmutableColumnCollection.Extend,
  Collections.ImmutableColumnCollection.Replace and Collections.ImmutableColumnCollection.Remove:
  the view's refusal of mutators is a chosen behaviour. The tests never call a mutator on a
  view, and the error is modelled as `ImmutableError` without its message.
- Collections.DedupeColumnCollection.Remove: removing a column that is not stored is a
  `ValueError`. This is a chosen behaviour: the tests do not exercise it.
- Error messages are not modelled, only the error kinds.
- `WeakSequence` depends on garbage collection and is not modelled.
- `LRUCache` is not modelled: its eviction rule is not visible in the tests.
- `OrderedDict`, `OrderedSet`, `IdentitySet`, `immutabledict`, `Properties`, `KeyedTuple`,
  `symbol`, the reflection helpers, `timezone` and the codec helpers are not modelled. They
  are thin layers over the host language's built-ins.
- SQL column objects are modelled as opaque records with identity, a name and a key.
- The implementation of `quoted_token_parser` (`sqlalchemy/util/langhelpers.py`) is not part
  of this model. The tests (test_utils.py:3017-3085) fix its answer only on the inputs they
  list. `TokenParser.Scan` is one function that gives every one of those answers.
- TokenParser.Scan: its answer on inputs the tests do not list is assumed, not fixed by them.
  Text on both sides of a quoted stretch joins into one part (`a"b"c` gives `abc`), and an
  unclosed quote runs to the end of the input.
- TokenParser.QuotedTokenParser: its structure is assumed, not read from an implementation.
  That structure is a fast path that splits on every dot when there is no quote, and
  otherwise one left-to-right pass with a quote state and a one-character look-ahead for a
  doubled quote. `TokenParser.FastPathAgrees` and the method's own postcondition prove that
  this structure gives the answer of `TokenParser.Scan` on every input.
- The tests common to both collections (test_utils.py:449-524) are modelled once on each:
  on the lenient collection in `Scenarios` and on the strict one in `StrictScenarios`.
- Python strings are modelled as sequences of characters. Tokens are built directly as
  strings rather than as lists of characters joined at the end.
