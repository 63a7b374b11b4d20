# nova-settings-tool settings objects, in Dafny

This project models the settings objects of the Laravel Nova package
nova-settings-tool:

- **`SettingItem`**: one typed setting. It has a key, a display name, a type, a priority, options, a memoised display field, a cached value and a dirty flag.
- **`SettingGroup`**: a keyed, prioritised collection of items.
- **`SettingRegister`**: the application-wide, keyed collection of groups. It also provides the static entry points `init`, `getInstance` and `getSettingItem`.
- **`BaseEnum`**: the reflection-based enumeration helper with its static cache.
- **`SettingType`**: the eight field types.

Every object is modelled twice:

- **Snapshots.** An immutable snapshot of the object (`Item.ItemState`, `Group.GroupState`, `Register.GroupStates`) with pure functions that say what each operation does to it and to the settings table.
- **Classes.** A class with the object's own fields. Its methods update those fields in place, and each method's postcondition ties the new state to the snapshot function, applied to the old state.

The lemmas then state what the package promises about the snapshot functions:

- an assigned value, once saved, resolves back;
- saving twice writes nothing more;
- configurators keep keys unique;
- `massUpdate` leaves unnamed items alone;
- with deferred saving, `massUpdate` writes no row until the final save;
- `getSettingItem` finds an item exactly when some group holds the key, and the later list wins.

Supporting modules:

| module | models |
|---|---|
| `Php` | the PHP value semantics involved: null, `empty`, `??`, `strtolower` |
| `Collection` | the framework's keyed collection (`put`, `forget`, `has`, `get`, `merge`) as a sequence of (key, value) pairs |
| `Sorting` | `sortByDesc` as a stable insertion sort |
| `Database` | the `settings` table as a map from key to value |

Two behaviours of the code are worth stating plainly:

- `getValue` reads the store whenever the key is usable (not "" and not "0"). Its force flag can suppress the read only when the key is unusable, when nothing would be read anyway. So `Item.Resolved` has no force parameter.
- `getSettingItem` merges the groups' item lists with `merge`. A key keeps the position of its first occurrence, but its value comes from the last list that holds it. So when two groups hold the same item key, the later group's item, in `getGroups()` order, wins (`Register.LookupLast`).

## Model

| member | source | states |
|---|---|---|
| SettingType.Constants | src/Enums/SettingType.php:14-49 | the class declares exactly eight constants |
| SettingType.ValueDomain | src/Enums/SettingType.php:14-49 | the constant values are exactly the eight field kinds |
| SettingType.NameDomain | src/Enums/SettingType.php:14-49 | the constant names are exactly the eight upper-case names |
| SettingType.ConstantsDistinct | src/Enums/SettingType.php:14-49 | no two constants share a name or a value |
| SettingType.ValueIsLowerName | src/Enums/SettingType.php:14-49 | every value is its name lower-cased |
| BaseEnum.ToMap | src/Enums/BaseEnum.php:30 | reflection's name-to-value array has exactly the constants' names as keys and their values as values |
| BaseEnum.Reflect | src/Enums/BaseEnum.php:29-30 | `getConstants()` of a fresh `ReflectionClass`: the class's constants as a name-to-value map; for `SettingType`, `ReflectedNames` and `ReflectedValues` give its keys and values |
| BaseEnum.NameValid | src/Enums/BaseEnum.php:41-51 | strict: the name is a key of the constants; loose: some key equals it once both are lower-cased (`StrictNames`, `LooseNameIsLowerValue`) |
| BaseEnum.ValueValid | src/Enums/BaseEnum.php:59-63 | `in_array($value, array_values(...), true)`: the value is identical to one of the constant values |
| BaseEnum.ValidType | src/ValueObjects/SettingItem.php:167 | `SettingType::isValidValue($type)`: the value test on `SettingType`'s constants; `TypeDomain` shows it accepts exactly the eight field kinds |
| BaseEnum.ConstantsCache.constructor | src/Enums/BaseEnum.php:16 | the cache starts out null |
| BaseEnum.ConstantsCache.GetConstants | src/Enums/BaseEnum.php:22-33 | returns what reflection gives for the class; caches it on a miss and leaves a hit alone; keeps every entry equal to reflection |
| BaseEnum.ConstantsCache.IsValidName | src/Enums/BaseEnum.php:41-51 | strict: the name is a constant name; loose: some name equals it after both are lower-cased |
| BaseEnum.ConstantsCache.IsValidValue | src/Enums/BaseEnum.php:59-63 | the value is one of the constant values |
| BaseEnum.ReflectedNames | src/Enums/BaseEnum.php:30 | reflection on `SettingType` yields exactly the eight upper-case names |
| BaseEnum.ReflectedValues | src/Enums/BaseEnum.php:30 | reflection on `SettingType` yields exactly the values the class declares |
| BaseEnum.TypeDomain | src/Enums/BaseEnum.php:59-63 | a type is valid iff it is one of the eight field kinds |
| BaseEnum.StrictNames | src/Enums/BaseEnum.php:45-46 | the strict name test accepts exactly the eight constant names |
| BaseEnum.LooseNameIsLowerValue | src/Enums/BaseEnum.php:49-50 | the loose name test is the value test on the lower-cased name |
| BaseEnum.TextIsValid | src/ValueObjects/SettingItem.php:45 | the default item type "text" is valid |
| Php.Coalesce | src/ValueObjects/SettingRegister.php:164 | `$value ?? ''`: null becomes "", a string is kept |
| Php.Lower | src/Enums/BaseEnum.php:49-50 | `strtolower` folds A-Z and keeps the length and every other character |
| Collection.Has | src/ValueObjects/SettingGroup.php:168 | `has($key)`: some entry carries the key (`HasAt` states both directions) |
| Collection.Get | src/ValueObjects/SettingGroup.php:169 | `get($key)` on a present key: a value stored under that key; with unique keys, the value of every entry under it |
| Collection.Put | src/ValueObjects/SettingGroup.php:189 | `put`: the key is then present; a present key is replaced in place; an absent key is appended; other entries stay; unique keys stay unique and the key then gives `v` |
| Collection.Forget | src/ValueObjects/SettingRegister.php:110 | `forget`: the key is gone, every other entry is kept, and nothing is added |
| Collection.ForgetUnique | src/ValueObjects/SettingRegister.php:110 | `forget` keeps keys unique |
| Collection.ForgetAt | src/ValueObjects/SettingRegister.php:110 | with unique keys, `forget` cuts out the key's one entry and the others keep their order |
| Collection.Merge | src/ValueObjects/SettingRegister.php:224 | `merge($other)` on string keys: each entry of the second collection put into the first in turn; unique keys stay unique (`MergeHas`, `MergeGet`, `MergeFrom` state its effect) |
| Collection.MergeAll | src/ValueObjects/SettingRegister.php:222-225 | the merge loop: the lists merged left to right, starting from an empty collection; the result has unique keys |
| Collection.MergeGet | src/ValueObjects/SettingRegister.php:224 | `merge`: a key of the second collection takes its value there; other keys keep theirs |
| Collection.MergeHas | src/ValueObjects/SettingRegister.php:224 | a key is in the merge iff it is in either input |
| Collection.MergeAllHas | src/ValueObjects/SettingRegister.php:222-225 | a key held by any list is in the merge of all of them |
| Collection.PermutationGet | src/ValueObjects/SettingRegister.php:66-71 | rearranging a collection with unique keys changes neither which keys it has nor what they give |
| Collection.MergeAllGet | src/ValueObjects/SettingRegister.php:222-225 | over several merges, the last list that holds the key supplies its value |
| Sorting.SortByDesc | src/ValueObjects/SettingGroup.php:199-201 | `sortByDesc`: the elements paired with their sort values and stably sorted by non-increasing value; the length is kept, and `SortByDescPermutes`, `SortByDescOrdered` and `SortSorted` state that it is an ordered rearrangement that leaves ordered input alone |
| Sorting.SortByDescPermutes | src/ValueObjects/SettingGroup.php:199-201 | `sortByDesc` rearranges its input |
| Sorting.SortByDescOrdered | src/ValueObjects/SettingGroup.php:199-201 | `sortByDesc` lists elements by non-increasing sort value |
| Sorting.SortSorted | src/ValueObjects/SettingGroup.php:199-201 | a sequence already in order is left unchanged |
| Item.DefaultOption | src/ValueObjects/SettingItem.php:252 | `isset($options['default'])`: present and not null |
| Item.StoredRow | src/ValueObjects/SettingItem.php:243-248 | a row is read only for a usable key that the table holds |
| Item.Resolved | src/ValueObjects/SettingItem.php:238-266 | `getValue`: only the value changes; it is null or non-empty; a non-empty row wins; without a row, a non-empty cached value is kept; when the row (or, without one, the cached value) is empty, a non-empty default is taken; null exactly when all three are empty |
| Item.Initial | src/ValueObjects/SettingItem.php:109-113 | a new item has the declared initial values and a null value |
| Item.NewItem | src/ValueObjects/SettingItem.php:109-113 | construction gives the same state whatever the table holds; the new item is clean and its type is valid |
| Item.KeylessIgnoresStore | src/ValueObjects/SettingItem.php:240-249 | without a usable key, the table is not consulted |
| Item.ResolveIdempotent | src/ValueObjects/SettingItem.php:238-266 | resolving twice is resolving once |
| Item.Assigned | src/ValueObjects/SettingItem.php:275-276 | `value($v, false)`: the value is `v`, the flag says whether it differs from the old one, nothing else changes |
| Item.AssignOverwritesFlag | src/ValueObjects/SettingItem.php:275 | a second assignment of the same value clears the flag |
| Item.DefaultValue | src/ValueObjects/SettingItem.php:325-332 | `setDefaultValue`: the default option, or "" without one |
| Item.Saved | src/ValueObjects/SettingItem.php:289-318 | `save`: a no-op when clean or keyless; with a row, a string is written and the item becomes clean, while null writes nothing; without a row, null is first replaced by the default and a row is inserted; no other row changes |
| Item.ValueCall | src/ValueObjects/SettingItem.php:273-283 | `value($v, $save)`: assignment, then a save when asked |
| Item.RoundTrip | src/ValueObjects/SettingItem.php:273-318 | after `value(v)` on a usable key with a new non-empty string, the table holds `v` and every item with that key resolves to `v` |
| Item.PendingValueNotSaved | src/ValueObjects/SettingItem.php:275-291 | `value(v, false)` then `value(v)` writes nothing, since the second call clears the flag |
| Item.SaveTwice | src/ValueObjects/SettingItem.php:289-318 | a second save writes nothing more, and an item with a string value is then clean |
| Item.NameUsingKey | src/ValueObjects/SettingItem.php:337-340 | underscores become spaces and the other characters are kept up to case |
| Item.DisplayName | src/ValueObjects/SettingItem.php:136-139 | a non-empty name, else the name derived from the key |
| Item.FieldByType | src/ValueObjects/SettingItem.php:346-360 | a valid type gets a field of its own class, labelled with the display name; any other type gets a text field captioned with the key |
| Item.WithField | src/ValueObjects/SettingItem.php:213-221 | `getField`: the field is made from the type only when there is none yet; it is relabelled and given the resolved value every time |
| Item.FieldKindIsMemoised | src/ValueObjects/SettingItem.php:215-217 | changing the type after the first `getField` does not change the field's class |
| Item.FirstFieldShowsType | src/ValueObjects/SettingItem.php:346-357 | the first field made for a valid type shows that type |
| Item.WithType | src/ValueObjects/SettingItem.php:165-172 | `type($t)` succeeds iff `t` is a SettingType value; on failure nothing changes and the error carries `t` |
| Item.ApplySetter | src/ValueObjects/SettingItem.php:145-231 | a setter never changes key, value or flag; a failing setter changes nothing; a valid type stays valid |
| Item.Configured | src/ValueObjects/SettingGroup.php:175 | a configurator keeps key, value and flag, keeps a valid type valid, and can fail only through a `type` setter |
| Item.ConfiguredAppend | src/ValueObjects/SettingGroup.php:175 | two configurators run in turn are their concatenation when the first succeeds |
| Database.SettingsTable.constructor | src/ValueObjects/SettingItem.php:243-248 | the table holds the rows it is given |
| Item.SettingItem.constructor | src/ValueObjects/SettingItem.php:109-113 | the new object's state is `Initial()` |
| Item.SettingItem.GetKey | src/ValueObjects/SettingItem.php:118-121 | the key |
| Item.SettingItem.GetName | src/ValueObjects/SettingItem.php:136-139 | the display name |
| Item.SettingItem.SetKey | src/ValueObjects/SettingItem.php:127-131 | only the key changes |
| Item.SettingItem.SetName | src/ValueObjects/SettingItem.php:145-149 | only the name changes |
| Item.SettingItem.SetType | src/ValueObjects/SettingItem.php:165-172 | acts as `WithType` |
| Item.SettingItem.SetPriority | src/ValueObjects/SettingItem.php:186-190 | only the priority changes |
| Item.SettingItem.SetOptions | src/ValueObjects/SettingItem.php:204-208 | only the options change |
| Item.SettingItem.SetField | src/ValueObjects/SettingItem.php:227-231 | only the field changes |
| Item.SettingItem.GetValue | src/ValueObjects/SettingItem.php:238-266 | acts as `Resolved` and returns the new value |
| Item.SettingItem.SetValue | src/ValueObjects/SettingItem.php:273-283 | acts as `ValueCall` on the item and the table |
| Item.SettingItem.Save | src/ValueObjects/SettingItem.php:289-318 | acts as `Saved` on the item and the table |
| Item.SettingItem.SetDefaultValue | src/ValueObjects/SettingItem.php:325-332 | the value becomes `DefaultValue` of the options |
| Item.SettingItem.GetField | src/ValueObjects/SettingItem.php:213-221 | acts as `WithField` |
| Item.SettingItem.Configure | src/ValueObjects/SettingGroup.php:175 | acts as `Configured` |
| Item.ValueThenGetValue | src/ValueObjects/SettingItem.php:273-283 | on the object, for a usable key and a non-empty string other than the current value: `value(v)` then `getValue()` returns `v`, and the table gains `v` under the key |
| Group.UpsertItem | src/ValueObjects/SettingGroup.php:166-180 | `item($k, $cb)`: other entries stay; a present key keeps the key order; a new key is appended unless the configurator threw; unique, matching keys are kept |
| Group.UpsertExisting | src/ValueObjects/SettingGroup.php:168-177 | a present key keeps its position and holds the configured item |
| Group.UpsertAt | src/ValueObjects/SettingGroup.php:168-177 | a present key at `i`: only position `i` changes, to the configured state |
| Group.UpsertNew | src/ValueObjects/SettingGroup.php:170-177 | a new key: one configured item with that key is appended |
| Group.UpsertsKeepInvariant | src/ValueObjects/SettingGroup.php:166-180 | any run of `item` calls keeps keys unique and matching their items |
| Group.AddItemState | src/ValueObjects/SettingGroup.php:187-191 | `addItem`: the item is found under its key; a present key is replaced in place; a new one is appended |
| Group.ApplySetter | src/ValueObjects/SettingGroup.php:117-180 | a group setter keeps the key and the item invariant |
| Group.Configured | src/ValueObjects/SettingRegister.php:132 | a group configurator keeps the key and the item invariant |
| Group.ConfiguredStep | src/ValueObjects/SettingRegister.php:132 | the calls from `i` on: call `i`, then, unless it threw, the rest |
| Group.DisplayName | src/ValueObjects/SettingGroup.php:108-111 | a non-empty name, else the key |
| Group.VisitOrder | src/ValueObjects/SettingGroup.php:197-202 | `getItems`: a rearrangement of the items by non-increasing priority |
| Group.SaveAll | src/ValueObjects/SettingGroup.php:217-224 | keeps the number of items; `SaveAllEffect` and `SweepAt` state its effect |
| Group.SaveAllEffect | src/ValueObjects/SettingGroup.php:217-224 | saving all keeps keys and everything but values and flags, leaves clean items alone, removes no row, and is a no-op when every item is clean |
| Group.SweepAt | src/ValueObjects/SettingGroup.php:219-221 | each item's result comes from its own step on the table the items before it left |
| Group.SortedStates | src/ValueObjects/SettingGroup.php:197-202 | sorting item objects, then reading their states, is sorting the states |
| Group.SettingGroup.constructor | src/ValueObjects/SettingGroup.php:81-85 | a new group has no items |
| Group.SettingGroup.GetKey | src/ValueObjects/SettingGroup.php:90-93 | the key |
| Group.SettingGroup.GetName | src/ValueObjects/SettingGroup.php:108-111 | the display name |
| Group.SettingGroup.SetKey | src/ValueObjects/SettingGroup.php:99-103 | only the key changes |
| Group.SettingGroup.SetName | src/ValueObjects/SettingGroup.php:117-121 | only the name changes |
| Group.SettingGroup.SetIcon | src/ValueObjects/SettingGroup.php:135-139 | only the icon changes |
| Group.SettingGroup.SetPriority | src/ValueObjects/SettingGroup.php:153-157 | only the priority changes |
| Group.SettingGroup.HasItems | src/ValueObjects/SettingGroup.php:208-211 | true iff the group has an item |
| Group.SettingGroup.GetItems | src/ValueObjects/SettingGroup.php:197-202 | a rearrangement of the entries by non-increasing priority |
| Group.SettingGroup.ItemsInVisitOrder | src/ValueObjects/SettingGroup.php:197-202 | the objects `getItems` lists, read as states, are `VisitOrder` of the states |
| Group.SettingGroup.AddItem | src/ValueObjects/SettingGroup.php:187-191 | acts as `Put` on the objects and `AddItemState` on the states; the group's own fields stay |
| Group.SettingGroup.ConfigureAt | src/ValueObjects/SettingGroup.php:175 | the configurator acts on the item at `i` only |
| Group.SettingGroup.ItemExisting | src/ValueObjects/SettingGroup.php:168-177 | `item` on a present key acts as `UpsertItem` and adds no object |
| Group.SettingGroup.ItemNew | src/ValueObjects/SettingGroup.php:170-177 | `item` on a new key acts as `UpsertItem` and appends one fresh object unless the configurator threw |
| Group.SettingGroup.ItemCall | src/ValueObjects/SettingGroup.php:166-180 | `item($k, $cb)` acts as `UpsertItem` |
| Group.SettingGroup.Apply | src/ValueObjects/SettingRegister.php:132 | one configurator call acts as `ApplySetter` |
| Group.SettingGroup.Configure | src/ValueObjects/SettingRegister.php:132 | a group configurator acts as `Configured` |
| Group.SettingGroup.SaveAt | src/ValueObjects/SettingGroup.php:220 | `save` on the item at `i` only |
| Group.SettingGroup.SaveAllChangedValues | src/ValueObjects/SettingGroup.php:217-224 | acts as `SaveAll` on the states and the table |
| Register.ApplyPayload | src/ValueObjects/SettingRegister.php:162-166 | the pair loop for one item changes only value and flag, and writes no row when not saving in between |
| Register.PayloadUnmatched | src/ValueObjects/SettingRegister.php:162-166 | pairs naming other keys leave the item and the table alone |
| Register.PayloadMatched | src/ValueObjects/SettingRegister.php:162-166 | an item named in the array gets exactly one `value` call with its value, null read as "" |
| Register.NullBecomesEmpty | src/ValueObjects/SettingRegister.php:164 | a null in the array arrives at the item as "" |
| Register.UpdateItems | src/ValueObjects/SettingRegister.php:161-167 | keeps the number of a group's items; `UpdateItemsNoSave` and `UpdateItemsUnmatched` state its effect |
| Register.RestoreRearranged | src/ValueObjects/SettingRegister.php:161-167 | after visiting the items in `getItems` order, each item of the collection takes the state its own visit produced |
| Register.SweepNoSave | src/ValueObjects/SettingRegister.php:161-167 | without saving in between, visiting the items writes no row and each item is assigned on its own |
| Register.UpdateItemsNoSave | src/ValueObjects/SettingRegister.php:161-167 | without saving in between, no row is written and each item is assigned on its own |
| Register.UpdateItemsUnmatched | src/ValueObjects/SettingRegister.php:161-167 | an item that no pair names keeps its state |
| Register.GroupSweepAt | src/ValueObjects/SettingRegister.php:160-168 | each group comes out of its own pass, run on the table the groups before it left |
| Register.UpdateGroups | src/ValueObjects/SettingRegister.php:160-168 | keeps the number of groups; `UpdateGroupsNoSave` and `UnnamedUntouched` state its effect |
| Register.GroupSweepKeepsRows | src/ValueObjects/SettingRegister.php:160-168 | when no group's pass writes a row, the walk writes none and every group is passed on its own |
| Register.UpdateGroupsNoSave | src/ValueObjects/SettingRegister.php:160-168 | without saving in between, the loops write no row and update each group on its own |
| Register.SaveGroups | src/ValueObjects/SettingRegister.php:143-150 | keeps the number of groups; `SaveGroupsFlat` states its effect |
| Register.SaveGroupsFlat | src/ValueObjects/SettingRegister.php:143-150 | saving group by group is one save pass over all items |
| Register.MassUpdated | src/ValueObjects/SettingRegister.php:158-176 | keeps the number of groups; `MassUpdateDeferred` states its effect |
| Register.MassUpdateDeferred | src/ValueObjects/SettingRegister.php:158-173 | with deferred saving, the work is one save of the updated groups against the unchanged table |
| Register.UnnamedUntouched | src/ValueObjects/SettingRegister.php:158-168 | an item the array does not name keeps its state through the update loops |
| Register.UpsertGroup | src/ValueObjects/SettingRegister.php:123-137 | `group($k, $cb)`: other groups stay; a present key keeps the key order; a new key is appended unless the configurator threw |
| Register.UpsertGroupAt | src/ValueObjects/SettingRegister.php:125-134 | a present key at `i`: only position `i` changes, to the configured group |
| Register.UpsertGroupNew | src/ValueObjects/SettingRegister.php:127-134 | a new key: the configured group is appended iff its configurator succeeded |
| Register.UpsertGroupConsistent | src/ValueObjects/SettingRegister.php:123-137 | `group` keeps group keys unique and every group and item under its own key |
| Register.GroupCallsConsistent | src/ValueObjects/SettingRegister.php:123-137 | any run of `group` calls keeps the register consistent |
| Register.LookupItem | src/ValueObjects/SettingRegister.php:218-233 | the answer of `getSettingItem`: the entry under the key in the merge of the lists, or null; `LookupNone`, `LookupLast` and `LookupFrom` state its meaning |
| Register.LookupNone | src/ValueObjects/SettingRegister.php:222-232 | nothing is found iff no list holds the key |
| Register.LookupLast | src/ValueObjects/SettingRegister.php:222-230 | the last list that holds the key supplies the item found |
| Register.LookupFrom | src/ValueObjects/SettingRegister.php:222-230 | a found item sits under the key in one of the lists |
| Register.MergeItems | src/ValueObjects/SettingRegister.php:222-225 | the merge loop yields the merge of every group's `getItems`, in `getGroups` order |
| Register.FirstWithKey | src/ValueObjects/SettingRegister.php:226-232 | the search loop returns the entry under `k`, or null when there is none |
| Register.ApplyPayloadTo | src/ValueObjects/SettingRegister.php:162-166 | on the object: acts as `ApplyPayload` |
| Register.AssignValues | src/ValueObjects/SettingRegister.php:161-167 | on a group object: acts as `UpdateItems` |
| Register.AssignInOrder | src/ValueObjects/SettingRegister.php:161-167 | the item loop over the sorted view threads the table through each item's pair loop |
| Register.AssignItem | src/ValueObjects/SettingRegister.php:162-166 | the pair loop on one item of the view leaves the others alone |
| Register.RunTask | src/ValueObjects/SettingRegister.php:145-147 | one group's work in a walk: a save or the update loops |
| Register.NewGroup | src/ValueObjects/SettingRegister.php:83-86 | the group `getGroup` makes for an absent key: that key, empty name and icon, priority 0, no items |
| Register.ConfiguredGroup | src/ValueObjects/SettingRegister.php:128-132 | a fresh group with key `k`, configured by `cb` |
| Register.Dispatcher.Dispatch | src/ValueObjects/SettingRegister.php:59 | `event(...)`: the event is recorded after those before it |
| Register.SettingRegister.constructor | src/ValueObjects/SettingRegister.php:55-60 | no groups, and one `SettingsRegistering` event for the new register |
| Register.SettingRegister.GetGroups | src/ValueObjects/SettingRegister.php:66-71 | a rearrangement of the groups by non-increasing priority |
| Register.SettingRegister.GetGroup | src/ValueObjects/SettingRegister.php:78-88 | the group under the key, or a fresh empty group with that key, which is not added |
| Register.SettingRegister.AddGroup | src/ValueObjects/SettingRegister.php:95-100 | the group is put under its key, on the objects and on the snapshots |
| Register.SettingRegister.RemoveGroup | src/ValueObjects/SettingRegister.php:107-114 | the group under the key is cut out if present, and the rest keep their order; otherwise nothing changes |
| Register.SettingRegister.GroupExisting | src/ValueObjects/SettingRegister.php:125-134 | `group` on a present key acts as `UpsertGroup` |
| Register.SettingRegister.AddPresent | src/ValueObjects/SettingRegister.php:134 | re-adding the group already at `i` changes nothing |
| Register.SettingRegister.ConfigureAt | src/ValueObjects/SettingRegister.php:132 | the configurator acts on the group at `i` only |
| Register.SettingRegister.ConfigureInPlace | src/ValueObjects/SettingRegister.php:132 | after the configurator, the groups are well formed and only group `i`'s snapshot has changed |
| Register.SettingRegister.GroupNew | src/ValueObjects/SettingRegister.php:127-134 | `group` on a new key acts as `UpsertGroup` |
| Register.SettingRegister.GroupCall | src/ValueObjects/SettingRegister.php:123-137 | `group($key, $callback)` acts as `UpsertGroup` |
| Register.SettingRegister.RunAt | src/ValueObjects/SettingRegister.php:145-147 | a walk's work on the group at `i` only |
| Register.SettingRegister.ForEachGroup | src/ValueObjects/SettingRegister.php:145-147 | the walk over groups in collection order, the table threaded through |
| Register.SettingRegister.StepGroup | src/ValueObjects/SettingRegister.php:145-147 | one more group swept |
| Register.SettingRegister.SaveAllChangedValues | src/ValueObjects/SettingRegister.php:143-150 | acts as `SaveGroups` |
| Register.SettingRegister.MassUpdate | src/ValueObjects/SettingRegister.php:158-176 | acts as `MassUpdated`; `SettingsUpdated` with the array is dispatched iff saving was deferred |
| Register.SettingRegister.SaveAndAnnounce | src/ValueObjects/SettingRegister.php:170-173 | one save of every group, then the event |
| Register.SettingRegister.FindItem | src/ValueObjects/SettingRegister.php:221-232 | the lookup over the `getGroups` item lists; a found item has key `k` and belongs to the register; null iff no group holds `k` |
| Register.SettingRegister.Found | src/ValueObjects/SettingRegister.php:221-232 | the merged lookup finds an item of the register, and nothing iff no group holds the key |
| Register.SettingRegister.ListsHold | src/ValueObjects/SettingRegister.php:221-225 | some `getItems` list holds the key iff some group does |
| Register.Container.CheckInstance | src/ValueObjects/SettingRegister.php:204-211 | true iff the container holds a register under 'settings' (an unset or foreign binding gives false) |
| Register.Container.Init | src/ValueObjects/SettingRegister.php:181-187 | a register is created, bound and announced only when nothing is bound; otherwise nothing changes |
| Register.Container.GetInstance | src/ValueObjects/SettingRegister.php:193-198 | `init()`, then the bound register; a foreign binding is a TypeError |
| Register.Container.GetSettingItem | src/ValueObjects/SettingRegister.php:218-233 | a register bound before the call answers from its groups; a register the call creates (with no `SettingsRegistering` listener run) finds nothing; a foreign binding is a TypeError |

## Left out

- JSON: `json_decode` in `getValue` for objects and arrays, `json_encode` in `save`, and the serialisation, caching and JSON traits are not modelled. Setting values are null or strings.
- Item.SettingItem.GetValue: the `$isObjectOrArray` flag is not a parameter, because decoding JSON is outside the model.
- Item.NameUsingKey: `snake_case`'s splitting of camel-case words is not modelled. The key is taken as already snake-cased, and title-casing covers ASCII letters only. A new word starts only after `_` or a space, while `title_case` (`mb_convert_case` with `MB_CASE_TITLE`) also starts one after `-` and other non-letters: `foo-bar` gives "Foo-Bar" in PHP and "Foo-bar" in the model. The contract states the name only up to case, so it holds for both.
- Php.Lower: only ASCII letters are folded, which is what `strtolower` does in PHP 8.2 and later, or in the C locale. Before 8.2 it followed the current locale.
- Item.FieldByType: Nova field classes are a record of class, attribute, caption and value. How the fields render is not modelled. `Text::make($key)` with no attribute takes its attribute from the caption, lower-cased and with spaces turned into underscores. The model records the key itself as the attribute, which differs for keys with upper-case letters or spaces.
- Configurator closures are sequences of setter calls. The key setter is not among them. The only exception they can raise is `SettingTypeNotValidException` from `type`. `CallableTrait`'s dependency injection is not modelled.
- Item.Configured, Item.ApplySetter: a closure passed to `item()` can run any code on the item. The model offers only `name`, `type`, `priority`, `options` and `field`. Calls to `key`, `value`, `save`, `getValue`, `getField` or `setDefaultValue` from inside a closure cannot be expressed. The clause that a configurator keeps key, value and flag follows from leaving those calls out, not from the program.
- Group.Configured, Group.ApplySetter: likewise, a closure passed to `group()` is limited to `name`, `icon`, `priority` and `item`. Calls to `key`, `addItem` or `saveAllChangedValues` from inside it are not modelled, so the key and the item invariant are kept by construction.
- Group.SettingGroup.GetKey: the source raises a `TypeError` when the key was never set. The model starts groups with key "".
- Item.SettingItem.GetKey: a never-set key reads as "", as `?? ''` makes it.
- Register.SettingRegister.AddGroup: it requires the group's items to be disjoint from those of groups under other keys. The same item object shared by two groups is not modelled, because the proofs rely on item objects having one owner.
- Register.SettingRegister.GroupCall: it may change only the register's own footprint (`Repr`), which holds group and item objects only.
- `massUpdate` payloads are sequences of (string key, value) pairs. PHP's conversion of numeric-string array keys to integers, after which `===` never matches a key, is not modelled. Neither are non-string values.
- Register.MergeItems: keys are strings. For numeric item keys, `merge` (`array_merge`) renumbers integer keys instead of replacing them. Duplicate numeric keys are then not merged, and the earlier group's item would be found. This is not modelled.
- Register.MassUpdateDeferred: it states the deferred-save shape and the per-group update. It does not restate `Saved` item by item.
- Register.MassUpdated, Register.UpdateGroups, Register.SaveGroups, Register.UpdateItems, Group.SaveAll: each one's own contract only fixes the number of entries. Their behaviour is stated by the lemmas named in their rows, because a longer contract on these recursive functions would be carried into every method that uses them.
- `sortByDesc` is modelled as a stable sort. PHP 8's sort is stable. Older PHP gives no order for ties.
- Events: `event(...)` is a dispatcher that records what was dispatched (a ghost log). Listeners are not run.
- Register.Container.GetSettingItem: the clause that a register the call itself creates finds nothing holds only because listeners are not run. In the program, the constructor's `SettingsRegistering` event is how applications add their groups, so such a register is filled before the lookup.
- Container: the application container is a class with one binding under 'settings': unbound, a register, or something else ("foreign", which `getInstance` turns into a `TypeError`). A null binding counts as unbound.
- BaseEnum: `get_called_class()` can only be `SettingType`, the one subclass. `ReflectionException` never arises.
- Database: `SettingValue::findByKey` is a lookup in a map, which the table's unique key index implies. Timestamps, the 500-character key limit and storage failures are not modelled.
- Register.SettingRegister.FindItem: it states its answer in the state at the call. It changes nothing, so the two states are the same.
