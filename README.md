# Chummer5a backend data structures, in Dafny

Chummer5a is a character generator for the Shadowrun tabletop game. This project models its
backend data structures and helpers, and proves what their callers rely on.

- **`ThreadSafeList<T>`** is a list behind a reader-writer lock. The model gives it a capacity
  rule and a disposed state. Its set-if-different setters reach the exclusive write phase only
  when something changes. `TryTake` is first-in first-out.
- **`ConcurrentHashSet<T>`** is the key set of a concurrent dictionary, with `ISet<T>` algebra
  over an argument that may hold duplicates and nulls. `ConcurrentStringHashSet` is its string
  form, with a pooled `IntersectWith` fixed point.
- **`EnhancedObservableCollection<T>`** has async mutators. Each one changes `Items` and then
  raises its notifications in a fixed order, including BeforeClear ahead of a clear.
- **`PropertyDependencyGraph<T>`** handles the entry step of a dependency closure: conditional
  upstream edges, plus pool accounting on the exception path.
- **`TableColumn<T>`** is a column that is configured and then made live.
- **`BoolArrayExtensions.FirstMatching`** is a clamped linear search.
- **`DecimalExtensions.StandardRound` and `ToInt32`** are conversions from decimal to `int`.
- **The amendment diff of the XML data editor** covers node paths, grouping of child elements by
  key, and the classification of added, removed and modified nodes and attributes.
- **`ListItem`** covers item equality and the tree-node, list-view and data-grid comparers.

Each call is modelled as one atomic step. Locks, tasks and cancellation tokens become flags and
ghost traces. Calls into code outside the model become function parameters:

- culture-aware string comparison;
- date and decimal parsing;
- `CollectDependents` of the dependency-graph base class;
- the conditions on its edges;
- `CompareTo` on object values.

The files are:

- `common.dfy`: shared value types, C# `int` arithmetic and the object pool;
- `thread_safe_list.dfy`;
- `concurrent_hash_set.dfy`;
- `concurrent_string_hash_set.dfy`;
- `enhanced_observable_collection.dfy`;
- `property_dependency_graph.dfy`;
- `table_column.dfy`;
- `bool_array_extensions.dfy`;
- `decimal_extensions.dfy`;
- `edit_xml_data.dfy`;
- `list_item.dfy`.

## Model

| member | source | states |
|---|---|---|
| Common.Wrap32 | Chummer/Backend/Datastructures/ConcurrentHashSet.cs:275 | unchecked C# `int` addition: a value already in range is kept, and otherwise the result is congruent to it modulo 2^32 |
| Common.Negate32 | Chummer/Backend/Datastructures/ListItem.cs:253 | unchecked negation: `-x` for every `int` except `int.MinValue`, which comes back unchanged |
| Common.IndexOfItem | Chummer/Backend/Datastructures/ThreadSafeList.cs:1004-1008 | `List<T>.IndexOf`: -1 exactly when the item is absent; otherwise a position holding it with no earlier occurrence |
| Common.RemovedAt | Chummer/Backend/Datastructures/ThreadSafeList.cs:1239-1243 | `List<T>.RemoveAt`: one shorter, with the elements before `i` kept and those after it shifted down by one |
| Common.RemoveFirstOccurrence | Chummer/Backend/Datastructures/ThreadSafeList.cs:1180-1184 | removing the first occurrence keeps every other element in order, and the multiset loses exactly one copy of the item |
| Common.Enumerate | Chummer/Backend/Datastructures/PropertyDependencyGraph.cs:153-165 | enumerating a hash set yields each of its elements exactly once |
| Common.EnumeratesMeaning | Chummer/Backend/Datastructures/PropertyDependencyGraph.cs:153-165 | an enumeration has the set's size, holds only its elements, holds all of them, and has no repeats |
| ThreadSafeLists.WritePhasesAppend | Chummer/Backend/Datastructures/ThreadSafeList.cs:61-75 | the write phases of two consecutive lock traces add up |
| ThreadSafeLists.NoWritePhases | Chummer/Backend/Datastructures/ThreadSafeList.cs:154-160 | a trace with only read and upgradeable phases enters no write phase |
| ThreadSafeLists.UpgradeToWrite | Chummer/Backend/Datastructures/ThreadSafeList.cs:161-167 | the read, upgradeable, write sequence of a changing set enters exactly one write phase |
| ThreadSafeLists.Grown | Chummer/Backend/Datastructures/ThreadSafeList.cs:283-287 | the backing array after making room never shrinks, holds the needed count, and stays the same when there is already room |
| ThreadSafeLists.FirstIndexFrom | Chummer/Backend/Datastructures/ThreadSafeList.cs:741-746 | `List<T>.FindIndex(start, match)`: -1 exactly when nothing from `start` on matches; otherwise the first match from `start` |
| ThreadSafeLists.LastIndexUpTo | Chummer/Backend/Datastructures/ThreadSafeList.cs:858-870 | `List<T>.FindLastIndex(start, match)`: -1 exactly when nothing up to `start` matches; otherwise the last match at or before `start` |
| ThreadSafeLists.ThreadSafeList.constructor | Chummer/Backend/Datastructures/ThreadSafeList.cs:41-45 | a new list is empty, not disposed, and has the requested non-negative capacity; `NewWithCapacity` is the call that takes any `int` |
| ThreadSafeLists.ThreadSafeList.Empty | Chummer/Backend/Datastructures/ThreadSafeList.cs:35-39 | `ThreadSafeList()`: empty, not disposed, with no backing array yet |
| ThreadSafeLists.ThreadSafeList.FromItems | Chummer/Backend/Datastructures/ThreadSafeList.cs:47-51 | a copy of the items in order, with a backing array of exactly their number |
| ThreadSafeLists.NewWithCapacity | Chummer/Backend/Datastructures/ThreadSafeList.cs:41-45 | a negative capacity throws ArgumentOutOfRange, as `new List<T>(capacity)` does; otherwise an empty list of that capacity |
| ThreadSafeLists.NewFromCollection | Chummer/Backend/Datastructures/ThreadSafeList.cs:47-51 | a null collection throws ArgumentNull; otherwise a list holding the collection's elements in order |
| ThreadSafeLists.ThreadSafeList.Add | Chummer/Backend/Datastructures/ThreadSafeList.cs:283-287 | under one write phase the item is appended, the count grows by one and the capacity grows by the `List<T>` rule; a disposed list throws and changes nothing |
| ThreadSafeLists.ThreadSafeList.TryAdd | Chummer/Backend/Datastructures/ThreadSafeList.cs:584-588 | appends like `Add`, growing the capacity by the `List<T>` rule, and always reports true |
| ThreadSafeLists.ThreadSafeList.AddObject | Chummer/Backend/Datastructures/ThreadSafeList.cs:412-421 | a value that is not a `T` gives -1 with no change; otherwise the value is appended, the capacity grows by the `List<T>` rule, and the result is the index of the new last element |
| ThreadSafeLists.ThreadSafeList.GetItem | Chummer/Backend/Datastructures/ThreadSafeList.cs:147-153 | the element at the index; an index outside the list throws ArgumentOutOfRange |
| ThreadSafeLists.ThreadSafeList.SetItem | Chummer/Backend/Datastructures/ThreadSafeList.cs:154-168 | setting an equal value changes nothing and enters no write phase; otherwise only that position changes, in one write phase; a bad index throws |
| ThreadSafeLists.ThreadSafeList.GetCapacity | Chummer/Backend/Datastructures/ThreadSafeList.cs:54-60 | the capacity, which is never below the count |
| ThreadSafeLists.ThreadSafeList.SetCapacity | Chummer/Backend/Datastructures/ThreadSafeList.cs:61-75 | an equal capacity changes nothing and enters no write phase; a capacity below the count throws inside the write phase; otherwise only the capacity changes |
| ThreadSafeLists.ThreadSafeList.Count | Chummer/Backend/Datastructures/ThreadSafeList.cs:109-116 | the number of elements |
| ThreadSafeLists.ThreadSafeList.Contains | Chummer/Backend/Datastructures/ThreadSafeList.cs:474-478 | whether the item is in the list |
| ThreadSafeLists.ThreadSafeList.IndexOf | Chummer/Backend/Datastructures/ThreadSafeList.cs:1004-1008 | the first position of the item, or -1 exactly when it is absent |
| ThreadSafeLists.ThreadSafeList.Insert | Chummer/Backend/Datastructures/ThreadSafeList.cs:1070-1074 | the contents become `old[..i] + [x] + old[i..]`; an index outside `[0, Count]` throws and changes nothing |
| ThreadSafeLists.ThreadSafeList.Remove | Chummer/Backend/Datastructures/ThreadSafeList.cs:1180-1184 | reports whether the item was present, and removes only its first occurrence |
| ThreadSafeLists.ThreadSafeList.RemoveAt | Chummer/Backend/Datastructures/ThreadSafeList.cs:1239-1243 | the element at the index is removed; a bad index throws and changes nothing |
| ThreadSafeLists.ThreadSafeList.Clear | Chummer/Backend/Datastructures/ThreadSafeList.cs:431-435 | the list becomes empty and the capacity stays |
| ThreadSafeLists.ThreadSafeList.TryTake | Chummer/Backend/Datastructures/ThreadSafeList.cs:641-665 | an empty list gives nothing and enters no write phase; otherwise the result is `old[0]` and the contents become `old[1..]` (first in, first out) |
| ThreadSafeLists.ThreadSafeList.SequenceEqual | Chummer/Backend/Datastructures/ThreadSafeList.cs:245-255 | false for null; otherwise true exactly when the lengths agree and the elements at every index are equal |
| ThreadSafeLists.ThreadSafeList.SearchForward | Chummer/Backend/Datastructures/ThreadSafeList.cs:741-746 | the forward search loop computes `FirstIndexFrom` |
| ThreadSafeLists.ThreadSafeList.SearchBackward | Chummer/Backend/Datastructures/ThreadSafeList.cs:858-870 | the backward search loop computes `LastIndexUpTo` |
| ThreadSafeLists.ThreadSafeList.FindIndex | Chummer/Backend/Datastructures/ThreadSafeList.cs:734-739 | the first matching position, or -1 |
| ThreadSafeLists.ThreadSafeList.FindIndexFrom | Chummer/Backend/Datastructures/ThreadSafeList.cs:741-746 | the first match at or after `startIndex`; a start outside `[0, Count]` throws |
| ThreadSafeLists.ThreadSafeList.FindLastIndex | Chummer/Backend/Datastructures/ThreadSafeList.cs:822-827 | as written: the FIRST matching position, because the body calls `FindIndex` |
| ThreadSafeLists.ThreadSafeList.FindLastIndexFrom | Chummer/Backend/Datastructures/ThreadSafeList.cs:829-833 | as written: the first match at or after `startIndex`, because the body calls `FindIndex(startIndex, match)` |
| ThreadSafeLists.ThreadSafeList.FindLastIndexAsync | Chummer/Backend/Datastructures/ThreadSafeList.cs:843-856 | the LAST matching position, or -1; a cancelled token throws |
| ThreadSafeLists.ThreadSafeList.FindLastIndexFromAsync | Chummer/Backend/Datastructures/ThreadSafeList.cs:858-870 | the last match at or before `startIndex`, with the `List<T>` range rules (an empty list accepts only -1) |
| ThreadSafeLists.ThreadSafeList.Dispose | Chummer/Backend/Datastructures/ThreadSafeList.cs:1498-1513 | the first call marks the list disposed and disposes its lock exactly once; every later call changes nothing |
| ThreadSafeLists.FindLastIndexDisagreement | Chummer/Backend/Datastructures/ThreadSafeList.cs:822-856 | on `[x, x]` with a match that accepts everything, the synchronous search gives 0 and the asynchronous one gives 1 |
| ThreadSafeLists.FirstAndLastAgreeOnUniqueMatch | Chummer/Backend/Datastructures/ThreadSafeList.cs:822-856 | the two searches agree when exactly one element matches |
| ConcurrentHashSets.FirstNull | Chummer/Backend/Datastructures/ConcurrentHashSet.cs:141-147 | the position at which a loop over `other` first meets a null, or the length when there is none |
| ConcurrentHashSets.CountMeansSubset | Chummer/Backend/Datastructures/ConcurrentHashSet.cs:196-199 | without nulls or duplicates in `other`, counting the members of `other` that are in the set gives `Count` exactly when the set is a subset of `other` |
| ConcurrentHashSets.AllContained | Chummer/Backend/Datastructures/ConcurrentHashSet.cs:202-205 | `other.All(ContainsKey)`: true exactly when `other` has no null and every element is present; which of a null and an absent element is reached first is stated by `AllContainedThrows` |
| ConcurrentHashSets.AnyContained | Chummer/Backend/Datastructures/ConcurrentHashSet.cs:236-239 | `other.Any(ContainsKey)`: false exactly when `other` has no null and no element is present; when it throws is stated by `AnyContainedThrows` |
| ConcurrentHashSets.AllContainedThrows | Chummer/Backend/Datastructures/ConcurrentHashSet.cs:202-205 | `All` throws exactly when `other` has a null and every element before the first null is present, so a null reached before an absent element throws and an absent element reached first gives false |
| ConcurrentHashSets.AnyContainedThrows | Chummer/Backend/Datastructures/ConcurrentHashSet.cs:236-239 | `Any` throws exactly when `other` has a null and every element before the first null is absent, so a null reached before a present element throws and a present element reached first gives true |
| ConcurrentHashSets.ToggledParity | Chummer/Backend/Datastructures/ConcurrentHashSet.cs:183-193 | after the flips, an element is present exactly when it started present XOR it occurs an odd number of times |
| ConcurrentHashSets.ConcurrentHashSet.constructor | Chummer/Backend/Datastructures/ConcurrentHashSet.cs:32-35 | a new set is empty |
| ConcurrentHashSets.ConcurrentHashSet.TryAdd | Chummer/Backend/Datastructures/ConcurrentHashSet.cs:107-110 | false for null or a present item, with no change; otherwise the item is added and the result is true |
| ConcurrentHashSets.ConcurrentHashSet.CollectionAdd | Chummer/Backend/Datastructures/ConcurrentHashSet.cs:134-138 | a null item is ignored; any other item is added |
| ConcurrentHashSets.ConcurrentHashSet.SetAdd | Chummer/Backend/Datastructures/ConcurrentHashSet.cs:255-258 | a null item throws ArgumentNull; otherwise the item is added, and the result says whether it was new |
| ConcurrentHashSets.ConcurrentHashSet.Contains | Chummer/Backend/Datastructures/ConcurrentHashSet.cs:267-270 | false for null; otherwise membership |
| ConcurrentHashSets.ConcurrentHashSet.Remove | Chummer/Backend/Datastructures/ConcurrentHashSet.cs:285-288 | false for null; otherwise whether the item was present, and it is absent afterwards |
| ConcurrentHashSets.ConcurrentHashSet.Clear | Chummer/Backend/Datastructures/ConcurrentHashSet.cs:261-264 | the set becomes empty |
| ConcurrentHashSets.ConcurrentHashSet.TryTake | Chummer/Backend/Datastructures/ConcurrentHashSet.cs:113-124 | an empty set gives nothing; otherwise a present element is removed and returned, and the size drops by one |
| ConcurrentHashSets.ConcurrentHashSet.UnionWith | Chummer/Backend/Datastructures/ConcurrentHashSet.cs:141-147 | the old set plus `other`; a null throws ArgumentNull and keeps the elements added before it |
| ConcurrentHashSets.ConcurrentHashSet.ExceptWith | Chummer/Backend/Datastructures/ConcurrentHashSet.cs:174-180 | the old set minus `other`; a null throws and keeps the removals made before it |
| ConcurrentHashSets.ConcurrentHashSet.SymmetricExceptWith | Chummer/Backend/Datastructures/ConcurrentHashSet.cs:183-193 | each occurrence in `other` flips membership, so an element that occurs twice is flipped back; a null throws and keeps the earlier flips |
| ConcurrentHashSets.ConcurrentHashSet.IntersectPass | Chummer/Backend/Datastructures/ConcurrentHashSet.cs:156-168 | one pass of the do/while leaves `old ∩ setOther` and reports a removal exactly when something was outside `setOther` |
| ConcurrentHashSets.ConcurrentHashSet.KeysOutside | Chummer/Backend/Datastructures/ConcurrentHashSet.cs:159-163 | the gathered keys are exactly the elements not in `setOther` |
| ConcurrentHashSets.ConcurrentHashSet.RemoveKeys | Chummer/Backend/Datastructures/ConcurrentHashSet.cs:164-168 | every gathered key is removed, and a removal is reported exactly when any key was gathered |
| ConcurrentHashSets.ConcurrentHashSet.RemoveUntilStable | Chummer/Backend/Datastructures/ConcurrentHashSet.cs:153-170 | the do/while ends with `old ∩ setOther`, after two passes, or after one when nothing had to go |
| ConcurrentHashSets.ConcurrentHashSet.IntersectWith | Chummer/Backend/Datastructures/ConcurrentHashSet.cs:150-171 | the set becomes `old ∩ other`, and a set already inside `other` is unchanged (so a repeated call is a no-op) |
| ConcurrentHashSets.ConcurrentHashSet.IsSubsetOf | Chummer/Backend/Datastructures/ConcurrentHashSet.cs:196-199 | as written: a null throws, and the result means "subset" only when `other` has no duplicates |
| ConcurrentHashSets.ConcurrentHashSet.IsSubsetOfCorrected | Chummer/Backend/Datastructures/ConcurrentHashSet.cs:196-199 | intended: true exactly when the set is a subset of the values of `other`, for any `other` without nulls |
| ConcurrentHashSets.ConcurrentHashSet.IsSupersetOf | Chummer/Backend/Datastructures/ConcurrentHashSet.cs:202-205 | true exactly when `other` has no null and all its values are present |
| ConcurrentHashSets.ConcurrentHashSet.Overlaps | Chummer/Backend/Datastructures/ConcurrentHashSet.cs:236-239 | false exactly when `other` has no null and shares no value with the set |
| ConcurrentHashSets.ConcurrentHashSet.SetEquals | Chummer/Backend/Datastructures/ConcurrentHashSet.cs:242-252 | as written: every element must be present, and the number of elements must equal `Count`; this means set equality only without duplicates |
| ConcurrentHashSets.ConcurrentHashSet.SetEqualsCorrected | Chummer/Backend/Datastructures/ConcurrentHashSet.cs:242-252 | intended: true exactly when `other` has no null and its values are the set |
| ConcurrentHashSets.ConcurrentHashSet.IsProperSupersetOf | Chummer/Backend/Datastructures/ConcurrentHashSet.cs:208-218 | as written: every element present and fewer elements than `Count`; this means proper superset only without duplicates |
| ConcurrentHashSets.ConcurrentHashSet.IsProperSupersetOfCorrected | Chummer/Backend/Datastructures/ConcurrentHashSet.cs:208-218 | intended: true exactly when `other` has no null and its values are a proper subset of the set |
| ConcurrentHashSets.ConcurrentHashSet.IsProperSubsetOf | Chummer/Backend/Datastructures/ConcurrentHashSet.cs:221-233 | as written: the count of present elements equals `Count` and some element is absent; this means proper subset only without duplicates |
| ConcurrentHashSets.ConcurrentHashSet.IsProperSubsetOfCorrected | Chummer/Backend/Datastructures/ConcurrentHashSet.cs:221-233 | intended: true exactly when the set is a proper subset of the values of `other` |
| ConcurrentHashSets.ConcurrentHashSet.CopyTo | Chummer/Backend/Datastructures/ConcurrentHashSet.cs:273-282 | a null array or an unchecked `arrayIndex + Count` beyond the length throws; otherwise the range from `arrayIndex` lists every element once and nothing else in the array changes |
| ConcurrentHashSets.DuplicatesMiscount | Chummer/Backend/Datastructures/ConcurrentHashSet.cs:196-252 | with the set `{0, 1}`, duplicates in `other` make all four counting predicates answer wrongly, while the corrected ones answer rightly |
| ConcurrentStringHashSets.ConcurrentStringHashSet.constructor | Chummer/Backend/Datastructures/ConcurrentStringHashSet.cs:24 | a new string set is empty |
| ConcurrentStringHashSets.ConcurrentStringHashSet.IntersectWith | Chummer/Backend/Datastructures/ConcurrentStringHashSet.cs:26-50 | the set only shrinks; every remaining element is in `other`; no element in both goes; the loop stops after at most two passes; one pooled set is fetched and returned |
| ConcurrentStringHashSets.IntersectWithIdempotent | Chummer/Backend/Datastructures/ConcurrentStringHashSet.cs:26-50 | after two identical calls the set is the old set intersected with the values of `other`, as after one, and the second call takes one pass |
| EnhancedObservableCollections.MovedItem | Chummer/Backend/Datastructures/EnhancedObservableCollection.cs:461-470 | after removing at `o` and reinserting at `n`, the element is at `n`, the length is the same and the multiset of items is unchanged |
| EnhancedObservableCollections.MoveToSamePlace | Chummer/Backend/Datastructures/EnhancedObservableCollection.cs:461-470 | moving an element onto its own position changes nothing |
| EnhancedObservableCollections.EnhancedObservableCollection.constructor | Chummer/Backend/Datastructures/EnhancedObservableCollection.cs:74-77 | the given items, an empty log, and no subscribers |
| EnhancedObservableCollections.EnhancedObservableCollection.EntryCheck | Chummer/Backend/Datastructures/EnhancedObservableCollection.cs:393-394 | cancellation is checked first, then reentrancy; the call passes only when neither applies |
| EnhancedObservableCollections.EnhancedObservableCollection.InsertItemAsync | Chummer/Backend/Datastructures/EnhancedObservableCollection.cs:442-449 | inserts at `i`, then logs "Count"/"Item[]" and `Add(x, i)`; a rejected call or a bad index changes nothing and logs nothing |
| EnhancedObservableCollections.EnhancedObservableCollection.RemoveItemAsync | Chummer/Backend/Datastructures/EnhancedObservableCollection.cs:432-440 | the items become `old[..i] + old[i+1..]`, then "Count"/"Item[]" and a Remove event with `old[i]` and `i` are logged |
| EnhancedObservableCollections.EnhancedObservableCollection.SetItemAsync | Chummer/Backend/Datastructures/EnhancedObservableCollection.cs:451-459 | only position `i` changes; "Item[]" (not "Count") is logged, then Replace with the old and the new item |
| EnhancedObservableCollections.EnhancedObservableCollection.MoveItemAsync | Chummer/Backend/Datastructures/EnhancedObservableCollection.cs:461-470 | the items become `MovedItem(old, o, n)`, then "Item[]" and `Move(item, n, o)` are logged; a bad `newIndex` loses the removed element and logs nothing |
| EnhancedObservableCollections.EnhancedObservableCollection.ClearItemsAsync | Chummer/Backend/Datastructures/EnhancedObservableCollection.cs:391-430 | BeforeClear with the full old list is logged first, then the items are emptied, then "Count"/"Item[]" and Reset are logged |
| EnhancedObservableCollections.EnhancedObservableCollection.AddAsync | Chummer/Backend/Datastructures/EnhancedObservableCollection.cs:541-544 | `InsertItemAsync` at index `Count` |
| EnhancedObservableCollections.EnhancedObservableCollection.RemoveAsync | Chummer/Backend/Datastructures/EnhancedObservableCollection.cs:564-572 | an absent item gives false with no change and no events; otherwise the first occurrence is removed as by `RemoveItemAsync`, and the result is true |
| EnhancedObservableCollections.EnhancedObservableCollection.SubscribeCollectionChangedAsync | Chummer/Backend/Datastructures/EnhancedObservableCollection.cs:525-529 | the handler joins the registry once (null is ignored); the other registries are unchanged |
| EnhancedObservableCollections.EnhancedObservableCollection.UnsubscribeCollectionChangedAsync | Chummer/Backend/Datastructures/EnhancedObservableCollection.cs:525-529 | the handler leaves the registry |
| EnhancedObservableCollections.EnhancedObservableCollection.SubscribePropertyChangedAsync | Chummer/Backend/Datastructures/EnhancedObservableCollection.cs:129-133 | the handler joins the property registry once |
| EnhancedObservableCollections.EnhancedObservableCollection.UnsubscribePropertyChangedAsync | Chummer/Backend/Datastructures/EnhancedObservableCollection.cs:129-133 | the handler leaves the property registry |
| EnhancedObservableCollections.EnhancedObservableCollection.SubscribeMultiplePropertiesChangedAsync | Chummer/Backend/Datastructures/EnhancedObservableCollection.cs:168-172 | the handler joins the multiple-properties registry once |
| EnhancedObservableCollections.EnhancedObservableCollection.UnsubscribeMultiplePropertiesChangedAsync | Chummer/Backend/Datastructures/EnhancedObservableCollection.cs:168-172 | the handler leaves the multiple-properties registry |
| EnhancedObservableCollections.EnhancedObservableCollection.SubscribeBeforeClearCollectionChangedAsync | Chummer/Backend/Datastructures/EnhancedObservableCollection.cs:57-61 | the handler joins the before-clear registry once |
| EnhancedObservableCollections.EnhancedObservableCollection.UnsubscribeBeforeClearCollectionChangedAsync | Chummer/Backend/Datastructures/EnhancedObservableCollection.cs:57-61 | the handler leaves the before-clear registry |
| EnhancedObservableCollections.SubscribeTwice | Chummer/Backend/Datastructures/EnhancedObservableCollection.cs:525-529 | subscribing the same handler twice registers it once, and one unsubscribe removes it |
| EnhancedObservableCollections.AddThenClear | Chummer/Backend/Datastructures/EnhancedObservableCollection.cs:391-430 | the exact notifications of an add followed by a clear, in order, ending with no items |
| PropertyDependencyGraphs.EdgeVerdict | Chummer/Backend/Datastructures/PropertyDependencyGraph.cs:83-89 | an edge whose condition is null is always followed |
| PropertyDependencyGraphs.FollowEdges | Chummer/Backend/Datastructures/PropertyDependencyGraph.cs:83-89 | walking the edges only adds to the set, and the only failure is an exception |
| PropertyDependencyGraphs.AllDependents | Chummer/Backend/Datastructures/PropertyDependencyGraph.cs:76-96 | an unknown key gives exactly `{key}`; a known key's result contains the node's own object |
| PropertyDependencyGraphs.FailingConditionsCollectNothing | Chummer/Backend/Datastructures/PropertyDependencyGraph.cs:83-89 | when every condition is false, no edge is followed |
| PropertyDependencyGraphs.NullConditionsFollowEveryEdge | Chummer/Backend/Datastructures/PropertyDependencyGraph.cs:83-89 | when every condition is null and collecting adds at least its target, every upstream target is in the result |
| PropertyDependencyGraphs.VariantsAgree | Chummer/Backend/Datastructures/PropertyDependencyGraph.cs:122-128 | the synchronous and asynchronous walks give the same result when their conditions agree |
| PropertyDependencyGraphs.PropertyDependencyGraph.constructor | Chummer/Backend/Datastructures/PropertyDependencyGraph.cs:38-40 | the graph holds the given nodes and pool |
| PropertyDependencyGraphs.PropertyDependencyGraph.Collect | Chummer/Backend/Datastructures/PropertyDependencyGraph.cs:76-96 | the loop over upstream edges computes `AllDependents` |
| PropertyDependencyGraphs.PropertyDependencyGraph.GetWithAllDependents | Chummer/Backend/Datastructures/PropertyDependencyGraph.cs:74-103 | the result is `AllDependents`; with pooling the set is fetched once and returned once exactly when an exception escapes; without pooling (as the overload at lines 49-52 calls it) the pool is untouched |
| PropertyDependencyGraphs.PropertyDependencyGraph.GetWithAllDependentsAsync | Chummer/Backend/Datastructures/PropertyDependencyGraph.cs:113-144 | a cancelled token throws before any work or pool access; otherwise as the synchronous call, with the async conditions; the overload at lines 62-65 calls it without pooling |
| PropertyDependencyGraphs.PropertyDependencyGraph.GetWithAllDependentsEnumerable | Chummer/Backend/Datastructures/PropertyDependencyGraph.cs:153-165 | exactly the elements of the pooled set, each once, with the set fetched once and returned once |
| PropertyDependencyGraphs.PropertyDependencyGraph.GetWithAllDependentsEnumerableAsync | Chummer/Backend/Datastructures/PropertyDependencyGraph.cs:175-186 | a list copy of the async result, after which the set goes back to the pool; a cancelled token fetches nothing |
| TableColumns.SorterCall | Chummer/Controls/Table/TableColumn.cs:104-113 | a call of the cached item sorter uses the column's current sorter, and its current extractor for the extracting shape; a null field throws |
| TableColumns.TableColumn.constructor | Chummer/Controls/Table/TableColumn.cs:44-49 | a configuring column with the factory, an empty dependency set fetched from the pool, and every other field unset |
| TableColumns.TableColumn.CheckLive | Chummer/Controls/Table/TableColumn.cs:88-94 | passes exactly while the column is configuring; otherwise it throws InvalidOperation |
| TableColumns.TableColumn.AddDependency | Chummer/Controls/Table/TableColumn.cs:78-82 | a configuring column adds the string (a second add changes nothing); a live one throws and changes nothing |
| TableColumns.TableColumn.SetExtractor | Chummer/Controls/Table/TableColumn.cs:129-137 | sets the extractor while configuring; a live column throws and changes nothing |
| TableColumns.TableColumn.SetMinWidth | Chummer/Controls/Table/TableColumn.cs:147-159 | the live check comes first, then a negative value throws ArgumentOutOfRange; only a successful call changes the width |
| TableColumns.TableColumn.SetSorter | Chummer/Controls/Table/TableColumn.cs:164-172 | sets the sorter while configuring and leaves a cached item sorter alone; a live column throws |
| TableColumns.TableColumn.SetText | Chummer/Controls/Table/TableColumn.cs:177-185 | sets the text while configuring; a live column throws and changes nothing |
| TableColumns.TableColumn.SetTag | Chummer/Controls/Table/TableColumn.cs:190-198 | sets the tag while configuring; a live column throws and changes nothing |
| TableColumns.TableColumn.SetPrefWidth | Chummer/Controls/Table/TableColumn.cs:203-213 | no live check; the width changes only to values of at least `MinWidth`, and smaller ones are ignored |
| TableColumns.TableColumn.MakeLive | Chummer/Controls/Table/TableColumn.cs:223-227 | a configuring column becomes live; a live one throws and stays live |
| TableColumns.TableColumn.CreateSorter | Chummer/Controls/Table/TableColumn.cs:102-116 | a cached item sorter is returned as it is; otherwise one is built when a sorter is set (extracting when an extractor is set); the result is null while no sorter was ever set |
| TableColumns.TableColumn.Dispose | Chummer/Controls/Table/TableColumn.cs:51-71 | every delegate becomes null, and the dependency set goes back to the pool once if it is still held |
| TableColumns.NewTableColumn | Chummer/Controls/Table/TableColumn.cs:44-49 | as written: the field initialiser fetches a set from the pool first, so a null factory throws ArgumentNull with one set fetched and none returned; otherwise a fresh configuring column |
| TableColumns.NewTableColumnCorrected | Chummer/Controls/Table/TableColumn.cs:44-49 | with the factory tested first, a null factory throws ArgumentNull and leaves the pool untouched; otherwise a fresh configuring column with one set fetched |
| TableColumns.NullFactoryOutstandingSets | Chummer/Controls/Table/TableColumn.cs:44-49 | on a fresh pool a null factory leaves one set outstanding as written and none when corrected |
| BoolArrayExtensions.FirstMatching | Chummer/Backend/Static/Extensions/BoolArrayExtensions.cs:35-48 | a null array throws ArgumentNull; otherwise the first index in `[max(from, 0), min(to, length))` holding the value, or -1 exactly when none does |
| BoolArrayExtensions.FirstMatchingWholeArray | Chummer/Backend/Static/Extensions/BoolArrayExtensions.cs:35 | with the default bounds the whole array is searched |
| DecimalExtensions.Ceiling | Chummer/Backend/Static/Extensions/DecimalExtensions.cs:44 | `decimal.Ceiling`: the least integer not below `x` |
| DecimalExtensions.Floor | Chummer/Backend/Static/Extensions/DecimalExtensions.cs:44 | `decimal.Floor`: the greatest integer not above `x` |
| DecimalExtensions.ToInt32 | Chummer/Backend/Static/Extensions/DecimalExtensions.cs:47-56 | truncation toward zero, with overflow exactly when the truncated value is outside the `int` range |
| DecimalExtensions.RoundAwayFromZero | Chummer/Backend/Static/Extensions/DecimalExtensions.cs:44 | the ceiling of a non-negative value and the floor of a negative one, less than one away from it |
| DecimalExtensions.IntegralFloor | Chummer/Backend/Static/Extensions/DecimalExtensions.cs:44 | an integral value is its own floor and ceiling |
| DecimalExtensions.StandardRound | Chummer/Backend/Static/Extensions/DecimalExtensions.cs:42-45 | the ceiling for `x >= 0` and the floor otherwise, with overflow exactly when that is outside the `int` range |
| DecimalExtensions.StandardRoundAwayFromZero | Chummer/Backend/Static/Extensions/DecimalExtensions.cs:44 | the result is at least as far from zero as `x`, and less than one away from it |
| DecimalExtensions.StandardRoundIntegral | Chummer/Backend/Static/Extensions/DecimalExtensions.cs:44 | an integral input comes back unchanged |
| DecimalExtensions.StandardRoundOdd | Chummer/Backend/Static/Extensions/DecimalExtensions.cs:44 | `StandardRound(-x) == -StandardRound(x)` whenever both are in range |
| DecimalExtensions.ToInt32TruncatesTowardZero | Chummer/Backend/Static/Extensions/DecimalExtensions.cs:42-56 | 2.7 and -2.7 convert to 2 and -2; 2.1 and -2.1 round to 3 and -3 |
| DecimalExtensions.StandardRoundOverflows | Chummer/Backend/Static/Extensions/DecimalExtensions.cs:44 | 2147483647.5 rounds up past `int.MaxValue` and overflows, though it converts to `int.MaxValue` |
| EditXmlData.Lookup | Chummer/Forms/EditXmlData.cs:751 | a dictionary lookup misses exactly when no entry has the key, and a hit is an entry |
| EditXmlData.LookupEntry | Chummer/Forms/EditXmlData.cs:751 | with distinct keys, each entry is what a lookup of its key finds |
| EditXmlData.Put | Chummer/Forms/EditXmlData.cs:802 | `dict[k] = v`: keys stay distinct, an existing key keeps its position, a new key goes last, and no other entry appears |
| EditXmlData.PutLookup | Chummer/Forms/EditXmlData.cs:802 | after `dict[k] = v`, `k` finds `v` and every other key finds what it found before |
| EditXmlData.PutDistinct | Chummer/Forms/EditXmlData.cs:802 | `dict[k] = v` keeps the keys distinct |
| EditXmlData.Delete | Chummer/Forms/EditXmlData.cs:751 | `dict.Remove(k)`: only `k` disappears, the rest in order |
| EditXmlData.RemoveAll | Chummer/Forms/EditXmlData.cs:749-761 | removing the keys of `b` one by one leaves exactly the entries of `a` whose keys `b` lacks |
| EditXmlData.LookupFront | Chummer/Forms/EditXmlData.cs:749-761 | a key is present exactly when all but the last entry have it or the last entry is it |
| EditXmlData.KeyFound | Chummer/Forms/EditXmlData.cs:751 | every entry's key is found |
| EditXmlData.RemoveAllSelf | Chummer/Forms/EditXmlData.cs:749-768 | removing a dictionary's own keys empties it |
| EditXmlData.AttributeValue | Chummer/Forms/EditXmlData.cs:789 | `node.Attributes?[name]?.Value`: null for a non-element, otherwise the attribute's value |
| EditXmlData.NodeSegment | Chummer/Forms/EditXmlData.cs:813-832 | `name[id=…]` for a non-empty id, else `name[name=…]` for a non-empty name attribute, else the bare name |
| EditXmlData.NodeName | Chummer/Forms/EditXmlData.cs:813 | `node.Name`: an element's or other node's own name, and `#text` for a text node; a reference definition used by the path segment |
| EditXmlData.GetNodePath | Chummer/Forms/EditXmlData.cs:808-835 | a null node leaves the path; an empty path gives the segment alone; otherwise `current + "/" + segment` |
| EditXmlData.NatToString | Chummer/Forms/EditXmlData.cs:798 | a count prints as a non-empty string of digits |
| EditXmlData.GroupKey | Chummer/Forms/EditXmlData.cs:789-800 | the id, else the name attribute, else `Name_<group count>` |
| EditXmlData.Groups | Chummer/Forms/EditXmlData.cs:779-806 | the groups have distinct keys, and each holds an element child |
| EditXmlData.ChildKey | Chummer/Forms/EditXmlData.cs:789-800 | the key computed inside the loop is `GroupKey` |
| EditXmlData.GroupsStep | Chummer/Forms/EditXmlData.cs:784-803 | each loop step groups the next child onto the groups of those before it, skipping a non-element |
| EditXmlData.GroupChildNodes | Chummer/Forms/EditXmlData.cs:779-806 | null children give no groups; otherwise the loop computes `Groups` |
| EditXmlData.GroupNode | Chummer/Forms/EditXmlData.cs:786-802 | one loop step skips a non-element and stores an element under its key, overwriting |
| EditXmlData.GroupsOverwrite | Chummer/Forms/EditXmlData.cs:798-802 | a later child with a key already taken overwrites that group in place; a new key adds a group at the end |
| EditXmlData.GroupsSkipNonElement | Chummer/Forms/EditXmlData.cs:786-787 | a non-element child changes no group |
| EditXmlData.GroupsByDistinctIds | Chummer/Forms/EditXmlData.cs:779-806 | children with distinct non-empty ids each get their own group under their id, in order |
| EditXmlData.AttributeDiffClassification | Chummer/Forms/EditXmlData.cs:681-711 | only in the base is Removed; in both with different values is Modified; only in the result is Added; the same on both sides gives no record |
| EditXmlData.AttributeDiffs | Chummer/Forms/EditXmlData.cs:694-711 | the attribute records: those of the base walk, then one Added record per result attribute no base name matched; classified by `AttributeDiffClassification` |
| EditXmlData.BaseAttributeDiff | Chummer/Forms/EditXmlData.cs:696-705 | at most one record for a base attribute, and none exactly when the result has the same name with the same value |
| EditXmlData.BaseAttributeDiffs | Chummer/Forms/EditXmlData.cs:694-706 | the base walk's records in base order; their meaning is stated by `RemovedAttributeMeaning`, `ModifiedAttributeMeaning` and `BaseAttributeDiffsKinds` |
| EditXmlData.AddedAttributeDiffs | Chummer/Forms/EditXmlData.cs:708-711 | one Added record per leftover result attribute, in order, carrying its name and value |
| EditXmlData.BaseAttributeDiffsKinds | Chummer/Forms/EditXmlData.cs:694-706 | the base walk reports only removed and modified attributes |
| EditXmlData.RemovedAttributeMeaning | Chummer/Forms/EditXmlData.cs:694-706 | the base walk reports an attribute removed exactly when the result lacks its name |
| EditXmlData.ModifiedAttributeMeaning | Chummer/Forms/EditXmlData.cs:694-706 | the base walk reports an attribute modified exactly when the result has its name with a different value |
| EditXmlData.AddedAttributeDiffsMeaning | Chummer/Forms/EditXmlData.cs:708-711 | the leftover result attributes are exactly the Added records |
| EditXmlData.BuildAttributeDictionary | Chummer/Forms/EditXmlData.cs:683-692 | the `Add` loop succeeds exactly when the names are distinct |
| EditXmlData.AttributeStep | Chummer/Forms/EditXmlData.cs:694-706 | at each step, the result dictionary with the earlier base names removed answers the next name as the full one does |
| EditXmlData.CompareAttributes | Chummer/Forms/EditXmlData.cs:694-711 | the loop that deletes matched keys computes `AttributeDiffs` |
| EditXmlData.ReportAdded | Chummer/Forms/EditXmlData.cs:708-711 | the trailing loop reports each leftover result attribute as Added, in order |
| EditXmlData.CollectText | Chummer/Forms/EditXmlData.cs:718-727 | the loop concatenates the direct text children |
| EditXmlData.TextContent | Chummer/Forms/EditXmlData.cs:718-727 | the concatenated values of the direct text children, empty when there are none |
| EditXmlData.TextDiff | Chummer/Forms/EditXmlData.cs:729-740 | a text record appears exactly when the two texts differ |
| EditXmlData.CompareNodes | Chummer/Forms/EditXmlData.cs:639-777 | two nulls give nothing; one null side gives Added or Removed at its path; two text nodes give Modified exactly when their values differ |
| EditXmlData.CompareElements | Chummer/Forms/EditXmlData.cs:678-769 | the element branch as a reference definition: one error record at the current path when either side repeats an attribute name, otherwise the attribute, text and child records in that order |
| EditXmlData.ChildGroupDiffs | Chummer/Forms/EditXmlData.cs:745-768 | the child records as a reference definition: those of the result groups, then Removed for the base groups left; proved about by `MissingGroupIsAdded`, `LeftoverGroupIsRemoved` and `SelfChildDiffsEmpty` |
| EditXmlData.ResultGroupDiffs | Chummer/Forms/EditXmlData.cs:749-761 | the records of the result groups in order, as a reference definition; `MissingGroupIsAdded` states what they contain |
| EditXmlData.GroupDiff | Chummer/Forms/EditXmlData.cs:751-760 | one result group as a reference definition: Added when its key is missing from the base groups, else the recursive comparison with the base group |
| EditXmlData.RemovedGroupDiffs | Chummer/Forms/EditXmlData.cs:763-768 | one Removed record per leftover base group, and nothing else; `RemovedGroupDiffsCover` states that every leftover group is reported |
| EditXmlData.ResultGroupStep | Chummer/Forms/EditXmlData.cs:749-761 | at each step, the base dictionary with the earlier result keys removed answers the next key as the full one does |
| EditXmlData.CompareXmlNodes | Chummer/Forms/EditXmlData.cs:639-777 | the comparison computes `CompareNodes` |
| EditXmlData.CompareElementNodes | Chummer/Forms/EditXmlData.cs:678-769 | the element branch computes `CompareElements`: attributes, then text, then children, or one error record when an attribute name repeats |
| EditXmlData.CompareChildGroups | Chummer/Forms/EditXmlData.cs:745-768 | the child loop computes `ChildGroupDiffs` |
| EditXmlData.CompareGroup | Chummer/Forms/EditXmlData.cs:749-761 | one result group is Added when its key is missing, and otherwise compared with the base group recursively |
| EditXmlData.ReportRemoved | Chummer/Forms/EditXmlData.cs:763-768 | the trailing loop reports each leftover base group as Removed, in order |
| EditXmlData.MissingGroupIsAdded | Chummer/Forms/EditXmlData.cs:751-756 | a result group whose key no base group has is reported Added at its path |
| EditXmlData.LeftoverGroupIsRemoved | Chummer/Forms/EditXmlData.cs:763-768 | a base group whose key no result group has is reported Removed at its path |
| EditXmlData.RemovedGroupDiffsCover | Chummer/Forms/EditXmlData.cs:763-768 | every group left in the base dictionary is reported Removed |
| EditXmlData.CompareWithItselfIsEmpty | Chummer/Forms/EditXmlData.cs:639-777 | comparing a well-formed node with itself reports nothing, at any depth |
| EditXmlData.SelfAttributesEmpty | Chummer/Forms/EditXmlData.cs:694-706 | an element's attributes compared with themselves give no record |
| EditXmlData.SelfGroupsEmpty | Chummer/Forms/EditXmlData.cs:745-768 | an element's child groups compared with themselves give no record |
| EditXmlData.SelfAttributeDiffsEmpty | Chummer/Forms/EditXmlData.cs:694-711 | an element's attributes compared with themselves give no record in either pass |
| EditXmlData.SelfChildDiffsEmpty | Chummer/Forms/EditXmlData.cs:745-768 | an element's child groups compared with themselves give no record, matched or leftover |
| ListItems.ItemEquals | Chummer/Backend/Datastructures/ListItem.cs:50-53 | `Equals(ListItem)`: true exactly when the two items are the same name and value |
| ListItems.OpEquals | Chummer/Backend/Datastructures/ListItem.cs:83-86 | `==` on two items: true exactly when they are the same name and value |
| ListItems.OpNotEquals | Chummer/Backend/Datastructures/ListItem.cs:88-91 | `!=` on two items: true exactly when they differ in name or value |
| ListItems.EqualsObject | Chummer/Backend/Datastructures/ListItem.cs:55-58 | `Equals(object)`: a null value throws NullReference; otherwise the value's own `Equals` on the object |
| ListItems.HashCode | Chummer/Backend/Datastructures/ListItem.cs:60-63 | `GetHashCode()`: a null value throws NullReference; otherwise the value's hash code |
| ListItems.ItemEqualsIsIdentity | Chummer/Backend/Datastructures/ListItem.cs:50-91 | `Equals(ListItem)` and `==` hold exactly when the names are equal and the value is the same object, so they are an equivalence; `!=` is the negation |
| ListItems.ObjectEqualityReadsOnlyValue | Chummer/Backend/Datastructures/ListItem.cs:56-64 | `Equals(object)` and `GetHashCode` depend only on the value; equal items hash alike; a null value throws |
| ListItems.CompareText | Chummer/Backend/Datastructures/ListItem.cs:141-150 | two nulls give 0, a null `x` gives -1, a null `y` gives 1; otherwise the culture comparison of the `[`/`]`-stripped texts |
| ListItems.CompareTextAntisymmetric | Chummer/Backend/Datastructures/ListItem.cs:141-150 | antisymmetric whenever the culture comparison is |
| ListItems.CompareTicks | Chummer/Backend/Datastructures/ListItem.cs:170 | `DateTime.Compare`: -1, 0 or 1 according to the order of the two dates |
| ListItems.CompareTextAsDates | Chummer/Backend/Datastructures/ListItem.cs:158-171 | a null or unparseable item sorts first and two such are equal; two dates compare in reverse chronological order |
| ListItems.CompareTextAsDatesAntisymmetric | Chummer/Backend/Datastructures/ListItem.cs:158-171 | antisymmetric, and of two parsed dates the later one sorts first |
| ListItems.CompareDecimals | Chummer/Backend/Datastructures/ListItem.cs:244 | `decimal.Compare`: -1, 0 or 1 according to the order |
| ListItems.ApplyOrder | Chummer/Backend/Datastructures/ListItem.cs:197-253 | None gives 0, Ascending the raw result, and any other order its 32-bit negation |
| ListItems.DescendingReversesAscending | Chummer/Backend/Datastructures/ListItem.cs:251-253 | negating the descending result gives the ascending one, and descending is plain negation away from `int.MinValue` |
| ListItems.ParseDecimal | Chummer/Backend/Datastructures/ListItem.cs:309 | `decimal.TryParse` of null fails |
| ListItems.DataGridRaw | Chummer/Backend/Datastructures/ListItem.cs:301-321 | two numbers compare as decimals; a number sorts before a non-number; two non-numbers compare as case-insensitive strings |
| ListItems.DataGridRawAntisymmetric | Chummer/Backend/Datastructures/ListItem.cs:309-321 | antisymmetric whenever the string comparison is |
| ListItems.CellText | Chummer/Backend/Datastructures/ListItem.cs:299-300 | a null row gives null; a column outside the cells throws |
| ListItems.CompareValues | Chummer/Backend/Datastructures/ListItem.cs:209-235 | defined exactly when both sides carry values and one is comparable; then the left `CompareTo` when it is comparable, else the negated right one |
| ListItems.SubItemAt | Chummer/Backend/Datastructures/ListItem.cs:224-225 | a null item gives null; a column outside the sub-items throws |
| ListItems.ListViewRaw | Chummer/Backend/Datastructures/ListItem.cs:207-248 | column 0 never fails, given a `CompareTo` that does not throw; on another column, a sub-item index out of range throws |
| ListItems.ListViewColumnSorter.constructor | Chummer/Backend/Datastructures/ListItem.cs:188-191 | column 0, no sort order |
| ListItems.ListViewColumnSorter.SetSortColumn | Chummer/Backend/Datastructures/ListItem.cs:259-263 | sets the column only |
| ListItems.ListViewColumnSorter.SetOrder | Chummer/Backend/Datastructures/ListItem.cs:268-272 | sets the order only |
| ListItems.ListViewColumnSorter.Compare | Chummer/Backend/Datastructures/ListItem.cs:195-254 | the raw comparison on the sort column, with the order applied; None gives 0 |
| ListItems.DataGridViewColumnSorter.constructor | Chummer/Backend/Datastructures/ListItem.cs:278-281 | column 0, no sort order |
| ListItems.DataGridViewColumnSorter.SetSortColumn | Chummer/Backend/Datastructures/ListItem.cs:332-336 | sets the column only |
| ListItems.DataGridViewColumnSorter.SetOrder | Chummer/Backend/Datastructures/ListItem.cs:341-345 | sets the order only |
| ListItems.DataGridViewColumnSorter.Compare | Chummer/Backend/Datastructures/ListItem.cs:287-327 | None gives 0 before any cell is read; otherwise an unreadable cell throws, or the raw comparison runs with the order applied |
| ListItems.DataGridSorterAntisymmetric | Chummer/Backend/Datastructures/ListItem.cs:287-327 | on readable rows the sorter is antisymmetric in either direction, whenever the string comparison is |

## Left out

- Concurrency is not modelled: the reader-writer lock and its nesting, threads, tasks, and scheduling onto the main thread. Each call is one atomic step. The lock survives only as a ghost trace of the modes each state-changing `ThreadSafeList` call enters.
- Cancellation tokens are not modelled beyond the entry check of the async calls that take a `cancelled` parameter here. The token's state is that boolean, so a cancellation in the middle of a call is not modelled.
- EditXmlData.CompareXmlNodes: the entry check `token.ThrowIfCancellationRequested()` at EditXmlData.cs:641 is not modelled. A cancelled token there throws OperationCanceledException before any record, and the handler lets it through.
- The object pools are seen only through their get and return counts. Their internals are outside this model.
- ThreadSafeList: the `List<T>` capacity rule is modelled as in .NET Framework: 0 grows to 4, a full array doubles, and the result is at least the space needed. The clamp at the maximum array length is left out.
- ThreadSafeList: the predicates of `FindIndex` and `FindLastIndex` are Dafny functions, which cannot be null, so the ArgumentNullException `List<T>` throws for a null `match` is not modelled.
- ThreadSafeLists.NewFromCollection: `new List<T>(collection)` is modelled for a collection that knows its count: the backing array gets exactly that size. A lazy enumerable grows the array by the `Add` rule instead.
- ThreadSafeList: the optional parent lock and the read-only-for-parent flag of the three constructors are not modelled.
- ThreadSafeList: element `Equals` is Dafny equality. A null element throwing in the indexer setter's `Equals` is not modelled.
- ThreadSafeList: the async twins of the listed calls are not modelled, except `FindLastIndexAsync`. Also left out:
  - the three-argument `FindIndex`/`FindLastIndex`;
  - `IndexOf`/`LastIndexOf` with ranges;
  - `AddRange`/`InsertRange`/`RemoveRange`/`RemoveAll`;
  - `Sort`, `Reverse`, `CopyTo` and the enumerators;
  - `DisposeAsync`.
  
  Each of these is one more `List<T>` call under the same lock pattern.
- ThreadSafeList: the `IList` members taking `object` adapt to `Contains`, `IndexOf`, `Insert` and `Remove`, and only `IList.Add` is modelled separately.
- ConcurrentHashSet: the constructors that copy a collection, `ToArray`, enumeration and `CopyTo(Array, int)` are not modelled. The order in which the dictionary enumerates its keys is left open.
- ConcurrentHashSet: `other` itself is never null here, because a sequence cannot be. In the source a null `other` throws: NullReferenceException from the loops at lines 143, 176, 185, 211, 225 and 245, and ArgumentNullException from the LINQ calls at lines 198, 204 and 238 and from `new HashSet<T>(other)` at line 152.
- ConcurrentHashSet.TryTake: the retry loop repeats only when another thread removes the element in between, so it is a single step here.
- EnhancedObservableCollection:
  - The synchronous notification paths, `BlockReentrancy` and the `ObservableCollection<T>` base internals are not modelled. Reentrancy is a boolean that says whether `CheckReentrancy` would throw.
  - Notifications are appended to a log instead of being delivered, so handlers that mutate the collection are not modelled.
- PropertyDependencyGraph:
  - The `DependencyGraph` base class is not part of this model. Its `CollectDependents` is a parameter that either throws or names the strings it adds.
  - `GetWithAllDependentsEnumerable` is modelled eagerly: the lazy iterator runs to completion.
  - Keys are strings and never null. In the source a null `objKey` makes the dictionary lookup at lines 79 and 119 throw ArgumentNullException.
- TableColumn:
  - `CreateCell` and `Dependencies` are plain reads and are not modelled as operations.
  - The `ToolTipExtractor` auto-property is a field with no guard.
  - Delegates are opaque identities.
- BoolArrayExtensions.FirstMatchingWholeArray: requires `a.Length <= int.MaxValue`, as every .NET array has.
- DecimalExtensions: `decimal` is modelled as an unbounded `real`, so its 28-digit precision and range limits are not modelled. `Epsilon` and `DoubleEpsilon` are unused constants.
- XML diff: the output is a list of records, not localized text. Also left out:
  - the formatted XML fragments and exception messages in the records;
  - file loading and saving, the dialogs, and `CompareXmlDocumentsAsync`.
- EditXmlData.CompareNodes: a modified text node gives a bare `Modified` record at its path. The source formats an un-awaited `Task` object at lines 671-672 as the old and new values, and neither value is modelled.
- EditXmlData.CompareElements: the check for null `Attributes` at line 681 always passes for elements, so it is not modelled.
- EditXmlData.CompareElements: a duplicate attribute name throws inside the `Add` loop, and the handler's record is reported at the parent's path; no other exception source is modelled.
- ListItem:
  - Culture-aware string comparison, `DateTime.TryParse`, `decimal.TryParse`, `FastEscape`, `TrimEndOnce`, `is IComparable` and `CompareTo` are calls outside the model, so they are function parameters.
  - `CompareTo` on `ListItem` and `CompareListItems.CompareNames` are culture comparisons of the names, and are not modelled.
  - A null cell value throwing at `.Value.ToString()` is not modelled: cells are strings.
  - The casts of `object` to `ListViewItem`/`DataGridViewRow` are taken to succeed.
  - `IComparable.CompareTo(object)` is a total parameter, so the ArgumentException it throws for a value of another type is not modelled. For that reason column 0 never fails in `ListViewRaw`.
- ListItems.ListViewRaw: its contract states only where it fails. The column-0 and sub-item branches are tied to the source through the sorter's `Compare`, which applies the order to this function, and through `CompareValues` and `CompareTextAsDates`.

## Findings

| source | as written | input that shows it | evidently intended | confidence | as-written member | corrected member |
|---|---|---|---|---|---|---|
| Chummer/Backend/Datastructures/ThreadSafeList.cs:822-833 | `FindLastIndex(match)` and `FindLastIndex(startIndex, match)` call `List<T>.FindIndex`, so they return the first match | the list `[x, x]` with a match that accepts everything: 0, where the async twin gives 1 (`ThreadSafeLists.FindLastIndexDisagreement`) | `List<T>.FindLastIndex`, the last match, as the async twins at lines 843-870 do | high; not executed | ThreadSafeLists.ThreadSafeList.FindLastIndex | ThreadSafeLists.ThreadSafeList.FindLastIndexAsync |
| Chummer/Backend/Datastructures/ConcurrentHashSet.cs:196-199 | `IsSubsetOf` compares the number of elements of `other` that are present with `Count`, counting duplicates | the set `{0, 1}` with `other = [0, 0]`: true (`ConcurrentHashSets.DuplicatesMiscount`) | true exactly when every element of the set is in `other` | high; not executed | ConcurrentHashSets.ConcurrentHashSet.IsSubsetOf | ConcurrentHashSets.ConcurrentHashSet.IsSubsetOfCorrected |
| Chummer/Backend/Datastructures/ConcurrentHashSet.cs:242-252 | `SetEquals` counts the elements of `other`, duplicates included, and compares the count with `Count` | the set `{0, 1}` with `other = [0, 0]`: true (`ConcurrentHashSets.DuplicatesMiscount`) | true exactly when the values of `other` are the set | high; not executed | ConcurrentHashSets.ConcurrentHashSet.SetEquals | ConcurrentHashSets.ConcurrentHashSet.SetEqualsCorrected |
| Chummer/Backend/Datastructures/ConcurrentHashSet.cs:208-218 | `IsProperSupersetOf` counts the elements of `other`, duplicates included, and requires the count below `Count` | the set `{0, 1}` with `other = [0, 0]`: false (`ConcurrentHashSets.DuplicatesMiscount`) | true exactly when the values of `other` are a proper subset of the set | high; not executed | ConcurrentHashSets.ConcurrentHashSet.IsProperSupersetOf | ConcurrentHashSets.ConcurrentHashSet.IsProperSupersetOfCorrected |
| Chummer/Backend/Datastructures/ConcurrentHashSet.cs:221-233 | `IsProperSubsetOf` counts the elements of `other` that are present, duplicates included, and compares the count with `Count` | the set `{0, 1}` with `other = [0, 0, 2]`: true (`ConcurrentHashSets.DuplicatesMiscount`) | true exactly when the set is a proper subset of the values of `other` | high; not executed | ConcurrentHashSets.ConcurrentHashSet.IsProperSubsetOf | ConcurrentHashSets.ConcurrentHashSet.IsProperSubsetOfCorrected |
| Chummer/Controls/Table/TableColumn.cs:44-49 | the field initialiser `_setDependencies = Utils.StringHashSetPool.Get()` runs before the constructor body throws on a null factory, and there is no finalizer, so the fetched set is never returned | `new TableColumn<T>(null)` on a fresh pool: one set fetched, none returned (`TableColumns.NullFactoryOutstandingSets`) | a null factory leaves the pool as it was: the factory is tested before the set is fetched, or the set goes back before the throw | medium; not executed | TableColumns.NewTableColumn | TableColumns.NewTableColumnCorrected |
