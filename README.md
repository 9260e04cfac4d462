# PsData core in Dafny

A verified model of the runtime core of PsData, the reflective data layer of an Unreal Engine
plugin. A game object's data is a `UPsData` node. Its reflected fields are property slots of
six shapes:
- a scalar;
- an array of scalars;
- a string-keyed map of scalars;
- one owned node;
- an array of owned nodes;
- a string-keyed map of owned nodes.

Owned nodes hang under their owner, so the nodes form a forest.

The model covers:
- the property slots (`FDataProperty<...>`): the structural comparators, the change-detecting
  `Set`, `Reset`, and the array and map (de)serializers;
- the node engine (`UPsData`): parent/child linking, renaming and root discovery; the listener
  table with its re-entrancy counter, bubbling and deferred pruning; whole-node serialization;
  the link-validation walk;
- the scalar codecs for `int64`, `uint8` and soft object paths.

How the model is built:
- **Serializer.** A serializer is the sequence of calls it receives:
  `WriteArray`/`PopArray`, `WriteObject`/`PopObject`, `Key`/`PopKey`, `Value`.
- **Deserializer.** A deserializer is the remaining suffix of such a sequence.
  `PopIndex` and `PopKey` resume after the whole element that the matching `ReadIndex` or
  `ReadKey` opened.
- **Nodes.** They live in an arena, the class `Forest.DataForest`.
- **Node fields.** The fields the source mutates (`Parent`, `Children`, `DataKey`,
  `CollectionKey`, the slot values, `BroadcastInProgress`, `Delegates`) are fields of the arena
  that its methods reassign.
- **Changes.** `FPsDataFriend::Changed` appends an entry to a ghost change log.
- **Acyclicity.** A ghost rank map keeps the parent relation acyclic: a parent ranks below its
  children.

The class invariant `Valid()` holds three things:
- the parent/children links are symmetric and acyclic, and no broadcast is in progress between
  calls;
- every slot conforms to its field's shape;
- every node an owned slot holds is a child of the holder and is held exactly once.

Modules, in dependency order:
- `Options`, `Tokens`, `Deserializer`: the token stream and the reader.
- `Int64Library`, `Uint8Library`, `SoftObjectPathLibrary`, `Scalars`: the scalar codecs.
- `OrderedMaps`: `TMap<FString, T>` as an insertion-ordered entry sequence with `KeyStableSort`.
- `Comparators`, `Containers`: `FTypeComparator`, and the array and map `FTypeSerializer` and
  `FTypeDeserializer`.
- `DataModel`, `ForestModel`, `Forest`: node data, the forest invariant, linking and events.
- `Events`: the listener loop, pruning, and binding.
- `SlotModel`, `Properties`, `PropertyReset`: the six `Set`s and `Reset`s.
- `NodeFormat`, `NodeCodec`: `DataSerialize` and `DataDeserialize`.
- `ValidationModel`, `Validation`: `UPsData::Validation`.

Facts about the code that the model keeps:
- **Map sort order.** A map `Set` sorts the new map by key only when it replaces the stored value
  (`PsDataProperty.h:390-393` and `618-620`). A `Set` whose value compares equal leaves the stored
  order as it is. The map comparator is order-sensitive, so that order is the one the new value
  already had.
- **Recorded changes.** The owned-array `Set` records no change when the new array is a reorder of
  the old one (`SlotModel.ArrayReorderIsNoChange`). The owned-map `Set` records no change when only
  the values under kept keys are exchanged (`SlotModel.MapValueExchangeIsNoChange`).
- **Old map children.** The owned-map `Set` detaches an old child only when its key is absent from
  the new map. A child replaced under a kept key stays a child of the holder without being held
  (`SlotModel.MapSwapReleases`).

## Model

Source paths are relative to the repository root.

| member | source | states |
|---|---|---|
| Comparators.CompareArrays | Source/PsDataPlugin/Classes/PsDataProperty.h:44-68 | the iterator loop answers equal exactly when both arrays have the same length and agree at every index, i.e. exactly when they are the same sequence |
| Comparators.CompareMaps | Source/PsDataPlugin/Classes/PsDataProperty.h:72-97 | the loop answers equal exactly when the counts agree and, walking both in iteration order, keys and values agree position by position |
| Comparators.MapComparisonIsOrderSensitive | Source/PsDataPlugin/Classes/PsDataProperty.h:72-97 | two maps with the same contents in different iteration orders compare unequal |
| Comparators.SortedMapsCompareByContent | Source/PsDataPlugin/Classes/PsDataProperty.h:72-97 | for maps whose keys are strictly ascending (as a changing Set leaves them) the comparison holds exactly when the maps have the same contents |
| OrderedMaps.Find | Source/PsDataPlugin/Classes/PsDataProperty.h:224-226 | a lookup finds a value exactly when the key is present |
| OrderedMaps.Add | Source/PsDataPlugin/Classes/PsDataProperty.h:226-230 | adding keeps keys unique and the key set grows by exactly the added key |
| OrderedMaps.AddAppendsNewKey | Source/PsDataPlugin/Classes/PsDataProperty.h:226-230 | a new key goes to the end of the iteration order |
| OrderedMaps.AddReplacesInPlace | Source/PsDataPlugin/Classes/PsDataProperty.h:226-230 | adding a present key replaces its value at its position and changes nothing else |
| OrderedMaps.AddThenFind | Source/PsDataPlugin/Classes/PsDataProperty.h:226-230 | after adding, the added key finds the new value and every other key finds what it found before |
| OrderedMaps.LessTransitive | Source/PsDataPlugin/Classes/PsDataProperty.h:391-393 | the key order of the sort predicate is transitive |
| OrderedMaps.LessTotal | Source/PsDataPlugin/Classes/PsDataProperty.h:391-393 | any two distinct keys are ordered one way or the other |
| OrderedMaps.SortIsSorted | Source/PsDataPlugin/Classes/PsDataProperty.h:390-393 | KeyStableSort leaves the keys in ascending order |
| OrderedMaps.SortPermutes | Source/PsDataPlugin/Classes/PsDataProperty.h:390-393 | KeyStableSort is a permutation of the entries |
| OrderedMaps.SortKeepsMap | Source/PsDataPlugin/Classes/PsDataProperty.h:390-393 | sorting keeps the key set and, for unique keys, the same key-to-value map |
| OrderedMaps.SortOfSorted | Source/PsDataPlugin/Classes/PsDataProperty.h:390-393 | stability: an already sorted map is left exactly as it is |
| OrderedMaps.SortedUniqueIsStrict | Source/PsDataPlugin/Classes/PsDataProperty.h:390-393 | a sorted map with unique keys is strictly ascending |
| OrderedMaps.SortedEntry | Source/PsDataPlugin/Classes/PsDataProperty.h:390-393 | an entry is in the sorted map exactly when it is in the input |
| OrderedMaps.InsertSorted | Source/PsDataPlugin/Classes/PsDataProperty.h:390-393 | inserting one entry into a sorted map keeps it sorted |
| Containers.SerializeArray | Source/PsDataPlugin/Classes/PsDataProperty.h:150-162 | the element loop emits WriteArray, each element's tokens in order, then PopArray |
| Containers.ArrayTokensIsGroup | Source/PsDataPlugin/Classes/PsDataProperty.h:150-162 | a serialized array is one balanced element that an enclosing reader can skip whole |
| Containers.ElementTokensBalanced | Source/PsDataPlugin/Classes/PsDataProperty.h:155-160 | the elements written between WriteArray and PopArray are balanced |
| Containers.DeserializeArray | Source/PsDataPlugin/Classes/PsDataProperty.h:167-194 | the ReadIndex loop computes exactly the array-from-stream specification, including the empty result when ReadArray fails |
| Containers.ArrayFromStreamShape | Source/PsDataPlugin/Classes/PsDataProperty.h:167-194 | a failed ReadArray gives an empty array; otherwise there is one element per element read, element k read seeded from old[k] when that index exists and from the default otherwise, and old elements past the new length are gone |
| Containers.ReadElementsShape | Source/PsDataPlugin/Classes/PsDataProperty.h:173-185 | the loop yields one element per ReadIndex, element k read from the k-th element cursor with the seed for its index |
| Containers.ReadElementsStep | Source/PsDataPlugin/Classes/PsDataProperty.h:173-185 | one iteration reads the element at the head and PopIndex resumes after it |
| Containers.ReadElementsRoundTrip | Source/PsDataPlugin/Classes/PsDataProperty.h:173-185 | reading the written elements yields them back and stops at PopArray |
| Containers.ArrayRoundTrip | Source/PsDataPlugin/Classes/PsDataProperty.h:150-194 | deserializing a serialized array yields it back and resumes right after it, whatever the previous value |
| Containers.SerializeMap | Source/PsDataPlugin/Classes/PsDataProperty.h:197-211 | the pair loop emits WriteObject, then Key, value and PopKey per pair in iteration order, then PopObject |
| Containers.EntryTokensIsGroup | Source/PsDataPlugin/Classes/PsDataProperty.h:205-207 | one written pair is one balanced key entry |
| Containers.MapTokensIsGroup | Source/PsDataPlugin/Classes/PsDataProperty.h:197-211 | a serialized map is one balanced element |
| Containers.DeserializeMap | Source/PsDataPlugin/Classes/PsDataProperty.h:216-241 | the ReadKey loop computes exactly the map-from-stream specification |
| Containers.MapFromStreamShape | Source/PsDataPlugin/Classes/PsDataProperty.h:216-241 | a failed ReadObject gives an empty map; otherwise the keys are exactly the keys read and each key holds the last value read for it, seeded from the old value under that key or the default; old keys not read are gone |
| Containers.ReadEntriesShape | Source/PsDataPlugin/Classes/PsDataProperty.h:222-233 | the loop adds exactly the keys read to those it started with, each with the last value read for it |
| Containers.ReadEntryStep | Source/PsDataPlugin/Classes/PsDataProperty.h:222-233 | reading one written pair with a fresh key appends it, and PopKey resumes after it |
| Containers.ReadEntriesRoundTrip | Source/PsDataPlugin/Classes/PsDataProperty.h:222-233 | reading written pairs with unique keys appends them in order and stops at PopObject |
| Containers.MapRoundTrip | Source/PsDataPlugin/Classes/PsDataProperty.h:197-241 | deserializing a serialized map with unique keys yields it back in the same order and resumes right after it |
| Tokens.GroupSkip | Source/PsDataPlugin/Classes/PsDataProperty.h:173-186 | PopIndex and PopKey resume exactly after one whole element, whatever part of it a reader consumed |
| Int64Library.SerializeIsOneValue | Source/PsDataPlugin/Private/Types/PsData_int64.cpp:77-80 | serialize emits exactly one value token carrying the number |
| Int64Library.DeserializeSuccess | Source/PsDataPlugin/Private/Types/PsData_int64.cpp:84-88 | when ReadValue succeeds, the value read is returned |
| Int64Library.DeserializeFallback | Source/PsDataPlugin/Private/Types/PsData_int64.cpp:82-91 | when ReadValue fails, the previous value is returned and nothing is consumed |
| Int64Library.DeserializeReadsAtMostOneValue | Source/PsDataPlugin/Private/Types/PsData_int64.cpp:82-91 | deserialize consumes nothing or exactly one value token, never a structural token |
| Int64Library.RoundTrip | Source/PsDataPlugin/Private/Types/PsData_int64.cpp:77-88 | deserializing what serialize wrote yields the value back, whatever the previous value |
| Uint8Library.SerializeIsOneValue | Source/PsDataPlugin/Private/Types/PsData_uint8.cpp:77-80 | serialize emits exactly one value token carrying the byte |
| Uint8Library.DeserializeSuccess | Source/PsDataPlugin/Private/Types/PsData_uint8.cpp:84-88 | when ReadValue succeeds (a number in 0..255), the byte read is returned |
| Uint8Library.DeserializeFallback | Source/PsDataPlugin/Private/Types/PsData_uint8.cpp:82-91 | when ReadValue fails, the previous value is returned and nothing is consumed |
| Uint8Library.DeserializeReadsAtMostOneValue | Source/PsDataPlugin/Private/Types/PsData_uint8.cpp:82-91 | deserialize consumes nothing or exactly one value token |
| Uint8Library.RoundTrip | Source/PsDataPlugin/Private/Types/PsData_uint8.cpp:77-88 | deserializing what serialize wrote yields every byte 0..255 back |
| SoftObjectPathLibrary.SerializeShape | Source/PsDataPlugin/Private/Types/PsData_TSoftObjectPtr.cpp:77-90 | serialize emits WriteObject, the AssetPathName entry, the SubPathString entry and PopObject, in that order |
| SoftObjectPathLibrary.TypeDeserialize | Source/PsDataPlugin/Private/Types/PsData_TSoftObjectPtr.cpp:92-132 | the ReadKey loop with its two flags computes the decoding specification; the previous value is not used |
| SoftObjectPathLibrary.RoundTrip | Source/PsDataPlugin/Private/Types/PsData_TSoftObjectPtr.cpp:77-126 | decoding what serialize wrote yields the same asset name and sub-path, with no warning, resuming after the object |
| SoftObjectPathLibrary.KeysInAnyOrder | Source/PsDataPlugin/Private/Types/PsData_TSoftObjectPtr.cpp:104-119 | the two keys are accepted in the other order with the same result |
| SoftObjectPathLibrary.UnknownKeySkipped | Source/PsDataPlugin/Private/Types/PsData_TSoftObjectPtr.cpp:104-119 | an unknown key entry is popped and changes nothing |
| SoftObjectPathLibrary.MissingSubPathDefaults | Source/PsDataPlugin/Private/Types/PsData_TSoftObjectPtr.cpp:121-126 | a missing key only warns; the path is built from what was read, with an empty sub-path |
| SoftObjectPathLibrary.NotAnObjectGivesEmptyPath | Source/PsDataPlugin/Private/Types/PsData_TSoftObjectPtr.cpp:128-132 | when ReadObject fails the result is the default empty path, not the previous value, and nothing is consumed |
| SoftObjectPathLibrary.MissingAssetDefaults | Source/PsDataPlugin/Private/Types/PsData_TSoftObjectPtr.cpp:99-126 | an object with only the SubPathString key warns and yields an empty asset name with that sub-path, resuming after the object |
| SoftObjectPathLibrary.EmptyObjectDefaults | Source/PsDataPlugin/Private/Types/PsData_TSoftObjectPtr.cpp:99-126 | an empty object warns and yields the empty path, resuming after the object |
| Scalars.Default | Source/PsDataPlugin/Classes/PsDataProperty.h:106-110 | the default value of each scalar type has that type: zero for both integer types, the empty string, and the empty path |
| Scalars.Deserialize | Source/PsDataPlugin/Classes/PsDataProperty.h:126-148 | dispatching to the type's codec yields a value of the field's type |
| Scalars.SerializeIsGroup | Source/PsDataPlugin/Classes/PsDataProperty.h:132-139 | every scalar is written as one balanced element |
| Scalars.RoundTrip | Source/PsDataPlugin/Classes/PsDataProperty.h:132-148 | every scalar codec reads back the value it wrote |
| DataModel.DataClass | Source/PsDataPlugin/Private/PsData.cpp:563 | a field has a node class exactly when it is an owned-node shape (single, array or map) |
| DataModel.InitialSlot | Source/PsDataPlugin/Classes/PsDataProperty.h:254-257 | a default-constructed slot has its field's shape and holds no node |
| Forest.DataForest.Allocate | Source/PsDataPlugin/Classes/PsDataProperty.h:437-441 | a fresh, unparented node with default slots; nothing else changes, ancestry and ownership are kept |
| Forest.DataForest.GetRoot | Source/PsDataPlugin/Private/PsData.cpp:396-404 | the parent walk ends at an ancestor of the node that has no parent |
| Forest.DataForest.UpdateDelegates | Source/PsDataPlugin/Private/PsData.cpp:202-225 | the table is pruned only when the node's counter is zero; other nodes are untouched |
| Forest.DataForest.ArriveAt | Source/PsDataPlugin/Private/PsData.cpp:227-273 | one node's part of a broadcast: counter up, target set if unset, snapshot listeners run |
| Forest.DataForest.LeaveAt | Source/PsDataPlugin/Private/PsData.cpp:281-283 | counter down, then UpdateDelegates |
| Forest.DataForest.BroadcastInternal | Source/PsDataPlugin/Private/PsData.cpp:227-284 | the recursive broadcast computes the dispatch specification: the event and every node's listener table |
| Forest.DataForest.Broadcast | Source/PsDataPlugin/Private/PsData.cpp:123-142 | the synchronous branch is BroadcastInternal with no previous hop, keeping the class invariant |
| Forest.DataForest.ChangeDataName | Source/PsDataPlugin/Private/PsData.cpp:18-26 | both keys are set; a non-bubbling NameChanged is broadcast only if either key differed; ancestry is kept; only the renamed node's listener table may change |
| Forest.DataForest.AddChild | Source/PsDataPlugin/Private/PsData.cpp:28-39 | for an unparented node, the child's parent is set and the child joins Children, then a bubbling Added is broadcast; the parent's ancestry is unchanged; every listener table off the parent's ancestor chain and other than the child's is unchanged |
| Forest.DataForest.RemoveChild | Source/PsDataPlugin/Private/PsData.cpp:41-52 | for a child of the parent, a bubbling Removing is broadcast while still linked, then the link is cut in both directions; every listener table off the parent's ancestor chain and other than the child's is unchanged |
| Forest.DataForest.BindInternal | Source/PsDataPlugin/Private/PsData.cpp:286-306 | an unbound delegate changes nothing; a bound one is appended to its type's bucket, then UpdateDelegates runs |
| Forest.DataForest.UnbindInternal | Source/PsDataPlugin/Private/PsData.cpp:308-346 | the wrappers matching listener and field in the type's bucket are unbound in place, then UpdateDelegates runs |
| ForestModel.DispatchBalanced | Source/PsDataPlugin/Private/PsData.cpp:229-281 | every node's BroadcastInProgress returns to its value on entry |
| ForestModel.DispatchPath | Source/PsDataPlugin/Private/PsData.cpp:276-279 | the broadcast visits the node first, then successive parents |
| ForestModel.DispatchEnd | Source/PsDataPlugin/Private/PsData.cpp:276-279 | forwarding ends at a root, or once the event is stopped; a non-bubbling event visits only its node |
| ForestModel.DispatchFrame | Source/PsDataPlugin/Private/PsData.cpp:227-284 | the listener tables of nodes off the path are unchanged |
| ForestModel.DispatchOffChain | Source/PsDataPlugin/Private/PsData.cpp:227-284 | a broadcast from a node changes no listener table outside that node and its ancestors |
| ForestModel.DispatchEvent | Source/PsDataPlugin/Private/PsData.cpp:231-234 | the target is set to the first node only if unset; type and bubbling are kept; stop flags are never cleared |
| ForestModel.DispatchSweeps | Source/PsDataPlugin/Private/PsData.cpp:281-283 | on every visited node that was not already broadcasting, the table ends pruned |
| ForestModel.ArriveEvent | Source/PsDataPlugin/Private/PsData.cpp:231-234 | at one node the target is set only if unset and the stop flags only ever get set |
| ForestModel.LinkKeeps | Source/PsDataPlugin/Private/PsData.cpp:28-39 | attaching an unparented non-ancestor keeps the links symmetric, acyclic and bounded |
| ForestModel.UnlinkKeeps | Source/PsDataPlugin/Private/PsData.cpp:41-52 | detaching a child keeps the link invariant |
| ForestModel.RenameKeeps | Source/PsDataPlugin/Private/PsData.cpp:18-26 | renaming keeps the link invariant |
| ForestModel.AllocateKeeps | Source/PsDataPlugin/Classes/PsDataProperty.h:437-441 | adding a fresh node keeps the link invariant and ownership |
| ForestModel.LinkSymmetric | Source/PsDataPlugin/Private/PsData.cpp:36-37 | setting Parent and adding to Children keeps parent and children symmetric |
| ForestModel.UnlinkSymmetric | Source/PsDataPlugin/Private/PsData.cpp:50-51 | removing from Children and clearing Parent keeps them symmetric |
| ForestModel.LinkKeepsAncestry | Source/PsDataPlugin/Private/PsData.cpp:28-39 | attaching a child does not change the new parent's ancestors |
| ForestModel.UnlinkKeepsAncestry | Source/PsDataPlugin/Private/PsData.cpp:41-52 | detaching a child does not change the parent's ancestors |
| ForestModel.RenameKeepsAncestry | Source/PsDataPlugin/Private/PsData.cpp:18-26 | renaming changes no node's ancestors |
| ForestModel.RenameSame | Source/PsDataPlugin/Private/PsData.cpp:20 | renaming to the current keys changes nothing |
| ForestModel.ParentNotUnder | Source/PsDataPlugin/Private/PsData.cpp:28-39 | no node is an ancestor of itself through its parent (the forest is acyclic) |
| ForestModel.LinkAncestorLoops | Source/PsDataPlugin/Private/PsData.cpp:28-39 | as written: attaching an unparented ancestor of the parent closes a cycle, so walking up the parents from any node on it never reaches a parentless node |
| ForestModel.UnderRank | Source/PsDataPlugin/Private/PsData.cpp:396-404 | an ancestor ranks no higher than its descendant, so the root walk terminates |
| ForestModel.ReplaceSlot | Source/PsDataPlugin/Classes/PsDataProperty.h:453-477 | replacing a slot by a conforming value whose held nodes are children of the holder, held once, keeps ownership |
| ForestModel.AddNodeOwned | Source/PsDataPlugin/Classes/PsDataProperty.h:437-441 | a fresh node keeps ownership |
| Events.RunListeners | Source/PsDataPlugin/Private/PsData.cpp:236-273 | the loop over the snapshot copy computes the listener-run specification |
| Events.RunOrder | Source/PsDataPlugin/Private/PsData.cpp:242-272 | listeners run in registration order as a prefix of the eligible ones; a field listener is eligible only by its change-event name with no previous hop, or by its field's class matching the previous hop's class; only a listener that set stopImmediate ends the loop early |
| Events.RunFlags | Source/PsDataPlugin/Private/PsData.cpp:263-270 | after the loop stopImmediate is set exactly when a run listener set it, stop when it was set or a run listener set it; type, target and bubbling are unchanged |
| Events.RunTable | Source/PsDataPlugin/Private/PsData.cpp:241-266 | running the snapshot changes the live table only by the unbinds of the listeners that ran |
| Events.BoundOnly | Source/PsDataPlugin/Private/PsData.cpp:211-218 | the pruned bucket keeps exactly the bound wrappers |
| Events.SweepBucket | Source/PsDataPlugin/Private/PsData.cpp:211-218 | the removing iteration over a bucket leaves exactly its bound wrappers, in order |
| Events.SweepDelegates | Source/PsDataPlugin/Private/PsData.cpp:209-224 | the removing iteration over the table computes the pruned table |
| Events.PrunedFacts | Source/PsDataPlugin/Private/PsData.cpp:209-224 | after pruning every bucket is non-empty and all bound, every bound wrapper is kept, and nothing is added |
| Events.AddDelegateFacts | Source/PsDataPlugin/Private/PsData.cpp:293 | FindOrAdd(...).Add appends the wrapper at the end of its bucket and leaves other buckets alone |
| Events.BindGoesLast | Source/PsDataPlugin/Private/PsData.cpp:293-305 | after binding, the new listener runs after every bound listener already registered for its type |
| Events.UnbindMatching | Source/PsDataPlugin/Private/PsData.cpp:315-321 | exactly the wrappers with the same listener and field are unbound; order and length are kept |
| SlotModel.IntToString | Source/PsDataPlugin/Classes/PsDataProperty.h:525 | FString::FromInt gives a non-empty decimal string, starting with 0 only for 0 |
| SlotModel.DecimalRoundTrip | Source/PsDataPlugin/Classes/PsDataProperty.h:525 | the decimal string reads back as its number, so array elements get distinct names |
| SlotModel.Indexed | Source/PsDataPlugin/Classes/PsDataProperty.h:521-529 | element k of an owned array is named by the decimal string of k |
| SlotModel.Adopt | Source/PsDataPlugin/Classes/PsDataProperty.h:472-473 | naming and attaching one node sets its parent and keys and changes no other node's links or keys |
| SlotModel.AttachParents | Source/PsDataPlugin/Classes/PsDataProperty.h:521-529 | after the attach loop every new element is a child of the holder |
| SlotModel.AttachNames | Source/PsDataPlugin/Classes/PsDataProperty.h:521-529 | an element not yet parented by the holder is renamed to its index or key with the field name; one already parented keeps its names |
| SlotModel.AttachFrame | Source/PsDataPlugin/Classes/PsDataProperty.h:592-600 | the attach loop changes no node outside the new elements |
| SlotModel.AdoptingIff | Source/PsDataPlugin/Classes/PsDataProperty.h:521-529 | the attach loop sets its flag exactly when some new element was not parented by the holder |
| SlotModel.AttachIdle | Source/PsDataPlugin/Classes/PsDataProperty.h:592-600 | when every new element is already a child, the attach loop changes nothing |
| SlotModel.DetachParents | Source/PsDataPlugin/Classes/PsDataProperty.h:531-538 | after the detach loop exactly the dropped old elements are parentless |
| SlotModel.DetachIdle | Source/PsDataPlugin/Classes/PsDataProperty.h:602-610 | when nothing is dropped, the detach loop changes nothing |
| SlotModel.AnySetIff | Source/PsDataPlugin/Classes/PsDataProperty.h:531-538 | the detach loop's flag is set exactly when some old element is dropped |
| SlotModel.ArrayDrops | Source/PsDataPlugin/Classes/PsDataProperty.h:531-538 | an old array element is dropped exactly when the new array does not contain it |
| SlotModel.KeyDrops | Source/PsDataPlugin/Classes/PsDataProperty.h:602-610 | an old map child is dropped exactly when its key is absent from the new map |
| SlotModel.ArraySwapParents | Source/PsDataPlugin/Classes/PsDataProperty.h:516-548 | after an owned-array Set the new elements are children of the holder, removed old ones are parentless, and every other node keeps its parent |
| SlotModel.ArraySwapNames | Source/PsDataPlugin/Classes/PsDataProperty.h:521-529 | newly adopted elements are named by index and field name; all other nodes keep their names |
| SlotModel.ArraySwapOwned | Source/PsDataPlugin/Classes/PsDataProperty.h:516-548 | an owned-array Set of distinct adoptable nodes keeps ownership |
| SlotModel.ArrayChangedIff | Source/PsDataPlugin/Classes/PsDataProperty.h:516-548 | the owned-array Set changes something exactly when the new set of elements differs from the old one |
| SlotModel.ArrayReorderIsNoChange | Source/PsDataPlugin/Classes/PsDataProperty.h:516-548 | a pure reorder of an owned array is not a change |
| SlotModel.MapSwapParents | Source/PsDataPlugin/Classes/PsDataProperty.h:587-623 | after an owned-map Set the new values are children of the holder and uninvolved nodes keep their parents |
| SlotModel.MapSwapReleases | Source/PsDataPlugin/Classes/PsDataProperty.h:602-610 | an old child whose key is gone becomes parentless; one replaced under a kept key stays a child of the holder |
| SlotModel.MapSwapNames | Source/PsDataPlugin/Classes/PsDataProperty.h:592-600 | newly adopted values are named by their key and the field name; others keep their names |
| SlotModel.MapSwapOwned | Source/PsDataPlugin/Classes/PsDataProperty.h:587-623 | an owned-map Set keeps ownership, the stored map being key-sorted |
| SlotModel.MapRekeyOrphans | Source/PsDataPlugin/Classes/PsDataProperty.h:587-623 | as written: a child moved from a dropped key to a new key is held by the new map yet left without a parent |
| SlotModel.MapChangedIff | Source/PsDataPlugin/Classes/PsDataProperty.h:587-616 | the owned-map Set changes something exactly unless every new value is an old child and no old key is dropped |
| SlotModel.MapValueExchangeIsNoChange | Source/PsDataPlugin/Classes/PsDataProperty.h:587-616 | exchanging two children between kept keys is not a change |
| SlotModel.NodeSwapEffect | Source/PsDataPlugin/Classes/PsDataProperty.h:453-477 | a changing owned-node Set detaches the old child, names the new one by the field name with an empty collection key and attaches it, and changes nothing else |
| SlotModel.NodeSwapOwned | Source/PsDataPlugin/Classes/PsDataProperty.h:453-477 | the owned-node Set keeps ownership |
| SlotModel.PlainSlotOwned | Source/PsDataPlugin/Classes/PsDataProperty.h:285-295 | replacing a slot that holds no node by a conforming value that holds none keeps ownership |
| Properties.SetScalar | Source/PsDataPlugin/Classes/PsDataProperty.h:285-295 | an equal value changes nothing and records nothing; otherwise only the slot is replaced and exactly one change is recorded |
| Properties.SetArray | Source/PsDataPlugin/Classes/PsDataProperty.h:334-344 | an element-wise equal array is a no-op; otherwise the slot is replaced and exactly one change is recorded |
| Properties.SetMap | Source/PsDataPlugin/Classes/PsDataProperty.h:383-396 | a map equal in iteration order is a no-op; otherwise the slot holds the key-stable-sorted map, strictly ascending with the same contents, and exactly one change is recorded |
| Properties.SetNode | Source/PsDataPlugin/Classes/PsDataProperty.h:453-477 | a strict field demands a node; the same pointer is a no-op; otherwise the old child is detached, the new one named and attached, and one change recorded; every listener table off the holder's ancestor chain and off the named nodes is unchanged (the old and new child) |
| Properties.Reseat | Source/PsDataPlugin/Classes/PsDataProperty.h:458-474 | the detach-then-attach sequence of the owned-node Set yields the swapped forest; every listener table off the holder's ancestor chain and off the named nodes is unchanged |
| Properties.Release | Source/PsDataPlugin/Classes/PsDataProperty.h:463-466 | a present old child is removed; a null one changes nothing; every listener table off the holder's ancestor chain and off the named nodes is unchanged |
| Properties.Place | Source/PsDataPlugin/Classes/PsDataProperty.h:470-474 | the new child is renamed and attached; the holder's ancestors are unchanged; every listener table off the holder's ancestor chain and off the named nodes is unchanged |
| Properties.AttachAll | Source/PsDataPlugin/Classes/PsDataProperty.h:521-529 | the first loop attaches every element not parented by the holder and reports whether there was one; the holder's ancestors are unchanged; every listener table off the holder's ancestor chain and off the named nodes is unchanged (the elements) |
| Properties.AttachEach | Source/PsDataPlugin/Classes/PsDataProperty.h:521-529 | the attach loop leaves Attach's forest, its flag is set exactly when some element was adopted, and while unset the tables and ranks are untouched; every listener table off the holder's ancestor chain and off the named nodes is unchanged (the elements) |
| Properties.Occupy | Source/PsDataPlugin/Classes/PsDataProperty.h:468-474 | the new pointer is stored in the slot and, when present, renamed and attached; every listener table off the holder's ancestor chain and off the named nodes is unchanged (the new child) |
| Properties.DetachAll | Source/PsDataPlugin/Classes/PsDataProperty.h:531-538 | the second loop detaches every dropped old element and reports whether there was one; every listener table off the holder's ancestor chain and off the named nodes is unchanged (the old elements) |
| Properties.ArrayChangedFlags | Source/PsDataPlugin/Classes/PsDataProperty.h:518-543 | the two loops' change flag is set exactly when the owned array changes |
| Properties.MapChangedFlags | Source/PsDataPlugin/Classes/PsDataProperty.h:589-613 | the two loops' change flag is set exactly when the owned map changes |
| Properties.RelinkArray | Source/PsDataPlugin/Classes/PsDataProperty.h:518-547 | both loops, then the slot replaced and one change recorded only if a flag was set; nothing changes otherwise; every listener table off the holder's ancestor chain and off the named nodes is unchanged (new and old elements) |
| Properties.RelinkMap | Source/PsDataPlugin/Classes/PsDataProperty.h:589-622 | both loops, then the key-sorted map stored and one change recorded only if a flag was set; every listener table off the holder's ancestor chain and off the named nodes is unchanged (new and old values) |
| Properties.SetNodeArray | Source/PsDataPlugin/Classes/PsDataProperty.h:516-548 | owned-array Set: when changed, the forest is the array swap and one change is recorded; otherwise nothing changes; the invariant is kept; every listener table off the holder's ancestor chain and off the named nodes is unchanged (new and old elements) |
| Properties.SetNodeMap | Source/PsDataPlugin/Classes/PsDataProperty.h:587-623 | owned-map Set: when changed, the forest is the map swap and one change is recorded; otherwise nothing changes; the invariant is kept; every listener table off the holder's ancestor chain and off the named nodes is unchanged (new and old values) |
| Properties.Commit | Source/PsDataPlugin/Classes/PsDataProperty.h:545-547 | the value is stored and exactly one change recorded |
| PropertyReset.ResetChange | Source/PsDataPlugin/Classes/PsDataProperty.h:270-273 | a reset records a change exactly when the slot differed from the default, and at most one |
| PropertyReset.ResetScalar | Source/PsDataPlugin/Classes/PsDataProperty.h:270-273 | the slot holds the default value, through the change-detecting Set |
| PropertyReset.ResetArray | Source/PsDataPlugin/Classes/PsDataProperty.h:324-327 | the slot holds the empty array, through Set |
| PropertyReset.ResetMap | Source/PsDataPlugin/Classes/PsDataProperty.h:373-376 | the slot holds the empty map, through Set |
| PropertyReset.ResetNode | Source/PsDataPlugin/Classes/PsDataProperty.h:425-435 | a strict field gets a freshly allocated child; otherwise the slot is set to null, detaching any child |
| PropertyReset.AllocateSlot | Source/PsDataPlugin/Classes/PsDataProperty.h:437-441 | Allocate sets a fresh node of the field's class into the slot |
| PropertyReset.SetFresh | Source/PsDataPlugin/Classes/PsDataProperty.h:453-477 | Set with an unparented node attaches it under the field's name |
| PropertyReset.ResetNodeArray | Source/PsDataPlugin/Classes/PsDataProperty.h:506-509 | the owned array is emptied through Set: a change only if it was not empty, every old element detached |
| PropertyReset.ResetNodeMap | Source/PsDataPlugin/Classes/PsDataProperty.h:577-580 | the owned map is emptied through Set: a change only if it was not empty, every old child detached |
| PropertyReset.MapResetChanged | Source/PsDataPlugin/Classes/PsDataProperty.h:577-616 | setting the empty map is a change exactly when the map was not empty |
| PropertyReset.ResetSlot | Source/PsDataPlugin/Private/PsData.cpp:432-436 | each slot's Reset changes only that slot (and the nodes it held) and records at most one change of that field |
| PropertyReset.ResetData | Source/PsDataPlugin/Private/PsData.cpp:430-438 | after Reset every slot of the node is cleared, the invariant is kept, and the log grows only by changes of this node's fields |
| NodeFormat.SerializeSlot | Source/PsDataPlugin/Classes/PsDataProperty.h:260-263 | a value slot is written as one balanced element |
| NodeFormat.SerializeFields | Source/PsDataPlugin/Private/PsData.cpp:352-360 | the field loop writes one Key, slot, PopKey group per registry field, in registry order |
| NodeFormat.FieldTokensIsGroup | Source/PsDataPlugin/Private/PsData.cpp:356-358 | one field's group is one balanced key entry |
| NodeFormat.FieldIndex | Source/PsDataPlugin/Private/PsData.cpp:368 | the lookup finds the field of that name, and fails exactly when no field has it |
| NodeFormat.ReadSlot | Source/PsDataPlugin/Classes/PsDataProperty.h:265-268 | a value slot's Deserialize yields a conforming value, and reports no change only when the value is unchanged |
| NodeFormat.ReadSlotWritten | Source/PsDataPlugin/Classes/PsDataProperty.h:260-268 | reading back a written value slot yields it, reporting a change exactly when it differs from the current value |
| NodeFormat.ReadEntry | Source/PsDataPlugin/Private/PsData.cpp:368-372 | an unknown key changes nothing; a known key may change only its own value slot and records at most one change |
| NodeFormat.ReadFieldsStep | Source/PsDataPlugin/Private/PsData.cpp:366-374 | one loop step hands the entry to its slot and resumes after PopKey |
| NodeFormat.ReadFieldsKeeps | Source/PsDataPlugin/Private/PsData.cpp:362-375 | reading keeps every slot's shape, leaves owned-node slots alone, and logs only changes of this node's fields |
| NodeFormat.SkipUnknownKey | Source/PsDataPlugin/Private/PsData.cpp:368-373 | an entry under an unknown key is skipped and popped |
| NodeFormat.DataRoundTrip | Source/PsDataPlugin/Private/PsData.cpp:352-375 | reading a written node restores every value slot, logs one change per value slot that differed, and resumes after the node |
| NodeFormat.ReloadIsQuiet | Source/PsDataPlugin/Private/PsData.cpp:352-375 | reading back a node's own serialization changes nothing and records no change |
| NodeCodec.DataSerialize | Source/PsDataPlugin/Private/PsData.cpp:352-360 | serializing a node of the forest writes its registry fields in order |
| NodeCodec.DeserializeSlot | Source/PsDataPlugin/Classes/PsDataProperty.h:265-268 | Deserialize passes the value read to Set: the slot holds the value read and one change is recorded exactly when it differs |
| NodeCodec.DeserializeEntry | Source/PsDataPlugin/Private/PsData.cpp:368-373 | one key of the loop: its slot is read, an unknown key changes nothing |
| NodeCodec.DataDeserialize | Source/PsDataPlugin/Private/PsData.cpp:362-375 | the ReadKey loop on the forest computes the read-fields specification and keeps the invariant |
| ValidationModel.Segments | Source/PsDataPlugin/Private/PsData.cpp:453-475 | the segments run from the root down and end with the node's own segment |
| ValidationModel.ClimbDots | Source/PsDataPlugin/Private/PsData.cpp:449-476 | the path loop from any node and accumulator is the dot-join of the segments from the root down |
| ValidationModel.PathDots | Source/PsDataPlugin/Private/PsData.cpp:449-476 | a node's path is its segments from the root down, joined with dots, trailing empty segments dropped |
| ValidationModel.RootOf | Source/PsDataPlugin/Private/PsData.cpp:396-404 | every node has an ancestor without a parent |
| ValidationModel.RootUnique | Source/PsDataPlugin/Private/PsData.cpp:396-404 | that root is unique |
| ValidationModel.LinkKeys | Source/PsDataPlugin/Private/PsData.cpp:488-491 | a single link names exactly one key; a collection link names the strings of its array |
| ValidationModel.TargetKeys | Source/PsDataPlugin/Private/PsData.cpp:494 | the target resolves exactly when the root has a field of that name that is a map of owned nodes |
| ValidationModel.KeyReportsExact | Source/PsDataPlugin/Private/PsData.cpp:499-512 | Property not found is reported for key k exactly when k is listed, non-empty and missing from the target; Property is empty exactly when an empty key is listed on a non-nullable link; all are Link reports on the field's path |
| ValidationModel.ReportsWithin | Source/PsDataPlugin/Private/PsData.cpp:560-605 | every report of a node's validation is a report of the links of some node in its subtree |
| ValidationModel.FieldsWithin | Source/PsDataPlugin/Private/PsData.cpp:561-605 | every report from the owned fields comes from a node in the subtree |
| ValidationModel.HeldWithin | Source/PsDataPlugin/Private/PsData.cpp:570-600 | every report from held children comes from a node in the subtree |
| Validation.NodePath | Source/PsDataPlugin/Private/PsData.cpp:449-476 | the do-while loop up the parents builds the dot-joined path from the root down |
| Validation.CheckKeys | Source/PsDataPlugin/Private/PsData.cpp:499-513 | the key loop emits exactly the key reports of the model |
| Validation.CheckLink | Source/PsDataPlugin/Private/PsData.cpp:480-557 | one link: abstract, unresolved source or unresolved target give one Logic report; otherwise the key reports |
| Validation.CheckLinks | Source/PsDataPlugin/Private/PsData.cpp:440-559 | the link loop emits exactly the node's own reports, in link order |
| Validation.Validate | Source/PsDataPlugin/Private/PsData.cpp:440-608 | Validation is the node's own reports, then the reports of every held node in field order and slot order |
| Validation.ValidateFields | Source/PsDataPlugin/Private/PsData.cpp:561-605 | the field loop appends the validation of every owned field |
| Validation.ValidateField | Source/PsDataPlugin/Private/PsData.cpp:563-604 | one owned field appends the validation of each node it holds, in order |

## Left out

- `GetHash` (the MD5 digest of a binary serialization) is not modelled. The binary serializer and MD5 are outside the model.
- The deferred `AsyncTask` branch of `Broadcast` is not modelled. It is dead code behind a constant `false`, and it is concurrency.
- `FPsDataAllocator` is a parameter: `Allocate` returns a fresh, unparented node with default slots. The constructor's reflection queue and `PostInitProperties` are not modelled.
- The reflection registry is a given immutable map from class to field descriptors, and from class to link descriptors.
- `GetByName` is modelled as a lookup of a field by name plus a check of its type, on the node's own fields or the root's. A dotted multi-step path is not resolved.
- `GetByField`, `GetFieldByHash`, `UnsafeGet`/`UnsafeSet` and the `DEFINE_FUNCTION` thunks are not modelled.
- Delegates are listener ids with a bound flag. What a listener does is the parameter `react`: it may set the stop flags and unbind listeners of the node it runs on. A listener that broadcasts re-entrantly or changes the tree is not modelled.
- `UE_LOG` warnings are not modelled. `Fatal` logs and `check` become preconditions.
- `FString` comparison is case-insensitive in the engine. The model compares exactly and sorts by code point.
- Owned slots hold node ids. A null element inside an owned array or map is not modelled, nor are the null checks for it in `Validation`.
- The `FTypeSerializer<T*>`/`FTypeDeserializer<T*>` used for owned-node slots is not part of this model. Serialization takes each owned slot's tokens as a given balanced element, and deserialization skips owned slots.
- `InitProperties` after `Reset` is an empty virtual hook here and is not modelled.
- `DataSerialize` calls the slot's `Serialize` with three arguments, while the header declares two. The model writes the slot as the header's `Serialize` does.
- Properties.SetNodeMap: requires that no child under a dropped key reappears under another key (`SlotModel.NoRekeyedChild`). For such an input the source first skips the child, since it is already parented, then detaches it, so the new map would hold a parentless node (`SlotModel.MapRekeyOrphans`; see Findings).
- Properties.SetNodeArray and Properties.SetNodeMap: require every new element to be adoptable. Adoptable means unparented and not an ancestor of the holder, or already a child held by this slot. The source `check`s none of this; `AddChild` logs `Fatal` on an already-parented node.
- Properties.SetNodeArray and Properties.SetNodeMap: require the new elements (map values) to be distinct. The source does not check this and stores a duplicate twice (`PsDataProperty.h:521-545`, `587-623`): the first occurrence is attached, the second skipped as already parented. A later `Set` or `Reset` that drops it then calls `RemoveChild` twice, and the second call is the `Fatal` of `PsData.cpp:43-47`. `SlotModel.ArraySwapOwned` and `SlotModel.MapSwapOwned` assume the same.
- Forest.DataForest.AddChild: requires that the child is not an ancestor of the parent. `AddChild` (`PsData.cpp:28-39`) checks only that the child has no parent, so it accepts an unparented ancestor and closes a cycle. `GetRoot` (`PsData.cpp:396-404`) and the path loop of `Validation` (`PsData.cpp:449-476`) then never end (`ForestModel.LinkAncestorLoops`; see Findings).
- Properties.SetNode, Properties.Reseat and Properties.Place: require, for the same reason, that the new child is not an ancestor of the holder. The owned-node `Set` (`PsDataProperty.h:453-477`) attaches such a node through `AddChild`.
- Scalars.Deserialize: the `FString` codec is not part of this model. A string reads one text value and keeps the previous value otherwise, the shape of the number codecs.
- PropertyReset.ResetData: states that every slot ends cleared and that the log grows only by changes of this node's fields. It does not state the exact sequence of changes.
- PropertyReset.ResetSlot: states that only the slot changes and that at most one change is recorded. The per-shape methods state the exact new value.
- NodeFormat.DataRoundTrip: assumes distinct field names, as a class's reflection table has them.
- Validation.Validate: every held node is a child of its holder by the class invariant, so the recursion always terminates.

## Findings

| source | as written | input that shows it | evidently intended | confidence | as-written member | corrected member |
|---|---|---|---|---|---|---|
| Source/PsDataPlugin/Private/PsData.cpp:28-39 | `AddChild` refuses only a child that has a parent; an unparented ancestor of the parent is attached and closes a cycle, after which `GetRoot` (396-404) and the `Validation` path loop (449-476) never end | a root R with child P; `AddChild(P, R)` | the forest stays acyclic: a node is never attached below itself | not executed | ForestModel.LinkAncestorLoops | Forest.DataForest.AddChild |
| Source/PsDataPlugin/Classes/PsDataProperty.h:587-623 | the owned-map `Set` skips attaching a new child that already has a parent, then detaches every old child whose key is gone; a child moved to a new key is held by the new map but left parentless | old map {"a": X}, new map {"b": X} | the moved child stays a child of the holder | not executed | SlotModel.MapRekeyOrphans | SlotModel.MapSwapOwned |
