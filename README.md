# Entity-component core, modelled in Dafny

This project models the storage layer of a small C++ entity-component engine, plus two in-memory
structures built alongside it, and proves what each operation does.

- **`SparseSet<T>`** is a fixed-capacity packed map from small integer ids to values. It keeps a
  sparse index array, a dense array of `(sparseID, val)` pairs and an element count. Deletion moves
  the tail element into the freed slot. `SparseSet.dfy` holds the class over two Dafny arrays. Its
  validity predicate says the two arrays point back at each other, and its abstract value is a ghost
  map from id to value.
- **`EntityManager`** is a FIFO queue of free entity ids plus a sparse set from active entities to
  their 32-bit component signatures. `EntityManager.dfy` models allocation, release, signature access
  and the superset query over signatures.
- **`ComponentManager`** is a registry with four parts. It has a FIFO pool of component-type ids
  (`uint8_t`) and a map from type key to id. It keeps one component storage per registered type,
  held in a sparse set indexed by type id. Five `operate` visitors walk a storage's dense array.
  Two pure converters translate between id lists and signatures. These are in
  `ComponentManager.dfy`.
- **`Event<T>`** holds two handler lists, persistent and once-only. `Event.dfy` models them.
- **The key-action table of `Input`** maps names to key lists and the latest press data. It has a
  lock against new names, a press-state normalisation on every read, and the decision that turns
  two mappings into an axis. `Input.dfy` models it.

Shared definitions live in `Types.dfy`: entity ids, the 32-bit signature, component-type ids and the
signature filter. `Wrappers.dfy` holds the `Option` type.

Modelling choices:

- Integers are unbounded. The widths matter in three places, and each is written out:
  - the `uint8_t` queue of component-type ids, which stores `i % 256`;
  - the 32-bit bitset, which is `bv32`, where shifting by 32 or more gives 0;
  - `numElements - 1` inside `del` as written, which wraps modulo 2^32.
- A type's default value `T()` is the constructor parameter `zero`. It is what `get` returns for an
  out-of-range id, and every fresh dense slot holds it (see "## Left out" for scalar types).
- The type-erased `char*` storages of `ComponentManager` become one payload type `V`. The table
  holds `SparseSet?<V>`, with `null` for an absent id.
- Type identity (`typeid(T).name()`) is a string key.
- Callbacks passed to `operate` are Dafny functions that return the updated value. Event handlers are
  opaque values, and `Call` returns the handlers it runs, in order.
- Clock readings (`steady_clock::now()`) are an integer parameter. The default time point is 0.

## Model

| member | source | states |
|---|---|---|
| SparseSets.SparseSet.constructor | Source/Core/DataStorage/SparseSet.hpp:23-29 | a new set is valid and empty, has the requested capacity, and every sparse entry holds the sentinel |
| SparseSets.SparseSet.NullIndex | Source/Core/DataStorage/SparseSet.hpp:24-28 | `std::fill_n`: a fresh array of the capacity with every entry the sentinel |
| SparseSets.SparseSet.Size | Source/Core/DataStorage/SparseSet.hpp:39-41 | the count equals both the number of present ids and the number of live dense slots |
| SparseSets.SparseSet.Capacity | Source/Core/DataStorage/SparseSet.hpp:44-46 | the capacity bounds every present id |
| SparseSets.SparseSet.Add | Source/Core/DataStorage/SparseSet.hpp:49-58 | succeeds iff the id is in range and absent. On success the map gains exactly that entry, the pair is appended to the dense order, `sparse[id]` is the old size and the size grows by one. On failure nothing changes |
| SparseSets.SparseSet.Del | Source/Core/DataStorage/SparseSet.hpp:61-73 | as intended: succeeds iff the id is present. The map loses exactly that id and the dense order is the swap-with-tail removal of the id's slot. Absent ids change nothing |
| SparseSets.SparseSet.Set | Source/Core/DataStorage/SparseSet.hpp:76-81 | succeeds iff the id is present. Only that id's value changes, in the same dense slot, and size and order are kept |
| SparseSets.SparseSet.Get | Source/Core/DataStorage/SparseSet.hpp:84-88 | the stored value for a present id; the default value for an absent or out-of-range id |
| SparseSets.SparseSet.Contains | Source/Core/DataStorage/SparseSet.hpp:91-95 | true exactly for present ids |
| SparseSets.SparseSet.IsEmpty | Source/Core/DataStorage/SparseSet.hpp:98-100 | true exactly when the map is empty |
| SparseSets.SparseSet.Clear | Source/Core/DataStorage/SparseSet.hpp:103-112 | fresh arrays; the set is valid and empty and every sparse entry is the sentinel |
| SparseSets.SparseSet.DenseHoldsContents | Source/Core/DataStorage/SparseSet.hpp:50-57 | the live dense slots and the map describe the same pairs, in both directions |
| SparseSets.SparseSet.ContentsCount | Source/Core/DataStorage/SparseSet.hpp:39-41 | the number of present ids is the element count |
| SparseSets.SparseSet.FullHoldsAll | Source/Core/DataStorage/SparseSet.hpp:50 | a full set holds every id below the capacity, so `add` refuses all |
| SparseSets.SwapRemove | Source/Core/DataStorage/SparseSet.hpp:64-67 | swap-with-tail removal: one element shorter, the tail in the freed slot, every other slot kept |
| SparseSets.SwapRemovePermutes | Source/Core/DataStorage/SparseSet.hpp:64-70 | removal drops exactly the removed element, as a multiset |
| SparseSets.ContentsAfterAdd | Source/Core/DataStorage/SparseSet.hpp:52-53 | the two array writes of `add` add exactly the new entry to the encoded map |
| SparseSets.LinkedAfterDel | Source/Core/DataStorage/SparseSet.hpp:64-70 | the swap-with-tail writes keep sparse and dense pointing back at each other, with one slot fewer |
| SparseSets.ContentsAfterDel | Source/Core/DataStorage/SparseSet.hpp:66-68 | the three writes of `del` remove exactly the deleted id from the encoded map |
| SparseSets.DelAsWritten | Source/Core/DataStorage/SparseSet.hpp:61-73 | `del` as written: any id but the sentinel is accepted and then reads as absent; the tail index wraps at 2^32 |
| SparseSets.AddNew | Test/Tests.cpp:80-86 | adding an id the set does not hold appends its pair to the dense order and keeps the arrays |
| SparseSets.DelAt | Test/Tests.cpp:88-105 | deleting the id in dense slot k succeeds, drops the id and leaves the swap-with-tail removal of slot k |
| SparseSets.DeleteScenario | Test/Tests.cpp:79-106 | six adds and the deletions of 1, 3 and 5 all succeed, 3 then reads as the default, the dense order is "Boop", "Am", "Sheep", 4 still reads "Am" after 2 and 0 go, and the set ends empty |
| SparseSets.DelAsWrittenCounterexample | Source/Core/DataStorage/SparseSet.hpp:61-73 | deleting an absent id reports success, drops a present id and dirties the slot absent ids read; on an empty set the tail read is out of bounds |
| EntityManagers.Matching | Source/Core/ECS/EntityManager.cpp:26-35 | the listed ids are exactly the owners of elements whose signature includes the filter |
| EntityManagers.MatchingSnoc | Source/Core/ECS/EntityManager.cpp:28-32 | one more element extends the match list by its owner exactly when it satisfies the filter |
| EntityManagers.PopKeepsComplement | Source/Core/ECS/EntityManager.cpp:15-22 | the queue front is an inactive in-range id, and activating it keeps the free/active accounting |
| EntityManagers.PushKeepsComplement | Source/Core/ECS/EntityManager.cpp:46-53 | queueing and deactivating an active id keeps the free/active accounting |
| EntityManagers.FilterEntities | Source/Core/ECS/EntityManager.cpp:26-35 | the loop returns the matching owners of the range, in array order; an empty range gives none |
| EntityManagers.EntityManager.constructor | Source/Core/ECS/EntityManager.cpp:5-9 | ids 0 .. max-1 are queued in ascending order, nothing is active, and the accounting holds. The active set and both its arrays are newly allocated |
| EntityManagers.EntityManager.GetNumEntities | Source/Core/ECS/EntityManager.cpp:11-13 | the live count, which is the number of active entities under correct use |
| EntityManagers.EntityManager.AllocEntity | Source/Core/ECS/EntityManager.cpp:15-24 | throws on an empty queue. Otherwise it pops the front, counts it, and activates it with the empty signature; the id was inactive |
| EntityManagers.EntityManager.FreeEntity | Source/Core/ECS/EntityManager.cpp:46-53 | throws when the count is 0. Otherwise it decrements and queues the id at the back. As intended, it deactivates an active id and leaves the active set alone for an inactive one. Freeing an active id keeps the accounting |
| EntityManagers.FreeInactiveAsWritten | Source/Core/ECS/EntityManager.cpp:46-53 | as written, freeing inactive id 1 next to active entity 0 reports success, deactivates entity 0 and copies its signature into the null slot |
| EntityManagers.EntityManager.GetEntities | Source/Core/ECS/EntityManager.cpp:37-42 | exactly the active entities whose signature includes the filter, in dense order; `threadMax` is ignored |
| EntityManagers.EntityManager.GetEntitySignature | Source/Core/ECS/EntityManager.cpp:55-58 | throws iff `entity > max`. Otherwise it gives the active entity's signature, or the empty signature |
| EntityManagers.EntityManager.SetEntitySignature | Source/Core/ECS/EntityManager.cpp:60-65 | throws iff `entity > max`. It updates only an active entity's signature; inactive ids change nothing |
| EntityManagers.AllocSetGet | Test/Tests.cpp:285-297 | an allocated entity whose signature is set reads that signature back |
| ComponentManagers.Flag | Source/Core/ECS/ComponentManager.hpp:146-147 | `1 << t` in a 32-bit bitset: no bit at all for t ≥ 32 |
| ComponentManagers.FlagBits | Source/Core/ECS/ComponentManager.hpp:146-147 | bit b of `1 << t` is set iff b == t |
| ComponentManagers.FlagNext | Source/Core/ECS/ComponentManager.hpp:164 | shifting the mask moves it to the next position |
| ComponentManagers.TypesSignature | Source/Core/ECS/ComponentManager.hpp:141-152 | the accumulated signature contains the flag of every listed id |
| ComponentManagers.TypesSignatureAppend | Source/Core/ECS/ComponentManager.hpp:145-149 | one more listed id ORs its flag into the signature |
| ComponentManagers.TypesSignatureBits | Source/Core/ECS/ComponentManager.hpp:141-152 | bit b of the accumulated signature is set iff b is listed |
| ComponentManagers.ComponentTypesToSignature | Source/Core/ECS/ComponentManager.hpp:141-152 | the loop's signature is the OR of the flags; bit b is set iff b is listed |
| ComponentManagers.SetBitsBelow | Source/Core/ECS/ComponentManager.hpp:154-167 | the listed positions are below the bound and strictly ascending |
| ComponentManagers.SetBitsBelowMembers | Source/Core/ECS/ComponentManager.hpp:154-167 | a position is listed iff its bit is set |
| ComponentManagers.SetBitsStep | Source/Core/ECS/ComponentManager.hpp:159-164 | one more step lists that position exactly when its bit is set |
| ComponentManagers.SignatureToComponentTypes | Source/Core/ECS/ComponentManager.hpp:154-167 | the loop lists the set bits of all 32 positions in ascending order |
| ComponentManagers.AscendingUnique | Source/Core/ECS/ComponentManager.hpp:154-167 | two strictly ascending lists with the same members are equal |
| ComponentManagers.SignatureRoundTrip | Source/Core/ECS/ComponentManager.hpp:141-167 | a strictly ascending list of ids below 32, converted to a signature and back, is unchanged |
| ComponentManagers.QueuedIds | Source/Core/ECS/ComponentManager.hpp:28-32 | the constructor queues `i % 256` for i below the count, in order |
| ComponentManagers.QueuedIdsDistinct | Source/Core/ECS/ComponentManager.hpp:28-32 | up to 256 kinds the queued ids are distinct |
| ComponentManagers.QueuedIdsRepeat | Source/Core/ECS/ComponentManager.hpp:28-32 | from 257 kinds on the truncated ids repeat |
| ComponentManagers.RegisterKeepsRegistry | Source/Core/ECS/ComponentManager.hpp:42-53 | binding a new key to the queue front keeps keys-to-ids one-to-one and the queue unused |
| ComponentManagers.UnregisterKeepsRegistry | Source/Core/ECS/ComponentManager.hpp:130-139 | dropping a key and its id keeps the registry one-to-one |
| ComponentManagers.Visit | Source/Core/ECS/ComponentManager.hpp:86-90 | a visit keeps length and owners and updates each value the filter admits |
| ComponentManagers.ContentsAfterVisit | Source/Core/ECS/ComponentManager.hpp:107-111 | rewriting live dense values in place keeps the ids and updates each entry of the map |
| ComponentManagers.VisitStorage | Source/Core/ECS/ComponentManager.hpp:97-101 | the in-place loop leaves the storage valid, its dense order the visit of the old one, and its map the old map with each admitted entry updated |
| ComponentManagers.GetEach | Source/Core/ECS/ComponentManager.hpp:77-80 | `get` on each listed entity: the stored value if present, else the default |
| ComponentManagers.CopyVisit | Source/Core/ECS/ComponentManager.hpp:119-126 | the copying loop returns the visited copies of the dense elements |
| ComponentManagers.CopyVisitLosesUpdate | Source/Core/ECS/ComponentManager.hpp:119-124 | an update on a copy differs from the stored value it was copied from |
| ComponentManagers.AddStorage | Source/Core/ECS/ComponentManager.hpp:51-52 | a fresh, valid, empty storage, held under the id iff that slot was free |
| ComponentManagers.DropStorage | Source/Core/ECS/ComponentManager.hpp:136 | the table no longer holds the id and is otherwise unchanged |
| ComponentManagers.ComponentManager.constructor | Source/Core/ECS/ComponentManager.hpp:28-32 | queue `0 .. n-1` (mod 256), no keys, an empty table of capacity n; the registry is one-to-one iff n ≤ 256 |
| ComponentManagers.ComponentManager.Register | Source/Core/ECS/ComponentManager.hpp:42-53 | a known key changes nothing. A new key takes the queue front, bound even if the slot is taken, and gets a valid, empty storage of entity capacity whose arrays are newly allocated. A one-to-one registry stays so, and the table keeps its arrays |
| ComponentManagers.ComponentManager.RegisterNew | Source/Core/ECS/ComponentManager.hpp:45-51 | the path past the early return: the queue front is bound to the key, and unless that slot is taken a fresh, valid, empty storage is held under it; a one-to-one registry stays so |
| ComponentManagers.ComponentManager.Bind | Source/Core/ECS/ComponentManager.hpp:46-49 | the queue front is popped and bound to the key |
| ComponentManagers.ComponentManager.Install | Source/Core/ECS/ComponentManager.hpp:51-52 | a fresh empty storage, with fresh arrays, is held under the id iff that slot was free; the table keeps its arrays |
| ComponentManagers.ComponentManager.GetComponentType | Source/Core/ECS/ComponentManager.hpp:55-62 | the key's id if bound, none otherwise |
| ComponentManagers.ComponentManager.GetComponents | Source/Core/ECS/ComponentManager.hpp:64-71 | the key's storage; in a one-to-one registry, null exactly for unbound keys |
| ComponentManagers.ComponentManager.Operate | Source/Core/ECS/ComponentManager.hpp:83-113 | the shared in-place visit of the key's storage; no storage, no change |
| ComponentManagers.ComponentManager.OperateEntities | Source/Core/ECS/ComponentManager.hpp:73-81 | the values handed out are `get` of each listed entity, and nothing is written |
| ComponentManagers.ComponentManager.OperateAll | Source/Core/ECS/ComponentManager.hpp:83-91 | every value, in dense order, is replaced by `func` of it; ids and order are kept |
| ComponentManagers.ComponentManager.OperateFiltered | Source/Core/ECS/ComponentManager.hpp:93-102 | exactly the values passing `filter` are replaced by `func` of them |
| ComponentManagers.ComponentManager.OperateWithEntity | Source/Core/ECS/ComponentManager.hpp:104-113 | every value is replaced by `func` of its entity and itself |
| ComponentManagers.ComponentManager.OperateWithEntityFiltered | Source/Core/ECS/ComponentManager.hpp:115-128 | as intended: exactly the pairs passing `filter` are updated in place |
| ComponentManagers.ComponentManager.OperateWithEntityFilteredAsWritten | Source/Core/ECS/ComponentManager.hpp:115-128 | as written: only copies are updated; nothing is written back |
| ComponentManagers.ComponentManager.Unregister | Source/Core/ECS/ComponentManager.hpp:130-139 | an unknown key changes nothing. A known key loses its binding and its id loses its storage; the queue and the table's arrays are untouched and a one-to-one registry stays so |
| ComponentManagers.ComponentManager.Uninstall | Source/Core/ECS/ComponentManager.hpp:136-138 | the id's storage and the key's binding are gone; the table keeps its arrays |
| ComponentManagers.ComponentManager.KindsApart | Source/Core/ECS/ComponentManager.hpp:50-51 | two different keys of a one-to-one registry lead to storages that share no object: neither the set nor either array |
| ComponentManagers.ComponentManager.KindApartFromTable | Source/Core/ECS/ComponentManager.hpp:50-51 | a held storage shares no object with the table that holds it |
| ComponentManagers.RegisterKeepsKind | Test/Tests.cpp:333-341 | registering a kind keeps the manager valid and leaves an already registered storage and its arrays untouched |
| ComponentManagers.AddKeepsKind | Test/Tests.cpp:425-432 | adding to one kind's storage adds the entry there and leaves another kind's storage valid with the same map |
| ComponentManagers.OperateKeepsKind | Test/Tests.cpp:434-447 | operating on one kind leaves another kind's storage, which `func` may read, valid with the same map |
| ComponentManagers.CopyScenario | Source/Core/ECS/ComponentManager.hpp:115-128 | on one stored 5 with `func` adding one, the copying loop as written yields 6 while the storage keeps 5; the corrected loop makes the storage 6 |
| Events.Event.constructor | Source/Core/Messaging/Event.hpp:9 | both lists start empty |
| Events.Event.Add | Source/Core/Messaging/Event.hpp:11-13 | the handler is appended to the persistent list; the once list is unchanged |
| Events.Event.AddOnce | Source/Core/Messaging/Event.hpp:15-17 | the handler is appended to the once list; the persistent list is unchanged |
| Events.Event.Remove | Source/Core/Messaging/Event.hpp:19-24 | false with no change on an empty persistent list. Otherwise the newest persistent handler goes; the once list is untouched |
| Events.Event.Call | Source/Core/Messaging/Event.hpp:27-37 | persistent handlers in order, then once handlers in order; afterwards the once list is empty and the persistent list kept |
| Events.RemoveScenario | Test/Tests.cpp:512-547 | three handlers fire, then two after one `remove`, then none after two more |
| Events.OnceScenario | Test/Tests.cpp:599-610 | a once handler fires on the first call and not on the second |
| Inputs.FlagsOfStates | Source/Input/Input.hpp:29-31 | the RELEASED bit marks exactly the up states and the PRESSED bit the down states; NONE (all bits) carries both |
| Inputs.Normalised | Source/Input/Input.cpp:151-160 | a read leaves the previous state equal to the current one and touches nothing else; without an update request the state is kept |
| Inputs.NormalisedShape | Source/Input/Input.cpp:151-160 | a read makes the previous state equal the current one. The state moves only from a just-pressed or just-released state already seen |
| Inputs.JustPressedSeenOnce | Source/Input/Input.cpp:151-160 | a fresh just-pressed or just-released state is reported once; the next read sees it held or up, and then it is stable |
| Inputs.Axis | Source/Input/Input.cpp:172-189 | the decided axis is -1, 0 or 1 |
| Inputs.AxisByPosition | Source/Input/Input.cpp:172-189 | both up gives 0, only the first down gives -1, and only the second down gives 1. Equal down states pick the later press. Unequal down states give 0 |
| Inputs.AxisAntisymmetric | Source/Input/Input.cpp:172-189 | the axis is -1, 0 or 1, and swapping the names negates it except for equal down states pressed at the same time |
| Inputs.Stamped | Source/Input/Input.cpp:230-238 | the event data: key, state and modifier; the release time for a release, else the press time |
| Inputs.StampedSeenOnce | Source/Input/Input.cpp:229-244 | a just-pressed or just-released event is reported as such by one read and settles on the next |
| Inputs.Read | Source/Input/Input.cpp:146-163 | reading a known name keeps the names and that mapping's keys, normalises its data, and leaves every other mapping alone |
| Inputs.MappingAxis | Source/Input/Input.cpp:172-189 | the axis two mappings' data decide is -1, 0 or 1 |
| Inputs.Input.constructor | Source/Input/Input.hpp:118-119 | empty tables, both locks off |
| Inputs.Input.HasKeyMapping | Source/Input/Input.cpp:138-140 | true exactly for mapped names |
| Inputs.Input.GetKeyMapping | Source/Input/Input.cpp:146-166 | unknown name: none, nothing changes. Known name: the key lock is set, the table becomes its `Read` of that name, and the normalised mapping is handed out |
| Inputs.Input.AddKeyMapping | Source/Input/Input.cpp:52-73 | a known name gets the key appended, with no read. A new name is refused under the key lock, otherwise it gets a fresh mapping of that key |
| Inputs.Input.AddKeyMappings | Source/Input/Input.cpp:75-96 | a known name is read, which sets the lock and normalises, and gets the keys in front. A new name is refused under the lock, otherwise it gets exactly the keys |
| Inputs.Input.GetMouseMapping | Source/Input/Input.cpp:200-207 | for a known name, sets the mouse lock and hands out the mapping |
| Inputs.Input.AddMouseMapping | Source/Input/Input.cpp:98-116 | a known name is read, which sets the lock, and gets the button appended; a new name always gets a fresh mapping |
| Inputs.Input.AddMouseMappings | Source/Input/Input.cpp:118-136 | a known name is read and gets the buttons in front; a new name always gets a fresh mapping |
| Inputs.Input.RemoveKeyMapping | Source/Input/Input.cpp:209-213 | the name is gone and the answer is always true |
| Inputs.Input.GetKeyAxis | Source/Input/Input.cpp:168-190 | the table becomes the read of the first name followed by the read of the second, and the axis is decided on the data after both reads. The result is -1, 0 or 1, and distinct names are each normalised once |
| Inputs.Input.GetKeyAxes | Source/Input/Input.cpp:192-197 | four reads in order. The first axis is decided on the table after the first two reads, the second on the final table; each is -1, 0 or 1 |
| Inputs.Input.ProcessKeyActions | Source/Input/Input.cpp:229-253 | every mapping listing the key takes the event data under its own name and the others are unchanged; the data passed on names a matching mapping or none |

## Left out

- Printing (`print*`, `*ToString`, the warnings written to `std::cout`) and the performance tests: no
  observable state.
- `SparseSet` and `ComponentManager` destructors, `delete[]` of a storage in `unregisterComponents`
  and the destructor loop over `componentData.dense`: memory release is not modelled, and unregister
  only drops the table entry.
- SparseSets.SparseSet.Del: models `del` as evidently intended (absent ids refused). The code as
  written is `DelAsWritten`; see Findings.
- SparseSets.SparseSet.constructor: every dense slot starts as `DenseElement(0, zero)`, and
  validity keeps the spare slot `dense[maxElements]` that absent ids read through equal to it.
  `new DenseElement[maxElements+1]` default-initialises `val`. For a class type such as
  `std::bitset` that is `T()`, but for a scalar `T`, such as the table's `char*`, it is
  indeterminate.
- ComponentManagers.ComponentManager.Register: requires a non-empty queue for a new key. The source
  reads the front of an empty `std::queue`, which is undefined.
- ComponentManagers.ComponentManager.Unregister: the id is not returned to the queue, as in the code.
  A freed id therefore cannot be reused.
- ComponentManagers.ComponentManager.GetComponents: does not promise that the storage is valid. Client
  code owns the storages and mutates them directly, so each `operate` requires the validity of the
  storage it walks instead.
- ComponentManagers.ComponentManager.OperateEntities: `func` is dropped. It receives a copy returned
  by `get`, so nothing it does reaches the storage; the copies it would see are returned.
- The callbacks of `operate`, event handlers and `std::function` side effects: modelled as pure
  functions from the old value to the new one, or as opaque values. Effects a callback has on other
  state are not captured.
- Type erasure: one payload type `V` stands for every component type, and the `reinterpret_cast`
  is not modelled.
- `Input`: the static GLFW callbacks and `updateCallbacks` are left out. `processMouseActions` and
  the mouse coordinates and scroll offsets are floating point. The per-mapping callbacks,
  `pushKeyCallback`/`popKeyCallback` and `removeMouseMapping` are left out too.
- Inputs.Input.ProcessKeyActions: the final `keyData = data` writes the copy captured by the callback
  lambda, not a field of `Input`, so the data is returned instead. Which matching name it carries
  depends on the map's iteration order, which is not modelled.
- Inputs.Input.GetKeyAxis: requires both names to be mapped, because the source dereferences the
  lookups unchecked.
- Inputs.Input.GetKeyAxes: the `Vector2` result is a pair of integers, since the axes are -1, 0 or 1.
- Clock readings: `steady_clock::now()` is the parameter `now`.
- `EntityManager`, `ComponentManager`: the `WellUsed`/`Consistent` invariants are proved preserved
  only under correct use. Two kinds of misuse reach `del` with an id the set does not hold: freeing
  an inactive entity, and unregistering a second key that shares a truncated id once there are more
  than 256 component kinds. The model runs the corrected `del` there, not the source's, as the next
  two lines say.
- EntityManagers.EntityManager.FreeEntity: freeing an inactive id leaves the active set unchanged.
  The count decrement and the queue push are as written. The source's `del` instead points the entity
  at the dense tail to the null slot, so that entity silently stops being active, and copies its
  signature into `dense[maxEntities]`. `FreeInactiveAsWritten` exhibits this; see Findings.
- ComponentManagers.DropStorage: dropping an id the table does not hold changes nothing. The
  source's `del` would instead unlink whichever storage sits at the dense tail, as
  `DelAsWrittenCounterexample` shows for the same code.

## Findings

| source | as written | input that shows it | evidently intended | confidence | as-written member | corrected member |
|---|---|---|---|---|---|---|
| Source/Core/DataStorage/SparseSet.hpp:61-73 | `del` only refuses `id == nullElement`; an absent id is "deleted" by moving the tail element over the slot `sparse[id]` names, and an empty set reads `dense[numElements - 1]` with the index wrapped to 2^32 - 1 | capacity 2 holding {0: "a"}, `del(1)`: returns true, id 0 becomes absent, and "a" lands in the slot absent ids read through; an empty set, `del(0)`: out-of-bounds read | refuse ids that are not present | high (not executed) | SparseSets.DelAsWrittenCounterexample | SparseSets.SparseSet.Del |
| Source/Core/ECS/EntityManager.cpp:46-53 | `freeEntity` calls `del` without checking that the entity is active, and `del` does not check presence either | `EntityManager(2)`, `allocEntity()` returns 0, its signature is set to 1, then `freeEntity(1)`: the count becomes 0, entity 0 is no longer active though never freed, and its signature is copied into `dense[2]` | free only active entities, leaving the others' entries alone | high (not executed) | EntityManagers.FreeInactiveAsWritten | EntityManagers.EntityManager.FreeEntity |
| Source/Core/ECS/ComponentManager.hpp:119-124 | `auto element = set->dense[i]` copies the element, so `func` updates the copy and the storage keeps its old values | one stored value 5 under entity 0, `func` adds one, `filter` admits all: the copy becomes 6, the storage stays 5 | `auto& element`, as in the unfiltered entity overload, so updates persist | high (not executed) | ComponentManagers.CopyVisitLosesUpdate | ComponentManagers.ComponentManager.OperateWithEntityFiltered |
