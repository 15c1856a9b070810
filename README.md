# ECS core of a 2D game engine, modelled in Dafny

This project models the Entity-Component-System core of a small C++ 2D game
engine (`src/ECS/ECS.h`, `src/ECS/ECS.cpp`) and proves properties of it.

- **Component type ids** (`ComponentIds`). A process-wide counter gives each
  component type a small integer the first time the type asks for one, and the
  type keeps that id from then on. The value `IdTable` is the memo table. The
  class `ComponentTypes` is the mutable counter that `GetId` advances.
- **Signatures** (`Signatures`). A signature is a 32-bit set, written as a
  sequence of 32 booleans. A system is interested in an entity when
  `(entity & required) == required`. This is proved to mean "every required
  bit is set".
- **Entities** (`Entities`). An entity is a bare id, compared by id alone.
  `Ascending` is the order in which a `std::set<Entity>` is iterated.
- **Pools** (`Pools`). Each component id has a growable pool indexed by entity
  id. `Store` is the whole effect of one `AddComponentToEntity` on the vector
  of pools.
- **Systems** (`Systems`). A `System` object holds the signature it requires
  and its list of entities. The module also models the `erase(remove_if)` call
  as written (`EraseRemoveIf`) next to the intended removal (`RemoveAll`).
- **The Registry** (`Registries`). A `Registry` object holds the entity
  counter, the pending spawn and kill sets, the pools, the per-entity signature
  table and the map from system type to system. It has methods for entities,
  components and systems, plus the end-of-frame `Update`.
- **Id allocation over a run** (`Allocation`). The ids that a sequence of
  spawns and kills hands out: as the code is written, and as intended.
- **Whole runs** (`Scenarios`). Concrete runs of a `Registry`:
  - a movement system that requires Transform and RigidBody, facing three
    entities of which two have both components;
  - a spawn after a kill.

Component values of every type are one type parameter `V` of the Registry.
Component types and system types are keyed by name (`TypeName`, `SystemType`,
both strings) instead of by C++ type. The file `src/ECS/Pool.h` is not part
of this model. A pool is taken to be a growable sequence, with the four
operations the Registry calls on it. A newly created pool is taken to be
empty (see "## Left out").

## Model

| member | source | states |
|---|---|---|
| Signatures.Empty | src/ECS/ECS.h:26-27 | a default-constructed signature has none of its 32 bits set |
| Signatures.Test | src/ECS/ECS.h:266 | `test(k)` is true exactly when the signature passes the interest test of a system that requires component k alone |
| Signatures.Set | src/ECS/ECS.h:119 | `set(k, v)` gives bit k the value v and leaves every other bit as it was |
| Signatures.And | src/ECS/ECS.cpp:117 | bitwise `&`: bit k of the result is set iff it is set in both operands |
| Signatures.SatisfiesIffIncludes | src/ECS/ECS.cpp:114-117 | the interest test `(e & r) == r` holds iff every bit set in r is set in e (both directions) |
| Signatures.SetCommutes | src/ECS/ECS.h:116-120 | requiring two components gives the same signature in either order |
| Signatures.SatisfiesAfterSet | src/ECS/ECS.h:233 | setting one more bit in an entity's signature never ends a system's interest in it |
| Signatures.EmptyIsSatisfied | src/ECS/ECS.cpp:117 | a system that requires nothing is interested in every entity |
| Entities.EqIsIdentity | src/ECS/ECS.h:46-47 | `==` holds iff the ids are equal; `!=` is its negation |
| Entities.LessIsStrictTotalOrder | src/ECS/ECS.h:48-49 | `<` on ids is irreflexive, transitive and total; `>` is its converse |
| Entities.LeastExists | src/ECS/ECS.h:135 | every non-empty set of entities has a member of least id, which a `std::set` yields first |
| Entities.LeastIsUnique | src/ECS/ECS.h:135 | that least member is unique |
| Entities.AscendingIsSortedSet | src/ECS/ECS.cpp:132 | iterating a set visits each member exactly once, in strictly ascending id order, and nothing else |
| Entities.AscendingFirst | src/ECS/ECS.cpp:132 | iteration starts at the least member and goes on with the rest of the set |
| ComponentIds.IdTable.Assign | src/ECS/ECS.h:84-87 | the first `GetId` of a type gives it the current counter and advances the counter by one; later calls change nothing; other types keep their ids; the table stays injective |
| ComponentIds.IdIsStable | src/ECS/ECS.h:84-87 | a type's id is the same on every later call, whatever other types asked in between |
| ComponentIds.DistinctTypesDistinctIds | src/ECS/ECS.h:84-87 | two different types never get the same id |
| ComponentIds.ComponentTypes.constructor | src/ECS/ECS.cpp:17 | the counter starts at 0 and no type has an id yet |
| ComponentIds.ComponentTypes.GetId | src/ECS/ECS.h:84-87 | returns the type's remembered id, or else the counter; the table becomes `Assign(t)` of the old one and stays valid |
| Pools.Pool.GetSize | src/ECS/ECS.h:222 | the number of slots; slot i exists exactly when i is below it |
| Pools.Pool.Get | src/ECS/ECS.h:282 | the value in slot i: writing it back with `Set(i, ...)` leaves the pool unchanged |
| Pools.Pool.Resize | src/ECS/ECS.h:222-224 | the pool grows to n slots and never shrinks; old slots are kept; new slots hold the default value |
| Pools.Pool.Set | src/ECS/ECS.h:230 | slot i holds v afterwards; the size and every other slot are unchanged |
| Pools.Store | src/ECS/ECS.h:208-230 | afterwards the vector covers id c, pool c exists and covers slot i, and slot i holds v; the pool never shrinks; other slots of pool c, and all other pools, are as before |
| Pools.StoreCommutes | src/ECS/ECS.h:208-230 | stores to different components, or to different entities, do not interfere |
| Systems.Count | src/ECS/ECS.cpp:34-35 | how many list entries have the id: at most the length, and 0 iff none |
| Systems.RemoveAll | src/ECS/ECS.cpp:30-37 | the intended removal: one entry fewer per match, and exactly the entries with another id stay |
| Systems.RemoveAllAppend | src/ECS/ECS.cpp:34-36 | removal distributes over concatenation |
| Systems.RemoveAllNone | src/ECS/ECS.cpp:34-36 | a list without the id is left as it is |
| Systems.RemoveAllSingle | src/ECS/ECS.cpp:34-36 | with exactly one match at index i, removal is the list without index i, the others in their order |
| Systems.EraseRemoveIf | src/ECS/ECS.cpp:34-36 | `erase(remove_if(...))` as written: undefined (`None`) iff nothing matches; otherwise exactly one position is erased, leaving the kept entries followed by the old tail past them, less its first element |
| Systems.EraseRemoveIfIffSingle | src/ECS/ECS.cpp:34-36 | the code as written gives the intended removal exactly when one entry matches |
| Systems.EraseRemoveIfSingle | src/ECS/ECS.cpp:34-36 | with exactly one match, the code as written agrees with the intended removal |
| Systems.EraseRemoveIfKeepsDuplicate | src/ECS/ECS.cpp:34-36 | on `[E1, E2, E1]` the code as written leaves `[E2, E1]`, keeping a copy of E1, where the intended removal leaves `[E2]` |
| Systems.EraseRemoveIfDuplicatesSurvivor | src/ECS/ECS.cpp:34-36 | on `[E1, E1, E2]` the code as written leaves `[E2, E2]`: both copies of E1 go and E2 is listed twice, where the intended removal leaves `[E2]` |
| Systems.RequireAllSignature | src/Systems/MovementSystem.h:10-13 | after a constructor's `RequireComponent` calls, each required type has an id whose bit is set; bits set before stay set; no other bit is set; earlier ids are kept |
| Systems.System.constructor | src/Systems/MovementSystem.h:10-13 | a system starts with an empty list and the signature and id table given by its `RequireComponent` calls in order |
| Systems.System.RequireComponent | src/ECS/ECS.h:116-120 | sets the bit of the type's id and leaves the other bits and the list alone; the type gets its id |
| Systems.System.AddEntityToSystem | src/ECS/ECS.cpp:26-28 | appends the entity at the end, without de-duplication; the signature is unchanged |
| Systems.System.RemoveEntityFromSystem | src/ECS/ECS.cpp:30-37 | with exactly one entry of the id, the list loses that entry and keeps the others in order |
| Systems.System.GetSystemEntities | src/ECS/ECS.cpp:39-41 | returns the list as stored, changing nothing |
| Systems.System.GetComponentSignature | src/ECS/ECS.cpp:45-47 | returns the required signature as stored, changing nothing |
| Registries.TruncatedId | src/ECS/ECS.cpp:61-62 | the id handed out is the counter modulo 256: in 0..255 and congruent to the counter |
| Registries.TruncatedIdWraps | src/ECS/ECS.cpp:61-62 | 256 spawns later the same id comes round again; below 256 the id is the counter |
| Registries.InterestedMembers | src/ECS/ECS.cpp:108-122 | a system gets exactly the offered entities whose signature satisfies its own |
| Registries.InterestedAscending | src/ECS/ECS.cpp:132-134 | entities offered in ascending id order are added in ascending id order, each once |
| Registries.InterestedAppend | src/ECS/ECS.cpp:132-134 | offering entities in two batches adds what offering them at once adds |
| Registries.Registry.constructor | src/ECS/ECS.h:133-158 | the counter is 0 and every set, vector and map is empty |
| Registries.Registry.SpawnEntity | src/ECS/ECS.cpp:60-74 | the id is the old counter truncated to 8 bits; the counter goes up by one; the entity is pending; the signature table covers the id, with new rows empty and old rows kept; no list changes, so the new entity is unlisted exactly when its id was not already listed |
| Registries.Registry.KillEntity | src/ECS/ECS.cpp:80-83 | the entity joins the kill set and the counter goes down by one; nothing else changes |
| Registries.Registry.AddComponentToEntity | src/ECS/ECS.h:200-237 | the pools become `Store` of the old ones, so the entity's slot of the type's pool holds the value; the type's bit is set in the entity's signature only; other signatures and system lists are unchanged |
| Registries.Registry.RemoveComponentFromEntity | src/ECS/ECS.h:243-253 | clears only the type's bit of the entity's signature; the pools keep the stale value |
| Registries.Registry.EntityHasComponent | src/ECS/ECS.h:259-267 | returns the type's bit of the entity's signature, so true right after an add and false right after a remove |
| Registries.Registry.GetComponentFromEntity | src/ECS/ECS.h:272-283 | returns the entity's slot of the type's pool, which right after an add is the value added |
| Registries.Registry.AddEntityToSystems | src/ECS/ECS.cpp:101-124 | every system whose required signature the entity satisfies gets the entity appended once; other lists are unchanged |
| Registries.Registry.Update | src/ECS/ECS.cpp:129-142 | every pending spawn is offered to every system in ascending id order; the spawn set ends empty; the kill set and the rest of the state are unchanged |
| Registries.Registry.OfferInOrder | src/ECS/ECS.cpp:132-134 | the loop over the spawn set adds, to each system, the entities it is interested in, in the set's ascending order |
| Registries.Registry.HasSystem | src/ECS/ECS.h:321-324 | true exactly when a system is registered under the type; `AddSystem` ensures it and `RemoveSystem` ensures its negation |
| Registries.Registry.AddSystem | src/ECS/ECS.h:290-307 | the type has a system afterwards; an existing one is kept (`insert` does not replace); a new one starts with an empty list and its required signature |
| Registries.Registry.RemoveSystem | src/ECS/ECS.h:312-316 | the type has no system afterwards and every other entry is kept |
| Registries.Registry.GetSystem | src/ECS/ECS.h:329-335 | returns the registered object itself, the one the Registry updates |
| Allocation.IssuedIdsReuseLiveId | src/ECS/ECS.cpp:60-83 | as written, spawn, spawn, kill, spawn hands out ids 0, 1, 1: the live second entity's id is reused |
| Allocation.IssuedIdsWithoutKills | src/ECS/ECS.cpp:61-62 | as written, without kills the k-th spawn gets k modulo 256, so the 257th spawn repeats the first id |
| Allocation.IntendedIdsCount | src/ECS/ECS.cpp:60-83 | with a counter that only spawns advance, the k-th spawn gets id k |
| Allocation.RegistryIssuedIds | src/ECS/ECS.cpp:60-83 | a fresh Registry driven through any sequence of spawns and kills hands out exactly the ids `IssuedIds` gives |
| Allocation.IntendedIdIsNew | src/ECS/ECS.cpp:60-83 | with a counter that only spawns advance, each new id is none of the ids handed out before it. This is the premise for a new entity not being listed yet; the Registry invariant that every listed id was handed out earlier is not proved |
| Allocation.IntendedIdsDistinct | src/ECS/ECS.cpp:60-83 | with that counter, no id is ever handed out twice |
| Scenarios.MovementRequirement | src/Systems/MovementSystem.h:10-13 | from a fresh counter, requiring Transform then RigidBody gives them ids 0 and 1 and sets exactly those bits |
| Scenarios.MovementSystemMembers | src/ECS/ECS.cpp:101-136 | three entities get a Transform and two of them a RigidBody; the movement system lists nobody before `Update` and exactly those two, least id first, after it |
| Scenarios.RespawnIsAlreadyListed | src/ECS/ECS.cpp:60-83 | a system requiring nothing lists e0 after `Update`; after killing e0 and spawning again, the new entity is pending and already listed, so not every pending entity is unlisted |
| Scenarios.SpawnAfterKill | src/ECS/ECS.cpp:60-83 | on the Registry itself, spawn, spawn, kill the first, spawn: the third entity equals the live second one |

## Left out

- Logging (`Logger::Log`, `Success`, `Err`) is console output with timestamps. It is dropped everywhere.
- The `Registry* registry` field of `Entity` is left out. `SpawnEntity` never sets it, and comparisons ignore it. For the same reason the `Entity::AddComponent`, `RemoveComponent`, `HasComponent` and `GetComponent` wrappers (src/ECS/ECS.h:337-353) are not modelled. They only forward through that pointer.
- `AddSystem` also calls `newSystem->Update(1)`, which runs subclass behaviour. That call is left out. The `nullptr` check beside it cannot fail in the model, because `new` never yields null.
- `shared_ptr`, `static_pointer_cast` and `std::type_index` are replaced by plain objects and string keys. Every component type shares one value type `V`, and `blank` is the default-constructed value that `Resize` puts in new slots.
- A pool created by `std::make_shared<Pool<TComponent>>()` (src/ECS/ECS.h:215) is taken to start empty, since its constructor is in `Pool.h`. So `Pools.Store` promises a new pool of exactly `i + 1` slots. A constructor that pre-sizes the pool would give a larger one.
- Pools are values stored in the Registry's sequence, not shared heap objects. Nothing else holds a pool, so aliasing is not modelled.
- Registries.Registry.GetComponentFromEntity: returns the slot's value, not a reference into the pool. Writes through the returned reference are not modelled.
- The loop over `entitiesToBeKilled` in `Update` has an empty body. The model leaves the kill set as it is and removes nobody.
- The order in which `AddEntityToSystems` visits the systems is not modelled, because an `unordered_map` has no fixed order. Its contract holds for every order, since each system's list changes on its own.
- After `remove_if`, the positions past its returned iterator are taken to hold the entries that were there before. The C++ standard leaves them unspecified. For a trivially copyable `Entity`, common library implementations leave them as they were.
- The signature-table lookups are stated as preconditions, namely `0 <= entity.id < |entityComponentSignatures|`. The source indexes the `vector` unchecked and reads or writes out of bounds instead.
- A component id below 32 is also a precondition. There `bitset::set` and `bitset::test` do check, and throw `std::out_of_range`; the model does not model the exception.
- `IComponent::nextId` is unbounded in the model. The C++ `int` could overflow after 2^31 component types, which is out of reach with 32 signature bits.
- Registries.Registry.SpawnEntity and Registries.Registry.KillEntity require the counter to stay within the range of `int`. The C++ code would overflow without a check.
- Registries.Registry.GetComponentFromEntity requires the type's pool to exist and to cover the entity's id. Without a pool the source dereferences a null `shared_ptr`; with a short pool it reads past the end (src/ECS/ECS.h:279-282).
- Registries.Registry.RemoveSystem and Registries.Registry.GetSystem require the type to be registered. The source erases or dereferences `end()` otherwise, which is undefined.
- Systems.System.RemoveEntityFromSystem requires exactly one entry with the id. With none, the source calls `erase(end())`, which is undefined. With more than one, it erases a single position, which can leave a matching entry behind or duplicate another entry (see Findings).
- The float position update of `MovementSystem::Update`, SDL rendering and the game loop are outside this core.

## Findings

| source | as written | input that shows it | evidently intended | confidence | as-written member | corrected member |
|---|---|---|---|---|---|---|
| src/ECS/ECS.cpp:34-36 | `erase` gets only the iterator `remove_if` returns, so exactly one position is erased: the result is the kept entries followed by the old tail past them, less its first element; it agrees with the intended removal iff exactly one entry matches | removing id 1 from `[E1, E2, E1]` leaves `[E2, E1]`; from `[E1, E1, E2]` it leaves `[E2, E2]` | every entry with the id is removed, leaving `[E2]` in both cases | high (not executed) | Systems.EraseRemoveIfKeepsDuplicate | Systems.RemoveAll |
| src/ECS/ECS.cpp:62, 82 | `KillEntity` decrements the counter that `SpawnEntity` hands ids out from | spawn, spawn, kill the first, spawn: ids 0, 1, 1 | ids are not reused while their entity lives, e.g. a counter only spawns advance | high (not executed) | Allocation.IssuedIdsReuseLiveId | Allocation.IntendedIdsDistinct |
| src/ECS/ECS.cpp:60-83 | a spawn after a kill can hand out an id that some system already lists, so a pending entity is not always invisible to the systems | a system requiring nothing; spawn e0, `Update`, kill e0, spawn: the new entity is e0, pending and listed | an entity stays out of every list until `Update`; the corrected member proves the premise of this, that a new id is none handed out before, but not the Registry invariant that every listed id was handed out before | high (not executed) | Scenarios.RespawnIsAlreadyListed | Allocation.IntendedIdIsNew |
| src/ECS/ECS.cpp:61-62 | the id is kept in a `u_int8_t`, so it wraps modulo 256 | 257 spawns without kills: the 257th gets id 0 again | the id keeps the counter's full value | medium (not executed) | Allocation.IssuedIdsWithoutKills | Allocation.IntendedIdsCount |
