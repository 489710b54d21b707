# NtshEngn ECS core in Dafny

A model of the entity/component/system runtime of `ecs/ntshengn_ecs.h`, with proofs about it:

- **`Entities.EntityManager`** hands out entity ids. It has:
  - a FIFO queue of free ids;
  - a live counter;
  - one component mask per id slot, as an array written in place;
  - the two name maps.
- **`ComponentStorage.ComponentArray`** is one component type's sparse set:
  - a dense buffer of `MAX_ENTITIES` values;
  - entity→index and index→entity maps;
  - `validSize`.

  Insertion appends and removal swaps the last element into the freed slot. Each method is proved against `Contents()`, the entity→value map the store represents, and against the dense order of entities and values.
- **`ComponentRegistry.ComponentManager`** is the type registry. It hands out consecutive ids and keeps one store per type. Each store is held by its contents, that is, by `Contents()`.
- **`Systems.SystemManager`** holds the systems. Each has an interest mask, a membership set and a log of the hooks fired on it (`onEntityComponentAdded` / `onEntityComponentRemoved` as `Added` / `Removed` events). The per-system decisions are the functions of `Interest`.
- **`Facade.ECS`** drives the three managers in the source's order. Its invariant `Consistency.Consistent` states:
  - free ids carry the empty mask;
  - only registered ids appear in masks;
  - bit *t* of an entity's mask is set iff the store of type *t* holds it;
  - every system's members are exactly the entities whose mask overlaps its interest.

  The facade also records, in the ghost field `seenByHooks`, the live ids, masks and stores as they stand when the systems are notified. This states the order of its calls as what a hook can read:
  - in `addComponent`, the hooks already see the new value in the store and the new bit;
  - in `removeComponent`, they see the cleared bit while the store still holds the value;
  - in `destroyEntity`, they see the entity live, with its mask, all its values and its name;
  - in `createEntity(name)`, they already see the name bound.

  Each `Added` / `Removed` event also records the system's own `entities` set as the hook can read it. Hooks fire before that set changes (lines 291-299 and 272-277), so a hook sees the membership from before the change.

Masks (`std::bitset<32>`) are sets of bit positions below 32. `to_ulong` is the sum of 2^i over the set bits (`ComponentMasks.ToUlong`). Component payloads are an opaque type parameter `P`. Types are named by keys: the source keys its registries by the string `typeid(T).name()`, and only the identity of that name matters.

Two behaviours of the code shape the model:
- A system's members are the entities whose mask shares *any* bit with the system's interest, not those holding *all* interest bits (lines 287-298).
- After a rename, the old name stays bound in `m_nameToEntity` (lines 86-90), so the two name maps are not inverse to each other.

## Model

| member | source | states |
|---|---|---|
| Entities.EntityManager.constructor | ecs/ntshengn_ecs.h:34-38 | the free queue is 0, 1, …, MAX_ENTITIES-1 in order, no entity is live, every mask is empty, no names |
| Entities.EntityManager.CreateEntity | ecs/ntshengn_ecs.h:40-48 | requires fewer than MAX_ENTITIES live; returns the front of the queue, pops it, and the id becomes live (it was not before); masks and names unchanged |
| Entities.EntityManager.CreateNamedEntity | ecs/ntshengn_ecs.h:50-58 | requires the name unbound; as CreateEntity, and binds name→id and id→name |
| Entities.EntityManager.DestroyEntity | ecs/ntshengn_ecs.h:60-72 | resets the mask, pushes the id to the back of the queue, the id is no longer live, and both directions of its name binding are removed |
| Entities.EntityManager.SetComponents | ecs/ntshengn_ecs.h:74-78 | exactly slot `entity` of the mask table becomes the new mask |
| Entities.EntityManager.GetComponents | ecs/ntshengn_ecs.h:80-84 | the mask stored for the id |
| Entities.EntityManager.SetEntityName | ecs/ntshengn_ecs.h:86-91 | requires the name unbound; binds it in both maps and keeps the invariant that every entity's name finds it back |
| Entities.EntityManager.GetEntityName | ecs/ntshengn_ecs.h:93-97 | requires the entity named; the name returned finds the entity back |
| Entities.EntityManager.FindEntityByName | ecs/ntshengn_ecs.h:99-103 | requires the name bound; any entity currently carrying the name is the one returned |
| Entities.BoundedSetSize | ecs/ntshengn_ecs.h:23 | a set of ids below MAX_ENTITIES has at most MAX_ENTITIES elements, so a store never outgrows its buffer |
| ComponentStorage.DenseSize | ecs/ntshengn_ecs.h:162-164 | maps that are mutually inverse over positions 0 … size-1 hold exactly `size` entities |
| ComponentStorage.AppendKeepsDense | ecs/ntshengn_ecs.h:125-129 | appending a new entity at position `size` keeps the two maps mutually inverse over 0 … size |
| ComponentStorage.AppendValues | ecs/ntshengn_ecs.h:125-129 | after the append the new entity reads the new value and every other entity its old one |
| ComponentStorage.AppendOrder | ecs/ntshengn_ecs.h:125-129 | the dense entity order gains the entity at its end |
| ComponentStorage.SwapRemoveKeepsDense | ecs/ntshengn_ecs.h:135-142 | the swap-with-last removal keeps the maps mutually inverse over 0 … size-2, also when the removed entity is the last one |
| ComponentStorage.SwapRemoveValues | ecs/ntshengn_ecs.h:135-142 | after the removal every remaining entity, the moved one included, reads the value it had |
| ComponentStorage.SwapRemoveOrder | ecs/ntshengn_ecs.h:135-142 | the removal puts the last dense entity into the freed position and drops the last position |
| ComponentStorage.ComponentArray.ContentsKeys | ecs/ntshengn_ecs.h:162-164 | the holders are the keys of the entity→index map and there are `validSize` of them |
| ComponentStorage.ComponentArray.constructor | ecs/ntshengn_ecs.h:161-165 | a new store is valid, empty and of size 0 |
| ComponentStorage.ComponentArray.InsertData | ecs/ntshengn_ecs.h:122-130 | requires the entity absent and a free slot; the entity goes to index old size, size grows by one, contents gain entity→value, and dense entities and values gain it at the end |
| ComponentStorage.ComponentArray.RemoveData | ecs/ntshengn_ecs.h:132-143 | requires the entity present; size drops by one, contents lose exactly the entity, and the last dense entity and value move into the freed index |
| ComponentStorage.ComponentArray.HasComponent | ecs/ntshengn_ecs.h:145-147 | true exactly when the store's contents hold the entity |
| ComponentStorage.ComponentArray.GetData | ecs/ntshengn_ecs.h:149-153 | requires the entity present; the value stored for it |
| ComponentStorage.ComponentArray.EntityDestroyed | ecs/ntshengn_ecs.h:155-159 | contents lose the entity; when it was absent the maps, buffer and size are all unchanged; when present it is exactly removeData: size one less, and the last dense entity and value move into the freed index |
| ComponentRegistry.ComponentManager.constructor | ecs/ntshengn_ecs.h:218-220 | no types registered and the next id is 0 |
| ComponentRegistry.ComponentManager.RegisterComponent | ecs/ntshengn_ecs.h:170-179 | requires the type unregistered (and fewer than 32 types); it gets id `nextComponent` and an empty store, and ids stay consecutive in registration order |
| ComponentRegistry.ComponentManager.GetComponentId | ecs/ntshengn_ecs.h:181-188 | requires the type registered; its id is below `nextComponent` and is its position in registration order |
| ComponentRegistry.ComponentManager.ComponentIdsDistinct | ecs/ntshengn_ecs.h:176-178 | no two registered types share an id |
| ComponentRegistry.ComponentManager.AddComponent | ecs/ntshengn_ecs.h:190-193 | requires the entity absent from the type's store; that store gains entity→value, nothing else changes |
| ComponentRegistry.ComponentManager.RemoveComponent | ecs/ntshengn_ecs.h:195-198 | requires the entity present in the type's store; that store loses it, nothing else changes |
| ComponentRegistry.ComponentManager.HasComponent | ecs/ntshengn_ecs.h:200-203 | true exactly when the type's store holds the entity |
| ComponentRegistry.ComponentManager.GetComponent | ecs/ntshengn_ecs.h:205-208 | requires the entity present; the value the type's store holds for it |
| ComponentRegistry.ComponentManager.EntityDestroyed | ecs/ntshengn_ecs.h:210-215 | afterwards no store holds the entity and every other holder keeps its value |
| ComponentMasks.ToUlongInjective | ecs/ntshengn_ecs.h:290-296 | masks with the same `to_ulong` value are the same mask |
| Interest.Classify | ecs/ntshengn_ecs.h:287-296 | the comparison reports no change exactly when the relevant bits of the two masks are equal, so its fall-through case never applies |
| Interest.OnMaskChanged | ecs/ntshengn_ecs.h:287-301 | one system's reaction to a mask change: only the entity's own membership can change, at most one hook naming the entity and the bit fires and it sees the membership from before the change, the entity joins only with an Added hook and leaves only with a Removed hook |
| Interest.RemovalEvents | ecs/ntshengn_ecs.h:269-274 | the destroy hooks for the bits below n: at most n of them (RemovalEventsSound and RemovalEventsComplete state which) |
| Interest.OnDestroyed | ecs/ntshengn_ecs.h:265-278 | one system's reaction to a destruction: only the entity can leave, nobody joins, hooks are only appended, and some hook fires exactly when the entity held a component of interest |
| Systems.InterestOf | ecs/ntshengn_ecs.h:286 | `operator[]` on the interest map (also read at line 265): the stored mask, or the default-constructed empty mask when the system has none |
| Interest.ClassifySingleBit | ecs/ntshengn_ecs.h:287-298 | for masks differing only in bit c, the unsigned comparison reports a gain iff c is of interest and was set, a loss iff c is of interest and was cleared, and no change iff c is not of interest |
| Interest.ClassifyMultiBitMisreads | ecs/ntshengn_ecs.h:290-296 | when two bits change at once the comparison can misreport: losing bit 0 while gaining bit 1 under interest {0,1} counts as a gain |
| Interest.MaskChangeKeepsMembership | ecs/ntshengn_ecs.h:282-304 | a single-bit change keeps a system's members equal to the entities whose mask overlaps its interest, and fires exactly one Added/Removed hook for c when c is of interest, none otherwise; the hook sees the old membership, so an entity about to join is not yet in it and one about to leave still is |
| Interest.DestroyKeepsMembership | ecs/ntshengn_ecs.h:265-278 | destroying the entity keeps a system's members equal to the entities whose mask overlaps its interest, the entity is in no system afterwards, and every hook fired is a Removed hook that still sees the entity among the members |
| Interest.RemovalEventsSound | ecs/ntshengn_ecs.h:269-274 | each destroy hook names the entity and a relevant bit, in strictly increasing bit order, and sees the membership as it was before the erase at line 277 |
| Interest.RemovalEventsComplete | ecs/ntshengn_ecs.h:269-274 | every relevant bit gets its destroy hook, and no hook fires iff no bit is relevant |
| Interest.ValueBelowIgnoresHigh | ecs/ntshengn_ecs.h:290 | bits above the highest set bit do not change the unsigned value |
| ComponentMasks.ToUlong | ecs/ntshengn_ecs.h:290 | `bitset::to_ulong` on a 32-bit mask: the sum of 2^i over the set bits, below 2^32 |
| ComponentMasks.ToUlongWithBit | ecs/ntshengn_ecs.h:290 | setting a clear bit c raises `to_ulong` by exactly 2^c |
| Systems.NotifyDestroyed | ecs/ntshengn_ecs.h:265-278 | the inner loop fires one Removed hook per relevant bit in increasing order and erases the entity iff some bit was relevant (OnDestroyed) |
| Systems.SystemManager.constructor | ecs/ntshengn_ecs.h:306-308 | no systems and no masks |
| Systems.SystemManager.RegisterSystem | ecs/ntshengn_ecs.h:243-250 | requires the type unregistered; the system is added and has no interest mask yet |
| Systems.SystemManager.SetComponents | ecs/ntshengn_ecs.h:252-259 | requires the system registered; the first mask set wins and later calls change nothing |
| Systems.SystemManager.EntityDestroyed | ecs/ntshengn_ecs.h:261-280 | every system reacts as OnDestroyed under its interest; every system without a mask gets the empty one |
| Systems.SystemManager.EntityComponentMaskChanged | ecs/ntshengn_ecs.h:282-304 | every system reacts as OnMaskChanged under its interest; every system without a mask gets the empty one |
| Consistency.StoreHasRoom | ecs/ntshengn_ecs.h:125-128 | a store agreeing with the masks has a free slot for any id it does not hold |
| Consistency.CreateKeeps | ecs/ntshengn_ecs.h:40-48 | a newly handed-out id has the empty mask and no store holds it, so the invariant survives |
| Consistency.AddKeeps | ecs/ntshengn_ecs.h:359-368 | storing, then setting the bit, then notifying every system restores the whole invariant |
| Consistency.RemoveKeeps | ecs/ntshengn_ecs.h:370-379 | clearing the bit and notifying, then removing from the store, restores the whole invariant |
| Consistency.DestroyKeeps | ecs/ntshengn_ecs.h:334-339 | notifying under the old mask, then resetting it, then sweeping the stores restores the invariant, and the entity is in no system |
| Consistency.RegisterComponentKeeps | ecs/ntshengn_ecs.h:354-357 | a new type's bit is set in no mask, matching its empty store |
| Consistency.RegisterSystemKeeps | ecs/ntshengn_ecs.h:397-400 | a fresh system with no interest has no members |
| Consistency.SetInterestKeeps | ecs/ntshengn_ecs.h:402-405 | a first interest that no mask overlaps keeps the membership right |
| Facade.ECS.constructor | ecs/ntshengn_ecs.h:313-317 | three fresh managers satisfying the invariant: every id queued in order, no names, no types, stores, systems or interests; the Transform key and value are the ones given |
| Facade.ECS.CreateEntity | ecs/ntshengn_ecs.h:320-325 | requires Transform registered; the next queued id becomes live with mask exactly {Transform's bit}, Transform's store gains it, every system is notified of that one bit and every system now has a stored interest; the hooks already see the new value; names and types unchanged |
| Facade.ECS.CreateNamedEntity | ecs/ntshengn_ecs.h:327-332 | as CreateEntity (store before notification, interests stored for every system), and the unbound name is bound both ways before the notification, so the hooks already see it |
| Facade.ECS.DestroyEntity | ecs/ntshengn_ecs.h:334-339 | systems are notified first, and their hooks see the entity live with its old mask, all its values and its name; then the mask is reset, the id goes to the back of the queue, its name binding is dropped both ways, every store drops the entity and no system keeps it; types unchanged; the invariant holds |
| Facade.ECS.SetEntityName | ecs/ntshengn_ecs.h:341-343 | binds the name both ways; the free queue and the live count unchanged; the invariant holds |
| Facade.ECS.GetEntityName | ecs/ntshengn_ecs.h:345-347 | the returned name finds the entity back |
| Facade.ECS.FindEntityByName | ecs/ntshengn_ecs.h:349-351 | any entity currently carrying the name is the one returned |
| Facade.ECS.RegisterComponent | ecs/ntshengn_ecs.h:354-357 | the type gets the next id and an empty store; the invariant holds |
| Facade.ECS.AddComponent | ecs/ntshengn_ecs.h:359-368 | requires a live entity not yet holding the type; the store gains it, the mask gains exactly the type's bit, every system is notified of that bit with its hooks already seeing the new value and bit, every system now has a stored interest, and masks and stores still agree |
| Facade.ECS.RemoveComponent | ecs/ntshengn_ecs.h:370-379 | requires the entity to hold the type; the mask loses exactly the type's bit, every system is notified while the store still holds the value, then the store loses it; every system now has a stored interest; the invariant holds |
| Facade.ECS.HasComponent | ecs/ntshengn_ecs.h:381-384 | true iff the type's store holds the entity, iff the type's bit is set in its mask; only live entities hold components |
| Facade.ECS.GetComponent | ecs/ntshengn_ecs.h:386-389 | the value the type's store holds for the entity |
| Facade.ECS.GetComponentId | ecs/ntshengn_ecs.h:391-394 | the registered type's id, its position in registration order |
| Facade.ECS.RegisterSystem | ecs/ntshengn_ecs.h:397-400 | a fresh system with no members and no interest is added; the invariant holds |
| Facade.ECS.SetSystemComponents | ecs/ntshengn_ecs.h:402-405 | the first interest set for a system wins, and no other system's interest changes; the invariant holds |

## Left out

- Entities.EntityManager.DestroyEntity: requires the id to be live. The source checks only `entity < MAX_ENTITIES`, so a double destroy would queue the id twice and decrement the counter past the live count.
- Facade.ECS.DestroyEntity: requires the id to be live, for the same reason.
- ComponentRegistry.ComponentManager.RegisterComponent: requires fewer than 32 registered types. The source does not bound `m_nextComponent`, and an id of 32 or more makes `bitset::set` throw at lines 365 and 375.
- Facade.ECS.RegisterComponent: requires fewer than 32 registered types, for the same reason.
- Facade.ECS.AddComponent: requires a live entity. The source also accepts a free id: it stores the value, sets the bit and may make the free id a member of systems. When the next `createEntity` hands that id out, a stray Transform trips the assertion in `insertData` (line 123). Any other stray type stays with the new entity, with its bit set.
- Facade.ECS.SetSystemComponents: when the system has no mask yet, requires that no entity's mask overlaps the new interest. The source does not fill in the members that already match, so membership would be stale.
- Facade.ECS.RegisterSystem: registers a newly constructed system, with no members and no hooks fired. The source takes a `System*` from the caller.
- Facade.ECS.CreateEntity: requires the Transform type to be registered. That registration happens outside this file.
- ComponentRegistry.ComponentManager: holds each store by its contents, the map `ComponentArray.Contents()` represents, not as a shared `ComponentArray` object. `ComponentArray` models the dense layout. The contracts of its `InsertData`, `RemoveData` and `EntityDestroyed` state on `Contents()` the same map updates that the manager's `AddComponent`, `RemoveComponent` and `EntityDestroyed` state on its stores, but no lemma joins the two. The manager also does not capture the layout of each store, the sharing of stores through `shared_ptr`, and the `static_pointer_cast` type erasure.
- ComponentStorage.ComponentArray: the `std::array` buffer is a sequence field, updated one slot at a time.
- The `System*` objects become value records inside the system manager, holding their `entities` set and the hooks fired on them. The bodies of user hooks are not modelled; they are assumed not to call back into the ECS. What a hook can read of its own `entities` set is recorded in each event (`seen`).
- `getData` / `getComponent` (lines 149-153, 205-208, 386-389) return a reference (`T&`) into the buffer, through which callers may write the stored value. The model returns a copy. It does not model what a reference held across a `removeData` reads afterwards: after the swap at line 136 it reads the value of the entity moved into that slot.
- Iteration order of `unordered_map` over systems and stores is unspecified. Properties are stated per system and per store.
- Type keys are numbers, each standing for one type's `typeid(T).name()` string. RTTI and the string itself are not modelled.
- Per-tick iteration over `System::entities`, and the payload types of `components/ntshengn_ecs_*.h` (treated as the opaque `P`, with `Transform{}` a constant of the ECS), are not part of this model.
- The `NTSHENGN_ASSERT` macro (`utils/ntshengn_defines.h`) is not part of this model. Each assertion is a precondition.
- Widths of the source's integers (`uint32_t` entities, `uint8_t` ids, `size_t` sizes) are not modelled, because every value stays below 4096.
