# ecs::Registry in Dafny

A model of `ecs::Registry` from `ecs.hpp`, a small fixed-capacity
entity-component system, with proofs about that model. The registry keeps:

- an entity table in which two chains are threaded: a free list headed by
  `m_first_available_entity_slot` and linked through `m_id_or_next_empty`,
  and a chain of valid entities linked through `m_next_valid_entity`;
- one signature (a 64-bit bitset of type slots) per entity;
- a type-slot table (`m_bit_to_component`) with a holder count
  (`m_components_assigned`) and a component array (`m_component_arrays`)
  for each slot;
- a cache of views, keyed by an id drawn from `m_view_count`, each with a
  signature and a member set that is updated whenever an entity's
  signature changes.

The project has two layers.

- `RegistryModel` (`registry_model.dfy`) is the specification. It has a
  value `State` with one field per member of the class, the invariant
  `Valid`, and one transition function per operation. Each operation keeps
  the source's branches, and its error paths return `Fail`/`Err`. Those
  error paths include the updates the C++ code has already made when an
  `at()` throws.
- `Ecs.Registry` (`registry.dfy`) is a class over arrays and maps. It has
  the source's loops, with their invariants:
  - the do-while walk of the free list,
  - the scan of the valid chain in `create_view`,
  - the per-view loop of `on_entity_signature_change`,
  - the slot searches,
  - the deep copy of the component arrays.

  Each public method is proved to move the abstract state `Abs()` exactly
  as the matching `RegistryModel` function does, and to keep `Valid()`.

The lemma modules prove what the registry promises (and what it fails to
promise) about those functions:

- `RegistryInvariant`: every operation keeps the invariant.
- `AllocatorLemmas`: entity ids.
- `ComponentLemmas`: type slots and component data.
- `ViewLemmas`: views.
- `ViewCoverage`: the members-cover-the-view-signature invariant.
- `ViewIds`: view ids are never reused, through any sequence of operations.

Quirks of the code are modelled as written:

- `create_entity` fills in a local copy of the entity, so only the
  predecessor's valid link is written.
- `destroy_entity` loses the free-list link. It writes that link into a local
  copy and indexes `entity - 1` and `entity + 1`. It also does not notify
  the views.
- `get` does not check the signature bit.
- `assign` counts a holder again when a value is overwritten.
- The copy constructor does not copy the holder counts.

The model follows the code in these places, where the header's doc comments
(ecs.hpp:86-233) are silent or say otherwise:

- `get` of a type the entity does not hold returns the stored value. It
  fails only for an unregistered type, or with `OutOfRange` for an entity
  index of N or more (the `at` of ecs.hpp:222).
- For `destroy_entity`:
  - it neither clears the entity from the views nor keeps them consistent;
  - destroying entity 0 throws after the free list was already changed,
    so the failure leaves a partial update;
  - destroying entity N-1 throws as well. When it is below the head (the
    table is full) it is first pushed on the free list, so that failure
    also leaves a partial update. Otherwise the walk stops at N, where
    `m_entities.at(i)` (ecs.hpp:127) throws before any write, or at N-1
    itself when it is free, whose link is then copied onto itself; either
    way nothing changes.
- Creating more entities or types than the capacity throws
  `std::out_of_range`, modelled as `OutOfRange`. There is no separate
  "capacity exceeded" error.
- `get_entities` of an unknown view throws `OutOfRange`, from `at`, and not
  "unknown view".
- A copy is independent of the original: the copy constructor's arrays are
  all fresh. But its holder counts start at zero, so it does not behave
  like the original once types are removed.

## Model

| member | source | states |
|---|---|---|
| Ecs.Registry.constructor | ecs.hpp:49-52 | the new registry's abstract state is `Init()`: slot i links to i + 1, the head is 0, no types and no views; the invariant holds |
| Ecs.Registry.Copy | ecs.hpp:56-69 | the copy's state is the original's with every holder count zero; every array of the copy, including each component array, is freshly allocated, so no write through the copy reaches the original |
| Ecs.Registry.CopyComponentArrays | ecs.hpp:64-68 | the loop gives a fresh, pairwise distinct array for exactly the non-null slots, with the original's contents |
| Ecs.Registry.CreateEntity | ecs.hpp:93-107 | returns and does what `RegistryModel.CreateEntity` describes and keeps the invariant |
| Ecs.Registry.WalkFreeList | ecs.hpp:120-125 | the do-while loop stops at the first free link, reached in one or more steps from the head, that is not below `entity`, and returns a copy of a slot entry (the last one the loop read) whose link is where it stopped |
| Ecs.Registry.InsertFree | ecs.hpp:115-129 | the free-list part of `destroy_entity`: succeeds exactly when the model's insertion does, with the same new table and head |
| Ecs.Registry.UnlinkValid | ecs.hpp:130-133 | the valid-chain and signature part of `destroy_entity`, including the throws at `entity + 1` and `entity - 1` |
| Ecs.Registry.DestroyEntity | ecs.hpp:114-134 | returns and does what `RegistryModel.DestroyEntity` describes and keeps the invariant |
| Ecs.Registry.CreateView | ecs.hpp:141-158 | returns and does what `RegistryModel.CreateView` describes and keeps the invariant |
| Ecs.Registry.FindView | ecs.hpp:145-147 | finds a live view with the given signature exactly when one exists |
| Ecs.Registry.CollectViewMembers | ecs.hpp:152-155 | the chain scan collects exactly `ViewMembers`, the covering entities on the valid chain from slot 0 |
| Ecs.Registry.DestroyView | ecs.hpp:165-171 | returns and does what `RegistryModel.DestroyView` describes and keeps the invariant |
| Ecs.Registry.Assign | ecs.hpp:180-190 | returns and does what `RegistryModel.Assign` describes and keeps the invariant |
| Ecs.Registry.Remove | ecs.hpp:199-211 | returns and does what `RegistryModel.Remove` describes and keeps the invariant |
| Ecs.Registry.Get | ecs.hpp:220-223 | fails exactly when `RegistryModel.Get` does, with its error; otherwise returns a reference to the entity's cell in the type's own array, holding the model's value |
| Ecs.Registry.GetEntities | ecs.hpp:231-233 | returns `RegistryModel.GetEntities` |
| Ecs.Registry.OnEntitySignatureChange | ecs.hpp:248-259 | the per-view loop gives exactly the membership `RegistryModel.OnEntitySignatureChange` describes |
| Ecs.Registry.HasComponentBit | ecs.hpp:261-268 | true exactly when some slot holds the type |
| Ecs.Registry.FirstFreeSlot | ecs.hpp:271-273 | the search stops at the lowest slot whose entry is 0 |
| Ecs.Registry.CreateComponentBit | ecs.hpp:270-277 | returns and does what `RegistryModel.CreateComponentBit` describes |
| Ecs.Registry.GetComponentBit | ecs.hpp:280-287 | returns `RegistryModel.GetComponentBit` |
| Ecs.Registry.SetComponentBits | ecs.hpp:290-302 | returns `RegistryModel.SetComponentBits` for a non-empty type list |
| EcsTypes.Covers | ecs.hpp:254 | the bitset test `(entity & view) == view`, as set inclusion of the view's slots in the entity's |
| EcsTypes.Wrap32 | ecs.hpp:243 | `uint32_t` arithmetic: the result is below 2^32, equals its argument in range, and takes -1 to 2^32 - 1 |
| RegistryModel.Valid | ecs.hpp:236-244 | the invariant of the members: both chains of links point forward within the table, the head is at most N, signatures lie in the bitset, a slot owns an array exactly when claimed, free slots count no holders, counts fit in `uint32_t`, no type holds two slots, and live views have issued ids, in-range members and distinct signatures |
| RegistryModel.MembersCovered | ecs.hpp:136-141 | the promise of a view: every member's signature covers the view's |
| RegistryModel.FreeList | ecs.hpp:236-238 | the slots reachable from `m_first_available_entity_slot` along free links |
| RegistryModel.Init | ecs.hpp:49-52 | the state after `Registry()`: slot i links to i + 1, the head and the view counter are 0, every signature is empty, no slot is claimed and no view exists (proved valid by `RegistryInvariant.InitValid`) |
| RegistryModel.Copy | ecs.hpp:56-69 | the state of `Registry(const Registry&)`: the original's state with every holder count zero (see `ComponentLemmas.CopySpec`) |
| RegistryModel.CreateEntity | ecs.hpp:93-107 | the transition of `create_entity`, whose contract is `AllocatorLemmas.CreateEntitySpec` |
| RegistryModel.InsertFree | ecs.hpp:115-129 | the free-list half of `destroy_entity`: a slot below the head becomes the head; otherwise the walk's end gives the slot's link, the predecessor's link is lost, and a walk off the table throws |
| RegistryModel.UnlinkValid | ecs.hpp:130-133 | the valid-link half of `destroy_entity`: throws at slot N - 1 before any write and at slot 0 after the first write; otherwise relinks both neighbours and clears the signature |
| RegistryModel.DestroyEntity | ecs.hpp:114-134 | the transition of `destroy_entity`, whose contract is `AllocatorLemmas.DestroyEntityOutcome` |
| RegistryModel.HasComponentBit | ecs.hpp:261-268 | whether some slot holds the type (the loop is `Ecs.Registry.HasComponentBit`) |
| RegistryModel.SetComponentBits | ecs.hpp:290-302 | the signature of a type list, throwing at its first unregistered type; its contract is `ComponentLemmas.SetComponentBitsSpec` |
| RegistryModel.OnEntitySignatureChange | ecs.hpp:248-259 | the transition that notifies the views; its contract is `ViewLemmas.SignatureChangeSpec` |
| RegistryModel.CoveringOnChain | ecs.hpp:152-155 | the covering entities the scan meets from slot k; its contract is `ViewLemmas.CoveringOnChainSpec` |
| RegistryModel.ViewMembers | ecs.hpp:152-155 | a new view's members: the scan from slot 0 |
| RegistryModel.HasViewWith | ecs.hpp:145-147 | whether a live view already has the signature |
| RegistryModel.CreateView | ecs.hpp:141-158 | the transition of `create_view`, whose contract is `ViewLemmas.CreateViewSpec` |
| RegistryModel.DestroyView | ecs.hpp:165-171 | the transition of `destroy_view`, whose contract is `ViewLemmas.DestroyViewSpec` |
| RegistryModel.GetEntities | ecs.hpp:231-233 | the members of a live view, or `OutOfRange`; its contract is `ViewLemmas.GetEntitiesSpec` |
| RegistryModel.CountHolder | ecs.hpp:183 | the pre-increment of one holder count, wrapping modulo 2^32 |
| RegistryModel.StoreComponent | ecs.hpp:185-186 | the write of `data` into the entity's cell of the slot's array |
| RegistryModel.SetBit | ecs.hpp:188 | the entity's signature gains the slot's bit |
| RegistryModel.Assign | ecs.hpp:180-190 | the transition of `assign`, whose contracts are `ComponentLemmas.AssignOutcome` and `ComponentLemmas.AssignSpec` |
| RegistryModel.ReleaseSlot | ecs.hpp:205-208 | the pre-decrement of the holder count, wrapping modulo 2^32; at zero the slot is freed and its array dropped |
| RegistryModel.ResetBit | ecs.hpp:209 | the entity's signature loses the slot's bit |
| RegistryModel.Remove | ecs.hpp:199-211 | the transition of `remove`, whose contracts are `ComponentLemmas.RemoveOutcome` and `ComponentLemmas.RemoveSpec` |
| RegistryModel.Get | ecs.hpp:220-223 | the value `get` reads, or its error; its contract is `ComponentLemmas.GetOutcome` |
| Ecs.CloneArray | ecs.hpp:41-43 | `ComponentArray::copy`: a fresh array with the same contents |
| Ecs.Registry.CloneTables | ecs.hpp:57-63 | the member-wise copies of the copy constructor: fresh tables with the original's contents, holder counts all zero, and fresh component arrays with the original's contents |
| Ecs.Registry.InstallSlot | ecs.hpp:274-275 | records the type in the slot and gives the slot a fresh array of value-initialised components; nothing else in the state changes |
| Ecs.Registry.CacheView | ecs.hpp:145-157 | for a type list with a signature, returns and does exactly what `RegistryModel.CreateView` describes |
| Ecs.Registry.RegisterView | ecs.hpp:149-157 | issues the current counter as the new id, caches the signature and the scanned members under it, and advances the counter; nothing else changes |
| Ecs.Registry.ResolveSlot | ecs.hpp:181-182 | returns and does what `RegistryModel.ResolveSlot` describes |
| Ecs.Registry.ClaimSlot | ecs.hpp:181-183 | returns and does what `RegistryModel.ClaimSlot` describes |
| Ecs.Registry.CountHolder | ecs.hpp:183 | does what `RegistryModel.CountHolder` describes |
| Ecs.Registry.StoreComponent | ecs.hpp:185-186 | does what `RegistryModel.StoreComponent` describes |
| Ecs.Registry.SetBit | ecs.hpp:188 | does what `RegistryModel.SetBit` describes |
| Ecs.Registry.ReleaseSlot | ecs.hpp:205-208 | does what `RegistryModel.ReleaseSlot` describes |
| Ecs.Registry.FreeSlot | ecs.hpp:206-207 | clears the slot's entry and drops its array; nothing else in the state changes |
| Ecs.Registry.ResetBit | ecs.hpp:209 | does what `RegistryModel.ResetBit` describes |
| RegistryModel.FreeChain | ecs.hpp:116-128 | the slots reached from k along free links lie in [k, N) and include k whenever k < N |
| RegistryModel.ValidChain | ecs.hpp:152-153 | the slots reached from k along valid links lie in [k, N) and include k whenever k < N |
| RegistryModel.WalkFreeList | ecs.hpp:120-125 | the walk ends strictly past its start, not below `entity`, and at most at N |
| RegistryModel.FirstIndexOf | ecs.hpp:263-265 | the first index at or after `from` holding `x`, or the length when no such index exists |
| RegistryModel.GetComponentBit | ecs.hpp:280-287 | succeeds exactly for a registered type, and then returns the lowest slot holding it |
| RegistryModel.CreateComponentBit | ecs.hpp:270-277 | a claimed slot lies below 64, and only the slot table and the component arrays change |
| RegistryModel.ResolveSlot | ecs.hpp:181-182 | a resolved slot lies below 64, and only the slot table and the component arrays change |
| RegistryModel.ClaimSlot | ecs.hpp:181-183 | a claimed slot owns a component array of capacity length, and nothing but the slot table, the holder counts and the arrays changes |
| RegistryInvariant.InitValid | ecs.hpp:49-52 | the fresh registry satisfies the invariant |
| RegistryInvariant.CopyValid | ecs.hpp:56-69 | the copy satisfies the invariant |
| RegistryInvariant.CreateEntityKeepsValid | ecs.hpp:93-107 | `create_entity` keeps the invariant |
| RegistryInvariant.DestroyEntityKeepsValid | ecs.hpp:114-134 | `destroy_entity` keeps the invariant, also when it throws part-way |
| RegistryInvariant.AssignKeepsValid | ecs.hpp:180-190 | `assign` keeps the invariant |
| RegistryInvariant.RemoveKeepsValid | ecs.hpp:199-211 | `remove` keeps the invariant |
| RegistryInvariant.CreateViewKeepsValid | ecs.hpp:141-158 | `create_view` keeps the invariant; in particular no two live views share a signature |
| RegistryInvariant.DestroyViewKeepsValid | ecs.hpp:165-171 | `destroy_view` keeps the invariant |
| RegistryInvariant.InsertFreeKeepsValid | ecs.hpp:115-129 | the free-list half of `destroy_entity` keeps the invariant when it completes |
| RegistryInvariant.UnlinkValidKeepsValid | ecs.hpp:130-133 | the valid-link half of `destroy_entity` keeps the invariant, also when it throws |
| RegistryInvariant.CreateComponentBitKeepsValid | ecs.hpp:270-277 | claiming a slot for an unregistered type keeps the invariant |
| RegistryInvariant.ClaimSlotKeepsValid | ecs.hpp:181-183 | resolving and counting the slot keeps the invariant |
| RegistryInvariant.StoreAndSetKeepValid | ecs.hpp:185-188 | writing the value and setting the bit keep the invariant |
| RegistryInvariant.CoveringOnChainInRange | ecs.hpp:152-155 | the scan's members are entity ids |
| RegistryInvariant.SignatureChangeKeepsValid | ecs.hpp:248-259 | notifying the views keeps the invariant |
| AllocatorLemmas.CreateEntitySpec | ecs.hpp:93-107 | `create_entity` succeeds exactly when the head is below N. It returns the head, which was free, and removes exactly that slot from the free list. The new head is the head's stored link. Only the predecessor's valid link changes. At capacity it throws and nothing changes |
| AllocatorLemmas.CreateMany | ecs.hpp:93-107 | n calls of `create_entity` in a row give n results and keep the invariant |
| AllocatorLemmas.CreateEntityIssuesNext | ecs.hpp:93-107 | on a table where the first n ids were issued in order, `create_entity` returns n and extends the pattern to n + 1 |
| AllocatorLemmas.FreshRegistryIssuesInOrder | ecs.hpp:49-52 | n calls on a fresh registry return 0, 1, ..., n - 1 |
| AllocatorLemmas.IssuesInOrderFrom | ecs.hpp:93-107 | from a table where no id was issued yet (each slot linking to the next), n calls return 0, 1, ..., n - 1 in order |
| AllocatorLemmas.FreshRegistryExhausted | ecs.hpp:94-96 | after all N ids were issued, the next call throws and changes nothing |
| AllocatorLemmas.IssuedChains | ecs.hpp:93-107 | after the first n ids the free list is exactly [n, N); the valid chain from 0 is exactly [0, n) when n > 0, and {0} (slot 0 alone) when n = 0 |
| AllocatorLemmas.DestroyEntityOutcome | ecs.hpp:114-134 | `destroy_entity` succeeds exactly for the slots strictly between 0 and N - 1 whose free-list insertion succeeds. A success resets the signature to empty and leaves the views untouched. A failure is `OutOfRange` and keeps every signature |
| AllocatorLemmas.DestroyBelowHeadIsReissued | ecs.hpp:116-118 | a slot destroyed below the head becomes the head, in front of the old free list; the next `create_entity` returns it and restores the old head |
| AllocatorLemmas.DestroyAboveHeadLeaks | ecs.hpp:119-129 | a live entity at or above the head does not go back on the free list (the link goes to a local copy): the head and the free list are unchanged, the next `create_entity` skips the id, and so does every run of n `create_entity` calls; only another `destroy_entity` can bring it back |
| AllocatorLemmas.CreateManyAvoids | ecs.hpp:93-107 | an id off the free list is issued by no call of a run of `create_entity` calls, and stays off the free list |
| AllocatorLemmas.DestroyLastThrows | ecs.hpp:119-130 | destroying slot N - 1 always throws `OutOfRange`; when the slot is at or above the head the registry is left unchanged |
| AllocatorLemmas.DestroyFreeHeadDropsSuccessor | ecs.hpp:119-129 | destroying the (free) head drops the head's successor from the free list |
| AllocatorLemmas.DestroyFirstReissuedWithOldSignature | ecs.hpp:116-133 | destroying entity 0 throws but leaves 0 at the head, so the next `create_entity` issues 0 with the old signature |
| AllocatorLemmas.PrevValidStaysZero | ecs.hpp:99-105 | every `prevValid` link is 0 in a fresh registry and stays 0 under `create_entity` and `destroy_entity` |
| AllocatorLemmas.DestroyLeavesStaleMembers | ecs.hpp:133 | a destroyed member of a view with a nonempty signature stays a member, so the members-cover invariant is broken |
| ComponentLemmas.GetComponentBitSpec | ecs.hpp:280-287 | the lookup succeeds exactly for a registered type, whose slot is unique, and otherwise throws "unregistered" |
| ComponentLemmas.CreateComponentBitSpec | ecs.hpp:270-277 | claims the lowest free slot, which then resolves to the type, and gives it an array holding the value-initialised component for every entity. Other slots are unchanged. With no free slot it throws `OutOfRange` and changes nothing |
| ComponentLemmas.SetComponentBitsSpec | ecs.hpp:290-302 | the signature of a type list succeeds exactly when every type is registered; it then holds exactly their slots |
| ComponentLemmas.AssignOutcome | ecs.hpp:180-190 | `assign` completes exactly for an entity in range when the type is registered or a slot is free. With no free slot it throws and changes nothing. An out-of-range entity throws after the slot was claimed and counted |
| ComponentLemmas.ClaimSlotSpec | ecs.hpp:181-183 | the type's old slot or a newly claimed one, with its holder count one higher; every other slot keeps its entry, count and array, and nothing outside the slot table changes |
| ComponentLemmas.AssignSpec | ecs.hpp:180-190 | afterwards `get` returns `data` and the entity holds the bit. No other signature changes. The count is one higher. The other entities' values stay, or are value-initialised in a new slot. Every other slot keeps its entry, count and array. The entity is a member of a view exactly when its new signature covers the view's, other members stay, and only the signatures, the slot table, the counts, the arrays and view membership change |
| ComponentLemmas.AssignReadsBack | ecs.hpp:180-190 | after a completed `assign`, `get` returns `data`, the entity holds the bit and no other signature changes; the count is one higher, and other entities' values stay or are value-initialised in a new slot |
| ComponentLemmas.AssignKeepsOtherSlots | ecs.hpp:180-190 | a completed `assign` leaves every slot but its own with the same entry, holder count and array |
| ComponentLemmas.AssignSyncsViews | ecs.hpp:183-189 | a completed `assign` changes only the signatures, the slot table, the counts, the arrays and view membership; the views keep their keys, the entity is a member exactly when its new signature covers the view's, and every other member stays |
| ComponentLemmas.ReassignKeepsSignatures | ecs.hpp:183-188 | re-assigning a held type overwrites the value and keeps every signature, yet still raises the count |
| ComponentLemmas.AssignKeepsOtherTypes | ecs.hpp:180-190 | another registered type keeps its slot and all its values |
| ComponentLemmas.AssignKeepsSlot | ecs.hpp:180-190 | a slot held by another type keeps its entry and its whole array through `assign` |
| ComponentLemmas.AssignTwiceThenRemove | ecs.hpp:180-211 | two assigns of one type to one entity count two holders, so one remove leaves the slot registered with a count of 1 |
| ComponentLemmas.RemoveOutcome | ecs.hpp:199-204 | `remove` completes exactly when the type is registered, the entity is in range and it holds the bit. Otherwise it throws and changes nothing |
| ComponentLemmas.RemoveSpec | ecs.hpp:205-210 | clears the bit and the count drops by one. At zero the slot's entry becomes 0 and its array is dropped, so the type is unregistered and `get` throws for every entity; otherwise the slot and every stored value remain. Other slots are unchanged. The entity is a member of a view exactly when its new signature covers the view's, other members stay, and only the signatures, the slot table, the counts, the arrays and view membership change |
| ComponentLemmas.RemoveSyncsViews | ecs.hpp:205-210 | a completed `remove` changes only the signatures, the slot table, the counts, the arrays and view membership; the views keep their keys, the entity is a member exactly when its new signature covers the view's, and every other member stays |
| ComponentLemmas.FreedSlotIsReused | ecs.hpp:205-277 | after the last holder is removed, a new type claims the same slot, provided every lower slot is taken (otherwise `create_component_bit` picks a lower free one), with a fresh array of value-initialised components |
| ComponentLemmas.RemoveOnCopyWraps | ecs.hpp:56-211 | on a copy the first remove wraps the count to 2^32 - 1, and the slot stays claimed |
| ComponentLemmas.GetOutcome | ecs.hpp:220-223 | `get` succeeds exactly for a registered type and an entity in range, and reads that entity's cell |
| ComponentLemmas.GetIgnoresBit | ecs.hpp:220-223 | after a remove that leaves other holders, `get` still returns the removed entity's value |
| ComponentLemmas.CopySpec | ecs.hpp:56-69 | the copy has all counts zero and agrees with the original on `get`, `get_entities`, the free list and `create_entity`; nothing else differs |
| ViewLemmas.CreateViewReturnsExisting | ecs.hpp:145-147 | an already-cached signature returns that view and changes nothing |
| ViewLemmas.CreateViewIssuesNextId | ecs.hpp:149-157 | a new signature gets id `m_view_count`, whose members are found by the chain scan; the counter goes up |
| ViewLemmas.CreateViewSpec | ecs.hpp:141-158 | fails exactly when a type is unregistered, with no change. The returned view is live with the requested signature: an existing one (no change) or a never-live new id whose members are exactly the covering entities on the valid chain. Other views are kept and the counter never decreases |
| ViewLemmas.CoveringOnChainSpec | ecs.hpp:152-155 | the scan finds exactly the entities on the valid chain whose signature covers the view's |
| ViewLemmas.CreateViewIdempotent | ecs.hpp:145-147 | asking for the same view twice returns the same id and changes nothing the second time |
| ViewLemmas.SetComponentBitsSameTable | ecs.hpp:290-302 | the signature of a type list depends only on the slot table |
| ViewLemmas.SignatureChangeSpec | ecs.hpp:248-259 | afterwards the entity is a member of a view exactly when its signature covers the view's. Other members, view signatures and the rest of the state are unchanged |
| ViewLemmas.DestroyViewSpec | ecs.hpp:165-171 | succeeds exactly for a live view. Afterwards `get_entities` and a second destroy of it fail, other views are kept and the counter is unchanged. An unknown id throws with no change |
| ViewLemmas.GetEntitiesSpec | ecs.hpp:231-233 | answers exactly for live views, with in-range members, and otherwise throws `OutOfRange` |
| ViewLemmas.DestroyedViewIdNotReissued | ecs.hpp:157-171 | a destroyed view id is not returned by the next `create_view`, whatever its types |
| ViewIds.Retired | ecs.hpp:157-171 | an id below `m_view_count` that is no longer a live view |
| ViewIds.DestroyViewRetires | ecs.hpp:165-171 | destroying a live view retires its id: it is below the counter and no longer live |
| ViewIds.CreateViewAvoidsRetired | ecs.hpp:141-158 | `create_view` never returns a retired id, and the id stays retired |
| ViewIds.AssignKeepsViewIds | ecs.hpp:180-190 | `assign`, completed or thrown, leaves the view signatures and the counter unchanged |
| ViewIds.RemoveKeepsViewIds | ecs.hpp:199-211 | `remove`, completed or thrown, leaves the view signatures and the counter unchanged |
| ViewIds.ApplyKeepsRetired | ecs.hpp:56-211 | every state-changing operation (`create_entity`, `destroy_entity`, `assign`, `remove`, `create_view`, `destroy_view`, the copy constructor), completed or thrown, keeps a retired id retired |
| ViewIds.Apply | ecs.hpp:56-211 | the state after one state-changing operation, completed or thrown; it keeps the invariant |
| ViewIds.Run | ecs.hpp:56-211 | the state after a sequence of such operations; it keeps the invariant |
| ViewIds.RunKeepsRetired | ecs.hpp:56-211 | a retired id stays retired through any sequence of those operations |
| ViewIds.DestroyedViewIdNeverReissued | ecs.hpp:141-171 | after a view is destroyed, no `create_view` after any sequence of operations returns its id |
| ViewCoverage.InitCovered | ecs.hpp:49-52 | a fresh registry satisfies the members-cover invariant |
| ViewCoverage.SignatureChangeRestoresCover | ecs.hpp:248-259 | notifying the views restores the invariant when only that entity could break it |
| ViewCoverage.CreateViewKeepsCovered | ecs.hpp:152-155 | `create_view` keeps the members-cover invariant |
| ViewCoverage.DestroyViewKeepsCovered | ecs.hpp:165-171 | `destroy_view` keeps it |
| ViewCoverage.CreateEntityKeepsCovered | ecs.hpp:93-107 | `create_entity` keeps it |
| ViewCoverage.CopyKeepsCovered | ecs.hpp:56-69 | the copy constructor keeps it |
| ViewCoverage.AssignKeepsCovered | ecs.hpp:188-189 | `assign` keeps it |
| ViewCoverage.StoreAndSetKeepsCovered | ecs.hpp:185-189 | writing the value, setting the bit and notifying the views keep the invariant and the members-cover promise |
| ViewCoverage.RemoveKeepsCovered | ecs.hpp:209-210 | `remove` keeps it |

## Left out

- The move constructor and the two assignment operators (ecs.hpp:71-84) are left out. They chain into each other, and move-assignment swaps only seven of the nine members.
- The destructor (ecs.hpp:54) is left out: memory is managed by Dafny.
- Type erasure is left out: `typeid(T).hash_code()`, `IComponentArray`, `unique_ptr` and `static_cast` (ecs.hpp:33-45). A component type is a nonzero token `TypeId`. All component arrays hold one value type `V`. The value-initialised component `T{}` is the constructor parameter `zero`.
- The variadic recursion of `set_component_bits` is modelled as a fold over a sequence of type tokens. Its compile-time rule that the list is non-empty becomes a precondition of the class method.
- Exception types and messages are left out. They become the error kinds of `EcsTypes.Error`.
- `unordered_map`/`unordered_set` iteration order is left out. Views are finite maps and sets, and the per-view loop is proved to give the same map whatever order is used.
- The `uint16_t` width of the valid links and the `uint32_t` width of the head and entity ids are left out. Under the invariant every such value stays within 0 .. 65535, except that an id `entity + 1` or `entity - 1` leaving the table is modelled as the `at()` that throws.
- `m_view_count` is an unbounded counter. Its wrap after 2^32 views is not modelled. Holder counts do wrap modulo 2^32.
- `AllocatorLemmas.DestroyAboveHeadLeaks`: the lost id is shown to stay unissued through runs of `create_entity` calls only. That another `destroy_entity` of it (below the head) re-links it is `DestroyBelowHeadIsReissued`; runs mixing other operations are not covered.
- `example.cpp`, the demo driver, is not part of this model.
- `Ecs.Registry.Get`: returns a reference (array and index) instead of a C++ `T&`. Writes through it are ordinary array writes and are not modelled as a registry operation.
