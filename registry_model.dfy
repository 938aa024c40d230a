/**
 * A value-level model of `ecs::Registry`: a snapshot `State` of every member
 * variable, the invariant `Valid` that the constructors establish and every
 * operation keeps (proved in `RegistryInvariant`), and one transition function
 * per operation. Each function requires only what its own evaluation needs;
 * the class `Ecs.Registry` is proved to follow these functions step by step,
 * and the lemma modules prove what they promise.
 */
module RegistryModel {
  import opened EcsTypes

  /**
   * A snapshot of the registry. `components` maps each type slot that owns a
   * component array to that array's contents (a null `unique_ptr` is a
   * missing key).
   */
  datatype State<V> = State(
    entities: seq<Entity>,                   // m_entities
    firstAvailable: nat,                     // m_first_available_entity_slot
    viewCount: nat,                          // m_view_count
    signatures: seq<Signature>,              // m_entity_signatures
    viewEntities: map<nat, set<EntityId>>,   // m_view_entities
    viewSignatures: map<nat, Signature>,     // m_view_signatures
    bitToComponent: seq<nat>,                // m_bit_to_component
    componentsAssigned: seq<nat>,            // m_components_assigned
    components: map<nat, seq<V>>)            // m_component_arrays

  // ---------------------------------------------------------------------
  // The invariant
  // ---------------------------------------------------------------------

  /** Free-list links always point strictly forward and never past the end. */
  ghost predicate FreeLinksForward(entities: seq<Entity>) {
    |entities| == MaxEntityCount &&
    forall k :: 0 <= k < MaxEntityCount ==>
      k < entities[k].idOrNextEmpty <= MaxEntityCount
  }

  /** Valid-entity links always point strictly forward and never past the end. */
  ghost predicate ValidLinksForward(entities: seq<Entity>) {
    |entities| == MaxEntityCount &&
    forall k :: 0 <= k < MaxEntityCount ==>
      k < entities[k].nextValid <= MaxEntityCount
  }

  /** Every signature lies inside the bitset. */
  ghost predicate SignaturesValid(signatures: seq<Signature>) {
    |signatures| == MaxEntityCount &&
    forall k :: 0 <= k < MaxEntityCount ==> SlotBits(signatures[k])
  }

  /**
   * The type-slot table: a slot owns a component array exactly when it is
   * claimed (nonzero entry), a free slot has holder count 0, every holder
   * count fits in a `uint32_t`, and no type occupies two slots.
   */
  ghost predicate SlotTableValid<V>(bitToComponent: seq<nat>, componentsAssigned: seq<nat>,
                                    components: map<nat, seq<V>>) {
    && |bitToComponent| == MaxComponentCount
    && |componentsAssigned| == MaxComponentCount
    && (forall b :: b in components ==> b < MaxComponentCount && |components[b]| == MaxEntityCount)
    && (forall b :: 0 <= b < MaxComponentCount ==> (b in components <==> bitToComponent[b] != 0))
    && (forall b :: 0 <= b < MaxComponentCount && bitToComponent[b] == 0 ==> componentsAssigned[b] == 0)
    && (forall b :: 0 <= b < MaxComponentCount ==> componentsAssigned[b] < Uint32Modulus)
    && (forall b, c :: 0 <= b < c < MaxComponentCount && bitToComponent[b] != 0 ==>
          bitToComponent[b] != bitToComponent[c])
  }

  /**
   * The view cache: both maps have the same keys, every key was issued
   * before (below `viewCount`), members are entity ids, and no two live views
   * share a signature.
   */
  ghost predicate ViewsValid(viewCount: nat, viewEntities: map<nat, set<EntityId>>,
                             viewSignatures: map<nat, Signature>) {
    && viewEntities.Keys == viewSignatures.Keys
    && (forall v :: v in viewSignatures ==> v < viewCount)
    && (forall v, e :: v in viewEntities && e in viewEntities[v] ==> e < MaxEntityCount)
    && (forall v, w :: v in viewSignatures && w in viewSignatures && v != w ==>
          viewSignatures[v] != viewSignatures[w])
  }

  ghost predicate Valid<V>(s: State<V>) {
    && FreeLinksForward(s.entities)
    && ValidLinksForward(s.entities)
    && s.firstAvailable <= MaxEntityCount
    && SignaturesValid(s.signatures)
    && SlotTableValid(s.bitToComponent, s.componentsAssigned, s.components)
    && ViewsValid(s.viewCount, s.viewEntities, s.viewSignatures)
  }

  /**
   * The property the views are meant to keep: every member of every view
   * has a signature that covers the view's signature.
   */
  ghost predicate MembersCovered<V>(s: State<V>)
    requires Valid(s)
  {
    forall v, e :: v in s.viewEntities && e in s.viewEntities[v] ==>
      Covers(s.signatures[e], s.viewSignatures[v])
  }

  // ---------------------------------------------------------------------
  // The two chains through the entity table
  // ---------------------------------------------------------------------

  /** The slots reached from `k` by following free-list links. */
  ghost function FreeChain(entities: seq<Entity>, k: nat): (r: set<EntityId>)
    requires FreeLinksForward(entities)
    ensures forall e :: e in r ==> k <= e < MaxEntityCount
    ensures k < MaxEntityCount <==> k in r
    decreases MaxEntityCount - k
  {
    if k >= MaxEntityCount then {} else {k} + FreeChain(entities, entities[k].idOrNextEmpty)
  }

  /** The slots reached from `k` by following valid-entity links. */
  ghost function ValidChain(entities: seq<Entity>, k: nat): (r: set<EntityId>)
    requires ValidLinksForward(entities)
    ensures forall e :: e in r ==> k <= e < MaxEntityCount
    ensures k < MaxEntityCount <==> k in r
    decreases MaxEntityCount - k
  {
    if k >= MaxEntityCount then {} else {k} + ValidChain(entities, entities[k].nextValid)
  }

  /** The free list the allocator hands ids out from. */
  ghost function FreeList<V>(s: State<V>): set<EntityId>
    requires Valid(s)
  {
    FreeChain(s.entities, s.firstAvailable)
  }

  // ---------------------------------------------------------------------
  // The constructors
  // ---------------------------------------------------------------------

  /** `Registry()`: slot i links to i + 1, every other member is value-initialised. */
  ghost function Init<V>(): State<V> {
    State(seq(MaxEntityCount, i requires 0 <= i => Entity(i + 1, MaxEntityCount, 0)), 0, 0,
          seq(MaxEntityCount, i => {}), map[], map[],
          seq(MaxComponentCount, b => 0), seq(MaxComponentCount, b => 0), map[])
  }

  /**
   * `Registry(const Registry&)`: everything is copied (component arrays
   * deeply) except the holder counts, which stay value-initialised (zero).
   */
  ghost function Copy<V>(s: State<V>): State<V> {
    s.(componentsAssigned := seq(MaxComponentCount, b => 0))
  }

  // ---------------------------------------------------------------------
  // Entity allocation
  // ---------------------------------------------------------------------

  /**
   * `create_entity`: hands out the free-list head and advances the head to
   * that slot's stored link. The new entity itself is a local copy in the
   * source, so only the predecessor's valid link is written. With no free
   * slot left the head is `MaxEntityCount` and `at` throws.
   */
  ghost function CreateEntity<V>(s: State<V>): (Result<EntityId>, State<V>)
    requires |s.entities| == MaxEntityCount
  {
    var temp := s.firstAvailable;
    if temp >= MaxEntityCount then (Err(OutOfRange), s)
    else
      var ents := if temp > 0 then s.entities[temp - 1 := s.entities[temp - 1].(nextValid := temp)]
                  else s.entities;
      (Ok(temp), s.(entities := ents, firstAvailable := s.entities[temp].idOrNextEmpty))
  }

  /**
   * The `do { ... } while (i < entity)` walk of `destroy_entity`: starting at
   * free slot `i`, step along free links at least once and stop at the first
   * slot that is not below `entity`.
   */
  ghost function WalkFreeList(entities: seq<Entity>, i: nat, entity: nat): (r: nat)
    requires FreeLinksForward(entities)
    requires i < MaxEntityCount && entity < MaxEntityCount
    ensures i < r <= MaxEntityCount && entity <= r
    decreases MaxEntityCount - i
  {
    var next := entities[i].idOrNextEmpty;
    if next < entity then WalkFreeList(entities, next, entity) else next
  }

  /**
   * The first half of `destroy_entity`: puts `entity` back on the free list.
   * Below the head it becomes the new head, linked to the old one. Otherwise
   * the free list is walked, the entity's own link is copied from the slot
   * the walk stops at, and the predecessor's link is written into a local
   * copy only (so it is lost); a walk that runs off the table throws before
   * any change.
   */
  ghost function InsertFree<V>(s: State<V>, entity: EntityId): Result<State<V>>
    requires FreeLinksForward(s.entities) && entity < MaxEntityCount
  {
    var head := s.firstAvailable;
    if entity < head then
      Ok(s.(entities := s.entities[entity := s.entities[entity].(idOrNextEmpty := head)],
            firstAvailable := entity))
    else
      var i := WalkFreeList(s.entities, head, entity);
      if i >= MaxEntityCount then Err(OutOfRange)
      else Ok(s.(entities := s.entities[entity := s.entities[entity].(idOrNextEmpty := s.entities[i].idOrNextEmpty)]))
  }

  /**
   * The second half of `destroy_entity`: the neighbours' valid links are
   * written through `entity + 1` and `entity - 1`, which throws for the last
   * slot and (after the first write) for slot 0; then the signature is
   * reset. Views are not notified.
   */
  ghost function UnlinkValid<V>(s: State<V>, entity: EntityId): (Outcome, State<V>)
    requires |s.entities| == MaxEntityCount && |s.signatures| == MaxEntityCount
    requires entity < MaxEntityCount
  {
    if entity + 1 >= MaxEntityCount then (Fail(OutOfRange), s)
    else
      var ents := s.entities[entity + 1 := s.entities[entity + 1].(prevValid := s.entities[entity].prevValid)];
      if entity == 0 then (Fail(OutOfRange), s.(entities := ents))
      else
        (Pass, s.(entities := ents[entity - 1 := ents[entity - 1].(nextValid := ents[entity].nextValid)],
                  signatures := s.signatures[entity := {}]))
  }

  /** `destroy_entity`: `InsertFree` followed by `UnlinkValid`. */
  ghost function DestroyEntity<V>(s: State<V>, entity: EntityId): (Outcome, State<V>)
    requires FreeLinksForward(s.entities) && |s.signatures| == MaxEntityCount
  {
    if entity >= MaxEntityCount then (Fail(OutOfRange), s)
    else
      var linked := InsertFree(s, entity);
      if linked.Err? then (Fail(linked.error), s)
      else UnlinkValid(linked.value, entity)
  }

  // ---------------------------------------------------------------------
  // Type slots
  // ---------------------------------------------------------------------

  /** The first index at or after `from` whose entry is `x`, or `|table|` if none. */
  function FirstIndexOf(table: seq<nat>, x: nat, from: nat): (r: nat)
    requires from <= |table|
    ensures from <= r <= |table|
    ensures r < |table| ==> table[r] == x
    ensures forall b :: from <= b < r ==> table[b] != x
    decreases |table| - from
  {
    if from == |table| then from
    else if table[from] == x then from
    else FirstIndexOf(table, x, from + 1)
  }

  /** `has_component_bit<T>`: whether some type slot holds `t`. */
  ghost predicate HasComponentBit<V>(s: State<V>, t: TypeId) {
    t in s.bitToComponent
  }

  /** `get_component_bit<T>`: the lowest slot holding `t`, or a throw. */
  ghost function GetComponentBit<V>(s: State<V>, t: TypeId): (r: Result<nat>)
    requires |s.bitToComponent| == MaxComponentCount
    ensures r.Ok? <==> HasComponentBit(s, t)
    ensures r.Ok? ==> r.value < MaxComponentCount && s.bitToComponent[r.value] == t
    ensures r.Ok? ==> forall c :: 0 <= c < r.value ==> s.bitToComponent[c] != t
  {
    var b := FirstIndexOf(s.bitToComponent, t, 0);
    if b < MaxComponentCount then Ok(b) else Err(UnregisteredComponent)
  }

  /**
   * `create_component_bit<T>`: claims the lowest free slot for `t` and gives
   * it a fresh component array of value-initialised entries (`zero`). With
   * every slot taken, `at(MaxComponentCount)` throws before any change.
   */
  ghost function CreateComponentBit<V>(s: State<V>, t: TypeId, zero: V): (r: (Result<nat>, State<V>))
    requires |s.bitToComponent| == MaxComponentCount
    ensures r.0.Ok? ==> r.0.value < MaxComponentCount
    ensures r.1 == s.(bitToComponent := r.1.bitToComponent, components := r.1.components)
  {
    var b := FirstIndexOf(s.bitToComponent, 0, 0);
    if b >= MaxComponentCount then (Err(OutOfRange), s)
    else
      (Ok(b), s.(bitToComponent := s.bitToComponent[b := t],
                 components := s.components[b := seq(MaxEntityCount, e => zero)]))
  }

  /**
   * `set_component_bits<Ts...>`: the signature of a list of types, one bit per
   * type, folded left to right; the first unregistered type throws.
   */
  ghost function SetComponentBits<V>(s: State<V>, types: seq<TypeId>): Result<Signature>
    requires |s.bitToComponent| == MaxComponentCount
  {
    if |types| == 0 then Ok({})
    else
      var first := GetComponentBit(s, types[0]);
      if first.Err? then Err(first.error)
      else
        var rest := SetComponentBits(s, types[1..]);
        if rest.Err? then rest
        else Ok({first.value} + rest.value)
  }

  // ---------------------------------------------------------------------
  // Views
  // ---------------------------------------------------------------------

  /**
   * `on_entity_signature_change`: every view gains `entity` if the entity's
   * signature covers the view's, and loses it otherwise.
   */
  ghost function OnEntitySignatureChange<V>(s: State<V>, entity: EntityId): State<V>
    requires entity < |s.signatures|
    requires s.viewEntities.Keys <= s.viewSignatures.Keys
  {
    var sig := s.signatures[entity];
    s.(viewEntities := map v | v in s.viewEntities ::
         if Covers(sig, s.viewSignatures[v]) then s.viewEntities[v] + {entity}
         else s.viewEntities[v] - {entity})
  }

  /**
   * The entities on the valid chain from `k` whose signature covers `sig`,
   * collected in chain order as the scan in `create_view` does.
   */
  ghost function CoveringOnChain(entities: seq<Entity>, signatures: seq<Signature>, k: nat, sig: Signature)
    : set<EntityId>
    requires ValidLinksForward(entities) && |signatures| == MaxEntityCount
    decreases MaxEntityCount - k
  {
    if k >= MaxEntityCount then {}
    else
      (if Covers(signatures[k], sig) then {k} else {}) +
      CoveringOnChain(entities, signatures, entities[k].nextValid, sig)
  }

  /**
   * The initial members of a new view: the scan of the valid chain from slot
   * 0 (slot 0 is always visited).
   */
  ghost function ViewMembers<V>(s: State<V>, sig: Signature): set<EntityId>
    requires ValidLinksForward(s.entities) && |s.signatures| == MaxEntityCount
  {
    CoveringOnChain(s.entities, s.signatures, 0, sig)
  }

  /** Whether some live view already has signature `sig`. */
  ghost predicate HasViewWith<V>(s: State<V>, sig: Signature) {
    exists v :: v in s.viewSignatures && s.viewSignatures[v] == sig
  }

  /**
   * `create_view<Ts...>`: an existing view with an equal signature is
   * returned as it is; otherwise the next view id is issued and the new
   * view's members are found by scanning the valid chain.
   */
  ghost function CreateView<V>(s: State<V>, types: seq<TypeId>): (Result<nat>, State<V>)
    requires Valid(s)
  {
    var signature := SetComponentBits(s, types);
    if signature.Err? then (Err(signature.error), s)
    else
      var sig := signature.value;
      if HasViewWith(s, sig) then
        var v :| v in s.viewSignatures && s.viewSignatures[v] == sig;
        (Ok(v), s)
      else
        var id := s.viewCount;
        (Ok(id), s.(viewCount := id + 1,
                    viewSignatures := s.viewSignatures[id := sig],
                    viewEntities := s.viewEntities[id := ViewMembers(s, sig)]))
  }

  /** `destroy_view`: forgets a live view; an unknown id throws with no change. */
  ghost function DestroyView<V>(s: State<V>, view: nat): (Outcome, State<V>) {
    if view !in s.viewSignatures then (Fail(NonExistentView), s)
    else (Pass, s.(viewSignatures := s.viewSignatures - {view},
                   viewEntities := s.viewEntities - {view}))
  }

  /** `get_entities`: the members of a live view; `at` throws on an unknown id. */
  ghost function GetEntities<V>(s: State<V>, view: nat): Result<set<EntityId>> {
    if view in s.viewEntities then Ok(s.viewEntities[view]) else Err(OutOfRange)
  }

  // ---------------------------------------------------------------------
  // Components
  // ---------------------------------------------------------------------

  /**
   * `has_component_bit<T>() ? get_component_bit<T>() : create_component_bit<T>()`:
   * the type's slot, claimed on first use.
   */
  ghost function ResolveSlot<V>(s: State<V>, t: TypeId, zero: V): (r: (Result<nat>, State<V>))
    requires |s.bitToComponent| == MaxComponentCount
    ensures r.0.Ok? ==> r.0.value < MaxComponentCount
    ensures r.1 == s.(bitToComponent := r.1.bitToComponent, components := r.1.components)
  {
    if HasComponentBit(s, t) then (GetComponentBit(s, t), s) else CreateComponentBit(s, t, zero)
  }

  /** `++m_components_assigned.at(index)`, wrapping like `uint32_t`. */
  ghost function CountHolder<V>(s: State<V>, b: nat): State<V>
    requires b < |s.componentsAssigned|
  {
    s.(componentsAssigned := s.componentsAssigned[b := Wrap32(s.componentsAssigned[b] + 1)])
  }

  /**
   * The first part of `assign`: the type's slot (claimed on first use) with
   * its holder count incremented, before the entity index is checked.
   */
  ghost function ClaimSlot<V>(s: State<V>, t: TypeId, zero: V): (r: (Result<nat>, State<V>))
    requires Valid(s)
    ensures r.0.Ok? ==> r.0.value in r.1.components && |r.1.components[r.0.value]| == MaxEntityCount
    ensures r.1 == s.(bitToComponent := r.1.bitToComponent, componentsAssigned := r.1.componentsAssigned,
                      components := r.1.components)
  {
    var (index, s1) := ResolveSlot(s, t, zero);
    if index.Err? then (index, s) else (index, CountHolder(s1, index.value))
  }

  /** `m_component_seq.at(entity) = data` in the slot's component array. */
  ghost function StoreComponent<V>(s: State<V>, b: nat, entity: EntityId, data: V): State<V>
    requires b in s.components && entity < |s.components[b]|
  {
    s.(components := s.components[b := s.components[b][entity := data]])
  }

  /** `m_entity_signatures.at(entity).set(index)`. */
  ghost function SetBit<V>(s: State<V>, b: nat, entity: EntityId): State<V>
    requires entity < |s.signatures|
  {
    s.(signatures := s.signatures[entity := s.signatures[entity] + {b}])
  }

  /**
   * `assign<T>`: writes `data` into the type's array, sets the entity's bit
   * and notifies the views. The holder count goes up even when the entity
   * already held the type. An entity index out of range throws only after
   * the slot was claimed and counted.
   */
  ghost function Assign<V>(s: State<V>, t: TypeId, entity: EntityId, data: V, zero: V): (Outcome, State<V>)
    requires Valid(s)
  {
    var (index, s1) := ClaimSlot(s, t, zero);
    if index.Err? then (Fail(index.error), s)
    else if entity >= MaxEntityCount then (Fail(OutOfRange), s1)
    else
      var s2 := SetBit(StoreComponent(s1, index.value, entity, data), index.value, entity);
      (Pass, OnEntitySignatureChange(s2, entity))
  }

  /**
   * The count-down of `remove<T>`: one holder less (wrapping like
   * `uint32_t`), and when none is left the slot is freed and its array
   * dropped.
   */
  ghost function ReleaseSlot<V>(s: State<V>, b: nat): State<V>
    requires b < |s.componentsAssigned| && b < |s.bitToComponent|
  {
    var count := Wrap32(s.componentsAssigned[b] as int - 1);
    var s1 := s.(componentsAssigned := s.componentsAssigned[b := count]);
    if count == 0 then s1.(bitToComponent := s1.bitToComponent[b := 0], components := s1.components - {b})
    else s1
  }

  /** `m_entity_signatures.at(entity).reset(index)`. */
  ghost function ResetBit<V>(s: State<V>, b: nat, entity: EntityId): State<V>
    requires entity < |s.signatures|
  {
    s.(signatures := s.signatures[entity := s.signatures[entity] - {b}])
  }

  /**
   * `remove<T>`: throws unless the type is registered and the entity holds
   * it; otherwise releases one holder of the slot, clears the bit and
   * notifies the views.
   */
  ghost function Remove<V>(s: State<V>, t: TypeId, entity: EntityId): (Outcome, State<V>)
    requires Valid(s)
  {
    if !HasComponentBit(s, t) then (Fail(UnassignedComponent), s)
    else
      var b := GetComponentBit(s, t).value;
      if entity >= MaxEntityCount then (Fail(OutOfRange), s)
      else if b !in s.signatures[entity] then (Fail(UnassignedComponent), s)
      else
        (Pass, OnEntitySignatureChange(ResetBit(ReleaseSlot(s, b), b, entity), entity))
  }

  /**
   * `get<T>`: the stored value at the entity's index in the type's array.
   * The entity's signature bit is not checked.
   */
  ghost function Get<V>(s: State<V>, t: TypeId, entity: EntityId): Result<V>
    requires Valid(s)
  {
    var index := GetComponentBit(s, t);
    if index.Err? then Err(index.error)
    else if entity >= MaxEntityCount then Err(OutOfRange)
    else Ok(s.components[index.value][entity])
  }
}
