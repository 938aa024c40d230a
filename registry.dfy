/**
 * `ecs::Registry` as a class: the entity table, the signatures and the three
 * type-slot tables are fixed-size arrays updated in place, the view cache is a
 * pair of maps, and every component array is a separately allocated
 * `array<V>`, so that the copy constructor's deep copy can be stated as
 * freshness. Each method follows the source's control flow (including its
 * loops) and is proved to produce exactly the state that the corresponding
 * function of `RegistryModel` describes.
 */
module Ecs {
  import opened EcsTypes
  import M = RegistryModel
  import I = RegistryInvariant
  import ViewLemmas

  /** What `get<T>` hands back: a reference to one cell of a component array (`T&`). */
  datatype ComponentRef<V> = ComponentRef(arr: array<V>, index: nat)

  /** `ComponentArray<T>::copy`: a fresh array with the same contents. */
  method CloneArray<V>(a: array<V>) returns (b: array<V>)
    ensures fresh(b) && b[..] == a[..]
  {
    b := new V[a.Length](i requires 0 <= i < a.Length reads a => a[i]);
  }

  /** The contents of a table of component arrays, keyed by slot. */
  ghost function Contents<V>(arrays: array<array?<V>>): map<nat, seq<V>>
    reads arrays, set b | 0 <= b < arrays.Length && arrays[b] != null :: arrays[b]
  {
    map b | 0 <= b < arrays.Length && arrays[b] != null :: arrays[b][..]
  }

  class Registry<V> {
    /** The value-initialised component (`T{}`) a fresh component array is filled with. */
    const zero: V

    var firstAvailable: nat                     // m_first_available_entity_slot
    var viewCount: nat                          // m_view_count
    const entities: array<Entity>               // m_entities
    const entitySignatures: array<Signature>    // m_entity_signatures
    var viewEntities: map<nat, set<EntityId>>   // m_view_entities
    var viewSignatures: map<nat, Signature>     // m_view_signatures
    const bitToComponent: array<nat>            // m_bit_to_component
    const componentsAssigned: array<nat>        // m_components_assigned
    const componentArrays: array<array?<V>>     // m_component_arrays

    ghost function Tables(): set<object> {
      {entities, entitySignatures, bitToComponent, componentsAssigned, componentArrays}
    }

    /** The component arrays currently owned by the slot table. */
    ghost function DataArrays(): set<object>
      reads componentArrays
    {
      set b | 0 <= b < componentArrays.Length && componentArrays[b] != null :: componentArrays[b]
    }

    ghost function Repr(): set<object>
      reads this, componentArrays
    {
      {this} + Tables() + DataArrays()
    }

    /** Array sizes, and no component array aliases a table or another component array. */
    ghost predicate Shape()
      reads componentArrays
    {
      && entities.Length == MaxEntityCount
      && entitySignatures.Length == MaxEntityCount
      && bitToComponent.Length == MaxComponentCount
      && componentsAssigned.Length == MaxComponentCount
      && componentArrays.Length == MaxComponentCount
      && bitToComponent != componentsAssigned
      && (forall b :: 0 <= b < MaxComponentCount && componentArrays[b] != null ==>
            componentArrays[b].Length == MaxEntityCount && componentArrays[b] !in Tables())
      && (forall b, c :: 0 <= b < c < MaxComponentCount && componentArrays[b] != null ==>
            componentArrays[b] != componentArrays[c])
    }

    /** The registry's current state as a value. */
    ghost function Abs(): M.State<V>
      reads this, entities, entitySignatures, bitToComponent, componentsAssigned, componentArrays
      reads DataArrays()
      requires Shape()
    {
      M.State(entities[..], firstAvailable, viewCount, entitySignatures[..],
              viewEntities, viewSignatures, bitToComponent[..], componentsAssigned[..],
              Components())
    }

    /** The contents of every component array, keyed by type slot. */
    ghost function Components(): map<nat, seq<V>>
      reads componentArrays, DataArrays()
    {
      Contents(componentArrays)
    }

    ghost predicate Valid()
      reads this, entities, entitySignatures, bitToComponent, componentsAssigned, componentArrays
      reads DataArrays()
    {
      Shape() && M.Valid(Abs())
    }

    /** A registry whose state is a valid model state is valid. */
    lemma ValidAt(st: M.State<V>)
      requires Shape() && Abs() == st && M.Valid(st)
      ensures Valid()
    {
    }

    /** `Registry()`: links every entity slot to the next one. */
    constructor (zero: V)
      ensures Shape() && fresh(Repr())
      ensures Abs() == M.Init() && this.zero == zero
      ensures Valid()
    {
      this.zero := zero;
      var slots := new Entity[MaxEntityCount](i => Entity(0, MaxEntityCount, 0));
      for i := 0 to MaxEntityCount
        invariant forall k :: 0 <= k < i ==> slots[k] == Entity(k + 1, MaxEntityCount, 0)
        invariant forall k :: i <= k < MaxEntityCount ==> slots[k] == Entity(0, MaxEntityCount, 0)
      {
        slots[i] := slots[i].(idOrNextEmpty := i + 1);
      }
      entities := slots;
      firstAvailable, viewCount := 0, 0;
      entitySignatures := new Signature[MaxEntityCount](i => {});
      viewEntities, viewSignatures := map[], map[];
      bitToComponent := new nat[MaxComponentCount](b => 0);
      componentsAssigned := new nat[MaxComponentCount](b => 0);
      componentArrays := new array?<V>[MaxComponentCount](b => null);
      new;
      assert forall b :: 0 <= b < MaxComponentCount ==> componentArrays[b] == null;
      assert DataArrays() == {};
      assert fresh(Repr());
      ghost var init := M.Init<V>();
      assert entities[..] == init.entities;
      assert entitySignatures[..] == init.signatures;
      assert bitToComponent[..] == init.bitToComponent;
      assert componentsAssigned[..] == init.componentsAssigned;
      assert Abs() == init;
      I.InitValid<V>();
      ValidAt(init);
    }

    /**
     * `Registry(const Registry&)`: copies every table and deep-copies every
     * component array the other registry owns; the holder counts are not
     * copied and stay zero.
     */
    constructor Copy(other: Registry<V>)
      requires other.Valid()
      ensures Shape() && fresh(Repr())
      ensures Abs() == M.Copy(old(other.Abs())) && zero == other.zero
      ensures Valid()
    {
      ghost var source := other.Abs();
      ghost var copy := M.Copy(source);
      zero := other.zero;
      var slots, signatures, table, counts, arrays := other.CloneTables();
      componentArrays := arrays;
      entities := slots;
      firstAvailable := other.firstAvailable;
      viewCount := other.viewCount;
      entitySignatures := signatures;
      viewEntities := other.viewEntities;
      viewSignatures := other.viewSignatures;
      bitToComponent := table;
      componentsAssigned := counts;
      new;
      assert fresh(DataArrays());
      assert fresh(Repr());
      assert Shape();
      assert Abs() == copy;
      I.CopyValid(source);
      ValidAt(copy);
    }

    /**
     * Fresh copies of this registry's tables for the copy constructor: the
     * entity, signature and slot tables and the component arrays are
     * copied, the holder counts start at zero.
     */
    method CloneTables() returns (slots: array<Entity>, signatures: array<Signature>, table: array<nat>,
                                  counts: array<nat>, arrays: array<array?<V>>)
      requires Shape()
      ensures fresh(slots) && fresh(signatures) && fresh(table) && fresh(counts) && fresh(arrays)
      ensures slots[..] == entities[..] && signatures[..] == entitySignatures[..]
      ensures table[..] == bitToComponent[..] && counts[..] == seq(MaxComponentCount, b => 0)
      ensures table != counts
      ensures Contents(arrays) == Components() && arrays.Length == MaxComponentCount
      ensures forall b :: 0 <= b < MaxComponentCount && arrays[b] != null ==>
                fresh(arrays[b]) && arrays[b].Length == MaxEntityCount &&
                arrays[b] as object !in {slots as object, signatures, table, counts, arrays}
      ensures forall b, c :: 0 <= b < c < MaxComponentCount && arrays[b] != null ==> arrays[b] != arrays[c]
    {
      slots := CloneArray(entities);
      signatures := CloneArray(entitySignatures);
      table := CloneArray(bitToComponent);
      counts := new nat[MaxComponentCount](b => 0);
      arrays := CopyComponentArrays();
    }

    /**
     * The loop of the copy constructor: a deep copy of every component array
     * this registry owns, each into a freshly allocated array.
     */
    method CopyComponentArrays() returns (arrays: array<array?<V>>)
      requires Shape()
      ensures fresh(arrays) && arrays.Length == MaxComponentCount
      ensures forall b :: 0 <= b < MaxComponentCount && arrays[b] != null ==> arrays[b].Length == MaxEntityCount
      ensures forall b :: 0 <= b < MaxComponentCount ==> (arrays[b] == null <==> componentArrays[b] == null)
      ensures forall b :: 0 <= b < MaxComponentCount && arrays[b] != null ==>
                fresh(arrays[b]) && arrays[b][..] == componentArrays[b][..]
      ensures forall b, c :: 0 <= b < c < MaxComponentCount && arrays[b] != null ==> arrays[b] != arrays[c]
      ensures Contents(arrays) == old(Components())
    {
      arrays := new array?<V>[MaxComponentCount](b => null);
      for i := 0 to MaxComponentCount
        invariant forall b :: 0 <= b < MaxComponentCount && arrays[b] != null ==> fresh(arrays[b])
        invariant forall b :: 0 <= b < i ==> (arrays[b] == null <==> componentArrays[b] == null)
        invariant forall b :: 0 <= b < i && arrays[b] != null ==> arrays[b][..] == componentArrays[b][..]
        invariant forall b :: i <= b < MaxComponentCount ==> arrays[b] == null
        invariant forall b, c :: 0 <= b < c < MaxComponentCount && arrays[b] != null ==> arrays[b] != arrays[c]
      {
        var rawPtr := componentArrays[i];
        if rawPtr != null {
          var copied := CloneArray(rawPtr);
          arrays[i] := copied;
        }
      }
    }

    // -------------------------------------------------------------------
    // Type slots
    // -------------------------------------------------------------------

    /** `has_component_bit<T>`: a linear scan of the slot table. */
    method HasComponentBit(t: TypeId) returns (r: bool)
      requires Shape()
      ensures r == M.HasComponentBit(Abs(), t)
    {
      for bit := 0 to MaxComponentCount
        invariant forall b :: 0 <= b < bit ==> bitToComponent[b] != t
      {
        if bitToComponent[bit] == t {
          return true;
        }
      }
      return false;
    }

    /** `get_component_bit<T>`: the first slot holding `t`, or a throw. */
    method GetComponentBit(t: TypeId) returns (r: Result<nat>)
      requires Shape()
      ensures r == M.GetComponentBit(Abs(), t)
    {
      for bit := 0 to MaxComponentCount
        invariant forall b :: 0 <= b < bit ==> bitToComponent[b] != t
      {
        if bitToComponent[bit] == t {
          return Ok(bit);
        }
      }
      return Err(UnregisteredComponent);
    }

    /** The scan `while (m_bit_to_component.at(bit)) ++bit;` of `create_component_bit`. */
    method FirstFreeSlot() returns (bit: nat)
      requires Shape()
      ensures bit == M.FirstIndexOf(bitToComponent[..], 0, 0)
    {
      bit := 0;
      while bit < MaxComponentCount && bitToComponent[bit] != 0
        invariant 0 <= bit <= MaxComponentCount
        invariant forall b :: 0 <= b < bit ==> bitToComponent[b] != 0
      {
        bit := bit + 1;
      }
    }

    /**
     * `create_component_bit<T>`: claims the first free slot and gives it a
     * fresh component array; `at` throws when the scan runs off the table.
     */
    method CreateComponentBit(t: TypeId) returns (r: Result<nat>)
      requires Shape()
      modifies bitToComponent, componentArrays
      ensures Shape() && fresh(Repr() - old(Repr()))
      ensures (r, Abs()) == M.CreateComponentBit(old(Abs()), t, zero)
    {
      var bit := FirstFreeSlot();
      if bit == MaxComponentCount {
        return Err(OutOfRange);
      }
      InstallSlot(bit, t);
      return Ok(bit);
    }

    /**
     * The writes of `create_component_bit<T>`: slot `bit` gets the type and a
     * fresh array of value-initialised components.
     */
    method InstallSlot(bit: nat, t: TypeId)
      requires Shape() && bit < MaxComponentCount
      modifies bitToComponent, componentArrays
      ensures Shape() && fresh(Repr() - old(Repr()))
      ensures Abs() == old(Abs()).(bitToComponent := old(bitToComponent[..])[bit := t],
                                   components := old(Components())[bit := seq(MaxEntityCount, e => zero)])
    {
      ghost var before := Abs();
      var newArray := new V[MaxEntityCount](e => zero);
      assert newArray[..] == seq(MaxEntityCount, e => zero);
      bitToComponent[bit] := t;
      componentArrays[bit] := newArray;
      assert forall b :: 0 <= b < MaxComponentCount && b != bit ==>
               componentArrays[b] == old(componentArrays[b]);
      assert Shape();
      assert Components() == before.components[bit := newArray[..]];
    }

    /**
     * `set_component_bits<Ts...>`: the signature of a non-empty type list,
     * by recursion on the list as the variadic template does.
     */
    method SetComponentBits(types: seq<TypeId>) returns (r: Result<Signature>)
      requires Shape()
      requires |types| > 0
      ensures r == M.SetComponentBits(Abs(), types)
      decreases |types|
    {
      var first := GetComponentBit(types[0]);
      if first.Err? {
        return Err(first.error);
      }
      if |types| == 1 {
        assert M.SetComponentBits(Abs(), types[1..]) == Ok({});
        assert {first.value} + {} == {first.value};
        return Ok({first.value});
      }
      var rest := SetComponentBits(types[1..]);
      if rest.Err? {
        return rest;
      }
      return Ok({first.value} + rest.value);
    }

    // -------------------------------------------------------------------
    // Views
    // -------------------------------------------------------------------

    /**
     * `on_entity_signature_change`: walks every view and inserts or erases
     * `entity` according to the superset test.
     */
    method OnEntitySignatureChange(entity: EntityId)
      requires Shape()
      requires entity < MaxEntityCount
      requires viewEntities.Keys <= viewSignatures.Keys
      modifies this
      ensures Shape() && Repr() == old(Repr())
      ensures Abs() == M.OnEntitySignatureChange(old(Abs()), entity)
    {
      var entitySignature := entitySignatures[entity];
      var pending := viewEntities.Keys;
      while pending != {}
        invariant pending <= viewEntities.Keys
        invariant viewEntities.Keys == old(viewEntities).Keys
        invariant viewSignatures == old(viewSignatures)
        invariant firstAvailable == old(firstAvailable) && viewCount == old(viewCount)
        invariant forall v :: v in viewEntities && v in pending ==> viewEntities[v] == old(viewEntities)[v]
        invariant forall v :: v in viewEntities && v !in pending ==>
                    viewEntities[v] == if Covers(entitySignature, viewSignatures[v])
                                       then old(viewEntities)[v] + {entity}
                                       else old(viewEntities)[v] - {entity}
        decreases pending
      {
        var view :| view in pending;
        var viewSignature := viewSignatures[view];
        if Covers(entitySignature, viewSignature) {
          viewEntities := viewEntities[view := viewEntities[view] + {entity}];
        } else {
          viewEntities := viewEntities[view := viewEntities[view] - {entity}];
        }
        pending := pending - {view};
      }
      assert viewEntities == M.OnEntitySignatureChange(old(Abs()), entity).viewEntities;
    }

    /**
     * `create_view<Ts...>`: looks for a live view with the same signature;
     * otherwise registers a new view and fills it by walking the valid chain
     * from slot 0.
     */
    method CreateView(types: seq<TypeId>) returns (r: Result<nat>)
      requires Valid()
      requires |types| > 0
      modifies this
      ensures Shape() && Repr() == old(Repr())
      ensures (r, Abs()) == M.CreateView(old(Abs()), types)
      ensures Valid()
    {
      ghost var s := Abs();
      I.CreateViewKeepsValid(s, types);
      var signature := SetComponentBits(types);
      assert Abs() == s;
      if signature.Err? {
        r := Err(signature.error);
      } else {
        var id := CacheView(types, signature.value);
        r := Ok(id);
      }
      ValidAt(M.CreateView(s, types).1);
    }

    /**
     * The rest of `create_view` once the signature `sig` of `types` is known:
     * the id of the live view with that signature, or of a new one.
     */
    method CacheView(types: seq<TypeId>, sig: Signature) returns (id: nat)
      requires Valid() && M.SetComponentBits(Abs(), types) == Ok(sig)
      modifies this
      ensures Shape() && Repr() == old(Repr())
      ensures (Ok(id), Abs()) == M.CreateView(old(Abs()), types)
    {
      ghost var s := Abs();
      var found := FindView(sig);
      assert Abs() == s;
      if found.Some? {
        ViewLemmas.CreateViewReturnsExisting(s, types, found.value);
        id := found.value;
      } else {
        ViewLemmas.CreateViewIssuesNextId(s, types);
        id := RegisterView(sig);
      }
    }

    /**
     * The insertion part of `create_view`: the next view id gets `sig` and
     * the entities the fill loop collects.
     */
    method RegisterView(sig: Signature) returns (id: nat)
      requires Shape() && M.ValidLinksForward(entities[..])
      modifies this
      ensures Shape() && Repr() == old(Repr())
      ensures id == old(viewCount)
      ensures Abs() == old(Abs()).(viewCount := id + 1, viewSignatures := old(viewSignatures)[id := sig],
                                   viewEntities := old(viewEntities)[id := M.ViewMembers(old(Abs()), sig)])
    {
      ghost var s := Abs();
      id := viewCount;
      var members := CollectViewMembers(sig);
      assert Abs() == s;
      viewSignatures := viewSignatures[id := sig];
      viewEntities := viewEntities[id := members];
      viewCount := id + 1;
    }

    /** The search loop of `create_view`: a live view whose signature is `sig`. */
    method FindView(sig: Signature) returns (r: Option<nat>)
      ensures r.Some? ==> r.value in viewSignatures && viewSignatures[r.value] == sig
      ensures r.None? ==> forall v :: v in viewSignatures ==> viewSignatures[v] != sig
    {
      var pending := viewSignatures.Keys;
      while pending != {}
        invariant pending <= viewSignatures.Keys
        invariant forall v :: v in viewSignatures && v !in pending ==> viewSignatures[v] != sig
        decreases pending
      {
        var view :| view in pending;
        if sig == viewSignatures[view] {
          return Some(view);
        }
        pending := pending - {view};
      }
      return None;
    }

    /**
     * The fill loop of `create_view`: walks the valid chain from slot 0 and
     * collects each entity whose signature covers `sig`.
     */
    method CollectViewMembers(sig: Signature) returns (members: set<EntityId>)
      requires Shape() && M.ValidLinksForward(entities[..])
      ensures members == M.ViewMembers(Abs(), sig)
    {
      members := {};
      var entity := 0;
      while entity < MaxEntityCount
        invariant members + M.CoveringOnChain(entities[..], entitySignatures[..], entity, sig) ==
                  M.ViewMembers(Abs(), sig)
        decreases MaxEntityCount - entity
      {
        if Covers(entitySignatures[entity], sig) {
          members := members + {entity};
        }
        entity := entities[entity].nextValid;
      }
    }

    /** `destroy_view`: an unknown id throws; otherwise both maps forget the view. */
    method DestroyView(view: nat) returns (r: Outcome)
      requires Valid()
      modifies this
      ensures Shape() && Repr() == old(Repr())
      ensures (r, Abs()) == M.DestroyView(old(Abs()), view)
      ensures Valid()
    {
      I.DestroyViewKeepsValid(Abs(), view);
      if view !in viewSignatures {
        return Fail(NonExistentView);
      }
      viewSignatures := viewSignatures - {view};
      viewEntities := viewEntities - {view};
      return Pass;
    }

    /** `get_entities`: the members of a view, without recomputation. */
    method GetEntities(view: nat) returns (r: Result<set<EntityId>>)
      requires Valid()
      ensures r == M.GetEntities(Abs(), view)
    {
      if view !in viewEntities {
        return Err(OutOfRange);
      }
      return Ok(viewEntities[view]);
    }

    // -------------------------------------------------------------------
    // Entities
    // -------------------------------------------------------------------

    /**
     * `create_entity`: pops the free-list head. The slot is read into a
     * local copy, so only the head and the predecessor's valid link change.
     */
    method CreateEntity() returns (r: Result<EntityId>)
      requires Valid()
      modifies this, entities
      ensures Shape() && Repr() == old(Repr())
      ensures (r, Abs()) == M.CreateEntity(old(Abs()))
      ensures Valid()
    {
      ghost var s := Abs();
      ghost var spec := M.CreateEntity(s);
      I.CreateEntityKeepsValid(s);
      var temp := firstAvailable;
      if temp >= MaxEntityCount {
        return Err(OutOfRange);
      }
      var newEntity := entities[temp];
      firstAvailable := newEntity.idOrNextEmpty;
      newEntity := newEntity.(idOrNextEmpty := temp);
      if temp > 0 {
        newEntity := newEntity.(nextValid := entities[temp - 1].nextValid,
                                prevValid := entities[temp - 1].idOrNextEmpty);
        entities[temp - 1] := entities[temp - 1].(nextValid := temp);
      }
      assert entities[..] == spec.1.entities;
      assert Abs() == spec.1;
      return Ok(newEntity.idOrNextEmpty);
    }

    /**
     * The `do ... while (i < entity)` walk of `destroy_entity`: the free slot
     * the walk stops at, and the local copy of the last slot it passed.
     */
    method WalkFreeList(entity: EntityId) returns (i: nat, lastEmptySlotBefore: Entity)
      requires Shape() && M.FreeLinksForward(entities[..])
      requires firstAvailable <= entity < MaxEntityCount
      ensures i == M.WalkFreeList(entities[..], firstAvailable, entity)
      ensures lastEmptySlotBefore.idOrNextEmpty == i
      ensures exists k :: 0 <= k < MaxEntityCount && entities[k] == lastEmptySlotBefore
    {
      i := firstAvailable;
      lastEmptySlotBefore := entities[i];
      ghost var last := i;
      i := lastEmptySlotBefore.idOrNextEmpty;
      while i < entity
        invariant last < MaxEntityCount && lastEmptySlotBefore == entities[last]
        invariant i == entities[last].idOrNextEmpty
        invariant M.WalkFreeList(entities[..], firstAvailable, entity) ==
                  M.WalkFreeList(entities[..], last, entity)
        decreases MaxEntityCount - i
      {
        lastEmptySlotBefore := entities[i];
        last := i;
        i := lastEmptySlotBefore.idOrNextEmpty;
      }
    }

    /**
     * The free-list half of `destroy_entity`: `entity` becomes the head when
     * it is below it; otherwise it is linked after the walk, whose
     * predecessor link goes to a local copy only. `ok` is false when the
     * walk runs off the table and `at` throws.
     */
    method InsertFree(entity: EntityId) returns (ok: bool)
      requires Shape() && M.FreeLinksForward(entities[..]) && entity < MaxEntityCount
      modifies this, entities
      ensures Shape() && Repr() == old(Repr())
      ensures ok == M.InsertFree(old(Abs()), entity).Ok?
      ensures Abs() == if ok then M.InsertFree(old(Abs()), entity).value else old(Abs())
    {
      ghost var s := Abs();
      if entity < firstAvailable {
        entities[entity] := entities[entity].(idOrNextEmpty := firstAvailable);
        firstAvailable := entity;
        assert entities[..] == M.InsertFree(s, entity).value.entities;
        return true;
      }
      var i, lastEmptySlotBefore := WalkFreeList(entity);
      assert Abs() == s;
      if i >= MaxEntityCount {
        return false;
      }
      entities[entity] := entities[entity].(idOrNextEmpty := entities[i].idOrNextEmpty);
      // The predecessor's link is written to the local copy only.
      lastEmptySlotBefore := lastEmptySlotBefore.(idOrNextEmpty := entity);
      assert entities[..] == M.InsertFree(s, entity).value.entities;
      return true;
    }

    /**
     * The valid-chain half of `destroy_entity`: the neighbours' links through
     * `entity + 1` and `entity - 1`, then the signature reset.
     */
    method UnlinkValid(entity: EntityId) returns (r: Outcome)
      requires Shape() && entity < MaxEntityCount
      modifies entities, entitySignatures
      ensures Shape() && Repr() == old(Repr())
      ensures (r, Abs()) == M.UnlinkValid(old(Abs()), entity)
    {
      ghost var s := Abs();
      if entity + 1 >= MaxEntityCount {
        return Fail(OutOfRange);
      }
      entities[entity + 1] := entities[entity + 1].(prevValid := entities[entity].prevValid);
      if entity == 0 {
        // `entity - 1` wraps around as an unsigned integer, so `at` throws.
        assert entities[..] == M.UnlinkValid(s, entity).1.entities;
        return Fail(OutOfRange);
      }
      entities[entity - 1] := entities[entity - 1].(nextValid := entities[entity].nextValid);
      entitySignatures[entity] := {};
      assert entities[..] == M.UnlinkValid(s, entity).1.entities;
      assert entitySignatures[..] == M.UnlinkValid(s, entity).1.signatures;
      return Pass;
    }

    /** `destroy_entity`: relinks the free list, then the valid chain. */
    method DestroyEntity(entity: EntityId) returns (r: Outcome)
      requires Valid()
      modifies this, entities, entitySignatures
      ensures Shape() && Repr() == old(Repr())
      ensures (r, Abs()) == M.DestroyEntity(old(Abs()), entity)
      ensures Valid()
    {
      ghost var s := Abs();
      I.DestroyEntityKeepsValid(s, entity);
      if entity >= MaxEntityCount {
        r := Fail(OutOfRange);
      } else {
        var ok := InsertFree(entity);
        if !ok {
          r := Fail(OutOfRange);
        } else {
          r := UnlinkValid(entity);
        }
      }
      ValidAt(M.DestroyEntity(s, entity).1);
    }

    // -------------------------------------------------------------------
    // Components
    // -------------------------------------------------------------------

    /** The slot lookup of `assign<T>`, claiming a slot on first use. */
    method ResolveSlot(t: TypeId) returns (index: Result<nat>)
      requires Shape()
      modifies bitToComponent, componentArrays
      ensures Shape() && fresh(Repr() - old(Repr()))
      ensures (index, Abs()) == M.ResolveSlot(old(Abs()), t, zero)
    {
      ghost var s := Abs();
      var has := HasComponentBit(t);
      assert Abs() == s;
      if has {
        index := GetComponentBit(t);
        assert Abs() == s;
      } else {
        index := CreateComponentBit(t);
      }
    }

    /** `++m_components_assigned.at(index)`. */
    method CountHolder(b: nat)
      requires Shape() && b < MaxComponentCount
      modifies componentsAssigned
      ensures Shape() && Repr() == old(Repr())
      ensures Abs() == M.CountHolder(old(Abs()), b)
    {
      ghost var s := Abs();
      componentsAssigned[b] := Wrap32(componentsAssigned[b] + 1);
      assert componentsAssigned[..] == M.CountHolder(s, b).componentsAssigned;
    }

    /**
     * The first two statements of `assign<T>`: the type's slot, claimed on
     * first use, with one more holder counted.
     */
    method ClaimSlot(t: TypeId) returns (index: Result<nat>)
      requires Valid()
      modifies bitToComponent, componentsAssigned, componentArrays
      ensures Shape() && fresh(Repr() - old(Repr()))
      ensures (index, Abs()) == M.ClaimSlot(old(Abs()), t, zero)
    {
      index := ResolveSlot(t);
      if index.Ok? {
        CountHolder(index.value);
      }
    }

    /** `m_component_seq.at(entity) = data` on the slot's component array. */
    method StoreComponent(b: nat, entity: EntityId, data: V)
      requires Shape() && b < MaxComponentCount && componentArrays[b] != null && entity < MaxEntityCount
      modifies componentArrays[b]
      ensures Shape() && Repr() == old(Repr())
      ensures Abs() == M.StoreComponent(old(Abs()), b, entity, data)
    {
      ghost var s := Abs();
      var rawPtr := componentArrays[b];
      rawPtr[entity] := data;
      assert forall c :: 0 <= c < MaxComponentCount && c != b && componentArrays[c] != null ==>
               componentArrays[c][..] == old(componentArrays[c][..]);
      assert Components() == s.components[b := s.components[b][entity := data]];
    }

    /** `m_entity_signatures.at(entity).set(index)`. */
    method SetBit(b: nat, entity: EntityId)
      requires Shape() && entity < MaxEntityCount
      modifies entitySignatures
      ensures Shape() && Repr() == old(Repr())
      ensures Abs() == M.SetBit(old(Abs()), b, entity)
    {
      ghost var s := Abs();
      entitySignatures[entity] := entitySignatures[entity] + {b};
      assert entitySignatures[..] == M.SetBit(s, b, entity).signatures;
    }

    /**
     * `assign<T>`: resolves or claims the type's slot, counts one more holder,
     * writes the value, sets the bit and notifies the views.
     */
    method Assign(t: TypeId, entity: EntityId, data: V) returns (r: Outcome)
      requires Valid()
      modifies Repr()
      ensures Shape() && fresh(Repr() - old(Repr()))
      ensures (r, Abs()) == M.Assign(old(Abs()), t, entity, data, zero)
      ensures Valid()
    {
      ghost var s := Abs();
      I.AssignKeepsValid(s, t, entity, data, zero);
      var index := ClaimSlot(t);
      if index.Err? {
        r := Fail(index.error);
      } else if entity >= MaxEntityCount {
        r := Fail(OutOfRange);
      } else {
        StoreComponent(index.value, entity, data);
        SetBit(index.value, entity);
        OnEntitySignatureChange(entity);
        r := Pass;
      }
      ValidAt(M.Assign(s, t, entity, data, zero).1);
    }

    /**
     * The count-down of `remove<T>`: one holder less, and the slot and its
     * array released when none is left.
     */
    method ReleaseSlot(b: nat)
      requires Shape() && b < MaxComponentCount
      modifies bitToComponent, componentsAssigned, componentArrays
      ensures Shape() && Repr() <= old(Repr())
      ensures Abs() == M.ReleaseSlot(old(Abs()), b)
    {
      ghost var s := Abs();
      componentsAssigned[b] := Wrap32(componentsAssigned[b] as int - 1);
      assert componentsAssigned[..] == s.componentsAssigned[b := componentsAssigned[b]];
      if componentsAssigned[b] == 0 {
        FreeSlot(b);
      }
    }

    /** The teardown in `remove<T>`: the slot's entry becomes 0 and its array is dropped. */
    method FreeSlot(b: nat)
      requires Shape() && b < MaxComponentCount
      modifies bitToComponent, componentArrays
      ensures Shape() && Repr() <= old(Repr())
      ensures Abs() == old(Abs()).(bitToComponent := old(bitToComponent[..])[b := 0],
                                   components := old(Components()) - {b})
    {
      ghost var s := Abs();
      bitToComponent[b] := 0;
      componentArrays[b] := null;
      assert forall c :: 0 <= c < MaxComponentCount && c != b ==> componentArrays[c] == old(componentArrays[c]);
      assert Components() == s.components - {b};
    }

    /** `m_entity_signatures.at(entity).reset(index)`. */
    method ResetBit(b: nat, entity: EntityId)
      requires Shape() && entity < MaxEntityCount
      modifies entitySignatures
      ensures Shape() && Repr() == old(Repr())
      ensures Abs() == M.ResetBit(old(Abs()), b, entity)
    {
      ghost var s := Abs();
      entitySignatures[entity] := entitySignatures[entity] - {b};
      assert entitySignatures[..] == M.ResetBit(s, b, entity).signatures;
    }

    /**
     * `remove<T>`: checks that the type is registered and held, counts one
     * holder less, frees the slot when no holder is left, clears the bit and
     * notifies the views.
     */
    method Remove(t: TypeId, entity: EntityId) returns (r: Outcome)
      requires Valid()
      modifies this, bitToComponent, componentsAssigned, componentArrays, entitySignatures
      ensures Shape() && Repr() <= old(Repr())
      ensures (r, Abs()) == M.Remove(old(Abs()), t, entity)
      ensures Valid()
    {
      ghost var s := Abs();
      I.RemoveKeepsValid(s, t, entity);
      var has := HasComponentBit(t);
      assert Abs() == s;
      if !has {
        r := Fail(UnassignedComponent);
      } else {
        var index := GetComponentBit(t);
        assert Abs() == s;
        var b := index.value;
        if entity >= MaxEntityCount {
          r := Fail(OutOfRange);
        } else if b !in entitySignatures[entity] {
          r := Fail(UnassignedComponent);
        } else {
          ReleaseSlot(b);
          ResetBit(b, entity);
          OnEntitySignatureChange(entity);
          r := Pass;
        }
      }
      ValidAt(M.Remove(s, t, entity).1);
    }

    /**
     * `get<T>`: a reference into the type's component array; the entity's
     * signature bit is not consulted.
     */
    method Get(t: TypeId, entity: EntityId) returns (r: Result<ComponentRef<V>>)
      requires Valid()
      ensures r.Ok? <==> M.Get(Abs(), t, entity).Ok?
      ensures r.Err? ==> r.error == M.Get(Abs(), t, entity).error
      ensures r.Ok? ==> && r.value.arr == componentArrays[M.GetComponentBit(Abs(), t).value]
                        && r.value.arr in DataArrays()
                        && r.value.index == entity < r.value.arr.Length
                        && r.value.arr[entity] == M.Get(Abs(), t, entity).value
    {
      var index := GetComponentBit(t);
      if index.Err? {
        return Err(index.error);
      }
      var rawPtr := componentArrays[index.value];
      if entity >= MaxEntityCount {
        return Err(OutOfRange);
      }
      return Ok(ComponentRef(rawPtr, entity));
    }
  }
}
