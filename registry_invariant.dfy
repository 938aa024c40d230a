/**
 * The registry invariant `RegistryModel.Valid` holds after both constructors
 * and is kept by every operation, whatever its outcome.
 */
module RegistryInvariant {
  import opened EcsTypes
  import opened RegistryModel

  lemma InitValid<V>()
    ensures Valid(Init<V>())
  {
  }

  lemma CopyValid<V>(s: State<V>)
    requires Valid(s)
    ensures Valid(Copy(s))
  {
  }

  lemma CreateEntityKeepsValid<V>(s: State<V>)
    requires Valid(s)
    ensures Valid(CreateEntity(s).1)
  {
  }

  lemma DestroyEntityKeepsValid<V>(s: State<V>, entity: EntityId)
    requires Valid(s)
    ensures Valid(DestroyEntity(s, entity).1)
  {
    if entity < MaxEntityCount {
      InsertFreeKeepsValid(s, entity);
      var linked := InsertFree(s, entity);
      if linked.Ok? {
        UnlinkValidKeepsValid(linked.value, entity);
      }
    }
  }

  lemma InsertFreeKeepsValid<V>(s: State<V>, entity: EntityId)
    requires Valid(s) && entity < MaxEntityCount
    ensures InsertFree(s, entity).Ok? ==> Valid(InsertFree(s, entity).value)
  {
  }

  lemma UnlinkValidKeepsValid<V>(s: State<V>, entity: EntityId)
    requires Valid(s) && entity < MaxEntityCount
    ensures Valid(UnlinkValid(s, entity).1)
  {
  }

  lemma CreateComponentBitKeepsValid<V>(s: State<V>, t: TypeId, zero: V)
    requires Valid(s) && !HasComponentBit(s, t)
    ensures Valid(CreateComponentBit(s, t, zero).1)
  {
  }

  lemma ClaimSlotKeepsValid<V>(s: State<V>, t: TypeId, zero: V)
    requires Valid(s)
    ensures Valid(ClaimSlot(s, t, zero).1)
  {
  }

  /** Updating view membership for one entity keeps the view cache well formed. */
  lemma SignatureChangeKeepsValid<V>(s: State<V>, entity: EntityId)
    requires Valid(s) && entity < MaxEntityCount
    ensures Valid(OnEntitySignatureChange(s, entity))
  {
  }

  lemma AssignKeepsValid<V>(s: State<V>, t: TypeId, entity: EntityId, data: V, zero: V)
    requires Valid(s)
    ensures Valid(Assign(s, t, entity, data, zero).1)
  {
    ClaimSlotKeepsValid(s, t, zero);
    var (index, s1) := ClaimSlot(s, t, zero);
    if index.Ok? && entity < MaxEntityCount {
      StoreAndSetKeepValid(s1, index.value, entity, data);
      var s2 := SetBit(StoreComponent(s1, index.value, entity, data), index.value, entity);
      SignatureChangeKeepsValid(s2, entity);
    }
  }

  /** Writing a value into a claimed slot's array and setting its bit keep the invariant. */
  lemma StoreAndSetKeepValid<V>(s: State<V>, b: nat, entity: EntityId, data: V)
    requires Valid(s) && b in s.components && entity < MaxEntityCount
    ensures Valid(SetBit(StoreComponent(s, b, entity, data), b, entity))
  {
    var s2 := SetBit(StoreComponent(s, b, entity, data), b, entity);
    assert SlotTableValid(s2.bitToComponent, s2.componentsAssigned, s2.components);
  }

  lemma RemoveKeepsValid<V>(s: State<V>, t: TypeId, entity: EntityId)
    requires Valid(s)
    ensures Valid(Remove(s, t, entity).1)
  {
    if HasComponentBit(s, t) && entity < MaxEntityCount {
      var b := GetComponentBit(s, t).value;
      if b in s.signatures[entity] {
        var s1 := ReleaseSlot(s, b);
        assert SlotTableValid(s1.bitToComponent, s1.componentsAssigned, s1.components);
        var s2 := ResetBit(s1, b, entity);
        assert SignaturesValid(s2.signatures);
        SignatureChangeKeepsValid(s2, entity);
      }
    }
  }

  lemma CreateViewKeepsValid<V>(s: State<V>, types: seq<TypeId>)
    requires Valid(s)
    ensures Valid(CreateView(s, types).1)
  {
    var signature := SetComponentBits(s, types);
    if signature.Ok? && !HasViewWith(s, signature.value) {
      CoveringOnChainInRange(s.entities, s.signatures, 0, signature.value);
      var r := CreateView(s, types).1;
      assert r.viewEntities.Keys == s.viewEntities.Keys + {s.viewCount};
      assert ViewsValid(r.viewCount, r.viewEntities, r.viewSignatures);
    }
  }

  /** The covering scan only yields slots at or after its start. */
  lemma {:induction false} CoveringOnChainInRange(entities: seq<Entity>, signatures: seq<Signature>,
                                                  k: nat, sig: Signature)
    requires ValidLinksForward(entities) && |signatures| == MaxEntityCount
    ensures forall e :: e in CoveringOnChain(entities, signatures, k, sig) ==> k <= e < MaxEntityCount
    decreases MaxEntityCount - k
  {
    if k < MaxEntityCount {
      CoveringOnChainInRange(entities, signatures, entities[k].nextValid, sig);
    }
  }

  lemma DestroyViewKeepsValid<V>(s: State<V>, view: nat)
    requires Valid(s)
    ensures Valid(DestroyView(s, view).1)
  {
    if view in s.viewSignatures {
      var r := DestroyView(s, view).1;
      assert r.viewEntities.Keys == s.viewEntities.Keys - {view};
      assert r.viewSignatures.Keys == s.viewSignatures.Keys - {view};
      assert ViewsValid(r.viewCount, r.viewEntities, r.viewSignatures);
      assert SlotTableValid(r.bitToComponent, r.componentsAssigned, r.components);
    }
  }
}
