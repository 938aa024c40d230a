/**
 * The promise of the view cache: every member of every view has a
 * signature covering the view's. `create_view`, `destroy_view`, `assign`,
 * `remove`, `create_entity` and the copy constructor keep it;
 * `destroy_entity` does not (see `AllocatorLemmas.DestroyLeavesStaleMembers`).
 */
module ViewCoverage {
  import opened EcsTypes
  import opened RegistryModel
  import RegistryInvariant
  import ViewLemmas
  import ComponentLemmas

  /** A fresh registry has no views. */
  lemma InitCovered<V>()
    ensures Valid(Init<V>()) && MembersCovered(Init<V>())
  {
    RegistryInvariant.InitValid<V>();
  }

  /**
   * Notifying the views of one entity's new signature restores the promise
   * when that entity was the only member that could break it.
   */
  lemma SignatureChangeRestoresCover<V>(s: State<V>, entity: EntityId)
    requires Valid(s) && entity < MaxEntityCount
    requires forall v, e :: v in s.viewEntities && e in s.viewEntities[v] && e != entity ==>
               Covers(s.signatures[e], s.viewSignatures[v])
    ensures Valid(OnEntitySignatureChange(s, entity))
    ensures MembersCovered(OnEntitySignatureChange(s, entity))
  {
    RegistryInvariant.SignatureChangeKeepsValid(s, entity);
    ViewLemmas.SignatureChangeSpec(s, entity);
  }

  lemma CreateViewKeepsCovered<V>(s: State<V>, types: seq<TypeId>)
    requires Valid(s) && MembersCovered(s)
    ensures Valid(CreateView(s, types).1) && MembersCovered(CreateView(s, types).1)
  {
    RegistryInvariant.CreateViewKeepsValid(s, types);
    ViewLemmas.CreateViewSpec(s, types);
  }

  lemma DestroyViewKeepsCovered<V>(s: State<V>, view: nat)
    requires Valid(s) && MembersCovered(s)
    ensures Valid(DestroyView(s, view).1) && MembersCovered(DestroyView(s, view).1)
  {
    RegistryInvariant.DestroyViewKeepsValid(s, view);
  }

  lemma CreateEntityKeepsCovered<V>(s: State<V>)
    requires Valid(s) && MembersCovered(s)
    ensures Valid(CreateEntity(s).1) && MembersCovered(CreateEntity(s).1)
  {
    RegistryInvariant.CreateEntityKeepsValid(s);
  }

  lemma CopyKeepsCovered<V>(s: State<V>)
    requires Valid(s) && MembersCovered(s)
    ensures Valid(Copy(s)) && MembersCovered(Copy(s))
  {
    RegistryInvariant.CopyValid(s);
  }

  lemma AssignKeepsCovered<V>(s: State<V>, t: TypeId, entity: EntityId, data: V, zero: V)
    requires Valid(s) && MembersCovered(s)
    ensures Valid(Assign(s, t, entity, data, zero).1) && MembersCovered(Assign(s, t, entity, data, zero).1)
  {
    RegistryInvariant.AssignKeepsValid(s, t, entity, data, zero);
    RegistryInvariant.ClaimSlotKeepsValid(s, t, zero);
    var (index, s1) := ClaimSlot(s, t, zero);
    if index.Ok? && entity < MaxEntityCount {
      StoreAndSetKeepsCovered(s1, index.value, entity, data);
    }
  }

  /** The part of `assign` after the slot is claimed leaves the promise intact. */
  lemma StoreAndSetKeepsCovered<V>(s: State<V>, b: nat, entity: EntityId, data: V)
    requires Valid(s) && MembersCovered(s) && b in s.components && entity < MaxEntityCount
    ensures var s2 := SetBit(StoreComponent(s, b, entity, data), b, entity);
            Valid(OnEntitySignatureChange(s2, entity)) && MembersCovered(OnEntitySignatureChange(s2, entity))
  {
    RegistryInvariant.StoreAndSetKeepValid(s, b, entity, data);
    var s2 := SetBit(StoreComponent(s, b, entity, data), b, entity);
    SignatureChangeRestoresCover(s2, entity);
  }

  lemma RemoveKeepsCovered<V>(s: State<V>, t: TypeId, entity: EntityId)
    requires Valid(s) && MembersCovered(s)
    ensures Valid(Remove(s, t, entity).1) && MembersCovered(Remove(s, t, entity).1)
  {
    RegistryInvariant.RemoveKeepsValid(s, t, entity);
    if HasComponentBit(s, t) && entity < MaxEntityCount {
      var b := GetComponentBit(s, t).value;
      if b in s.signatures[entity] {
        var s1 := ReleaseSlot(s, b);
        assert SlotTableValid(s1.bitToComponent, s1.componentsAssigned, s1.components);
        var s2 := ResetBit(s1, b, entity);
        assert SignaturesValid(s2.signatures);
        SignatureChangeRestoresCover(s2, entity);
      }
    }
  }
}
