/**
 * What the type-slot table and the component operations promise, stated on
 * `RegistryModel`: slot lookup and creation, signatures of type lists,
 * `assign`, `remove`, `get` and the copy constructor's holder counts.
 */
module ComponentLemmas {
  import opened EcsTypes
  import opened RegistryModel
  import RegistryInvariant
  import ViewLemmas

  // ---------------------------------------------------------------------
  // Type slots
  // ---------------------------------------------------------------------

  /**
   * `get_component_bit` succeeds exactly for a registered type, and the slot
   * it returns is the only one holding that type.
   */
  lemma GetComponentBitSpec<V>(s: State<V>, t: TypeId)
    requires Valid(s)
    ensures GetComponentBit(s, t).Ok? <==> HasComponentBit(s, t)
    ensures GetComponentBit(s, t).Err? ==> GetComponentBit(s, t).error == UnregisteredComponent
    ensures GetComponentBit(s, t).Ok? ==>
              forall c :: 0 <= c < MaxComponentCount && s.bitToComponent[c] == t ==> c == GetComponentBit(s, t).value
  {
  }

  /**
   * `create_component_bit` for an unregistered type claims the lowest free
   * slot, whose new array holds the value-initialised component for every
   * entity; afterwards the type resolves to that slot. With no free slot it
   * throws and changes nothing.
   */
  lemma CreateComponentBitSpec<V>(s: State<V>, t: TypeId, zero: V)
    requires Valid(s) && !HasComponentBit(s, t)
    ensures var (r, u) := CreateComponentBit(s, t, zero);
            && (r.Ok? <==> 0 in s.bitToComponent)
            && (r.Err? ==> r.error == OutOfRange && u == s)
            && (r.Ok? ==>
                  && s.bitToComponent[r.value] == 0
                  && (forall c :: 0 <= c < r.value ==> s.bitToComponent[c] != 0)
                  && Valid(u)
                  && GetComponentBit(u, t) == Ok(r.value)
                  && (forall e :: 0 <= e < MaxEntityCount ==> Get(u, t, e) == Ok(zero))
                  && (forall c :: 0 <= c < MaxComponentCount && c != r.value ==>
                        u.bitToComponent[c] == s.bitToComponent[c])
                  && (forall c :: c in s.components && c != r.value ==>
                        c in u.components && u.components[c] == s.components[c])
                  && u == s.(bitToComponent := u.bitToComponent, components := u.components))
  {
    var (r, u) := CreateComponentBit(s, t, zero);
    if r.Ok? {
      RegistryInvariant.CreateComponentBitKeepsValid(s, t, zero);
      assert u.bitToComponent[r.value] == t;
    }
  }

  /**
   * `set_component_bits` succeeds exactly when every listed type is
   * registered; its signature then holds exactly their slots. Otherwise it
   * throws for the first unregistered type.
   */
  lemma {:induction false} SetComponentBitsSpec<V>(s: State<V>, types: seq<TypeId>)
    requires |s.bitToComponent| == MaxComponentCount
    ensures SetComponentBits(s, types).Ok? <==> forall i :: 0 <= i < |types| ==> HasComponentBit(s, types[i])
    ensures SetComponentBits(s, types).Err? ==> SetComponentBits(s, types).error == UnregisteredComponent
    ensures SetComponentBits(s, types).Ok? ==>
              && SlotBits(SetComponentBits(s, types).value)
              && forall b :: b in SetComponentBits(s, types).value <==>
                   exists i :: 0 <= i < |types| && GetComponentBit(s, types[i]) == Ok(b)
  {
    if |types| > 0 {
      SetComponentBitsSpec(s, types[1..]);
      assert forall i :: 1 <= i < |types| ==> types[i] == types[1..][i - 1];
      var r := SetComponentBits(s, types);
      if r.Ok? {
        forall b | b in r.value
          ensures exists i :: 0 <= i < |types| && GetComponentBit(s, types[i]) == Ok(b)
        {
          if b != GetComponentBit(s, types[0]).value {
            var i :| 0 <= i < |types[1..]| && GetComponentBit(s, types[1..][i]) == Ok(b);
            assert GetComponentBit(s, types[i + 1]) == Ok(b);
          }
        }
        forall b | exists i :: 0 <= i < |types| && GetComponentBit(s, types[i]) == Ok(b)
          ensures b in r.value
        {
          var i :| 0 <= i < |types| && GetComponentBit(s, types[i]) == Ok(b);
          if i > 0 {
            assert GetComponentBit(s, types[1..][i - 1]) == Ok(b);
          }
        }
      }
    }
  }

  // ---------------------------------------------------------------------
  // assign
  // ---------------------------------------------------------------------

  /**
   * `assign` completes exactly when the entity index is in range and the
   * type is registered or a slot is free; every failure is `OutOfRange`. A
   * full table changes nothing, but an out-of-range entity throws only after
   * the slot was claimed and its holder count raised.
   */
  lemma AssignOutcome<V>(s: State<V>, t: TypeId, entity: EntityId, data: V, zero: V)
    requires Valid(s)
    ensures var (r, u) := Assign(s, t, entity, data, zero);
            && (r == Pass <==> entity < MaxEntityCount && (HasComponentBit(s, t) || 0 in s.bitToComponent))
            && (r != Pass ==> r == Fail(OutOfRange))
            && (!HasComponentBit(s, t) && 0 !in s.bitToComponent ==> u == s)
            && ((HasComponentBit(s, t) || 0 in s.bitToComponent) && entity >= MaxEntityCount ==>
                  && HasComponentBit(u, t)
                  && u.componentsAssigned[GetComponentBit(u, t).value] ==
                       Wrap32(s.componentsAssigned[GetComponentBit(u, t).value] + 1)
                  && u.signatures == s.signatures && u.viewEntities == s.viewEntities)
  {
    ClaimSlotSpec(s, t, zero);
  }

  /**
   * The slot part of `assign`: it fails only when the type is unregistered
   * and no slot is free; otherwise the type resolves to the returned slot
   * (its old slot if it had one), whose holder count is one higher, and
   * nothing outside the slot table changes.
   */
  lemma ClaimSlotSpec<V>(s: State<V>, t: TypeId, zero: V)
    requires Valid(s)
    ensures var (index, s1) := ClaimSlot(s, t, zero);
            && (index.Ok? <==> HasComponentBit(s, t) || 0 in s.bitToComponent)
            && (index.Err? ==> index.error == OutOfRange && s1 == s)
            && (index.Ok? ==>
                  && Valid(s1)
                  && GetComponentBit(s1, t) == index
                  && (HasComponentBit(s, t) ==> GetComponentBit(s, t) == index && s1.components == s.components
                                                && s1.bitToComponent == s.bitToComponent)
                  && (!HasComponentBit(s, t) ==> s1.components[index.value] == seq(MaxEntityCount, e => zero)
                                                 && s.componentsAssigned[index.value] == 0)
                  && s1.componentsAssigned[index.value] == Wrap32(s.componentsAssigned[index.value] + 1)
                  && s1 == s.(bitToComponent := s1.bitToComponent, componentsAssigned := s1.componentsAssigned,
                              components := s1.components))
    ensures var (index, s1) := ClaimSlot(s, t, zero);
            index.Ok? ==> (forall c :: 0 <= c < MaxComponentCount && c != index.value ==>
                  && s1.bitToComponent[c] == s.bitToComponent[c]
                  && s1.componentsAssigned[c] == s.componentsAssigned[c]
                  && (c in s.components ==> c in s1.components && s1.components[c] == s.components[c]))
  {
    RegistryInvariant.ClaimSlotKeepsValid(s, t, zero);
    var (index, s1) := ClaimSlot(s, t, zero);
    GetComponentBitSpec(s, t);
    if !HasComponentBit(s, t) {
      CreateComponentBitSpec(s, t, zero);
    }
    if index.Ok? {
      GetComponentBitSpec(s1, t);
    }
  }

  /**
   * After a completed `assign`: the entity reads back `data` and holds the
   * type's bit, no other entity's signature changes, the holder count is one
   * higher (a fresh slot starts from 0), a registered type keeps its slot
   * and every other entity's stored value, and a newly claimed slot reads
   * the value-initialised component for every other entity.
   */
  lemma AssignSpec<V>(s: State<V>, t: TypeId, entity: EntityId, data: V, zero: V)
    requires Valid(s) && Assign(s, t, entity, data, zero).0 == Pass
    ensures var u := Assign(s, t, entity, data, zero).1;
            && Valid(u) && HasComponentBit(u, t)
            && var b := GetComponentBit(u, t).value;
            && Get(u, t, entity) == Ok(data)
            && u.signatures[entity] == s.signatures[entity] + {b}
            && (forall k :: 0 <= k < MaxEntityCount && k != entity ==> u.signatures[k] == s.signatures[k])
            && u.componentsAssigned[b] == Wrap32(s.componentsAssigned[b] + 1)
            && (HasComponentBit(s, t) ==> GetComponentBit(s, t) == Ok(b))
            && (forall k :: 0 <= k < MaxEntityCount && k != entity ==>
                  Get(u, t, k) == if HasComponentBit(s, t) then Get(s, t, k) else Ok(zero))
    ensures var u := Assign(s, t, entity, data, zero).1;
            u == s.(signatures := u.signatures, componentsAssigned := u.componentsAssigned,
                    bitToComponent := u.bitToComponent, components := u.components,
                    viewEntities := u.viewEntities)
    ensures var u := Assign(s, t, entity, data, zero).1;
            && entity < MaxEntityCount && u.viewEntities.Keys == s.viewEntities.Keys
            && (forall v :: v in s.viewEntities ==>
                  (entity in u.viewEntities[v] <==> Covers(u.signatures[entity], s.viewSignatures[v])))
            && (forall v, e :: v in s.viewEntities && e != entity ==>
                  (e in u.viewEntities[v] <==> e in s.viewEntities[v]))
    ensures var u := Assign(s, t, entity, data, zero).1;
            var b := GetComponentBit(u, t).value;
            (forall c :: 0 <= c < MaxComponentCount && c != b ==>
                  && u.bitToComponent[c] == s.bitToComponent[c]
                  && u.componentsAssigned[c] == s.componentsAssigned[c]
                  && (c in s.components ==> c in u.components && u.components[c] == s.components[c]))
  {
    AssignReadsBack(s, t, entity, data, zero);
    AssignSyncsViews(s, t, entity, data, zero);
    AssignKeepsOtherSlots(s, t, entity, data, zero);
  }

  /** The slot, signature, count and value part of `AssignSpec`. */
  lemma AssignReadsBack<V>(s: State<V>, t: TypeId, entity: EntityId, data: V, zero: V)
    requires Valid(s) && Assign(s, t, entity, data, zero).0 == Pass
    ensures var u := Assign(s, t, entity, data, zero).1;
            && Valid(u) && HasComponentBit(u, t)
            && var b := GetComponentBit(u, t).value;
            && Get(u, t, entity) == Ok(data)
            && u.signatures[entity] == s.signatures[entity] + {b}
            && (forall k :: 0 <= k < MaxEntityCount && k != entity ==> u.signatures[k] == s.signatures[k])
            && u.componentsAssigned[b] == Wrap32(s.componentsAssigned[b] + 1)
            && (HasComponentBit(s, t) ==> GetComponentBit(s, t) == Ok(b))
            && (forall k :: 0 <= k < MaxEntityCount && k != entity ==>
                  Get(u, t, k) == if HasComponentBit(s, t) then Get(s, t, k) else Ok(zero))
  {
    RegistryInvariant.AssignKeepsValid(s, t, entity, data, zero);
    ClaimSlotSpec(s, t, zero);
    var (index, s1) := ClaimSlot(s, t, zero);
    var b := index.value;
    var s3 := SetBit(StoreComponent(s1, b, entity, data), b, entity);
    var u := Assign(s, t, entity, data, zero).1;
    assert u == s3.(viewEntities := u.viewEntities);
    assert u.bitToComponent == s1.bitToComponent;
    assert GetComponentBit(u, t) == index;
    assert u.components == s1.components[b := s1.components[b][entity := data]];
  }

  /** A completed `assign` leaves every slot but its own as it was: entry, count and array. */
  lemma AssignKeepsOtherSlots<V>(s: State<V>, t: TypeId, entity: EntityId, data: V, zero: V)
    requires Valid(s) && Assign(s, t, entity, data, zero).0 == Pass
    ensures Valid(Assign(s, t, entity, data, zero).1) && HasComponentBit(Assign(s, t, entity, data, zero).1, t)
    ensures var u := Assign(s, t, entity, data, zero).1;
            var b := GetComponentBit(u, t).value;
            (forall c :: 0 <= c < MaxComponentCount && c != b ==>
                  && u.bitToComponent[c] == s.bitToComponent[c]
                  && u.componentsAssigned[c] == s.componentsAssigned[c]
                  && (c in s.components ==> c in u.components && u.components[c] == s.components[c]))
  {
    RegistryInvariant.AssignKeepsValid(s, t, entity, data, zero);
    ClaimSlotSpec(s, t, zero);
    var (index, s1) := ClaimSlot(s, t, zero);
    var b := index.value;
    var s3 := SetBit(StoreComponent(s1, b, entity, data), b, entity);
    var u := Assign(s, t, entity, data, zero).1;
    assert u == s3.(viewEntities := u.viewEntities);
    assert GetComponentBit(u, t) == index;
  }

  /**
   * A completed `assign` changes only the signatures, the slot table, the
   * holder counts, the component arrays and view membership, and the views
   * follow the entity's new signature: it is a member of a view exactly when
   * that signature covers the view's, and every other member stays.
   */
  lemma AssignSyncsViews<V>(s: State<V>, t: TypeId, entity: EntityId, data: V, zero: V)
    requires Valid(s) && Assign(s, t, entity, data, zero).0 == Pass
    ensures var u := Assign(s, t, entity, data, zero).1;
            u == s.(signatures := u.signatures, componentsAssigned := u.componentsAssigned,
                    bitToComponent := u.bitToComponent, components := u.components,
                    viewEntities := u.viewEntities)
    ensures var u := Assign(s, t, entity, data, zero).1;
            && entity < MaxEntityCount && u.viewEntities.Keys == s.viewEntities.Keys
            && (forall v :: v in s.viewEntities ==>
                  (entity in u.viewEntities[v] <==> Covers(u.signatures[entity], s.viewSignatures[v])))
            && (forall v, e :: v in s.viewEntities && e != entity ==>
                  (e in u.viewEntities[v] <==> e in s.viewEntities[v]))
  {
    ClaimSlotSpec(s, t, zero);
    var (index, s1) := ClaimSlot(s, t, zero);
    var b := index.value;
    var s3 := SetBit(StoreComponent(s1, b, entity, data), b, entity);
    ViewLemmas.SignatureChangeSpec(s3, entity);
  }

  /**
   * Re-assigning a type the entity already holds overwrites the value and
   * leaves every signature unchanged, though the holder count still rises.
   */
  lemma ReassignKeepsSignatures<V>(s: State<V>, t: TypeId, entity: EntityId, data: V, zero: V)
    requires Valid(s) && HasComponentBit(s, t) && entity < MaxEntityCount
    requires GetComponentBit(s, t).value in s.signatures[entity]
    ensures var u := Assign(s, t, entity, data, zero).1;
            && Valid(u) && u.signatures == s.signatures && Get(u, t, entity) == Ok(data)
            && GetComponentBit(u, t) == GetComponentBit(s, t)
            && u.componentsAssigned[GetComponentBit(s, t).value] ==
                 Wrap32(s.componentsAssigned[GetComponentBit(s, t).value] + 1)
  {
    AssignOutcome(s, t, entity, data, zero);
    AssignSpec(s, t, entity, data, zero);
    var u := Assign(s, t, entity, data, zero).1;
    var b := GetComponentBit(s, t).value;
    assert s.signatures[entity] + {b} == s.signatures[entity];
    assert u.signatures == s.signatures;
  }

  /**
   * `assign` does not disturb another type: its slot, and every value
   * stored for it, stay as they were.
   */
  lemma AssignKeepsOtherTypes<V>(s: State<V>, t: TypeId, entity: EntityId, data: V, zero: V,
                                  other: TypeId, k: EntityId)
    requires Valid(s) && other != t && HasComponentBit(s, other)
    ensures Valid(Assign(s, t, entity, data, zero).1)
    ensures var u := Assign(s, t, entity, data, zero).1;
            GetComponentBit(u, other) == GetComponentBit(s, other) && Get(u, other, k) == Get(s, other, k)
  {
    RegistryInvariant.AssignKeepsValid(s, t, entity, data, zero);
    GetComponentBitSpec(s, other);
    var bo := GetComponentBit(s, other).value;
    AssignKeepsSlot(s, t, entity, data, zero, bo);
    var u := Assign(s, t, entity, data, zero).1;
    GetComponentBitSpec(u, other);
  }

  /** A slot claimed by another type keeps its entry and its array through `assign`. */
  lemma AssignKeepsSlot<V>(s: State<V>, t: TypeId, entity: EntityId, data: V, zero: V, c: nat)
    requires Valid(s) && c < MaxComponentCount && s.bitToComponent[c] != 0 && s.bitToComponent[c] != t
    ensures var u := Assign(s, t, entity, data, zero).1;
            && |u.bitToComponent| == MaxComponentCount && u.bitToComponent[c] == s.bitToComponent[c]
            && c in u.components && u.components[c] == s.components[c]
  {
    var (index, s0) := ResolveSlot(s, t, zero);
    if index.Ok? {
      assert s0.bitToComponent[c] == s.bitToComponent[c] && s0.components[c] == s.components[c];
      var s1 := CountHolder(s0, index.value);
      assert index.value != c;
      if entity < MaxEntityCount {
        var s3 := SetBit(StoreComponent(s1, index.value, entity, data), index.value, entity);
        assert s3.components[c] == s.components[c];
      }
    }
  }

  /**
   * Assigning a new type to the same entity twice counts two holders, so one
   * `remove` leaves the slot registered with a count of 1 although the
   * entity no longer holds the type.
   */
  lemma AssignTwiceThenRemove<V>(s: State<V>, t: TypeId, entity: EntityId, d1: V, d2: V, zero: V)
    requires Valid(s) && !HasComponentBit(s, t) && 0 in s.bitToComponent && entity < MaxEntityCount
    ensures Valid(Assign(s, t, entity, d1, zero).1) && HasComponentBit(Assign(s, t, entity, d1, zero).1, t)
    ensures Valid(Assign(Assign(s, t, entity, d1, zero).1, t, entity, d2, zero).1)
    ensures var u1 := Assign(s, t, entity, d1, zero).1;
            var b := GetComponentBit(u1, t).value;
            var u2 := Assign(u1, t, entity, d2, zero).1;
            && u2.componentsAssigned[b] == 2
            && Remove(u2, t, entity).0 == Pass
            && var u3 := Remove(u2, t, entity).1;
            && HasComponentBit(u3, t) && u3.componentsAssigned[b] == 1 && b !in u3.signatures[entity]
  {
    AssignOutcome(s, t, entity, d1, zero);
    AssignSpec(s, t, entity, d1, zero);
    var u1 := Assign(s, t, entity, d1, zero).1;
    var b := GetComponentBit(u1, t).value;
    AssignOutcome(u1, t, entity, d2, zero);
    AssignSpec(u1, t, entity, d2, zero);
    var u2 := Assign(u1, t, entity, d2, zero).1;
    RemoveSpec(u2, t, entity);
  }

  // ---------------------------------------------------------------------
  // remove
  // ---------------------------------------------------------------------

  /**
   * `remove` completes exactly when the type is registered, the entity index
   * is in range and the entity holds the type's bit. Every failure leaves the
   * registry as it was: an unregistered type or a missing bit reports an
   * unassigned component, an entity index out of range `OutOfRange`.
   */
  lemma RemoveOutcome<V>(s: State<V>, t: TypeId, entity: EntityId)
    requires Valid(s)
    ensures var (r, u) := Remove(s, t, entity);
            && (r == Pass <==> HasComponentBit(s, t) && entity < MaxEntityCount
                               && GetComponentBit(s, t).value in s.signatures[entity])
            && (r != Pass ==> u == s)
            && (!HasComponentBit(s, t) ==> r == Fail(UnassignedComponent))
            && (HasComponentBit(s, t) && entity >= MaxEntityCount ==> r == Fail(OutOfRange))
            && ((HasComponentBit(s, t) && entity < MaxEntityCount
                 && GetComponentBit(s, t).value !in s.signatures[entity]) ==> r == Fail(UnassignedComponent))
  {
    GetComponentBitSpec(s, t);
  }

  /**
   * After a completed `remove`: the entity's bit is cleared and no other
   * signature changes, the holder count is one lower, and when the last
   * holder goes the slot is freed, so the type is unregistered again and
   * `get` throws for every entity. While holders remain the slot and all
   * stored values stay, including the removed entity's (a later `get`
   * still reads it).
   */
  lemma RemoveSpec<V>(s: State<V>, t: TypeId, entity: EntityId)
    requires Valid(s) && Remove(s, t, entity).0 == Pass
    ensures HasComponentBit(s, t)
    ensures var b := GetComponentBit(s, t).value;
            var u := Remove(s, t, entity).1;
            && Valid(u)
            && u.signatures == s.signatures[entity := s.signatures[entity] - {b}]
            && b !in u.signatures[entity]
            && u.componentsAssigned[b] == Wrap32(s.componentsAssigned[b] as int - 1)
            && (s.componentsAssigned[b] == 1 ==>
                  && u.bitToComponent[b] == 0 && b !in u.components
                  && !HasComponentBit(u, t) && forall k :: Get(u, t, k) == Err(UnregisteredComponent))
            && (s.componentsAssigned[b] != 1 ==>
                  GetComponentBit(u, t) == Ok(b) && u.components == s.components
                  && forall k :: Get(u, t, k) == Get(s, t, k))
            && (forall c :: 0 <= c < MaxComponentCount && c != b ==>
                  && u.bitToComponent[c] == s.bitToComponent[c]
                  && u.componentsAssigned[c] == s.componentsAssigned[c]
                  && (c in s.components ==> c in u.components && u.components[c] == s.components[c]))
    ensures var u := Remove(s, t, entity).1;
            u == s.(signatures := u.signatures, componentsAssigned := u.componentsAssigned,
                    bitToComponent := u.bitToComponent, components := u.components,
                    viewEntities := u.viewEntities)
    ensures var u := Remove(s, t, entity).1;
            && entity < MaxEntityCount && u.viewEntities.Keys == s.viewEntities.Keys
            && (forall v :: v in s.viewEntities ==>
                  (entity in u.viewEntities[v] <==> Covers(u.signatures[entity], s.viewSignatures[v])))
            && (forall v, e :: v in s.viewEntities && e != entity ==>
                  (e in u.viewEntities[v] <==> e in s.viewEntities[v]))
  {
    RemoveSyncsViews(s, t, entity);
    RemoveOutcome(s, t, entity);
    RegistryInvariant.RemoveKeepsValid(s, t, entity);
    GetComponentBitSpec(s, t);
    var b := GetComponentBit(s, t).value;
    var s1 := ResetBit(ReleaseSlot(s, b), b, entity);
    var u := Remove(s, t, entity).1;
    assert u == s1.(viewEntities := u.viewEntities);
    GetComponentBitSpec(u, t);
    if s.componentsAssigned[b] == 1 {
      assert u.bitToComponent == s.bitToComponent[b := 0];
    } else {
      assert u.bitToComponent == s.bitToComponent;
    }
  }

  /**
   * A completed `remove` changes only the signatures, the slot table, the
   * holder counts, the component arrays and view membership, and the views
   * follow the entity's new signature: it is a member of a view exactly when
   * that signature covers the view's, and every other member stays.
   */
  lemma RemoveSyncsViews<V>(s: State<V>, t: TypeId, entity: EntityId)
    requires Valid(s) && Remove(s, t, entity).0 == Pass
    ensures var u := Remove(s, t, entity).1;
            u == s.(signatures := u.signatures, componentsAssigned := u.componentsAssigned,
                    bitToComponent := u.bitToComponent, components := u.components,
                    viewEntities := u.viewEntities)
    ensures var u := Remove(s, t, entity).1;
            && entity < MaxEntityCount && u.viewEntities.Keys == s.viewEntities.Keys
            && (forall v :: v in s.viewEntities ==>
                  (entity in u.viewEntities[v] <==> Covers(u.signatures[entity], s.viewSignatures[v])))
            && (forall v, e :: v in s.viewEntities && e != entity ==>
                  (e in u.viewEntities[v] <==> e in s.viewEntities[v]))
  {
    RemoveOutcome(s, t, entity);
    var b := GetComponentBit(s, t).value;
    var s1 := ResetBit(ReleaseSlot(s, b), b, entity);
    ViewLemmas.SignatureChangeSpec(s1, entity);
  }

  /**
   * Removing the last holder frees the slot: a type registered afterwards
   * claims it again (when every lower slot is taken) with a fresh array, so
   * none of the old type's values can be read through the new one.
   */
  lemma FreedSlotIsReused<V>(s: State<V>, t: TypeId, entity: EntityId, t2: TypeId, zero: V)
    requires Valid(s) && Remove(s, t, entity).0 == Pass && !HasComponentBit(s, t2) && t2 != t
    requires HasComponentBit(s, t) && s.componentsAssigned[GetComponentBit(s, t).value] == 1
    requires forall c :: 0 <= c < GetComponentBit(s, t).value ==> s.bitToComponent[c] != 0
    ensures Valid(Remove(s, t, entity).1)
    ensures var u := Remove(s, t, entity).1;
            var (r, w) := CreateComponentBit(u, t2, zero);
            && !HasComponentBit(u, t2) && r == Ok(GetComponentBit(s, t).value)
            && Valid(w) && forall k :: 0 <= k < MaxEntityCount ==> Get(w, t2, k) == Ok(zero)
  {
    RemoveSpec(s, t, entity);
    var b := GetComponentBit(s, t).value;
    var u := Remove(s, t, entity).1;
    assert u.bitToComponent == s.bitToComponent[b := 0];
    assert !HasComponentBit(u, t2);
    assert 0 in u.bitToComponent;
    CreateComponentBitSpec(u, t2, zero);
  }

  /**
   * The copy constructor starts every holder count at zero, so the first
   * `remove` of a type on the copy wraps its count to 2^32 - 1 and the slot
   * is never freed.
   */
  lemma RemoveOnCopyWraps<V>(s: State<V>, t: TypeId, entity: EntityId)
    requires Valid(s) && HasComponentBit(s, t) && entity < MaxEntityCount
    requires GetComponentBit(s, t).value in s.signatures[entity]
    ensures var c := Copy(s);
            && Valid(c) && Remove(c, t, entity).0 == Pass
            && var u := Remove(c, t, entity).1;
            && HasComponentBit(u, t)
            && u.componentsAssigned[GetComponentBit(s, t).value] == Uint32Modulus - 1
  {
    RegistryInvariant.CopyValid(s);
    var c := Copy(s);
    assert GetComponentBit(c, t) == GetComponentBit(s, t);
    RemoveOutcome(c, t, entity);
    RemoveSpec(c, t, entity);
  }

  // ---------------------------------------------------------------------
  // get and the copy constructor
  // ---------------------------------------------------------------------

  /**
   * `get` succeeds exactly for a registered type and an entity index in
   * range, and then reads that entity's entry in the type's array; an
   * unregistered type throws from the slot lookup, an index beyond the table
   * with `OutOfRange`.
   */
  lemma GetOutcome<V>(s: State<V>, t: TypeId, entity: EntityId)
    requires Valid(s)
    ensures Get(s, t, entity).Ok? <==> HasComponentBit(s, t) && entity < MaxEntityCount
    ensures !HasComponentBit(s, t) ==> Get(s, t, entity) == Err(UnregisteredComponent)
    ensures HasComponentBit(s, t) && entity >= MaxEntityCount ==> Get(s, t, entity) == Err(OutOfRange)
    ensures Get(s, t, entity).Ok? ==>
              Get(s, t, entity).value == s.components[GetComponentBit(s, t).value][entity]
  {
    GetComponentBitSpec(s, t);
  }

  /**
   * `get` does not look at the entity's signature: after any entity's
   * `remove` of a type that still has other holders, `get` returns the value
   * it returned before.
   */
  lemma GetIgnoresBit<V>(s: State<V>, t: TypeId, entity: EntityId)
    requires Valid(s) && HasComponentBit(s, t) && entity < MaxEntityCount
    requires GetComponentBit(s, t).value in s.signatures[entity]
    requires s.componentsAssigned[GetComponentBit(s, t).value] > 1
    ensures var u := Remove(s, t, entity).1;
            && Remove(s, t, entity).0 == Pass
            && Valid(u) && GetComponentBit(u, t).value !in u.signatures[entity]
            && Get(u, t, entity) == Get(s, t, entity) && Get(u, t, entity).Ok?
  {
    RemoveOutcome(s, t, entity);
    RemoveSpec(s, t, entity);
    GetOutcome(s, t, entity);
  }

  /**
   * The copy constructor copies entities, signatures, views, slot table and
   * every component array, but not the holder counts: the copy answers
   * `get`, `get_entities` and `create_entity` like the original while every
   * count is zero.
   */
  lemma CopySpec<V>(s: State<V>, t: TypeId, k: EntityId, view: nat)
    requires Valid(s)
    ensures var c := Copy(s);
            && Valid(c)
            && (forall b :: 0 <= b < MaxComponentCount ==> c.componentsAssigned[b] == 0)
            && Get(c, t, k) == Get(s, t, k)
            && GetEntities(c, view) == GetEntities(s, view)
            && FreeList(c) == FreeList(s)
            && CreateEntity(c).0 == CreateEntity(s).0
            && c == s.(componentsAssigned := c.componentsAssigned)
  {
    RegistryInvariant.CopyValid(s);
  }
}
