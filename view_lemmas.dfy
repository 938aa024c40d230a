/**
 * What `create_view`, `destroy_view`, `get_entities` and
 * `on_entity_signature_change` promise, stated on `RegistryModel`.
 */
module ViewLemmas {
  import opened EcsTypes
  import opened RegistryModel
  import RegistryInvariant

  /** A signature already cached returns the live view that holds it, and nothing changes. */
  lemma CreateViewReturnsExisting<V>(s: State<V>, types: seq<TypeId>, v: nat)
    requires Valid(s)
    requires SetComponentBits(s, types).Ok?
    requires v in s.viewSignatures && s.viewSignatures[v] == SetComponentBits(s, types).value
    ensures CreateView(s, types) == (Ok(v), s)
  {
    var w :| w in s.viewSignatures && s.viewSignatures[w] == SetComponentBits(s, types).value;
    assert CreateView(s, types).0 == Ok(w);
  }

  /**
   * A signature not cached yet gets the next view id, whose members are the
   * covering entities found by the scan of the valid chain.
   */
  lemma CreateViewIssuesNextId<V>(s: State<V>, types: seq<TypeId>)
    requires Valid(s)
    requires SetComponentBits(s, types).Ok?
    requires forall v :: v in s.viewSignatures ==> s.viewSignatures[v] != SetComponentBits(s, types).value
    ensures var sig := SetComponentBits(s, types).value;
            CreateView(s, types) ==
              (Ok(s.viewCount), s.(viewCount := s.viewCount + 1,
                                   viewSignatures := s.viewSignatures[s.viewCount := sig],
                                   viewEntities := s.viewEntities[s.viewCount := ViewMembers(s, sig)]))
  {
  }

  /**
   * `create_view` fails exactly when a listed type is unregistered, and then
   * changes nothing. Otherwise the returned id is live with the requested
   * signature: either an existing view, returned with nothing changed, or
   * the next id, never live before, whose members are exactly the entities
   * on the valid chain whose signature covers the view's. Existing views are
   * kept, the id counter never goes down, and only the view cache changes.
   */
  lemma CreateViewSpec<V>(s: State<V>, types: seq<TypeId>)
    requires Valid(s)
    ensures var (r, u) := CreateView(s, types);
            && (r.Err? <==> SetComponentBits(s, types).Err?)
            && (r.Err? ==> r.error == SetComponentBits(s, types).error && u == s)
            && (r.Ok? ==>
                  var sig := SetComponentBits(s, types).value;
                  && r.value in u.viewSignatures && u.viewSignatures[r.value] == sig
                  && (HasViewWith(s, sig) ==> u == s)
                  && (!HasViewWith(s, sig) ==>
                        && r.value == s.viewCount && r.value !in s.viewSignatures
                        && u.viewCount == s.viewCount + 1
                        && (forall e :: e in u.viewEntities[r.value] <==>
                              e in ValidChain(s.entities, 0) && Covers(s.signatures[e], sig))))
            && s.viewCount <= u.viewCount
            && (forall v :: v in s.viewSignatures ==>
                  && v in u.viewSignatures && u.viewSignatures[v] == s.viewSignatures[v]
                  && u.viewEntities[v] == s.viewEntities[v])
            && u == s.(viewCount := u.viewCount, viewSignatures := u.viewSignatures,
                       viewEntities := u.viewEntities)
  {
    var signature := SetComponentBits(s, types);
    if signature.Ok? {
      var sig := signature.value;
      if HasViewWith(s, sig) {
        var v :| v in s.viewSignatures && s.viewSignatures[v] == sig;
        CreateViewReturnsExisting(s, types, v);
      } else {
        CreateViewIssuesNextId(s, types);
        CoveringOnChainSpec(s.entities, s.signatures, 0, sig);
      }
    }
  }

  /**
   * The scan of `create_view` finds exactly the entities on the valid chain
   * from `k` whose signature covers `sig`.
   */
  lemma {:induction false} CoveringOnChainSpec(entities: seq<Entity>, signatures: seq<Signature>,
                                               k: nat, sig: Signature)
    requires ValidLinksForward(entities) && |signatures| == MaxEntityCount
    ensures forall e :: e in CoveringOnChain(entities, signatures, k, sig) <==>
              e in ValidChain(entities, k) && Covers(signatures[e], sig)
    decreases MaxEntityCount - k
  {
    if k < MaxEntityCount {
      CoveringOnChainSpec(entities, signatures, entities[k].nextValid, sig);
    }
  }

  /**
   * Asking for the same view twice returns the same id the second time and
   * changes nothing more.
   */
  lemma CreateViewIdempotent<V>(s: State<V>, types: seq<TypeId>)
    requires Valid(s)
    ensures Valid(CreateView(s, types).1)
    ensures var (r, u) := CreateView(s, types);
            CreateView(u, types) == (r, u)
  {
    RegistryInvariant.CreateViewKeepsValid(s, types);
    CreateViewSpec(s, types);
    var (r, u) := CreateView(s, types);
    assert SetComponentBits(u, types) == SetComponentBits(s, types) by {
      SetComponentBitsSameTable(s, u, types);
    }
    if r.Ok? {
      CreateViewReturnsExisting(u, types, r.value);
    }
  }

  /** The signature of a type list depends only on the slot table. */
  lemma {:induction false} SetComponentBitsSameTable<V>(s: State<V>, u: State<V>, types: seq<TypeId>)
    requires |s.bitToComponent| == MaxComponentCount && u.bitToComponent == s.bitToComponent
    ensures SetComponentBits(u, types) == SetComponentBits(s, types)
  {
    if |types| > 0 {
      SetComponentBitsSameTable(s, u, types[1..]);
    }
  }

  /**
   * `on_entity_signature_change` touches only view membership, and only the
   * entity's own: it is a member of a view afterwards exactly when its
   * signature covers the view's, and every other member stays as it was.
   */
  lemma SignatureChangeSpec<V>(s: State<V>, entity: EntityId)
    requires entity < |s.signatures| && s.viewEntities.Keys == s.viewSignatures.Keys
    ensures var u := OnEntitySignatureChange(s, entity);
            && u == s.(viewEntities := u.viewEntities)
            && u.viewEntities.Keys == s.viewEntities.Keys
            && (forall v :: v in s.viewEntities ==>
                  (entity in u.viewEntities[v] <==> Covers(s.signatures[entity], s.viewSignatures[v])))
            && (forall v, e :: v in s.viewEntities && e != entity ==>
                  (e in u.viewEntities[v] <==> e in s.viewEntities[v]))
  {
  }

  /**
   * `destroy_view` completes exactly for a live view and then forgets it
   * alone: `get_entities` and a second `destroy_view` on it fail, every
   * other view is kept and the id counter is unchanged. An unknown id
   * throws with no change.
   */
  lemma DestroyViewSpec<V>(s: State<V>, view: nat)
    requires Valid(s)
    ensures var (r, u) := DestroyView(s, view);
            && (r == Pass <==> view in s.viewSignatures)
            && (r != Pass ==> r == Fail(NonExistentView) && u == s)
            && GetEntities(u, view) == Err(OutOfRange)
            && DestroyView(u, view).0 == Fail(NonExistentView)
            && (forall w :: w != view ==> GetEntities(u, w) == GetEntities(s, w))
            && u.viewCount == s.viewCount
  {
  }

  /**
   * `get_entities` answers exactly for live views, with their members, and
   * throws `OutOfRange` for any other id.
   */
  lemma GetEntitiesSpec<V>(s: State<V>, view: nat)
    requires Valid(s)
    ensures GetEntities(s, view).Ok? <==> view in s.viewSignatures
    ensures GetEntities(s, view).Err? ==> GetEntities(s, view).error == OutOfRange
    ensures GetEntities(s, view).Ok? ==>
              forall e :: e in GetEntities(s, view).value ==> e < MaxEntityCount
  {
  }

  /**
   * View ids are never reused: once a view is destroyed, a later
   * `create_view`, whatever its types, never returns that id again.
   */
  lemma DestroyedViewIdNotReissued<V>(s: State<V>, view: nat, types: seq<TypeId>)
    requires Valid(s) && DestroyView(s, view).0 == Pass
    ensures Valid(DestroyView(s, view).1)
    ensures CreateView(DestroyView(s, view).1, types).0 != Ok(view)
  {
    RegistryInvariant.DestroyViewKeepsValid(s, view);
    var u := DestroyView(s, view).1;
    CreateViewSpec(u, types);
  }
}
