/**
 * View ids are drawn from `m_view_count`, which only goes up, and a
 * destroyed view's id is never handed out again: it stays retired through
 * any sequence of registry operations.
 */
module ViewIds {
  import opened EcsTypes
  import opened RegistryModel
  import RegistryInvariant
  import ViewLemmas
  import ComponentLemmas

  /** An id that was issued once (below the counter) and is no longer live. */
  ghost predicate Retired<V>(s: State<V>, v: nat) {
    v < s.viewCount && v !in s.viewSignatures
  }

  /** One call of a public operation of the registry that changes its state. */
  datatype Op<V> =
    | CreateEntityOp
    | DestroyEntityOp(entity: EntityId)
    | AssignOp(t: TypeId, entity: EntityId, data: V)
    | RemoveOp(t: TypeId, entity: EntityId)
    | CreateViewOp(types: seq<TypeId>)
    | DestroyViewOp(view: nat)
    | CopyOp

  /**
   * The state after one operation, whether it completes or throws; `zero` is
   * the value-initialised component of a newly registered type.
   */
  ghost function Apply<V>(s: State<V>, op: Op<V>, zero: V): (r: State<V>)
    requires Valid(s)
    ensures Valid(r)
  {
    match op
    case CreateEntityOp =>
      RegistryInvariant.CreateEntityKeepsValid(s); CreateEntity(s).1
    case DestroyEntityOp(entity) =>
      RegistryInvariant.DestroyEntityKeepsValid(s, entity); DestroyEntity(s, entity).1
    case AssignOp(t, entity, data) =>
      RegistryInvariant.AssignKeepsValid(s, t, entity, data, zero); Assign(s, t, entity, data, zero).1
    case RemoveOp(t, entity) =>
      RegistryInvariant.RemoveKeepsValid(s, t, entity); Remove(s, t, entity).1
    case CreateViewOp(types) =>
      RegistryInvariant.CreateViewKeepsValid(s, types); CreateView(s, types).1
    case DestroyViewOp(view) =>
      RegistryInvariant.DestroyViewKeepsValid(s, view); DestroyView(s, view).1
    case CopyOp =>
      RegistryInvariant.CopyValid(s); Copy(s)
  }

  /** The state after a sequence of operations, applied from the first. */
  ghost function Run<V>(s: State<V>, ops: seq<Op<V>>, zero: V): (r: State<V>)
    requires Valid(s)
    ensures Valid(r)
    decreases |ops|
  {
    if |ops| == 0 then s else Run(Apply(s, ops[0], zero), ops[1..], zero)
  }

  /** `destroy_view` of a live view retires its id. */
  lemma DestroyViewRetires<V>(s: State<V>, view: nat)
    requires Valid(s) && view in s.viewSignatures
    ensures DestroyView(s, view).0 == Pass && Retired(DestroyView(s, view).1, view)
  {
  }

  /** `create_view` never returns a retired id, and a retired id stays retired. */
  lemma CreateViewAvoidsRetired<V>(s: State<V>, types: seq<TypeId>, v: nat)
    requires Valid(s) && Retired(s, v)
    ensures CreateView(s, types).0 != Ok(v)
    ensures Retired(CreateView(s, types).1, v)
  {
    ViewLemmas.CreateViewSpec(s, types);
    var signature := SetComponentBits(s, types);
    if signature.Ok? && !HasViewWith(s, signature.value) {
      ViewLemmas.CreateViewIssuesNextId(s, types);
    }
  }

  /** `assign`, completed or not, leaves the view cache and the counter alone. */
  lemma AssignKeepsViewIds<V>(s: State<V>, t: TypeId, entity: EntityId, data: V, zero: V)
    requires Valid(s)
    ensures var u := Assign(s, t, entity, data, zero).1;
            u.viewCount == s.viewCount && u.viewSignatures == s.viewSignatures
  {
    if Assign(s, t, entity, data, zero).0 == Pass {
      ComponentLemmas.AssignSyncsViews(s, t, entity, data, zero);
    }
  }

  /** `remove`, completed or not, leaves the view cache and the counter alone. */
  lemma RemoveKeepsViewIds<V>(s: State<V>, t: TypeId, entity: EntityId)
    requires Valid(s)
    ensures var u := Remove(s, t, entity).1;
            u.viewCount == s.viewCount && u.viewSignatures == s.viewSignatures
  {
    ComponentLemmas.RemoveOutcome(s, t, entity);
    if Remove(s, t, entity).0 == Pass {
      ComponentLemmas.RemoveSyncsViews(s, t, entity);
    }
  }

  /** Every operation keeps a retired id retired. */
  lemma ApplyKeepsRetired<V>(s: State<V>, op: Op<V>, zero: V, v: nat)
    requires Valid(s) && Retired(s, v)
    ensures Retired(Apply(s, op, zero), v)
  {
    match op
    case CreateEntityOp =>
    case DestroyEntityOp(entity) =>
      if entity < MaxEntityCount && InsertFree(s, entity).Ok? {
        assert InsertFree(s, entity).value.viewSignatures == s.viewSignatures;
      }
    case AssignOp(t, entity, data) => AssignKeepsViewIds(s, t, entity, data, zero);
    case RemoveOp(t, entity) => RemoveKeepsViewIds(s, t, entity);
    case CreateViewOp(types) => CreateViewAvoidsRetired(s, types, v);
    case DestroyViewOp(view) =>
    case CopyOp =>
  }

  /** A retired id stays retired through any sequence of operations. */
  lemma {:induction false} RunKeepsRetired<V>(s: State<V>, ops: seq<Op<V>>, zero: V, v: nat)
    requires Valid(s) && Retired(s, v)
    ensures Retired(Run(s, ops, zero), v)
    decreases |ops|
  {
    if |ops| > 0 {
      ApplyKeepsRetired(s, ops[0], zero, v);
      RunKeepsRetired(Apply(s, ops[0], zero), ops[1..], zero, v);
    }
  }

  /**
   * View ids are never reused: after a view is destroyed, whatever the
   * registry does next, no `create_view` returns that id again.
   */
  lemma DestroyedViewIdNeverReissued<V>(s: State<V>, view: nat, ops: seq<Op<V>>, zero: V,
                                        types: seq<TypeId>)
    requires Valid(s) && view in s.viewSignatures
    ensures Valid(DestroyView(s, view).1)
    ensures CreateView(Run(DestroyView(s, view).1, ops, zero), types).0 != Ok(view)
  {
    RegistryInvariant.DestroyViewKeepsValid(s, view);
    DestroyViewRetires(s, view);
    RunKeepsRetired(DestroyView(s, view).1, ops, zero, view);
    CreateViewAvoidsRetired(Run(DestroyView(s, view).1, ops, zero), types, view);
  }
}
