/**
 * What `create_entity` and `destroy_entity` do to the free list and the
 * valid chain, stated on `RegistryModel`: ids are issued from the free-list
 * head in order, a destroyed id below the head is reissued next, and the
 * quirks of the source are shown as they are (a destroyed id at or above the
 * head is not reissued by any run of `create_entity`, destroying the free head drops its successor, the
 * first and last slots cannot be destroyed cleanly, and `prevValid` is never
 * anything but 0).
 */
module AllocatorLemmas {
  import opened EcsTypes
  import opened RegistryModel
  import RegistryInvariant

  // ---------------------------------------------------------------------
  // Free chains under small changes of the entity table
  // ---------------------------------------------------------------------

  /** The free chain from `k` depends only on the free links at or after `k`. */
  lemma {:induction false} FreeChainSameLinks(a: seq<Entity>, b: seq<Entity>, k: nat)
    requires FreeLinksForward(a) && FreeLinksForward(b)
    requires forall j :: k <= j < MaxEntityCount ==> a[j].idOrNextEmpty == b[j].idOrNextEmpty
    ensures FreeChain(a, k) == FreeChain(b, k)
    decreases MaxEntityCount - k
  {
    if k < MaxEntityCount {
      FreeChainSameLinks(a, b, a[k].idOrNextEmpty);
    }
  }

  /** Changing the free link of a slot the chain never visits leaves the chain as it is. */
  lemma {:induction false} FreeChainOffChain(a: seq<Entity>, b: seq<Entity>, k: nat, x: nat)
    requires FreeLinksForward(a) && FreeLinksForward(b)
    requires forall j :: 0 <= j < MaxEntityCount && j != x ==> a[j].idOrNextEmpty == b[j].idOrNextEmpty
    requires x !in FreeChain(a, k)
    ensures FreeChain(a, k) == FreeChain(b, k)
    decreases MaxEntityCount - k
  {
    if k < MaxEntityCount {
      FreeChainOffChain(a, b, a[k].idOrNextEmpty, x);
    }
  }

  /** A chain starts at its first slot and then continues strictly above it. */
  lemma FreeChainUnfold(a: seq<Entity>, k: nat)
    requires FreeLinksForward(a) && k < MaxEntityCount
    ensures FreeChain(a, k) == {k} + FreeChain(a, a[k].idOrNextEmpty)
    ensures k !in FreeChain(a, a[k].idOrNextEmpty)
  {
  }

  // ---------------------------------------------------------------------
  // create_entity
  // ---------------------------------------------------------------------

  /**
   * `create_entity` succeeds exactly when the free list is not empty; it
   * returns the head, takes it off the free list, and changes nothing but
   * the head and the predecessor's valid link. The issued slot itself keeps
   * its old contents, since the source updates a local copy.
   */
  lemma CreateEntitySpec<V>(s: State<V>)
    requires Valid(s)
    ensures var (r, t) := CreateEntity(s);
            && (r.Ok? <==> s.firstAvailable < MaxEntityCount)
            && (r.Err? ==> r.error == OutOfRange && t == s)
            && (r.Ok? ==>
                  && r.value == s.firstAvailable && r.value in FreeList(s)
                  && FreeList(t) == FreeList(s) - {r.value}
                  && t.firstAvailable == s.entities[r.value].idOrNextEmpty
                  && (r.value > 0 ==> t.entities[r.value - 1] == s.entities[r.value - 1].(nextValid := r.value))
                  && (forall k :: 0 <= k < MaxEntityCount && k + 1 != r.value ==> t.entities[k] == s.entities[k])
                  && t == s.(entities := t.entities, firstAvailable := t.firstAvailable))
  {
    var (r, t) := CreateEntity(s);
    RegistryInvariant.CreateEntityKeepsValid(s);
    if r.Ok? {
      var head := s.firstAvailable;
      FreeChainUnfold(s.entities, head);
      FreeChainSameLinks(s.entities, t.entities, s.entities[head].idOrNextEmpty);
    }
  }

  /** The ids `lo`, ..., `hi - 1`. */
  ghost function Range(lo: nat, hi: nat): (r: set<nat>)
    ensures forall j :: j in r <==> lo <= j < hi
    decreases hi - lo
  {
    if lo >= hi then {} else {lo} + Range(lo + 1, hi)
  }

  // ---------------------------------------------------------------------
  // A fresh registry issues 0, 1, 2, ... in order
  // ---------------------------------------------------------------------

  /** `n` calls of `create_entity` in a row: their results, in order, and the final state. */
  ghost function CreateMany<V>(s: State<V>, n: nat): (r: (seq<Result<EntityId>>, State<V>))
    requires Valid(s)
    ensures |r.0| == n && Valid(r.1)
  {
    if n == 0 then ([], s)
    else
      var (rs, s1) := CreateMany(s, n - 1);
      RegistryInvariant.CreateEntityKeepsValid(s1);
      var (x, s2) := CreateEntity(s1);
      (rs + [x], s2)
  }

  /**
   * The entity table after the first `n` ids of a fresh registry were
   * issued: the free list is every slot from `n` on, and the valid chain
   * links 0, 1, ..., n - 1.
   */
  ghost predicate IssuedInOrder<V>(s: State<V>, n: nat) {
    && |s.entities| == MaxEntityCount && s.firstAvailable == n
    && forall k :: 0 <= k < MaxEntityCount ==>
         s.entities[k] == Entity(k + 1, if k + 1 < n then k + 1 else MaxEntityCount, 0)
  }

  /** One more `create_entity` on such a table issues `n` and extends the pattern. */
  lemma CreateEntityIssuesNext<V>(s: State<V>, n: nat)
    requires Valid(s) && IssuedInOrder(s, n) && n < MaxEntityCount
    ensures CreateEntity(s).0 == Ok(n) && IssuedInOrder(CreateEntity(s).1, n + 1)
  {
    var t := CreateEntity(s).1;
    forall k | 0 <= k < MaxEntityCount
      ensures t.entities[k] == Entity(k + 1, if k + 1 < n + 1 then k + 1 else MaxEntityCount, 0)
    {
    }
  }

  /** A fresh registry hands out 0, 1, ..., n - 1 on its first `n` calls. */
  lemma FreshRegistryIssuesInOrder<V>(n: nat)
    requires n <= MaxEntityCount
    ensures var (rs, t) := CreateMany(Init<V>(), n);
            (forall i :: 0 <= i < n ==> rs[i] == Ok(i)) && IssuedInOrder(t, n)
  {
    RegistryInvariant.InitValid<V>();
    IssuesInOrderFrom(Init<V>(), n);
  }

  /** From a table where nothing was issued yet, `n` calls return 0, 1, ..., n - 1. */
  lemma {:induction false} IssuesInOrderFrom<V>(s: State<V>, n: nat)
    requires Valid(s) && IssuedInOrder(s, 0) && n <= MaxEntityCount
    ensures var (rs, t) := CreateMany(s, n);
            (forall i :: 0 <= i < n ==> rs[i] == Ok(i)) && IssuedInOrder(t, n)
  {
    if n > 0 {
      IssuesInOrderFrom(s, n - 1);
      var (rs, t) := CreateMany(s, n - 1);
      CreateEntityIssuesNext(t, n - 1);
      var (x, t2) := CreateEntity(t);
      assert CreateMany(s, n) == (rs + [x], t2);
      assert forall i :: 0 <= i < n - 1 ==> (rs + [x])[i] == rs[i];
    }
  }

  /** After every slot was issued, `create_entity` throws and changes nothing. */
  lemma FreshRegistryExhausted<V>()
    ensures var (rs, t) := CreateMany(Init<V>(), MaxEntityCount + 1);
            rs[MaxEntityCount] == Err(OutOfRange) && t == CreateMany(Init<V>(), MaxEntityCount).1
  {
    FreshRegistryIssuesInOrder<V>(MaxEntityCount);
  }

  lemma {:induction false} IssuedFreeChain<V>(s: State<V>, n: nat, k: nat)
    requires Valid(s) && IssuedInOrder(s, n) && n <= k
    ensures FreeChain(s.entities, k) == Range(k, MaxEntityCount)
    decreases MaxEntityCount - k
  {
    if k < MaxEntityCount {
      IssuedFreeChain(s, n, k + 1);
    }
  }

  lemma {:induction false} IssuedValidChainFrom<V>(s: State<V>, n: nat, k: nat)
    requires Valid(s) && IssuedInOrder(s, n) && k < n
    ensures ValidChain(s.entities, k) == Range(k, n)
    decreases n - k
  {
    if k + 1 < n {
      IssuedValidChainFrom(s, n, k + 1);
    }
  }

  /**
   * After the first `n` ids of a fresh registry were issued, the free list
   * is every slot from `n` on and the valid chain from slot 0 is exactly the
   * issued ids (slot 0 alone when nothing was issued).
   */
  lemma IssuedChains<V>(s: State<V>, n: nat)
    requires Valid(s) && IssuedInOrder(s, n)
    ensures FreeList(s) == Range(n, MaxEntityCount)
    ensures ValidChain(s.entities, 0) == if n == 0 then {0} else Range(0, n)
  {
    IssuedFreeChain(s, n, n);
    if n > 0 {
      IssuedValidChainFrom(s, n, 0);
    }
  }

  // ---------------------------------------------------------------------
  // destroy_entity
  // ---------------------------------------------------------------------

  /**
   * `destroy_entity` completes exactly for the inner slots 1 .. N-2 whose
   * free-list insertion succeeds; every other call throws `OutOfRange`. A
   * call that completes resets the entity's signature and touches nothing
   * but the entity table, the head and that signature (the views are not
   * told); one that throws leaves every signature as it was.
   */
  lemma DestroyEntityOutcome<V>(s: State<V>, entity: EntityId)
    requires Valid(s)
    ensures var (r, t) := DestroyEntity(s, entity);
            && (r == Pass <==> 0 < entity < MaxEntityCount - 1 && InsertFree(s, entity).Ok?)
            && (r != Pass ==> r == Fail(OutOfRange) && t.signatures == s.signatures)
            && (entity >= MaxEntityCount ==> t == s)
            && (r == Pass ==> t.signatures == s.signatures[entity := {}])
            && t == s.(entities := t.entities, firstAvailable := t.firstAvailable, signatures := t.signatures)
  {
  }

  /**
   * A slot destroyed below the free head becomes the head, in front of the
   * old free list, and the next `create_entity` issues it again and restores
   * the old head.
   */
  lemma DestroyBelowHeadIsReissued<V>(s: State<V>, entity: EntityId)
    requires Valid(s) && entity < s.firstAvailable
    ensures var t := DestroyEntity(s, entity).1;
            && Valid(t)
            && t.firstAvailable == entity
            && FreeList(t) == {entity} + FreeList(s)
            && CreateEntity(t).0 == Ok(entity)
            && CreateEntity(t).1.firstAvailable == s.firstAvailable
  {
    RegistryInvariant.DestroyEntityKeepsValid(s, entity);
    var t := DestroyEntity(s, entity).1;
    FreeChainUnfold(t.entities, entity);
    FreeChainSameLinks(s.entities, t.entities, s.firstAvailable);
  }

  /**
   * A live entity at or above the free head is never put back on the free
   * list: the link that should point to it is written to a local copy. The
   * free list stays as it was, so no run of `create_entity` calls (until
   * another `destroy_entity`) issues the id again.
   */
  lemma DestroyAboveHeadLeaks<V>(s: State<V>, entity: EntityId, n: nat)
    requires Valid(s) && s.firstAvailable <= entity < MaxEntityCount && entity !in FreeList(s)
    ensures Valid(DestroyEntity(s, entity).1)
    ensures var t := DestroyEntity(s, entity).1;
            && t.firstAvailable == s.firstAvailable
            && FreeList(t) == FreeList(s) && entity !in FreeList(t)
            && (CreateEntity(t).0.Ok? ==> CreateEntity(t).0.value != entity)
            && forall i :: 0 <= i < n ==> CreateMany(t, n).0[i] != Ok(entity)
  {
    RegistryInvariant.DestroyEntityKeepsValid(s, entity);
    var t := DestroyEntity(s, entity).1;
    FreeChainOffChain(s.entities, t.entities, s.firstAvailable, entity);
    CreateManyAvoids(t, n, entity);
  }

  /**
   * An id off the free list is never issued by a run of `create_entity`
   * calls, and stays off the free list.
   */
  lemma {:induction false} CreateManyAvoids<V>(s: State<V>, n: nat, e: EntityId)
    requires Valid(s) && e !in FreeList(s)
    ensures (forall i :: 0 <= i < n ==> CreateMany(s, n).0[i] != Ok(e)) && e !in FreeList(CreateMany(s, n).1)
  {
    if n > 0 {
      CreateManyAvoids(s, n - 1, e);
      var (rs, s1) := CreateMany(s, n - 1);
      CreateEntitySpec(s1);
      var (x, s2) := CreateEntity(s1);
      assert CreateMany(s, n) == (rs + [x], s2);
    }
  }

  /**
   * Destroying the last slot always throws. At or above the head it throws
   * with nothing changed: the walk either runs off the table, or stops at the
   * slot itself, whose link is then copied onto itself.
   */
  lemma DestroyLastThrows<V>(s: State<V>)
    requires Valid(s)
    ensures DestroyEntity(s, MaxEntityCount - 1).0 == Fail(OutOfRange)
    ensures s.firstAvailable <= MaxEntityCount - 1 ==> DestroyEntity(s, MaxEntityCount - 1).1 == s
  {
    var e := MaxEntityCount - 1;
    if s.firstAvailable <= e {
      var i := WalkFreeList(s.entities, s.firstAvailable, e);
      if i < MaxEntityCount {
        assert i == e;
        assert s.entities[e := s.entities[e].(idOrNextEmpty := s.entities[i].idOrNextEmpty)] == s.entities;
      }
    }
  }

  /**
   * Destroying the free head itself (a slot that is not in use) links the
   * head past its successor, so that successor silently drops off the free
   * list.
   */
  lemma DestroyFreeHeadDropsSuccessor<V>(s: State<V>)
    requires Valid(s) && s.firstAvailable < MaxEntityCount
    requires s.entities[s.firstAvailable].idOrNextEmpty < MaxEntityCount
    ensures var next := s.entities[s.firstAvailable].idOrNextEmpty;
            var t := DestroyEntity(s, s.firstAvailable).1;
            && next in FreeList(s)
            && Valid(t)
            && FreeList(t) == FreeList(s) - {next}
  {
    var head := s.firstAvailable;
    var next := s.entities[head].idOrNextEmpty;
    RegistryInvariant.DestroyEntityKeepsValid(s, head);
    var t := DestroyEntity(s, head).1;
    assert WalkFreeList(s.entities, head, head) == next;
    FreeChainUnfold(s.entities, head);
    FreeChainUnfold(s.entities, next);
    FreeChainUnfold(t.entities, head);
    FreeChainSameLinks(s.entities, t.entities, s.entities[next].idOrNextEmpty);
  }

  /**
   * Destroying entity 0 throws (it indexes slot `entity - 1`), but only after
   * slot 0 was pushed onto the free list and before its signature was reset:
   * the next `create_entity` issues 0 again, with the signature of the
   * entity that was being destroyed.
   */
  lemma DestroyFirstReissuedWithOldSignature<V>(s: State<V>)
    requires Valid(s) && 0 < s.firstAvailable
    ensures var (r, t) := DestroyEntity(s, 0);
            && r == Fail(OutOfRange)
            && Valid(t) && t.firstAvailable == 0
            && CreateEntity(t).0 == Ok(0)
            && CreateEntity(t).1.signatures[0] == s.signatures[0]
  {
    RegistryInvariant.DestroyEntityKeepsValid(s, 0);
  }

  /** Every `prevValid` link is 0. */
  ghost predicate PrevValidZero<V>(s: State<V>) {
    forall k :: 0 <= k < |s.entities| ==> s.entities[k].prevValid == 0
  }

  /**
   * `prevValid` is 0 in a fresh registry and stays 0: `create_entity` writes
   * it only into its local copy, and `destroy_entity` copies the destroyed
   * slot's (zero) value into its successor.
   */
  lemma PrevValidStaysZero<V>(s: State<V>, entity: EntityId)
    requires Valid(s)
    ensures PrevValidZero(Init<V>())
    ensures PrevValidZero(s) ==> PrevValidZero(CreateEntity(s).1) && PrevValidZero(DestroyEntity(s, entity).1)
  {
    if PrevValidZero(s) && entity < MaxEntityCount && InsertFree(s, entity).Ok? {
      var s1 := InsertFree(s, entity).value;
      assert |s1.entities| == MaxEntityCount;
      assert forall k :: 0 <= k < MaxEntityCount ==> s1.entities[k].prevValid == s.entities[k].prevValid;
      assert PrevValidZero(UnlinkValid(s1, entity).1);
    }
  }

  /**
   * A destroyed entity that belonged to a view with a nonempty signature
   * stays a member, although its signature is now empty: the views are left
   * stale.
   */
  lemma DestroyLeavesStaleMembers<V>(s: State<V>, entity: EntityId, v: nat)
    requires Valid(s) && v in s.viewEntities && entity in s.viewEntities[v] && s.viewSignatures[v] != {}
    requires DestroyEntity(s, entity).0 == Pass
    ensures var t := DestroyEntity(s, entity).1;
            Valid(t) && entity in t.viewEntities[v] && !MembersCovered(t)
  {
    RegistryInvariant.DestroyEntityKeepsValid(s, entity);
    var t := DestroyEntity(s, entity).1;
    assert t.signatures[entity] == {};
    assert !Covers(t.signatures[entity], t.viewSignatures[v]);
  }
}
