/**
 * Shared vocabulary of the registry model: the two capacity constants, the
 * entity slot record, the error kinds the registry reports, and the result
 * wrappers that stand in for C++ exceptions.
 */
module EcsTypes {

  /** Number of entity slots (ECS_MAX_ENTITY_COUNT). */
  const MaxEntityCount: nat := 65535

  /** Number of component type slots and signature bits (ECS_MAX_COMPONENT_COUNT). */
  const MaxComponentCount: nat := 64

  /** Holder counts are `uint32_t`; increments and decrements wrap modulo 2^32. */
  const Uint32Modulus: nat := 0x1_0000_0000

  /** An entity identifier: a dense index into the entity table. */
  type EntityId = nat

  /**
   * Stands for `typeid(T).hash_code()` of a component type T. The value 0
   * marks a free type slot in the slot table, so a real type token is nonzero.
   */
  type TypeId = t: nat | 0 < t witness 1

  /** A signature: the set of type slots (bit positions) that are set. */
  type Signature = set<nat>

  /**
   * One slot of the entity table. While the slot is free, `idOrNextEmpty`
   * links to the next free slot; `nextValid` and `prevValid` form the chain of
   * valid entities. The C++ defaults are 0, ECS_MAX_ENTITY_COUNT and 0.
   */
  datatype Entity = Entity(idOrNextEmpty: nat, nextValid: nat, prevValid: nat)

  /** The conditions under which the registry throws. */
  datatype Error =
    | OutOfRange             // std::out_of_range from std::array::at / unordered_map::at
    | NonExistentView        // "Attempted to remove non-existent view."
    | UnassignedComponent    // "Attempted to remove unassigned component."
    | UnregisteredComponent  // "Component bit queried on unregistered component."

  datatype Result<T> = Ok(value: T) | Err(error: Error)

  datatype Outcome = Pass | Fail(error: Error)

  datatype Option<T> = None | Some(value: T)

  /** Whether every bit of `sig` lies inside the fixed-width bitset. */
  predicate SlotBits(sig: Signature) {
    forall b :: b in sig ==> b < MaxComponentCount
  }

  /**
   * The superset test `(entity_signature & view_signature) == view_signature`
   * of std::bitset, stated on sets of bit positions.
   */
  predicate Covers(entitySig: Signature, viewSig: Signature) {
    viewSig <= entitySig
  }

  /** `uint32_t` arithmetic: the value of `n` reduced modulo 2^32. */
  function Wrap32(n: int): (r: nat)
    ensures r < Uint32Modulus
    ensures 0 <= n < Uint32Modulus ==> r == n
    ensures n == -1 ==> r == Uint32Modulus - 1
  {
    n % Uint32Modulus
  }
}
