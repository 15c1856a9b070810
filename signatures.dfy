/**
 * Component signatures: the fixed-width bitset `Signature` of src/ECS/ECS.h:26-27.
 * Bit k set means "has (or requires) the component type whose id is k".
 */
module Signatures {
  /** Width of a signature, and so the number of component ids a signature can record. */
  const MAX_COMPONENTS: nat := 32

  /** `std::bitset<MAX_COMPONENTS>`: exactly MAX_COMPONENTS bits. */
  type Signature = s: seq<bool> | |s| == MAX_COMPONENTS witness seq(32, _ => false)

  /** A value-initialised bitset: no bit is set. */
  function Empty(): (s: Signature)
    ensures forall k :: 0 <= k < MAX_COMPONENTS ==> !s[k]
  {
    seq(MAX_COMPONENTS, _ => false)
  }

  /**
   * `bitset::test(k)`; the bitset rejects any k at or above its width. Bit k is
   * set exactly when the signature passes the interest test of a system that
   * requires component k alone.
   */
  function Test(s: Signature, k: nat): (r: bool)
    requires k < MAX_COMPONENTS
    ensures r <==> Satisfies(s, Empty()[k := true])
  {
    var single := Empty()[k := true];
    assert s[k] <==> And(s, single) == single by {
      if s[k] {
        assert forall j :: 0 <= j < MAX_COMPONENTS ==> And(s, single)[j] == single[j];
      } else {
        assert And(s, single)[k] != single[k];
      }
    }
    s[k]
  }

  /** `bitset::set(k, v)`: bit k becomes v, every other bit keeps its value. */
  function Set(s: Signature, k: nat, v: bool): (r: Signature)
    requires k < MAX_COMPONENTS
    ensures Test(r, k) == v
    ensures forall j :: 0 <= j < MAX_COMPONENTS && j != k ==> r[j] == s[j]
  {
    s[k := v]
  }

  /** Bitwise `operator&`. */
  function And(a: Signature, b: Signature): (r: Signature)
    ensures forall k :: 0 <= k < MAX_COMPONENTS ==> r[k] == (a[k] && b[k])
  {
    seq(MAX_COMPONENTS, k requires 0 <= k < MAX_COMPONENTS => a[k] && b[k])
  }

  /** The interest test of src/ECS/ECS.cpp:117: `(entitySig & systemSig) == systemSig`. */
  predicate Satisfies(entity: Signature, required: Signature)
  {
    And(entity, required) == required
  }

  /** Every bit that `required` sets is also set in `entity`. */
  ghost predicate Includes(entity: Signature, required: Signature)
  {
    forall k :: 0 <= k < MAX_COMPONENTS && required[k] ==> entity[k]
  }

  /** The bitwise test is exactly set inclusion of the component ids. */
  lemma SatisfiesIffIncludes(entity: Signature, required: Signature)
    ensures Satisfies(entity, required) <==> Includes(entity, required)
  {
    if Includes(entity, required) {
      forall k | 0 <= k < MAX_COMPONENTS
        ensures And(entity, required)[k] == required[k]
      {
      }
    }
    if Satisfies(entity, required) {
      forall k | 0 <= k < MAX_COMPONENTS && required[k]
        ensures entity[k]
      {
        assert And(entity, required)[k] == required[k];
      }
    }
  }

  /** Setting two bits gives the same signature in either order. */
  lemma SetCommutes(s: Signature, a: nat, b: nat)
    requires a < MAX_COMPONENTS && b < MAX_COMPONENTS
    ensures Set(Set(s, a, true), b, true) == Set(Set(s, b, true), a, true)
  {
  }

  /** Gaining a component never makes a system lose interest in an entity. */
  lemma SatisfiesAfterSet(entity: Signature, required: Signature, k: nat)
    requires k < MAX_COMPONENTS
    requires Satisfies(entity, required)
    ensures Satisfies(Set(entity, k, true), required)
  {
    SatisfiesIffIncludes(entity, required);
    SatisfiesIffIncludes(Set(entity, k, true), required);
  }

  /** A system that requires nothing is interested in every entity. */
  lemma EmptyIsSatisfied(entity: Signature)
    ensures Satisfies(entity, Empty())
  {
    SatisfiesIffIncludes(entity, Empty());
  }
}
