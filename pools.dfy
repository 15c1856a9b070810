/**
 * Component pools. `Pool.h` is not part of this model; a pool is taken to be a
 * growable sequence indexed by entity id, with the four operations the Registry
 * calls on it (src/ECS/ECS.h:222-230, 282). The Registry's vector of pools is a
 * sequence of optional pools, `None` standing for a null `shared_ptr`.
 */
module Pools {
  import opened Options

  /** One component type's storage: slot i belongs to the entity with id i. */
  datatype Pool<T> = Pool(data: seq<T>) {
    /** `GetSize()`: the number of slots; slot i exists exactly when i is below it. */
    function GetSize(): (n: nat)
      ensures n == |data|
    {
      |data|
    }

    /**
     * `Resize(n)`: grows the pool to n slots, filling new slots with the
     * default-constructed value `blank`; a size at or below the current one
     * leaves the pool as it is.
     */
    function Resize(n: int, blank: T): (p: Pool<T>)
      ensures p.GetSize() == if n > GetSize() then n else GetSize()
      ensures forall i :: 0 <= i < GetSize() ==> p.data[i] == data[i]
      ensures forall i :: GetSize() <= i < p.GetSize() ==> p.data[i] == blank
    {
      if n > |data| then Pool(data + seq(n - |data|, _ => blank)) else this
    }

    /** `Set(i, v)`: slot i now holds v; the size and every other slot are kept. */
    function Set(i: int, v: T): (p: Pool<T>)
      requires 0 <= i < GetSize()
      ensures p.GetSize() == GetSize()
      ensures p.data[i] == v
      ensures forall j :: 0 <= j < GetSize() && j != i ==> p.data[j] == data[j]
    {
      Pool(data[i := v])
    }

    /** `Get(i)`: the value in slot i; writing it back changes nothing. */
    function Get(i: int): (v: T)
      requires 0 <= i < GetSize()
      ensures Set(i, v) == this
    {
      data[i]
    }
  }

  /** The pool for component id c, `None` when the vector is too short or the slot is null. */
  function PoolAt<T>(pools: seq<Option<Pool<T>>>, c: nat): Option<Pool<T>>
  {
    if c < |pools| then pools[c] else None
  }

  /** The pool a store into component id c starts from: the existing one, or a new empty one. */
  function PoolOrEmpty<T>(pools: seq<Option<Pool<T>>>, c: nat): Pool<T>
  {
    if PoolAt(pools, c).Some? then PoolAt(pools, c).value else Pool([])
  }

  /**
   * Steps 1A-1F of `AddComponentToEntity` (src/ECS/ECS.h:208-230): the vector of
   * pools after storing v for entity i under component id c. The vector is
   * padded with null pools up to c, a missing pool is created, the pool is
   * grown to cover i, and slot i is written.
   */
  function Store<T>(pools: seq<Option<Pool<T>>>, c: nat, i: nat, v: T, blank: T): (r: seq<Option<Pool<T>>>)
    ensures |r| == if c < |pools| then |pools| else c + 1
    ensures PoolAt(r, c).Some?
    ensures var before := PoolOrEmpty(pools, c); var p := PoolAt(r, c).value;
      && p.GetSize() == (if i < before.GetSize() then before.GetSize() else i + 1)
      && p.Get(i) == v
      && (forall j :: 0 <= j < before.GetSize() && j != i ==> p.data[j] == before.data[j])
      && (forall j :: before.GetSize() <= j < p.GetSize() && j != i ==> p.data[j] == blank)
    ensures forall d :: d != c ==> PoolAt(r, d) == PoolAt(pools, d)
  {
    var padded := if c < |pools| then pools else pools + seq(c + 1 - |pools|, _ => None);
    var pool := PoolOrEmpty(pools, c);
    var grown := if i >= pool.GetSize() then pool.Resize(i + 1, blank) else pool;
    padded[c := Some(grown.Set(i, v))]
  }

  /** Two pool vectors are equal when they have the same length and the same pool at every id. */
  lemma PoolsExtensional<T>(a: seq<Option<Pool<T>>>, b: seq<Option<Pool<T>>>)
    requires |a| == |b|
    requires forall c :: 0 <= c < |a| ==> PoolAt(a, c) == PoolAt(b, c)
    ensures a == b
  {
    forall c | 0 <= c < |a| ensures a[c] == b[c] {
      assert PoolAt(a, c) == PoolAt(b, c);
    }
  }

  /**
   * Storing two components into different (pool, slot) places gives the same
   * pools in either order: attaching components out of order does not matter.
   */
  lemma StoreCommutes<T>(pools: seq<Option<Pool<T>>>, c1: nat, i1: nat, v1: T, c2: nat, i2: nat, v2: T, blank: T)
    requires c1 != c2 || i1 != i2
    ensures Store(Store(pools, c1, i1, v1, blank), c2, i2, v2, blank)
         == Store(Store(pools, c2, i2, v2, blank), c1, i1, v1, blank)
  {
    var a := Store(Store(pools, c1, i1, v1, blank), c2, i2, v2, blank);
    var b := Store(Store(pools, c2, i2, v2, blank), c1, i1, v1, blank);
    forall c | 0 <= c < |a|
      ensures PoolAt(a, c) == PoolAt(b, c)
    {
      if c == c1 && c == c2 {
        var pa := PoolAt(a, c).value;
        var pb := PoolAt(b, c).value;
        assert pa.data == pb.data;
      }
    }
    PoolsExtensional(a, b);
  }
}
