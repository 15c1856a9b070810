/**
 * The Registry (src/ECS/ECS.h:128-335, src/ECS/ECS.cpp:53-142): the entity
 * counter, the pending spawn and kill sets, one pool per component id, the
 * per-entity signature table and the map from system type to system.
 */
module Registries {
  import opened Options
  import opened Signatures
  import opened Entities
  import opened ComponentIds
  import opened Pools
  import opened Systems

  /** Range of the C++ `int` that `entityCount` is. */
  const INT_MIN: int := -0x8000_0000
  const INT_MAX: int := 0x7fff_ffff

  /**
   * The id `SpawnEntity` hands out for counter value `count`: the counter is
   * stored into a `u_int8_t` (src/ECS/ECS.cpp:61-62), which keeps it modulo 256.
   */
  function TruncatedId(count: int): (id: int)
    ensures 0 <= id < 256
    ensures (count - id) % 256 == 0
  {
    count % 256
  }

  /** The counter wraps: 256 spawns later the same id comes round again. */
  lemma TruncatedIdWraps(count: int)
    ensures TruncatedId(count + 256) == TruncatedId(count)
    ensures 0 <= count < 256 ==> TruncatedId(count) == count
  {
  }

  /**
   * The entities of es, in order, that a system requiring `required` is
   * interested in, given the signature table `sigs`.
   */
  function Interested(es: seq<Entity>, sigs: seq<Signature>, required: Signature): seq<Entity>
    requires forall e :: e in es ==> 0 <= e.id < |sigs|
  {
    if es == [] then []
    else
      var head := if Satisfies(sigs[es[0].id], required) then [es[0]] else [];
      head + Interested(es[1..], sigs, required)
  }

  /** A system gets exactly the offered entities whose signature satisfies its own. */
  lemma {:induction false} InterestedMembers(es: seq<Entity>, sigs: seq<Signature>, required: Signature)
    requires forall e :: e in es ==> 0 <= e.id < |sigs|
    ensures forall x :: x in Interested(es, sigs, required) <==> x in es && Satisfies(sigs[x.id], required)
  {
    if es != [] {
      InterestedMembers(es[1..], sigs, required);
      assert forall x :: x in es <==> x == es[0] || x in es[1..];
    }
  }

  /** Offering entities in ascending id order adds them in ascending id order, each once. */
  lemma {:induction false} InterestedAscending(es: seq<Entity>, sigs: seq<Signature>, required: Signature)
    requires forall e :: e in es ==> 0 <= e.id < |sigs|
    requires StrictlyAscending(es)
    ensures StrictlyAscending(Interested(es, sigs, required))
  {
    if es != [] {
      var tail := es[1..];
      assert StrictlyAscending(tail) by {
        forall i, j | 0 <= i < j < |tail| ensures tail[i].id < tail[j].id {
          assert tail[i] == es[i + 1] && tail[j] == es[j + 1];
        }
      }
      InterestedAscending(tail, sigs, required);
      InterestedMembers(tail, sigs, required);
      var rest := Interested(tail, sigs, required);
      if Satisfies(sigs[es[0].id], required) {
        forall x | x in rest ensures es[0].id < x.id {
          var k :| 0 <= k < |tail| && tail[k] == x;
          assert es[k + 1] == x;
        }
        ConsAscending(es[0], rest);
        assert Interested(es, sigs, required) == [es[0]] + rest;
      } else {
        assert Interested(es, sigs, required) == rest;
      }
    }
  }

  /** Offering entities in two batches adds the same entries as offering them at once. */
  lemma {:induction false} InterestedAppend(a: seq<Entity>, b: seq<Entity>, sigs: seq<Signature>, required: Signature)
    requires forall e :: e in a + b ==> 0 <= e.id < |sigs|
    ensures Interested(a + b, sigs, required) == Interested(a, sigs, required) + Interested(b, sigs, required)
  {
    if a == [] {
      assert a + b == b;
    } else {
      assert (a + b)[0] == a[0];
      assert (a + b)[1..] == a[1..] + b;
      InterestedAppend(a[1..], b, sigs, required);
    }
  }

  class Registry<V> {
    var entityCount: int
    var entitiesToBeSpawned: set<Entity>
    var entitiesToBeKilled: set<Entity>
    var componentPools: seq<Option<Pool<V>>>
    var entityComponentSignatures: seq<Signature>
    var systems: map<SystemType, System>
    /** The default-constructed component value that `Resize` puts in new pool slots. */
    const blank: V

    /**
     * The counter fits its `int`, every pending spawn has a row in the
     * signature table, and each system type owns its own System object.
     */
    ghost predicate Valid()
      reads this
    {
      && INT_MIN <= entityCount <= INT_MAX
      && (forall e :: e in entitiesToBeSpawned ==> 0 <= e.id < |entityComponentSignatures|)
      && (forall a, b :: a in systems && b in systems && a != b ==> systems[a] != systems[b])
    }

    /** Some system lists the entity. */
    ghost predicate Listed(entity: Entity)
      reads this, systems.Values
    {
      exists k :: k in systems && entity in systems[k].entities
    }

    /** No entity waiting to be spawned is in any system's list yet. */
    ghost predicate PendingInvisible()
      reads this, systems.Values
    {
      forall e :: e in entitiesToBeSpawned ==> !Listed(e)
    }

    constructor (blank: V)
      ensures Valid() && PendingInvisible()
      ensures entityCount == 0
      ensures entitiesToBeSpawned == {} && entitiesToBeKilled == {}
      ensures componentPools == [] && entityComponentSignatures == []
      ensures systems == map[]
      ensures this.blank == blank
    {
      entityCount := 0;
      entitiesToBeSpawned := {};
      entitiesToBeKilled := {};
      componentPools := [];
      entityComponentSignatures := [];
      systems := map[];
      this.blank := blank;
    }

    //////// Entities ////////

    /**
     * `SpawnEntity` (src/ECS/ECS.cpp:60-74): the new entity's id is the counter
     * truncated to 8 bits, the counter goes up by one, the entity waits in the
     * spawn set, and the signature table grows with all-zero rows to cover it.
     * It joins no system: it stays out of every list exactly when its id was
     * not already listed.
     */
    method SpawnEntity() returns (entity: Entity)
      requires Valid() && entityCount < INT_MAX
      modifies this
      ensures Valid()
      ensures entity.id == TruncatedId(old(entityCount))
      ensures entityCount == old(entityCount) + 1
      ensures entitiesToBeSpawned == old(entitiesToBeSpawned) + {entity}
      ensures |entityComponentSignatures| ==
                if entity.id < old(|entityComponentSignatures|) then old(|entityComponentSignatures|) else entity.id + 1
      ensures entityComponentSignatures[..old(|entityComponentSignatures|)] == old(entityComponentSignatures)
      ensures forall i :: old(|entityComponentSignatures|) <= i < |entityComponentSignatures| ==>
                entityComponentSignatures[i] == Empty()
      ensures entitiesToBeKilled == old(entitiesToBeKilled)
      ensures componentPools == old(componentPools) && systems == old(systems)
      ensures old(PendingInvisible()) ==> (PendingInvisible() <==> !Listed(entity))
    {
      var entityId := TruncatedId(entityCount);
      entityCount := entityCount + 1;
      entity := Entity(entityId);
      entitiesToBeSpawned := entitiesToBeSpawned + {entity};
      if entityId >= |entityComponentSignatures| {
        entityComponentSignatures := entityComponentSignatures
          + seq(entityId + 1 - |entityComponentSignatures|, _ => Empty());
      }
    }

    /**
     * `KillEntity` (src/ECS/ECS.cpp:80-83): the entity waits in the kill set and
     * the counter goes down by one; no signature, pool or system list changes.
     */
    method KillEntity(entity: Entity)
      requires Valid() && INT_MIN < entityCount
      modifies this
      ensures Valid()
      ensures entitiesToBeKilled == old(entitiesToBeKilled) + {entity}
      ensures entityCount == old(entityCount) - 1
      ensures entitiesToBeSpawned == old(entitiesToBeSpawned)
      ensures componentPools == old(componentPools)
      ensures entityComponentSignatures == old(entityComponentSignatures)
      ensures systems == old(systems)
      ensures PendingInvisible() == old(PendingInvisible())
    {
      entitiesToBeKilled := entitiesToBeKilled + {entity};
      entityCount := entityCount - 1;
    }

    //////// Entity-Components ////////

    /** Bit c of the entity's signature. */
    function HasComponentId(entity: Entity, c: nat): bool
      reads this
      requires 0 <= entity.id < |entityComponentSignatures| && c < MAX_COMPONENTS
    {
      Test(entityComponentSignatures[entity.id], c)
    }

    /** Slot `entity.id` of the pool for component id c. */
    function ComponentAt(entity: Entity, c: nat): V
      reads this
      requires PoolAt(componentPools, c).Some?
      requires 0 <= entity.id < PoolAt(componentPools, c).value.GetSize()
    {
      PoolAt(componentPools, c).value.Get(entity.id)
    }

    /**
     * `AddComponentToEntity<T>(entity, value)` (src/ECS/ECS.h:200-237): the
     * vector of pools and T's pool grow as needed, the pool slot of the entity
     * holds the value, and T's bit is set in the entity's signature. Every
     * other pool, slot and signature is as before; adding again overwrites.
     */
    method AddComponentToEntity(ids: ComponentTypes, entity: Entity, t: TypeName, value: V)
      requires Valid() && ids.Table().Valid()
      requires 0 <= entity.id < |entityComponentSignatures|
      requires ids.Table().IdOf(t) < MAX_COMPONENTS
      modifies this, ids
      ensures Valid() && ids.Table().Valid()
      ensures ids.Table() == old(ids.Table()).Assign(t)
      ensures componentPools == Store(old(componentPools), old(ids.Table()).IdOf(t), entity.id, value, blank)
      ensures entityComponentSignatures == old(entityComponentSignatures)[entity.id :=
                Set(old(entityComponentSignatures)[entity.id], old(ids.Table()).IdOf(t), true)]
      ensures HasComponentId(entity, old(ids.Table()).IdOf(t))
      ensures ComponentAt(entity, old(ids.Table()).IdOf(t)) == value
      ensures entityCount == old(entityCount) && systems == old(systems)
      ensures entitiesToBeSpawned == old(entitiesToBeSpawned) && entitiesToBeKilled == old(entitiesToBeKilled)
      ensures PendingInvisible() == old(PendingInvisible())
    {
      ghost var pools0 := componentPools;
      var componentId := ids.GetId(t);
      var entityId := entity.id;
      if componentId >= |componentPools| {
        componentPools := componentPools + seq(componentId + 1 - |componentPools|, _ => None);
      }
      if componentPools[componentId].None? {
        componentPools := componentPools[componentId := Some(Pool([]))];
      }
      var componentPool := componentPools[componentId].value;
      assert componentPool == PoolOrEmpty(pools0, componentId);
      if entityId >= componentPool.GetSize() {
        componentPool := componentPool.Resize(entityId + 1, blank);
      }
      componentPool := componentPool.Set(entityId, value);
      componentPools := componentPools[componentId := Some(componentPool)];
      entityComponentSignatures := entityComponentSignatures[entityId :=
        Set(entityComponentSignatures[entityId], componentId, true)];
    }

    /**
     * `RemoveComponentFromEntity<T>(entity)` (src/ECS/ECS.h:243-253): clears T's
     * bit in the entity's signature and nothing else; the pool keeps the stale value.
     */
    method RemoveComponentFromEntity(ids: ComponentTypes, entity: Entity, t: TypeName)
      requires Valid() && ids.Table().Valid()
      requires 0 <= entity.id < |entityComponentSignatures|
      requires ids.Table().IdOf(t) < MAX_COMPONENTS
      modifies this, ids
      ensures Valid() && ids.Table().Valid()
      ensures ids.Table() == old(ids.Table()).Assign(t)
      ensures entityComponentSignatures == old(entityComponentSignatures)[entity.id :=
                Set(old(entityComponentSignatures)[entity.id], old(ids.Table()).IdOf(t), false)]
      ensures !HasComponentId(entity, old(ids.Table()).IdOf(t))
      ensures componentPools == old(componentPools)
      ensures entityCount == old(entityCount) && systems == old(systems)
      ensures entitiesToBeSpawned == old(entitiesToBeSpawned) && entitiesToBeKilled == old(entitiesToBeKilled)
      ensures PendingInvisible() == old(PendingInvisible())
    {
      var componentId := ids.GetId(t);
      var entityId := entity.id;
      entityComponentSignatures := entityComponentSignatures[entityId :=
        Set(entityComponentSignatures[entityId], componentId, false)];
    }

    /** `EntityHasComponent<T>(entity)` (src/ECS/ECS.h:259-267): bit T of the entity's signature. */
    method EntityHasComponent(ids: ComponentTypes, entity: Entity, t: TypeName) returns (has: bool)
      requires ids.Table().Valid()
      requires 0 <= entity.id < |entityComponentSignatures|
      requires ids.Table().IdOf(t) < MAX_COMPONENTS
      modifies ids
      ensures ids.Table().Valid() && ids.Table() == old(ids.Table()).Assign(t)
      ensures has == HasComponentId(entity, old(ids.Table()).IdOf(t))
    {
      var componentId := ids.GetId(t);
      has := Test(entityComponentSignatures[entity.id], componentId);
    }

    /**
     * `GetComponentFromEntity<T>(entity)` (src/ECS/ECS.h:272-283): slot
     * `entity.id` of T's pool. The pool must exist and cover the entity; the
     * signature is not consulted, so a removed component's stale value is returned.
     */
    method GetComponentFromEntity(ids: ComponentTypes, entity: Entity, t: TypeName) returns (value: V)
      requires ids.Table().Valid()
      requires PoolAt(componentPools, ids.Table().IdOf(t)).Some?
      requires 0 <= entity.id < PoolAt(componentPools, ids.Table().IdOf(t)).value.GetSize()
      modifies ids
      ensures ids.Table().Valid() && ids.Table() == old(ids.Table()).Assign(t)
      ensures value == ComponentAt(entity, old(ids.Table()).IdOf(t))
    {
      var componentId := ids.GetId(t);
      var componentPool := componentPools[componentId].value;
      value := componentPool.Get(entity.id);
    }

    //////// Entities-Systems ////////

    /**
     * `AddEntityToSystems` (src/ECS/ECS.cpp:101-124): every system whose
     * required signature the entity's signature includes gets the entity
     * appended once; the other systems' lists are unchanged.
     */
    method AddEntityToSystems(entity: Entity)
      requires Valid()
      requires 0 <= entity.id < |entityComponentSignatures|
      modifies systems.Values
      ensures forall k :: k in systems ==> systems[k].componentSignature == old(systems[k].componentSignature)
      ensures forall k :: k in systems ==>
                systems[k].entities == old(systems[k].entities)
                  + Interested([entity], entityComponentSignatures, systems[k].componentSignature)
    {
      var entityComponentSignature := entityComponentSignatures[entity.id];
      var remaining := systems.Keys;
      while remaining != {}
        invariant remaining <= systems.Keys
        invariant forall k :: k in systems ==> systems[k].componentSignature == old(systems[k].componentSignature)
        invariant forall k :: k in remaining ==> systems[k].entities == old(systems[k].entities)
        invariant forall k :: k in systems && k !in remaining ==>
                    systems[k].entities == old(systems[k].entities)
                      + Interested([entity], entityComponentSignatures, systems[k].componentSignature)
        decreases |remaining|
      {
        var key :| key in remaining;
        var system := systems[key];
        var systemComponentSignature := system.GetComponentSignature();
        var isInterested := Satisfies(entityComponentSignature, systemComponentSignature);
        if isInterested {
          system.AddEntityToSystem(entity);
        }
        remaining := remaining - {key};
      }
    }

    /**
     * `Update` (src/ECS/ECS.cpp:129-142): every pending spawn is offered to
     * every system, in ascending id order, and the spawn set is emptied. The
     * kill set is left as it is.
     */
    method Update()
      requires Valid()
      modifies this, systems.Values
      ensures Valid() && PendingInvisible()
      ensures entitiesToBeSpawned == {}
      ensures entitiesToBeKilled == old(entitiesToBeKilled)
      ensures entityCount == old(entityCount) && systems == old(systems)
      ensures componentPools == old(componentPools)
      ensures entityComponentSignatures == old(entityComponentSignatures)
      ensures forall k :: k in systems ==> systems[k].componentSignature == old(systems[k].componentSignature)
      ensures forall k :: k in systems ==>
                systems[k].entities == old(systems[k].entities)
                  + Interested(Ascending(old(entitiesToBeSpawned)), entityComponentSignatures, systems[k].componentSignature)
    {
      OfferInOrder(entitiesToBeSpawned);
      entitiesToBeSpawned := {};
    }

    /**
     * The loop of `Update` (src/ECS/ECS.cpp:131-136): the entities of `pending`
     * are handed to `AddEntityToSystems` one by one, least id first, as a
     * `std::set<Entity>` iterates.
     */
    method OfferInOrder(pending: set<Entity>)
      requires Valid()
      requires forall e :: e in pending ==> 0 <= e.id < |entityComponentSignatures|
      modifies systems.Values
      ensures forall k :: k in systems ==> systems[k].componentSignature == old(systems[k].componentSignature)
      ensures forall k :: k in systems ==>
                systems[k].entities == old(systems[k].entities)
                  + Interested(Ascending(pending), entityComponentSignatures, systems[k].componentSignature)
    {
      ghost var lists := map k | k in systems :: systems[k].entities;
      ghost var sigs := map k | k in systems :: systems[k].componentSignature;
      var toSpawn := pending;
      ghost var offered: seq<Entity> := [];
      while toSpawn != {}
        invariant toSpawn <= pending
        invariant offered + Ascending(toSpawn) == Ascending(pending)
        invariant forall e :: e in offered ==> e in pending
        invariant Offered(lists, sigs, offered)
        decreases |toSpawn|
      {
        LeastExists(toSpawn);
        var entity :| IsLeast(entity, toSpawn);
        AscendingStep(offered, toSpawn, entity, pending);
        OfferNext(lists, sigs, offered, entity);
        offered := offered + [entity];
        toSpawn := toSpawn - {entity};
      }
      assert Ascending(toSpawn) == [];
      assert offered == Ascending(pending);
      forall k | k in systems
        ensures systems[k].entities == old(systems[k].entities)
                  + Interested(Ascending(pending), entityComponentSignatures, systems[k].componentSignature)
      {
        assert lists[k] == old(systems[k].entities) && sigs[k] == old(systems[k].componentSignature);
      }
    }

    /**
     * Every system has the signature recorded in `sigs` and, after its list
     * `lists` held before the loop, the members of `offered` it is
     * interested in.
     */
    ghost predicate Offered(lists: map<SystemType, seq<Entity>>, sigs: map<SystemType, Signature>, offered: seq<Entity>)
      reads this, systems.Values
      requires Valid()
    {
      (forall e :: e in offered ==> 0 <= e.id < |entityComponentSignatures|)
      && forall k :: k in systems ==>
           k in lists && k in sigs && systems[k].componentSignature == sigs[k]
           && systems[k].entities == lists[k] + Interested(offered, entityComponentSignatures, sigs[k])
    }

    /** One turn of the loop of `Update`: one more entity offered to all systems. */
    method OfferNext(ghost lists: map<SystemType, seq<Entity>>, ghost sigs: map<SystemType, Signature>,
                     ghost offered: seq<Entity>, entity: Entity)
      requires Valid() && Offered(lists, sigs, offered)
      requires 0 <= entity.id < |entityComponentSignatures|
      modifies systems.Values
      ensures Offered(lists, sigs, offered + [entity])
    {
      AddEntityToSystems(entity);
      forall k | k in systems
        ensures systems[k].entities == lists[k] + Interested(offered + [entity], entityComponentSignatures, sigs[k])
      {
        InterestedAppend(offered, [entity], entityComponentSignatures, sigs[k]);
      }
    }

    //////// Systems ////////

    /**
     * `HasSystem<S>()` (src/ECS/ECS.h:321-324): `find` does not return `end()`,
     * that is, a system is registered under the type, which is exactly when
     * `GetSystem` and `RemoveSystem` are defined.
     */
    predicate HasSystem(st: SystemType)
      reads this
      ensures HasSystem(st) <==> st in systems.Keys
    {
      st in systems
    }

    /**
     * `AddSystem<S>()` (src/ECS/ECS.h:290-307): a new system is constructed,
     * running its `RequireComponent` calls, and inserted under its type unless
     * that type already has a system, which is then kept. Either way the type
     * has a system afterwards, and only the new one's list is new and empty.
     */
    method AddSystem(ids: ComponentTypes, st: SystemType, required: seq<TypeName>)
      requires Valid() && ids.Table().Valid() && Fits(ids.Table(), required)
      modifies this, ids
      ensures Valid() && ids.Table().Valid()
      ensures HasSystem(st)
      ensures ids.Table() == RequireAll(Empty(), old(ids.Table()), required).1
      ensures st in old(systems) ==> systems == old(systems)
      ensures st !in old(systems) ==>
                && systems == old(systems)[st := systems[st]]
                && fresh(systems[st])
                && systems[st].entities == []
                && systems[st].componentSignature == RequireAll(Empty(), old(ids.Table()), required).0
      ensures entityCount == old(entityCount) && componentPools == old(componentPools)
      ensures entityComponentSignatures == old(entityComponentSignatures)
      ensures entitiesToBeSpawned == old(entitiesToBeSpawned) && entitiesToBeKilled == old(entitiesToBeKilled)
      ensures old(PendingInvisible()) ==> PendingInvisible()
    {
      var newSystem := new System(ids, required);
      if st !in systems {
        systems := systems[st := newSystem];
      }
    }

    /**
     * `RemoveSystem<S>()` (src/ECS/ECS.h:312-316). Erasing the iterator `find`
     * returns is only defined when the system is present.
     */
    method RemoveSystem(st: SystemType)
      requires Valid() && st in systems
      modifies this
      ensures Valid()
      ensures !HasSystem(st)
      ensures systems == old(systems) - {st}
      ensures entityCount == old(entityCount) && componentPools == old(componentPools)
      ensures entityComponentSignatures == old(entityComponentSignatures)
      ensures entitiesToBeSpawned == old(entitiesToBeSpawned) && entitiesToBeKilled == old(entitiesToBeKilled)
      ensures old(PendingInvisible()) ==> PendingInvisible()
    {
      systems := systems - {st};
    }

    /**
     * `GetSystem<S>()` (src/ECS/ECS.h:329-335): the registered instance, the
     * same object the Registry updates. Dereferencing `find`'s result is only
     * defined when the system is present.
     */
    method GetSystem(st: SystemType) returns (system: System)
      requires st in systems
      ensures system == systems[st]
    {
      system := systems[st];
    }
  }
}
