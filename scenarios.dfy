/**
 * Whole runs of a Registry: the movement-system run of the engine's game setup
 * and the run in which a spawn after a kill repeats a live id.
 */
module Scenarios {
  import opened Signatures
  import opened Entities
  import opened ComponentIds
  import opened Systems
  import opened Registries

  const TRANSFORM: TypeName := "TransformComponent"
  const RIGID_BODY: TypeName := "RigidBodyComponent"
  const MOVEMENT: SystemType := "MovementSystem"

  /** The table once Transform and then RigidBody have asked for their ids. */
  const BOTH_KNOWN := IdTable(map[TRANSFORM := 0, RIGID_BODY := 1], 2)

  /** The signature of a Transform alone, and of a Transform with a RigidBody. */
  function TransformOnly(): Signature { Set(Empty(), 0, true) }
  function TransformAndRigidBody(): Signature { Set(TransformOnly(), 1, true) }

  /** Requiring Transform then RigidBody from a fresh id table. */
  lemma MovementRequirement()
    ensures RequireAll(Empty(), Initial, [TRANSFORM, RIGID_BODY]) == (TransformAndRigidBody(), BOTH_KNOWN)
  {
    var ts := [TRANSFORM, RIGID_BODY];
    assert TRANSFORM != RIGID_BODY by { assert TRANSFORM[0] != RIGID_BODY[0]; }
    var one := IdTable(map[TRANSFORM := 0], 1);
    assert Initial.IdOf(TRANSFORM) == 0 && Initial.Assign(TRANSFORM) == one;
    assert one.IdOf(RIGID_BODY) == 1 && one.Assign(RIGID_BODY) == BOTH_KNOWN;
    assert ts[1..] == [RIGID_BODY] && ts[1..][1..] == [];
    calc {
      RequireAll(Empty(), Initial, ts);
      RequireAll(TransformOnly(), one, [RIGID_BODY]);
      RequireAll(TransformAndRigidBody(), BOTH_KNOWN, []);
    }
  }

  /** Three entities, offered least id first. */
  lemma AscendingThree(e0: Entity, e1: Entity, e2: Entity)
    requires e0.id == 0 && e1.id == 1 && e2.id == 2
    ensures Ascending({e0, e1, e2}) == [e0, e1, e2]
  {
    AscendingFirst({e0, e1, e2}, e0);
    assert {e0, e1, e2} - {e0} == {e1, e2};
    AscendingFirst({e1, e2}, e1);
    assert {e1, e2} - {e1} == {e2};
    AscendingFirst({e2}, e2);
    assert {e2} - {e2} == {};
  }

  /** A system requiring Transform and RigidBody takes the two entities that have both. */
  lemma InterestedTwoOfThree(es: seq<Entity>, sigs: seq<Signature>)
    requires |es| == 3 && |sigs| == 3 && forall i :: 0 <= i < 3 ==> es[i].id == i
    requires sigs[0] == TransformAndRigidBody() && sigs[1] == TransformAndRigidBody()
    requires sigs[2] == TransformOnly()
    ensures Interested(es, sigs, TransformAndRigidBody()) == es[..2]
  {
    var required := TransformAndRigidBody();
    SatisfiesIffIncludes(required, required);
    SatisfiesIffIncludes(TransformOnly(), required);
    assert Test(required, 1) && !Test(TransformOnly(), 1);
    assert Interested(es[2..][1..], sigs, required) == [];
    assert Interested(es[1..][1..], sigs, required) == [];
    assert Interested(es[1..], sigs, required) == [es[1]];
  }

  /** A fresh registry with only a movement system, which requires Transform and RigidBody. */
  method RegisterMovement() returns (ids: ComponentTypes, registry: Registry<int>, movement: System)
    ensures fresh(ids) && fresh(registry) && fresh(movement)
    ensures ids.Table() == BOTH_KNOWN
    ensures registry.Valid() && registry.entityCount == 0
    ensures registry.entitiesToBeSpawned == {} && registry.entityComponentSignatures == []
    ensures registry.systems == map[MOVEMENT := movement]
    ensures movement.componentSignature == TransformAndRigidBody() && movement.entities == []
  {
    ids := new ComponentTypes();
    registry := new Registry<int>(0);
    MovementRequirement();
    registry.AddSystem(ids, MOVEMENT, [TRANSFORM, RIGID_BODY]);
    movement := registry.GetSystem(MOVEMENT);
  }

  /** Three spawns into a registry that has spawned nothing yet. */
  method SpawnThree(registry: Registry<int>) returns (e0: Entity, e1: Entity, e2: Entity)
    requires registry.Valid() && registry.entityCount == 0
    requires registry.entitiesToBeSpawned == {} && registry.entityComponentSignatures == []
    modifies registry
    ensures registry.Valid() && registry.systems == old(registry.systems)
    ensures e0.id == 0 && e1.id == 1 && e2.id == 2
    ensures registry.entitiesToBeSpawned == {e0, e1, e2}
    ensures registry.entityComponentSignatures == [Empty(), Empty(), Empty()]
  {
    e0 := registry.SpawnEntity();
    e1 := registry.SpawnEntity();
    e2 := registry.SpawnEntity();
  }

  /** A Transform for the entity, and a RigidBody too when `rigid`. */
  method Attach(ids: ComponentTypes, registry: Registry<int>, e: Entity, rigid: bool)
    requires ids.Table() == BOTH_KNOWN && registry.Valid()
    requires 0 <= e.id < |registry.entityComponentSignatures|
    requires registry.entityComponentSignatures[e.id] == Empty()
    modifies ids, registry
    ensures ids.Table() == BOTH_KNOWN
    ensures registry.Valid() && registry.systems == old(registry.systems)
    ensures registry.entitiesToBeSpawned == old(registry.entitiesToBeSpawned)
    ensures registry.entityComponentSignatures == old(registry.entityComponentSignatures)[e.id :=
              if rigid then TransformAndRigidBody() else TransformOnly()]
  {
    registry.AddComponentToEntity(ids, e, TRANSFORM, 10 * e.id);
    if rigid {
      registry.AddComponentToEntity(ids, e, RIGID_BODY, 100 * e.id);
    }
  }

  /** Transform for all three entities, RigidBody for the first two. */
  method AttachComponents(ids: ComponentTypes, registry: Registry<int>, e0: Entity, e1: Entity, e2: Entity)
    requires ids.Table() == BOTH_KNOWN && registry.Valid()
    requires e0.id == 0 && e1.id == 1 && e2.id == 2
    requires registry.entityComponentSignatures == [Empty(), Empty(), Empty()]
    modifies ids, registry
    ensures registry.Valid() && registry.systems == old(registry.systems)
    ensures registry.entitiesToBeSpawned == old(registry.entitiesToBeSpawned)
    ensures registry.entityComponentSignatures == [TransformAndRigidBody(), TransformAndRigidBody(), TransformOnly()]
  {
    Attach(ids, registry, e0, true);
    Attach(ids, registry, e1, true);
    Attach(ids, registry, e2, false);
  }

  /**
   * Three entities get a Transform, two of them a RigidBody too; a movement
   * system requiring both lists exactly those two after `Update`, least id
   * first, and never the third. Before `Update` it lists nobody.
   */
  method MovementSystemMembers() returns (before: seq<Entity>, after: seq<Entity>, e0: Entity, e1: Entity, e2: Entity)
    ensures before == []
    ensures after == [e0, e1]
    ensures e2 !in after && e0 != e2 && e1 != e2
  {
    var ids, registry, movement := RegisterMovement();
    e0, e1, e2 := SpawnThree(registry);
    AttachComponents(ids, registry, e0, e1, e2);
    ghost var sigs := registry.entityComponentSignatures;
    before := movement.GetSystemEntities();
    assert registry.systems[MOVEMENT] == movement && movement.componentSignature == TransformAndRigidBody();
    AscendingThree(e0, e1, e2);
    registry.Update();
    InterestedTwoOfThree([e0, e1, e2], sigs);
    assert [e0, e1, e2][..2] == [e0, e1];
    after := movement.GetSystemEntities();
  }

  /**
   * Spawn two entities, kill the first, spawn again: the new entity has the
   * id of the second, which is still alive.
   */
  method SpawnAfterKill() returns (first: Entity, second: Entity, third: Entity)
    ensures first.id == 0 && second.id == 1
    ensures third == second
  {
    var registry := new Registry<int>(0);
    first := registry.SpawnEntity();
    second := registry.SpawnEntity();
    registry.KillEntity(first);
    third := registry.SpawnEntity();
  }

  /** A system type whose constructor requires no component. */
  const ANY: SystemType := "AnySystem"

  /**
   * A system requiring nothing lists e0 once `Update` has run. Kill e0 and
   * spawn again: the new entity is e0 once more, so it waits in the spawn set
   * while it is already listed, and the promise that pending entities are in
   * no list no longer holds.
   */
  method RespawnIsAlreadyListed() returns (registry: Registry<int>, respawned: Entity)
    ensures respawned in registry.entitiesToBeSpawned
    ensures registry.Listed(respawned)
    ensures !registry.PendingInvisible()
  {
    var ids := new ComponentTypes();
    registry := new Registry<int>(0);
    registry.AddSystem(ids, ANY, []);
    var any := registry.GetSystem(ANY);
    assert any.componentSignature == Empty();
    var e0 := registry.SpawnEntity();
    AscendingFirst({e0}, e0);
    assert {e0} - {e0} == {};
    assert Ascending({e0}) == [e0];
    ghost var sigs := registry.entityComponentSignatures;
    EmptyIsSatisfied(sigs[e0.id]);
    assert [e0][1..] == [] && Interested([e0], sigs, Empty()) == [e0];
    assert registry.systems[ANY] == any && any.entities == [];
    registry.Update();
    assert any.entities == [e0];
    registry.KillEntity(e0);
    respawned := registry.SpawnEntity();
    assert respawned == e0 && ANY in registry.systems && respawned in registry.systems[ANY].entities;
  }
}
