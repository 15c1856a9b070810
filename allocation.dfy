/**
 * Entity ids over a run of spawns and kills. `SpawnEntity` hands out the
 * shared counter truncated to 8 bits and `KillEntity` decrements that same
 * counter (src/ECS/ECS.cpp:60-83), so ids of live entities come round again.
 * `IssuedIds` is that rule as written; `IntendedIds` is the allocator the
 * counter evidently stands for, under which no id is handed out twice.
 */
module Allocation {
  import opened Entities
  import opened Registries

  /** One call on the Registry: `SpawnEntity()`, or `KillEntity(entity)`. */
  datatype Op = Spawn | Kill(entity: Entity)

  /** The value of `entityCount` after `ops`, starting from 0. */
  function Counter(ops: seq<Op>): int
  {
    if ops == [] then 0
    else Counter(ops[..|ops| - 1]) + (if ops[|ops| - 1] == Spawn then 1 else -1)
  }

  /** How many of `ops` are spawns. */
  function Spawns(ops: seq<Op>): (n: nat)
    ensures n <= |ops|
  {
    if ops == [] then 0
    else Spawns(ops[..|ops| - 1]) + (if ops[|ops| - 1] == Spawn then 1 else 0)
  }

  /** The ids the spawns among `ops` receive, in order, as the code is written. */
  function IssuedIds(ops: seq<Op>): seq<int>
  {
    if ops == [] then []
    else
      var before := ops[..|ops| - 1];
      IssuedIds(before) + (if ops[|ops| - 1] == Spawn then [TruncatedId(Counter(before))] else [])
  }

  /** The ids the spawns among `ops` receive from a counter only spawns advance. */
  function IntendedIds(ops: seq<Op>): seq<int>
  {
    if ops == [] then []
    else
      var before := ops[..|ops| - 1];
      IntendedIds(before) + (if ops[|ops| - 1] == Spawn then [Spawns(before)] else [])
  }

  /** Ids no two positions of `ids` share. */
  predicate Distinct(ids: seq<int>)
  {
    forall i, j :: 0 <= i < j < |ids| ==> ids[i] != ids[j]
  }

  /** As written: spawn, spawn, kill the first, spawn — the third entity gets the live second's id. */
  lemma IssuedIdsReuseLiveId()
    ensures IssuedIds([Spawn, Spawn, Kill(Entity(0)), Spawn]) == [0, 1, 1]
    ensures !Distinct(IssuedIds([Spawn, Spawn, Kill(Entity(0)), Spawn]))
  {
    var one, two, three := [Spawn], [Spawn, Spawn], [Spawn, Spawn, Kill(Entity(0))];
    var four := three + [Spawn];
    assert four == [Spawn, Spawn, Kill(Entity(0)), Spawn];
    assert one[..0] == [] && two[..1] == one && three[..2] == two && four[..3] == three;
    assert Counter(one) == 1 && IssuedIds(one) == [0];
    assert Counter(two) == 2 && IssuedIds(two) == [0, 1];
    assert Counter(three) == 1 && IssuedIds(three) == [0, 1];
    assert IssuedIds(four) == [0, 1] + [1];
    assert IssuedIds(four)[1] == IssuedIds(four)[2];
  }

  /** As written, even without kills: the k-th spawn gets k modulo 256, so the 257th repeats the first. */
  lemma {:induction false} IssuedIdsWithoutKills(ops: seq<Op>)
    requires forall i :: 0 <= i < |ops| ==> ops[i] == Spawn
    ensures Counter(ops) == |ops|
    ensures |IssuedIds(ops)| == |ops|
    ensures forall k :: 0 <= k < |ops| ==> IssuedIds(ops)[k] == k % 256
    ensures |ops| > 256 ==> IssuedIds(ops)[256] == IssuedIds(ops)[0]
  {
    if ops != [] {
      var before := ops[..|ops| - 1];
      IssuedIdsWithoutKills(before);
    }
  }

  /** Intended: the k-th spawn gets id k, whatever kills come between. */
  lemma {:induction false} IntendedIdsCount(ops: seq<Op>)
    ensures |IntendedIds(ops)| == Spawns(ops)
    ensures forall k :: 0 <= k < |IntendedIds(ops)| ==> IntendedIds(ops)[k] == k
  {
    if ops != [] {
      IntendedIdsCount(ops[..|ops| - 1]);
    }
  }

  /** Intended: no id is ever handed out twice. */
  lemma IntendedIdsDistinct(ops: seq<Op>)
    ensures Distinct(IntendedIds(ops))
  {
    IntendedIdsCount(ops);
  }

  /** Intended: the id a spawn receives is none of the ids handed out before it. */
  lemma IntendedIdIsNew(ops: seq<Op>)
    requires ops != [] && ops[|ops| - 1] == Spawn
    ensures var before := IntendedIds(ops[..|ops| - 1]);
      |IntendedIds(ops)| == |before| + 1 && IntendedIds(ops)[|before|] !in before
  {
    var before := ops[..|ops| - 1];
    IntendedIdsCount(before);
    IntendedIdsCount(ops);
  }

  /** After n calls the counter lies between -n and n. */
  lemma {:induction false} CounterBounds(ops: seq<Op>)
    ensures -|ops| <= Counter(ops) <= |ops|
  {
    if ops != [] {
      CounterBounds(ops[..|ops| - 1]);
    }
  }

  /**
   * A fresh Registry driven through `ops`, recording the id of every spawned
   * entity: the ids are `IssuedIds(ops)`, so what is proved about `IssuedIds`
   * holds of the Registry itself.
   */
  method RegistryIssuedIds(ops: seq<Op>) returns (issued: seq<int>)
    requires |ops| <= INT_MAX
    ensures issued == IssuedIds(ops)
  {
    var registry := new Registry<int>(0);
    issued := [];
    var i := 0;
    while i < |ops|
      invariant 0 <= i <= |ops|
      invariant registry.Valid()
      invariant registry.entityCount == Counter(ops[..i])
      invariant issued == IssuedIds(ops[..i])
    {
      CounterBounds(ops[..i]);
      assert ops[..i + 1][..i] == ops[..i];
      match ops[i] {
        case Spawn =>
          var entity := registry.SpawnEntity();
          issued := issued + [entity.id];
        case Kill(victim) =>
          registry.KillEntity(victim);
      }
      i := i + 1;
    }
    assert ops[..|ops|] == ops;
  }
}
