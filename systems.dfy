/**
 * Systems (src/ECS/ECS.h:93-120, src/ECS/ECS.cpp:26-47): a required-component
 * signature and the list of entities the system currently processes.
 */
module Systems {
  import opened Options
  import opened Signatures
  import opened Entities
  import opened ComponentIds

  /** Key of the Registry's system map, standing in for the system's C++ type. */
  type SystemType = string

  /** The number of entries of s with the given id. */
  function Count(s: seq<Entity>, id: int): (n: nat)
    ensures n <= |s|
    ensures n == 0 <==> forall x :: x in s ==> x.id != id
  {
    if s == [] then 0 else (if s[0].id == id then 1 else 0) + Count(s[1..], id)
  }

  /**
   * s without any entry carrying the given id, the other entries in their
   * original order: what removing an entity from a system is meant to do.
   */
  function RemoveAll(s: seq<Entity>, id: int): (r: seq<Entity>)
    ensures |r| == |s| - Count(s, id)
    ensures forall x :: x in r <==> x in s && x.id != id
  {
    if s == [] then []
    else if s[0].id == id then RemoveAll(s[1..], id)
    else [s[0]] + RemoveAll(s[1..], id)
  }

  /** Removal works piecewise, so the survivors keep their relative order. */
  lemma {:induction false} RemoveAllAppend(a: seq<Entity>, b: seq<Entity>, id: int)
    ensures RemoveAll(a + b, id) == RemoveAll(a, id) + RemoveAll(b, id)
  {
    if a == [] {
      assert a + b == b;
    } else {
      assert (a + b)[0] == a[0];
      assert (a + b)[1..] == a[1..] + b;
      RemoveAllAppend(a[1..], b, id);
      if a[0].id != id {
        assert [a[0]] + (RemoveAll(a[1..], id) + RemoveAll(b, id))
            == ([a[0]] + RemoveAll(a[1..], id)) + RemoveAll(b, id);
      }
    }
  }

  /** Nothing to remove leaves the list as it is. */
  lemma {:induction false} RemoveAllNone(s: seq<Entity>, id: int)
    requires Count(s, id) == 0
    ensures RemoveAll(s, id) == s
  {
    if s != [] {
      RemoveAllNone(s[1..], id);
    }
  }

  /** With a single entry carrying the id, removal deletes exactly that position. */
  lemma {:induction false} RemoveAllSingle(s: seq<Entity>, id: int, i: nat)
    requires i < |s| && s[i].id == id && Count(s, id) == 1
    ensures RemoveAll(s, id) == s[..i] + s[i + 1..]
  {
    if i == 0 {
      RemoveAllNone(s[1..], id);
    } else {
      assert s[1..][i - 1] == s[i];
      RemoveAllSingle(s[1..], id, i - 1);
      assert s[1..][..i - 1] == s[1..i];
      assert s[1..][i..] == s[i + 1..];
      assert s[..i] == [s[0]] + s[1..i];
    }
  }

  /**
   * `entities.erase(std::remove_if(b, e, sameId))` exactly as written at
   * src/ECS/ECS.cpp:34-36. `remove_if` moves the entries to keep to the front and
   * leaves the positions after them as they were; `erase` is then given a single
   * position and removes one element. The result is the kept entries followed
   * by the old tail past them, less its first element. With no matching entry
   * that position is `end()`, which `erase` does not accept: the result is None.
   */
  function EraseRemoveIf(s: seq<Entity>, id: int): (r: Option<seq<Entity>>)
    ensures r.None? <==> Count(s, id) == 0
    ensures r.Some? ==> |r.value| == |s| - 1
  {
    var kept := RemoveAll(s, id);
    if |kept| == |s| then None else Some(kept + s[|kept| + 1..])
  }

  /** When exactly one entry matches, the code as written removes exactly that entry. */
  lemma EraseRemoveIfSingle(s: seq<Entity>, id: int)
    requires Count(s, id) == 1
    ensures EraseRemoveIf(s, id) == Some(RemoveAll(s, id))
  {
    var kept := RemoveAll(s, id);
    assert |kept| + 1 == |s|;
    assert s[|kept| + 1..] == [];
    assert kept + [] == kept;
  }

  /**
   * The code as written and the intended removal agree exactly when one entry
   * matches: with none it is undefined, with several it is one entry too long.
   */
  lemma EraseRemoveIfIffSingle(s: seq<Entity>, id: int)
    ensures EraseRemoveIf(s, id) == Some(RemoveAll(s, id)) <==> Count(s, id) == 1
  {
    if Count(s, id) == 1 {
      EraseRemoveIfSingle(s, id);
    }
  }

  /**
   * On [E1, E2, E1] the removal as written keeps the second E1: the kept entry
   * E2 is followed by the old tail past it, less its first element.
   */
  lemma EraseRemoveIfKeepsDuplicate()
    ensures EraseRemoveIf([Entity(1), Entity(2), Entity(1)], 1) == Some([Entity(2), Entity(1)])
    ensures RemoveAll([Entity(1), Entity(2), Entity(1)], 1) == [Entity(2)]
  {
    var s := [Entity(1), Entity(2), Entity(1)];
    assert s[1..] == [Entity(2), Entity(1)];
    assert s[1..][1..] == [Entity(1)];
    assert s[1..][1..][1..] == [];
    assert RemoveAll(s, 1) == [Entity(2)];
    assert s[2..] == [Entity(1)];
    assert EraseRemoveIf(s, 1) == Some(RemoveAll(s, 1) + s[2..]);
    assert [Entity(2)] + [Entity(1)] == [Entity(2), Entity(1)];
  }

  /**
   * On [E1, E1, E2] the removal as written drops both copies of E1 but lists E2
   * twice: the kept E2 is followed by the old tail [E1, E2] less its first element.
   */
  lemma EraseRemoveIfDuplicatesSurvivor()
    ensures EraseRemoveIf([Entity(1), Entity(1), Entity(2)], 1) == Some([Entity(2), Entity(2)])
    ensures RemoveAll([Entity(1), Entity(1), Entity(2)], 1) == [Entity(2)]
  {
    var s := [Entity(1), Entity(1), Entity(2)];
    assert s[1..] == [Entity(1), Entity(2)];
    assert s[1..][1..] == [Entity(2)];
    assert s[1..][1..][1..] == [];
    assert RemoveAll(s, 1) == [Entity(2)];
    assert s[2..] == [Entity(2)];
    assert EraseRemoveIf(s, 1) == Some(RemoveAll(s, 1) + s[2..]);
    assert [Entity(2)] + [Entity(2)] == [Entity(2), Entity(2)];
  }

  /**
   * Whether every `RequireComponent` call for the types ts, made in order from
   * table tab, gets an id the signature can hold.
   */
  predicate Fits(tab: IdTable, ts: seq<TypeName>)
    decreases |ts|
  {
    ts == [] || (tab.IdOf(ts[0]) < MAX_COMPONENTS && Fits(tab.Assign(ts[0]), ts[1..]))
  }

  /** The signature and id table after `RequireComponent` for each of ts in order. */
  function RequireAll(sig: Signature, tab: IdTable, ts: seq<TypeName>): (Signature, IdTable)
    requires Fits(tab, ts)
    decreases |ts|
  {
    if ts == [] then (sig, tab)
    else RequireAll(Set(sig, tab.IdOf(ts[0]), true), tab.Assign(ts[0]), ts[1..])
  }

  /**
   * After requiring the types ts: every one of them has an id whose bit is set,
   * the bits set before stay set, no other bit is set, and ids given out
   * earlier are kept.
   */
  lemma {:induction false} RequireAllSignature(sig: Signature, tab: IdTable, ts: seq<TypeName>)
    requires tab.Valid() && Fits(tab, ts)
    ensures var (s, t) := RequireAll(sig, tab, ts);
      && t.Valid()
      && (forall u :: u in tab.known ==> u in t.known && t.known[u] == tab.known[u])
      && (forall j :: 0 <= j < |ts| ==> ts[j] in t.known && t.known[ts[j]] < MAX_COMPONENTS && s[t.known[ts[j]]])
      && (forall k :: 0 <= k < MAX_COMPONENTS && sig[k] ==> s[k])
      && (forall k :: 0 <= k < MAX_COMPONENTS && s[k] && !sig[k] ==>
            exists j :: 0 <= j < |ts| && ts[j] in t.known && t.known[ts[j]] == k)
    decreases |ts|
  {
    if ts != [] {
      var id0 := tab.IdOf(ts[0]);
      var sig' := Set(sig, id0, true);
      var tab' := tab.Assign(ts[0]);
      RequireAllSignature(sig', tab', ts[1..]);
      var (s, t) := RequireAll(sig, tab, ts);
      assert (s, t) == RequireAll(sig', tab', ts[1..]);
      forall j | 0 <= j < |ts|
        ensures ts[j] in t.known && t.known[ts[j]] < MAX_COMPONENTS && s[t.known[ts[j]]]
      {
        if j > 0 {
          assert ts[j] == ts[1..][j - 1];
        }
      }
      forall k | 0 <= k < MAX_COMPONENTS && s[k] && !sig[k]
        ensures exists j :: 0 <= j < |ts| && ts[j] in t.known && t.known[ts[j]] == k
      {
        if k == id0 {
          assert ts[0] in t.known && t.known[ts[0]] == k;
        } else {
          assert !sig'[k];
          var j :| 0 <= j < |ts[1..]| && ts[1..][j] in t.known && t.known[ts[1..][j]] == k;
          assert ts[j + 1] == ts[1..][j];
        }
      }
    }
  }

  /** A system: its required components and the entities it currently processes. */
  class System {
    var componentSignature: Signature
    var entities: seq<Entity>

    /**
     * A system subclass's constructor: it starts with an empty signature and an
     * empty list and calls `RequireComponent` for each of `required` in turn, as
     * `MovementSystem()` does (src/Systems/MovementSystem.h:10-13).
     */
    constructor (ids: ComponentTypes, required: seq<TypeName>)
      requires ids.Table().Valid() && Fits(ids.Table(), required)
      modifies ids
      ensures entities == []
      ensures (componentSignature, ids.Table()) == RequireAll(Empty(), old(ids.Table()), required)
      ensures ids.Table().Valid()
    {
      componentSignature := Empty();
      entities := [];
      new;
      var i := 0;
      while i < |required|
        invariant 0 <= i <= |required|
        invariant entities == []
        invariant ids.Table().Valid() && Fits(ids.Table(), required[i..])
        invariant RequireAll(componentSignature, ids.Table(), required[i..])
               == RequireAll(Empty(), old(ids.Table()), required)
      {
        assert required[i..][1..] == required[i + 1..];
        RequireComponent(ids, required[i]);
        i := i + 1;
      }
    }

    /**
     * `RequireComponent<T>()` (src/ECS/ECS.h:116-120): looks up T's id, which
     * must fit in the signature, and sets that bit; nothing else changes.
     */
    method RequireComponent(ids: ComponentTypes, t: TypeName)
      requires ids.Table().IdOf(t) < MAX_COMPONENTS
      modifies this, ids
      ensures componentSignature == Set(old(componentSignature), old(ids.Table()).IdOf(t), true)
      ensures entities == old(entities)
      ensures ids.Table() == old(ids.Table()).Assign(t)
    {
      var componentId := ids.GetId(t);
      componentSignature := Set(componentSignature, componentId, true);
    }

    /** `AddEntityToSystem` (src/ECS/ECS.cpp:26-28): appends, with no check for duplicates. */
    method AddEntityToSystem(entity: Entity)
      modifies this
      ensures entities == old(entities) + [entity]
      ensures componentSignature == old(componentSignature)
    {
      entities := entities + [entity];
    }

    /**
     * `RemoveEntityFromSystem` (src/ECS/ECS.cpp:30-37), run as written. It is
     * correct only when exactly one entry has the entity's id: then that entry
     * is gone and the others keep their order.
     */
    method RemoveEntityFromSystem(entity: Entity)
      requires Count(entities, entity.id) == 1
      modifies this
      ensures entities == RemoveAll(old(entities), entity.id)
      ensures forall i :: 0 <= i < |old(entities)| && old(entities)[i].id == entity.id ==>
                entities == old(entities)[..i] + old(entities)[i + 1..]
      ensures componentSignature == old(componentSignature)
    {
      ghost var before := entities;
      EraseRemoveIfSingle(entities, entity.id);
      entities := EraseRemoveIf(entities, entity.id).value;
      forall i | 0 <= i < |before| && before[i].id == entity.id
        ensures entities == before[..i] + before[i + 1..]
      {
        RemoveAllSingle(before, entity.id, i);
      }
    }

    /** `GetSystemEntities` (src/ECS/ECS.cpp:39-41): the list, unchanged. */
    method GetSystemEntities() returns (es: seq<Entity>)
      ensures es == entities
    {
      es := entities;
    }

    /** `GetComponentSignature` (src/ECS/ECS.cpp:45-47): the signature, unchanged. */
    method GetComponentSignature() returns (sig: Signature)
      ensures sig == componentSignature
    {
      sig := componentSignature;
    }
  }
}
