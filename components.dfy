/**
 * Component type ids (src/ECS/ECS.h:67-88, src/ECS/ECS.cpp:17): a process-wide
 * counter hands each component type a small integer the first time the type is
 * used, and the id is remembered from then on.
 */
module ComponentIds {
  /** The identity of a component type, standing in for the C++ type itself. */
  type TypeName = string

  /**
   * The memo table: `known` holds the function-local static `id` of every
   * `Component<T>::GetId` that has run, `nextId` is `IComponent::nextId`.
   */
  datatype IdTable = IdTable(known: map<TypeName, nat>, nextId: nat) {
    /** Ids handed out so far are below the counter and pairwise distinct. */
    ghost predicate Valid()
    {
      && (forall t :: t in known ==> known[t] < nextId)
      && (forall t, u :: t in known && u in known && t != u ==> known[t] != known[u])
    }

    /** The id `GetId` returns for t: the remembered one, else the current counter. */
    function IdOf(t: TypeName): nat
    {
      if t in known then known[t] else nextId
    }

    /** The table after `Component<t>::GetId()` has run once more. */
    function Assign(t: TypeName): (r: IdTable)
      ensures Valid() ==> r.Valid()
      ensures t in r.known && r.known[t] == IdOf(t)
      ensures forall u :: u in known ==> u in r.known && r.known[u] == known[u]
      ensures r.known.Keys == known.Keys + {t}
      ensures r.nextId == if t in known then nextId else nextId + 1
    {
      if t in known then this else IdTable(known[t := nextId], nextId + 1)
    }
  }

  /** The initial table: no type has an id and the counter is 0 (src/ECS/ECS.cpp:17). */
  const Initial := IdTable(map[], 0)

  /** Asking again for the same type, after any other type, gives the same id. */
  lemma IdIsStable(tab: IdTable, t: TypeName, u: TypeName)
    ensures tab.Assign(t).Assign(u).IdOf(t) == tab.IdOf(t)
    ensures tab.Assign(t).Assign(t) == tab.Assign(t)
  {
  }

  /** Two different types never share an id. */
  lemma DistinctTypesDistinctIds(tab: IdTable, t: TypeName, u: TypeName)
    requires tab.Valid() && t != u
    ensures tab.Assign(t).Assign(u).IdOf(t) != tab.Assign(t).Assign(u).IdOf(u)
  {
  }

  /**
   * The process-wide id counter. `nextId` is the static `IComponent::nextId`;
   * `known` holds the static `id` of each `Component<T>::GetId` already run.
   */
  class ComponentTypes {
    var nextId: nat
    var known: map<TypeName, nat>

    /** The counter and the remembered ids as one value. */
    function Table(): IdTable
      reads this
    {
      IdTable(known, nextId)
    }

    constructor ()
      ensures Table() == Initial
    {
      nextId := 0;
      known := map[];
    }

    /**
     * `Component<T>::GetId()` (src/ECS/ECS.h:84-87): on the first call for t the
     * id is the current counter and the counter advances by one; later calls
     * return the same id and change nothing.
     */
    method GetId(t: TypeName) returns (id: nat)
      modifies this
      ensures id == old(Table()).IdOf(t)
      ensures Table() == old(Table()).Assign(t)
      ensures old(Table()).Valid() ==> Table().Valid()
    {
      if t in known {
        id := known[t];
      } else {
        id := nextId;
        known := known[t := id];
        nextId := nextId + 1;
      }
    }
  }
}
