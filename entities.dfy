/**
 * Entities (src/ECS/ECS.h:34-61): a bare id, compared by id alone, and the
 * ascending iteration order of a `std::set<Entity>`.
 */
module Entities {
  /** An entity handle; only the id takes part in comparisons. */
  datatype Entity = Entity(id: int) {
    /** `operator==` */
    predicate Eq(other: Entity) { id == other.id }
    /** `operator!=` */
    predicate Ne(other: Entity) { id != other.id }
    /** `operator<` */
    predicate Less(other: Entity) { id < other.id }
    /** `operator>` */
    predicate Greater(other: Entity) { id > other.id }
  }

  /** Two handles compare equal exactly when they are the same entity value. */
  lemma EqIsIdentity(a: Entity, b: Entity)
    ensures a.Eq(b) <==> a == b
    ensures a.Ne(b) <==> !a.Eq(b)
  {
  }

  /** `operator<` is a strict total order and `operator>` is its converse. */
  lemma LessIsStrictTotalOrder(a: Entity, b: Entity, c: Entity)
    ensures !a.Less(a)
    ensures a.Less(b) && b.Less(c) ==> a.Less(c)
    ensures a.Less(b) || a == b || b.Less(a)
    ensures a.Greater(b) <==> b.Less(a)
  {
  }

  /** m is the entity with the smallest id in s: what a `std::set` yields first. */
  predicate IsLeast(m: Entity, s: set<Entity>)
  {
    m in s && forall x :: x in s ==> m.id <= x.id
  }

  /** Every non-empty set of entities has a least element. */
  lemma {:induction false} LeastExists(s: set<Entity>)
    requires s != {}
    ensures exists m :: IsLeast(m, s)
    decreases |s|
  {
    var x :| x in s;
    if s == {x} {
      assert IsLeast(x, s);
    } else {
      LeastExists(s - {x});
      var m :| IsLeast(m, s - {x});
      if m.id <= x.id {
        assert IsLeast(m, s);
      } else {
        assert IsLeast(x, s);
      }
    }
  }

  /** The least element is unique. */
  lemma LeastIsUnique(s: set<Entity>, m: Entity, n: Entity)
    requires IsLeast(m, s) && IsLeast(n, s)
    ensures m == n
  {
  }

  /** Ids strictly increase along s, so no entity occurs twice. */
  predicate StrictlyAscending(s: seq<Entity>)
  {
    forall i, j :: 0 <= i < j < |s| ==> s[i].id < s[j].id
  }

  /** Putting an entity with a smaller id than all others in front keeps ids ascending. */
  lemma ConsAscending(e: Entity, rest: seq<Entity>)
    requires StrictlyAscending(rest)
    requires forall x :: x in rest ==> e.id < x.id
    ensures StrictlyAscending([e] + rest)
  {
    var r := [e] + rest;
    forall i, j | 0 <= i < j < |r| ensures r[i].id < r[j].id {
      assert r[j] == rest[j - 1];
      if i > 0 {
        assert r[i] == rest[i - 1];
      }
    }
  }

  /**
   * The order in which a range-for visits a `std::set<Entity>`: the least
   * element first, then the rest of the set in the same way.
   */
  ghost function Ascending(s: set<Entity>): (r: seq<Entity>)
    ensures forall x :: x in r ==> x in s
    decreases |s|
  {
    if s == {} then []
    else
      LeastExists(s);
      var m :| IsLeast(m, s);
      [m] + Ascending(s - {m})
  }

  /** The visit order holds every member of the set once, by strictly ascending id. */
  lemma {:induction false} AscendingIsSortedSet(s: set<Entity>)
    ensures |Ascending(s)| == |s|
    ensures forall x :: x in Ascending(s) <==> x in s
    ensures StrictlyAscending(Ascending(s))
    decreases |s|
  {
    if s != {} {
      var r := Ascending(s);
      var m := r[0];
      var rest := r[1..];
      assert IsLeast(m, s) && rest == Ascending(s - {m});
      AscendingIsSortedSet(s - {m});
      forall x | x in rest ensures m.id < x.id {
        assert x in s && x != m;
      }
      ConsAscending(m, rest);
      assert r == [m] + rest;
    }
  }

  /** Iteration starts at the least element and continues with the rest of the set. */
  lemma AscendingFirst(s: set<Entity>, e: Entity)
    requires IsLeast(e, s)
    ensures Ascending(s) == [e] + Ascending(s - {e})
  {
    var r := Ascending(s);
    AscendingIsSortedSet(s);
    assert r[0] in s;
    assert IsLeast(r[0], s) by {
      forall x | x in s ensures r[0].id <= x.id {
        var i :| 0 <= i < |r| && r[i] == x;
        assert i == 0 || r[0].id < r[i].id;
      }
    }
    LeastIsUnique(s, e, r[0]);
  }

  /**
   * Visiting a set member by member from the least: if `visited` followed by
   * the rest of the set is the full visit order, then so is `visited` plus the
   * least remaining member followed by what is left.
   */
  lemma AscendingStep(visited: seq<Entity>, remaining: set<Entity>, e: Entity, all: set<Entity>)
    requires visited + Ascending(remaining) == Ascending(all)
    requires IsLeast(e, remaining)
    ensures (visited + [e]) + Ascending(remaining - {e}) == Ascending(all)
  {
    AscendingFirst(remaining, e);
  }
}
