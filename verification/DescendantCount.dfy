/** `countDescendants`: a recursive count over child lists, guarded by a `visited` set that
    every recursive call shares. The set is threaded through as a value here. */
module DescendantCount {
  import opened Options
  import opened OrgTree

  /** The rows whose parent lies in `s`. */
  function RowsUnder(nodes: seq<Node>, s: set<Id>): set<nat> {
    set i: nat | i < |nodes| && nodes[i].parentId.Some? && nodes[i].parentId.value in s
  }

  lemma RowsUnderUnion(nodes: seq<Node>, s: set<Id>, t: set<Id>)
    requires s !! t
    ensures |RowsUnder(nodes, s + t)| == |RowsUnder(nodes, s)| + |RowsUnder(nodes, t)|
  {
    assert RowsUnder(nodes, s + t) == RowsUnder(nodes, s) + RowsUnder(nodes, t);
    assert RowsUnder(nodes, s) !! RowsUnder(nodes, t);
  }

  lemma {:induction false} ChildrenCount(nodes: seq<Node>, p: Id)
    ensures |Children(nodes, p)| == |RowsUnder(nodes, {p})|
  {
    if nodes != [] {
      var last := |nodes| - 1;
      ChildrenCount(nodes[..last], p);
      var before := RowsUnder(nodes[..last], {p});
      assert RowsUnder(nodes, {p}) ==
          if nodes[last].parentId == Some(p) then before + {last} else before;
    }
  }

  /** The new visits are closed under children, lie below `nodeId`, and the count is the
      number of rows hanging directly under a new visit. */
  method CountDescendants(nodes: seq<Node>, nodeId: Id, visited: set<Id>, ghost universe: set<Id>)
    returns (count: nat, visited': set<Id>)
    requires Ids(nodes) <= universe && nodeId in universe && visited <= universe
    ensures visited + {nodeId} <= visited' <= universe
    ensures forall x :: x in visited' && x !in visited ==> InSubtree(nodes, x, nodeId)
    ensures forall c, p :: p in visited' && p !in visited && ChildOf(nodes, c, p) ==> c in visited'
    ensures count == |RowsUnder(nodes, visited' - visited)|
    decreases universe - visited
  {
    if nodeId in visited {
      assert visited - visited == {};
      return 0, visited;
    }
    visited' := visited + {nodeId};
    var directChildren := Children(nodes, nodeId);
    count := |directChildren|;
    ChildrenCount(nodes, nodeId);
    assert visited' - visited == {nodeId};
    assert Climbs(nodes, nodeId, nodeId, 0);
    for i := 0 to |directChildren|
      invariant visited + {nodeId} <= visited' <= universe
      invariant forall x :: x in visited' && x !in visited ==> InSubtree(nodes, x, nodeId)
      invariant forall j :: 0 <= j < i ==> directChildren[j] in visited'
      invariant forall c, p :: p in visited' && p !in visited && p != nodeId && ChildOf(nodes, c, p) ==> c in visited'
      invariant count == |RowsUnder(nodes, visited' - visited)|
    {
      var child := directChildren[i];
      assert ChildOf(nodes, child, nodeId);
      ghost var before := visited';
      var c, v := CountDescendants(nodes, child, visited', universe);
      forall x | x in v && x !in before ensures InSubtree(nodes, x, nodeId) {
        BelowChild(nodes, x, child, nodeId);
      }
      RowsUnderUnion(nodes, before - visited, v - before);
      assert v - visited == (before - visited) + (v - before);
      count := count + c;
      visited' := v;
    }
  }

  lemma BelowChild(nodes: seq<Node>, x: Id, c: Id, p: Id)
    requires InSubtree(nodes, x, c) && ChildOf(nodes, c, p)
    ensures InSubtree(nodes, x, p)
  {
    var k: nat :| Climbs(nodes, x, c, k);
    assert Climbs(nodes, c, p, 1) by {
      assert Climbs(nodes, p, p, 0);
    }
    ClimbsTransitive(nodes, x, c, p, k, 1);
  }

  /** The rows that reach `top` in one or more parent steps. */
  ghost function Descendants(nodes: seq<Node>, top: Id): set<Id> {
    set x | x in Ids(nodes) && ProperlyBelow(nodes, x, top)
  }

  /** The call from `useMemo`, with its default empty `visited`. Cycles are allowed: a node on
      a parent cycle reaches itself and so counts as its own descendant. */
  method CountAll(nodes: seq<Node>, nodeId: Id) returns (count: nat)
    requires UniqueIds(nodes)
    ensures count == |Descendants(nodes, nodeId)|
  {
    var visited;
    count, visited := CountDescendants(nodes, nodeId, {}, Ids(nodes) + {nodeId});
    assert visited - {} == visited;
    forall x | InSubtree(nodes, x, nodeId) ensures x in visited {
      var k: nat :| Climbs(nodes, x, nodeId, k);
      ClosedHoldsSubtree(nodes, visited, nodeId, x, k);
    }
    RowsAreDescendants(nodes, nodeId, visited);
  }

  lemma RowsAreDescendants(nodes: seq<Node>, top: Id, subtree: set<Id>)
    requires UniqueIds(nodes)
    requires forall x :: x in subtree <==> InSubtree(nodes, x, top)
    ensures |RowsUnder(nodes, subtree)| == |Descendants(nodes, top)|
  {
    var rows := RowsUnder(nodes, subtree);
    var ids := set i | i in rows :: nodes[i].id;
    RowIdsSameSize(nodes, rows, ids);
    forall x | x in ids ensures x in Descendants(nodes, top) {
      var i :| i in rows && nodes[i].id == x;
      ChildBelow(nodes, x, nodes[i].parentId.value, top);
    }
    forall x | x in Descendants(nodes, top) ensures x in ids {
      var p := BelowHasParent(nodes, x, top);
      var i: nat :| i < |nodes| && nodes[i].id == x && nodes[i].parentId == Some(p);
      assert i in rows;
    }
    assert ids == Descendants(nodes, top);
  }

  lemma {:induction false} RowIdsSameSize(nodes: seq<Node>, rows: set<nat>, ids: set<Id>)
    requires UniqueIds(nodes) && forall i :: i in rows ==> i < |nodes|
    requires ids == set i | i in rows :: nodes[i].id
    ensures |rows| == |ids|
  {
    if rows != {} {
      var i :| i in rows;
      var rest := rows - {i};
      forall x | x in ids - {nodes[i].id} ensures x in set j | j in rest :: nodes[j].id {
        var j :| j in rows && nodes[j].id == x;
        assert j in rest;
      }
      forall j | j in rest ensures nodes[j].id in ids - {nodes[i].id} {
        assert i < j || j < i;
      }
      RowIdsSameSize(nodes, rest, ids - {nodes[i].id});
    }
  }

  /** On a node that is not on a cycle the count is the delete subtree's size minus one. */
  lemma CountIsSubtreeMinusOne(nodes: seq<Node>, top: Id, subtree: set<Id>)
    requires !OnCycle(nodes, top)
    requires forall x :: x in subtree <==> InSubtree(nodes, x, top)
    ensures |Descendants(nodes, top)| == |subtree| - 1
  {
    assert Climbs(nodes, top, top, 0);
    forall x | x in subtree && x != top ensures x in Descendants(nodes, top) {
      var k: nat :| Climbs(nodes, x, top, k);
      var p := BelowHasParent(nodes, x, top);
      var i :| 0 <= i < |nodes| && nodes[i].id == x && nodes[i].parentId == Some(p);
    }
    assert subtree == Descendants(nodes, top) + {top};
  }
}
