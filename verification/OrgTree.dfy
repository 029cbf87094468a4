/** The parent graph of workspaces that the canvas draws, and plain reachability in it.
    A node names its parent by id; ids may dangle and chains may be cyclic. */
module OrgTree {
  import opened Options

  type Id = string

  datatype Node = Node(id: Id, parentId: Option<Id>, provisioning: bool, draggable: Option<bool>)

  ghost predicate UniqueIds(nodes: seq<Node>) {
    forall i, j :: 0 <= i < j < |nodes| ==> nodes[i].id != nodes[j].id
  }

  function Ids(nodes: seq<Node>): set<Id> {
    set i | 0 <= i < |nodes| :: nodes[i].id
  }

  /** Some row lists `p` as the parent of `c`. */
  ghost predicate ChildOf(nodes: seq<Node>, c: Id, p: Id) {
    exists i :: 0 <= i < |nodes| && nodes[i].id == c && nodes[i].parentId == Some(p)
  }

  /** `x` reaches `top` in exactly `k` parent steps. */
  ghost predicate Climbs(nodes: seq<Node>, x: Id, top: Id, k: nat)
    decreases k
  {
    if k == 0 then x == top
    else exists p :: ChildOf(nodes, x, p) && Climbs(nodes, p, top, k - 1)
  }

  /** `x` is `top` or one of its descendants. */
  ghost predicate InSubtree(nodes: seq<Node>, x: Id, top: Id) {
    exists k: nat :: Climbs(nodes, x, top, k)
  }

  /** `x` reaches `top` in one or more parent steps. */
  ghost predicate ProperlyBelow(nodes: seq<Node>, x: Id, top: Id) {
    exists k: nat :: k > 0 && Climbs(nodes, x, top, k)
  }

  ghost predicate OnCycle(nodes: seq<Node>, x: Id) {
    ProperlyBelow(nodes, x, x)
  }

  lemma ChildBelow(nodes: seq<Node>, c: Id, p: Id, top: Id)
    requires ChildOf(nodes, c, p) && InSubtree(nodes, p, top)
    ensures ProperlyBelow(nodes, c, top) && InSubtree(nodes, c, top)
  {
    var k: nat :| Climbs(nodes, p, top, k);
    assert Climbs(nodes, c, top, k + 1);
  }

  lemma BelowHasParent(nodes: seq<Node>, x: Id, top: Id) returns (p: Id)
    requires ProperlyBelow(nodes, x, top)
    ensures ChildOf(nodes, x, p) && InSubtree(nodes, p, top)
  {
    var k: nat :| k > 0 && Climbs(nodes, x, top, k);
    p :| ChildOf(nodes, x, p) && Climbs(nodes, p, top, k - 1);
  }

  /** A set that holds `top` and is closed under children holds the whole subtree. */
  lemma {:induction false} ClosedHoldsSubtree(nodes: seq<Node>, s: set<Id>, top: Id, x: Id, k: nat)
    requires top in s
    requires forall c, p :: p in s && ChildOf(nodes, c, p) ==> c in s
    requires Climbs(nodes, x, top, k)
    ensures x in s
    decreases k
  {
    if k > 0 {
      var p :| ChildOf(nodes, x, p) && Climbs(nodes, p, top, k - 1);
      ClosedHoldsSubtree(nodes, s, top, p, k - 1);
    }
  }

  lemma {:induction false} ClimbsTransitive(nodes: seq<Node>, x: Id, y: Id, z: Id, j: nat, k: nat)
    requires Climbs(nodes, x, y, j) && Climbs(nodes, y, z, k)
    ensures Climbs(nodes, x, z, j + k)
    decreases j
  {
    if j > 0 {
      var p :| ChildOf(nodes, x, p) && Climbs(nodes, p, y, j - 1);
      ClimbsTransitive(nodes, p, y, z, j - 1, k);
      assert Climbs(nodes, p, z, j + k - 1);
    }
  }

  /** The ids of the rows whose parent is `p`, in list order. */
  function Children(nodes: seq<Node>, p: Id): (ids: seq<Id>)
    ensures forall c :: c in ids <==> ChildOf(nodes, c, p)
  {
    if nodes == [] then []
    else
      var last := |nodes| - 1;
      var before := Children(nodes[..last], p);
      assert forall c :: ChildOf(nodes, c, p) <==>
          ChildOf(nodes[..last], c, p) || (nodes[last].id == c && nodes[last].parentId == Some(p)) by {
        assert nodes == nodes[..last] + [nodes[last]];
      }
      if nodes[last].parentId == Some(p) then before + [nodes[last].id] else before
  }
}
