/** The subtree worklist of `confirmDelete`: an explicit stack with no visited check. */
module DeleteWorklist {
  import opened Options
  import opened OrgTree

  ghost predicate Distinct(s: seq<Id>) {
    forall i, j :: 0 <= i < j < |s| ==> s[i] != s[j]
  }

  lemma DistinctConcat(a: seq<Id>, b: seq<Id>)
    requires Distinct(a) && Distinct(b)
    requires forall x :: x in a ==> x !in b
    ensures Distinct(a + b)
  {
    forall i, j | 0 <= i < j < |a + b| ensures (a + b)[i] != (a + b)[j] {
      if i < |a| <= j {
        assert a[i] in a && b[j - |a|] in b;
      }
    }
  }

  /** One round of the loop: pop the top, push its children in list order. */
  function Expand(nodes: seq<Node>, stack: seq<Id>): seq<Id>
    requires stack != []
  {
    stack[..|stack| - 1] + Children(nodes, stack[|stack| - 1])
  }

  /** The stack after `k` rounds, staying empty once it is empty. */
  function StackAfter(nodes: seq<Node>, start: Id, k: nat): seq<Id> {
    if k == 0 then [start]
    else
      var s := StackAfter(nodes, start, k - 1);
      if s == [] then [] else Expand(nodes, s)
  }

  ghost function Members(stack: seq<Id>): set<Id> {
    set x | x in stack
  }

  /** `seen` is what was popped or is still stacked: it lies below `start` and, seen from
      either end, consists of `start` and the children of popped nodes. */
  ghost predicate Frontier(nodes: seq<Node>, start: Id, seen: set<Id>, popped: set<Id>) {
    && start in seen && popped <= seen <= Ids(nodes) + {start}
    && (forall x :: x in seen ==> InSubtree(nodes, x, start))
    && (forall c, p :: p in popped && ChildOf(nodes, c, p) ==> c in seen)
    && (forall c, p :: c in seen && c != start && ChildOf(nodes, c, p) ==> p in popped)
  }

  /** What every round keeps. */
  ghost predicate WorklistInv(nodes: seq<Node>, start: Id, stack: seq<Id>, subtree: set<Id>) {
    && Distinct(stack)
    && Members(stack) !! subtree
    && Frontier(nodes, start, Members(stack) + subtree, subtree)
  }

  lemma {:induction false} ChildrenDistinct(nodes: seq<Node>, p: Id)
    requires UniqueIds(nodes)
    ensures Distinct(Children(nodes, p))
  {
    if nodes != [] {
      var last := |nodes| - 1;
      ChildrenDistinct(nodes[..last], p);
      forall c | c in Children(nodes[..last], p) ensures c != nodes[last].id {
        var i :| 0 <= i < last && nodes[..last][i].id == c;
      }
      DistinctConcat(Children(nodes[..last], p), [nodes[last].id]);
    }
  }

  /** Popping a node that was not popped before keeps the frontier, and its children are new. */
  lemma PopKeepsFrontier(nodes: seq<Node>, start: Id, seen: set<Id>, popped: set<Id>, nid: Id)
    requires UniqueIds(nodes) && !OnCycle(nodes, start)
    requires Frontier(nodes, start, seen, popped) && nid in seen && nid !in popped
    ensures Members(Children(nodes, nid)) !! seen
    ensures Frontier(nodes, start, seen + Members(Children(nodes, nid)), popped + {nid})
  {
    var kids := Members(Children(nodes, nid));
    forall c | c in kids
      ensures c !in seen && c in Ids(nodes) && InSubtree(nodes, c, start)
    {
      ChildBelow(nodes, c, nid, start);
    }
    forall c, p | c in kids && ChildOf(nodes, c, p) ensures p == nid { }
  }

  lemma ExpandKeepsInv(nodes: seq<Node>, start: Id, stack: seq<Id>, subtree: set<Id>)
    requires UniqueIds(nodes) && !OnCycle(nodes, start)
    requires stack != [] && WorklistInv(nodes, start, stack, subtree)
    ensures WorklistInv(nodes, start, Expand(nodes, stack), subtree + {stack[|stack| - 1]})
    ensures subtree < subtree + {stack[|stack| - 1]} <= Ids(nodes) + {start}
  {
    var nid, rest := stack[|stack| - 1], stack[..|stack| - 1];
    var kids := Children(nodes, nid);
    var seen := Members(stack) + subtree;
    assert nid in Members(stack);
    PopKeepsFrontier(nodes, start, seen, subtree, nid);
    ChildrenDistinct(nodes, nid);
    assert Members(stack) == Members(rest) + {nid} by {
      assert stack == rest + [nid];
    }
    assert nid !in Members(rest);
    forall x | x in rest ensures x !in kids {
      assert x in Members(rest);
      assert x !in Members(kids);
    }
    DistinctConcat(rest, kids);
    assert Members(rest + kids) == Members(rest) + Members(kids);
    assert Members(rest + kids) + (subtree + {nid}) == seen + Members(kids);
  }

  lemma InvExact(nodes: seq<Node>, start: Id, subtree: set<Id>)
    requires WorklistInv(nodes, start, [], subtree)
    ensures forall x :: x in subtree <==> InSubtree(nodes, x, start)
  {
    forall x | InSubtree(nodes, x, start) ensures x in subtree {
      var k: nat :| Climbs(nodes, x, start, k);
      ClosedHoldsSubtree(nodes, subtree, start, x, k);
    }
  }

  lemma StartInv(nodes: seq<Node>, start: Id)
    ensures WorklistInv(nodes, start, [start], {})
  {
    assert Climbs(nodes, start, start, 0);
  }

  method PushChildren(nodes: seq<Node>, rest: seq<Id>, nid: Id) returns (stack: seq<Id>)
    ensures stack == rest + Children(nodes, nid)
  {
    stack := rest;
    for i := 0 to |nodes|
      invariant stack == rest + Children(nodes[..i], nid)
    {
      assert nodes[..i + 1][..i] == nodes[..i];
      if nodes[i].parentId == Some(nid) {
        stack := stack + [nodes[i].id];
      }
    }
    assert nodes[..|nodes|] == nodes;
  }

  method DeleteSubtree(nodes: seq<Node>, start: Id) returns (subtree: set<Id>)
    requires UniqueIds(nodes)
    requires !OnCycle(nodes, start)
    ensures forall x :: x in subtree <==> InSubtree(nodes, x, start)
  {
    subtree := {};
    var stack := [start];
    StartInv(nodes, start);
    while stack != []
      invariant WorklistInv(nodes, start, stack, subtree)
      invariant subtree <= Ids(nodes) + {start}
      decreases Ids(nodes) + {start} - subtree
    {
      ExpandKeepsInv(nodes, start, stack, subtree);
      var nid := stack[|stack| - 1];
      subtree := subtree + {nid};
      stack := PushChildren(nodes, stack[..|stack| - 1], nid);
    }
    InvExact(nodes, start, subtree);
  }

  /** From a good state the stack empties after finitely many rounds. */
  lemma {:induction false} Drains(nodes: seq<Node>, start: Id, k: nat, subtree: set<Id>) returns (n: nat)
    requires UniqueIds(nodes) && !OnCycle(nodes, start)
    requires WorklistInv(nodes, start, StackAfter(nodes, start, k), subtree)
    requires subtree <= Ids(nodes) + {start}
    ensures StackAfter(nodes, start, n) == []
    decreases Ids(nodes) + {start} - subtree
  {
    var stack := StackAfter(nodes, start, k);
    n := k;
    if stack != [] {
      ExpandKeepsInv(nodes, start, stack, subtree);
      n := Drains(nodes, start, k + 1, subtree + {stack[|stack| - 1]});
    }
  }

  /** A node on a parent cycle has a child on the same cycle. */
  lemma CycleChild(nodes: seq<Node>, x: Id) returns (c: Id)
    requires OnCycle(nodes, x)
    ensures ChildOf(nodes, c, x) && OnCycle(nodes, c)
  {
    var k: nat :| k > 0 && Climbs(nodes, x, x, k);
    c := LastStep(nodes, x, x, k);
    assert Climbs(nodes, c, x, 1) by {
      assert Climbs(nodes, x, x, 0);
    }
    ClimbsTransitive(nodes, c, x, c, 1, k - 1);
    assert Climbs(nodes, c, c, k);
  }

  lemma {:induction false} LastStep(nodes: seq<Node>, x: Id, top: Id, k: nat) returns (c: Id)
    requires k > 0 && Climbs(nodes, x, top, k)
    ensures ChildOf(nodes, c, top) && Climbs(nodes, x, c, k - 1)
    decreases k
  {
    var p :| ChildOf(nodes, x, p) && Climbs(nodes, p, top, k - 1);
    if k == 1 {
      c := x;
    } else {
      c := LastStep(nodes, p, top, k - 1);
      assert Climbs(nodes, x, c, k - 1);
    }
  }

  /** A round leaves a node of the cycle on the stack if it found one. */
  lemma CycleStays(nodes: seq<Node>, stack: seq<Id>) returns (y: Id)
    requires exists x :: x in stack && OnCycle(nodes, x)
    ensures stack != [] && y in Expand(nodes, stack) && OnCycle(nodes, y)
  {
    var x :| x in stack && OnCycle(nodes, x);
    var rest, top := stack[..|stack| - 1], stack[|stack| - 1];
    if x == top {
      y := CycleChild(nodes, x);
      assert y in Children(nodes, top);
    } else {
      y := x;
      assert y in rest by {
        assert stack == rest + [top];
      }
    }
  }

  /** On a cycle some stacked node is always on the cycle, so the loop never ends. */
  lemma {:induction false} CycleKeepsStack(nodes: seq<Node>, start: Id, k: nat)
    requires OnCycle(nodes, start)
    ensures exists x :: x in StackAfter(nodes, start, k) && OnCycle(nodes, x)
  {
    if k == 0 {
      assert start in StackAfter(nodes, start, 0);
    } else {
      CycleKeepsStack(nodes, start, k - 1);
      var s := StackAfter(nodes, start, k - 1);
      var y := CycleStays(nodes, s);
      assert y in StackAfter(nodes, start, k);
    }
  }

  /** The worklist ends exactly when the deleted node is not on a parent cycle. */
  lemma TerminatesIff(nodes: seq<Node>, start: Id)
    requires UniqueIds(nodes)
    ensures (exists n: nat :: StackAfter(nodes, start, n) == []) <==> !OnCycle(nodes, start)
  {
    if OnCycle(nodes, start) {
      forall n: nat ensures StackAfter(nodes, start, n) != [] {
        CycleKeepsStack(nodes, start, n);
      }
    } else {
      StartInv(nodes, start);
      var n := Drains(nodes, start, 0, {});
    }
  }
}
