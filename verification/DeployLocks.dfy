/** The `nodes` memo of the canvas: memoised root lookup over the parent graph, and the drag
    locks projected from it. */
module DeployLocks {
  import opened Options
  import opened OrgTree

  type Index = map<Id, Node>

  /** The parent a walk moves to: ids that are empty or unknown, and parents that are null or
      empty, all end the walk. */
  function Up(byId: Index, x: Id): Option<Id> {
    if x != "" && x in byId && byId[x].parentId.Some? && byId[x].parentId.value != "" then byId[x].parentId
    else None
  }

  predicate IsRoot(byId: Index, r: Id) {
    r != "" && r in byId && Up(byId, r).None?
  }

  /** The plain, uncached walk: `k` steps up from `x` stand on the root `r`. */
  predicate RootIn(byId: Index, x: Id, r: Id, k: nat)
    decreases k
  {
    if k == 0 then x == r && IsRoot(byId, x)
    else Up(byId, x).Some? && RootIn(byId, Up(byId, x).value, r, k - 1)
  }

  ghost predicate RootedAt(byId: Index, x: Id, r: Id) {
    exists k: nat :: RootIn(byId, x, r, k)
  }

  predicate StepsTo(byId: Index, x: Id, y: Id, j: nat)
    decreases j
  {
    if j == 0 then x == y
    else Up(byId, x).Some? && StepsTo(byId, Up(byId, x).value, y, j - 1)
  }

  /** The parentless ancestor if the chain reaches one, the id itself otherwise. */
  ghost function RootOrSelf(byId: Index, x: Id): Id {
    if exists r :: RootedAt(byId, x, r) then (var r :| RootedAt(byId, x, r); r) else x
  }

  lemma {:induction false} RootUnique(byId: Index, x: Id, r: Id, k: nat, r': Id, k': nat)
    requires RootIn(byId, x, r, k) && RootIn(byId, x, r', k')
    ensures r == r' && k == k'
    decreases k
  {
    if k > 0 && k' > 0 {
      RootUnique(byId, Up(byId, x).value, r, k - 1, r', k' - 1);
    }
  }

  lemma RootedIsRoot(byId: Index, x: Id, r: Id)
    requires RootedAt(byId, x, r)
    ensures RootOrSelf(byId, x) == r
  {
    var k: nat :| RootIn(byId, x, r, k);
    var r' := RootOrSelf(byId, x);
    var k': nat :| RootIn(byId, x, r', k');
    RootUnique(byId, x, r, k, r', k');
  }

  lemma {:induction false} StepsAppend(byId: Index, x: Id, y: Id, j: nat)
    requires StepsTo(byId, x, y, j) && Up(byId, y).Some?
    ensures StepsTo(byId, x, Up(byId, y).value, j + 1)
    decreases j
  {
    if j > 0 {
      StepsAppend(byId, Up(byId, x).value, y, j - 1);
    }
  }

  lemma {:induction false} RootShift(byId: Index, x: Id, y: Id, j: nat, r: Id, k: nat)
    requires StepsTo(byId, x, y, j)
    ensures RootIn(byId, y, r, k) ==> RootIn(byId, x, r, k + j)
    ensures RootIn(byId, x, r, k) ==> k >= j && RootIn(byId, y, r, k - j)
    decreases j
  {
    if j > 0 {
      RootShift(byId, Up(byId, x).value, y, j - 1, r, k);
      if k > 0 {
        RootShift(byId, Up(byId, x).value, y, j - 1, r, k - 1);
      }
    }
  }

  /** A walk that returns to where it was stands on no root, however long it goes on. */
  lemma {:induction false} CycleHasNoRoot(byId: Index, x: Id, j: nat, r: Id, k: nat)
    requires j > 0 && StepsTo(byId, x, x, j)
    ensures !RootIn(byId, x, r, k)
    decreases k
  {
    RootShift(byId, x, x, j, r, k);
    if k >= j {
      CycleHasNoRoot(byId, x, j, r, k - j);
    }
  }

  ghost predicate Leads(byId: Index, x: Id, y: Id) {
    exists j: nat :: StepsTo(byId, x, y, j)
  }

  ghost predicate LeadsOn(byId: Index, x: Id, y: Id) {
    exists j: nat :: j > 0 && StepsTo(byId, x, y, j)
  }

  lemma LeadsKeepsRoot(byId: Index, x: Id, y: Id, r: Id)
    requires Leads(byId, x, y)
    ensures RootedAt(byId, x, r) <==> RootedAt(byId, y, r)
  {
    var j: nat :| StepsTo(byId, x, y, j);
    if RootedAt(byId, x, r) {
      var k: nat :| RootIn(byId, x, r, k);
      RootShift(byId, x, y, j, r, k);
    }
    if RootedAt(byId, y, r) {
      var k: nat :| RootIn(byId, y, r, k);
      RootShift(byId, x, y, j, r, k);
    }
  }

  lemma LeadsUp(byId: Index, x: Id, y: Id)
    requires Leads(byId, x, y) && Up(byId, y).Some?
    ensures LeadsOn(byId, x, Up(byId, y).value) && Leads(byId, x, Up(byId, y).value)
  {
    var j: nat :| StepsTo(byId, x, y, j);
    StepsAppend(byId, x, y, j);
  }

  lemma NoRootIsSelf(byId: Index, id: Id, cursor: Id)
    requires Leads(byId, id, cursor)
    requires LeadsOn(byId, cursor, cursor) || cursor == "" || cursor !in byId
    ensures RootOrSelf(byId, id) == id
  {
    forall r ensures !RootedAt(byId, id, r) {
      LeadsKeepsRoot(byId, id, cursor, r);
      forall k: nat ensures !RootIn(byId, cursor, r, k) {
        if LeadsOn(byId, cursor, cursor) {
          var j: nat :| j > 0 && StepsTo(byId, cursor, cursor, j);
          CycleHasNoRoot(byId, cursor, j, r, k);
        }
      }
    }
  }

  /** `byId` and the `rootOf` cache that the memo's closure updates in place. */
  class RootIndex {
    const byId: Index
    var rootOf: map<Id, Id>

    /** Every cached answer is the plain walk's answer. */
    ghost predicate Valid()
      reads this
    {
      forall x :: x in rootOf ==> RootedAt(byId, x, rootOf[x]) && rootOf[x] != ""
    }

    constructor (byId: Index)
      ensures Valid() && this.byId == byId && rootOf == map[]
    {
      this.byId := byId;
      rootOf := map[];
    }

    method Resolve(id: Id) returns (root: Id)
      requires Valid()
      modifies this
      ensures Valid()
      ensures root == RootOrSelf(byId, id)
    {
      var visited := {};
      var cursor := id;
      assert StepsTo(byId, id, id, 0);
      while cursor != ""
        invariant Valid() && rootOf == old(rootOf)
        invariant Leads(byId, id, cursor)
        invariant visited <= byId.Keys
        invariant forall v :: v in visited ==> LeadsOn(byId, v, cursor)
        decreases byId.Keys - visited
      {
        if cursor in visited { break; }
        ghost var passed := visited;
        visited := visited + {cursor};
        assert Leads(byId, cursor, cursor) by { assert StepsTo(byId, cursor, cursor, 0); }
        assert forall v :: v in visited ==> Leads(byId, v, cursor);
        if cursor in rootOf {
          root := rootOf[cursor];
          Remember(visited, cursor, root);
          LeadsKeepsRoot(byId, id, cursor, root);
          RootedIsRoot(byId, id, root);
          return;
        }
        if cursor !in byId { break; }
        if byId[cursor].parentId.None? || byId[cursor].parentId.value == "" {
          root := cursor;
          assert RootIn(byId, cursor, cursor, 0);
          Remember(visited, cursor, root);
          LeadsKeepsRoot(byId, id, cursor, root);
          RootedIsRoot(byId, id, root);
          return;
        }
        forall v | v in visited ensures LeadsOn(byId, v, Up(byId, cursor).value) {
          LeadsUp(byId, v, cursor);
        }
        LeadsUp(byId, id, cursor);
        cursor := byId[cursor].parentId.value;
      }
      NoRootIsSelf(byId, id, cursor);
      return id;
    }

    /** Path compression: every id passed on the way is mapped to the root found. */
    method Remember(visited: set<Id>, cursor: Id, root: Id)
      requires Valid() && RootedAt(byId, cursor, root) && root != ""
      requires forall v :: v in visited ==> Leads(byId, v, cursor)
      modifies this
      ensures Valid()
      ensures rootOf == old(rootOf) + map v | v in visited :: root
    {
      forall v | v in visited ensures RootedAt(byId, v, root) {
        LeadsKeepsRoot(byId, v, cursor, root);
      }
      rootOf := rootOf + map v | v in visited :: root;
    }
  }

  /** `byId` as the loop fills it: the last row with an id wins. */
  function IndexOf(nodes: seq<Node>): Index {
    if nodes == [] then map[]
    else IndexOf(nodes[..|nodes| - 1])[nodes[|nodes| - 1].id := nodes[|nodes| - 1]]
  }

  /** Some provisioning row has the root (or self) `r`. */
  ghost predicate Deploying(nodes: seq<Node>, byId: Index, r: Id) {
    exists m :: m in nodes && m.provisioning && RootOrSelf(byId, m.id) == r
  }

  ghost predicate Locked(nodes: seq<Node>, deleting: set<Id>, x: Id) {
    var byId := IndexOf(nodes);
    || x in deleting
    || (x != RootOrSelf(byId, x) && Deploying(nodes, byId, RootOrSelf(byId, x)))
  }

  ghost function Projected(nodes: seq<Node>, deleting: set<Id>, n: Node): Node {
    if Locked(nodes, deleting, n.id) then n.(draggable := Some(false))
    else if n.draggable == Some(false) then n.(draggable := None)
    else n
  }

  method BuildIndex(nodes: seq<Node>) returns (index: RootIndex)
    ensures fresh(index) && index.Valid() && index.byId == IndexOf(nodes)
  {
    var byId: Index := map[];
    for i := 0 to |nodes|
      invariant byId == IndexOf(nodes[..i])
    {
      assert nodes[..i + 1][..i] == nodes[..i];
      byId := byId[nodes[i].id := nodes[i]];
    }
    assert nodes[..|nodes|] == nodes;
    index := new RootIndex(byId);
  }

  method CountProvisioning(nodes: seq<Node>, index: RootIndex) returns (byRoot: map<Id, nat>)
    requires index.Valid()
    modifies index
    ensures index.Valid()
    ensures forall r :: r in byRoot ==> byRoot[r] > 0
    ensures forall r :: r in byRoot <==> Deploying(nodes, index.byId, r)
  {
    byRoot := map[];
    for i := 0 to |nodes|
      invariant index.Valid()
      invariant forall r :: r in byRoot ==> byRoot[r] > 0
      invariant forall r :: r in byRoot <==> Deploying(nodes[..i], index.byId, r)
    {
      ghost var before := nodes[..i];
      assert nodes[..i + 1] == before + [nodes[i]];
      forall r ensures Deploying(nodes[..i + 1], index.byId, r) <==>
          Deploying(before, index.byId, r) || (nodes[i].provisioning && RootOrSelf(index.byId, nodes[i].id) == r)
      {
        if nodes[i].provisioning && RootOrSelf(index.byId, nodes[i].id) == r {
          assert nodes[i] in nodes[..i + 1];
        }
      }
      if nodes[i].provisioning {
        var rootId := index.Resolve(nodes[i].id);
        byRoot := byRoot[rootId := (if rootId in byRoot then byRoot[rootId] else 0) + 1];
      }
    }
    assert nodes[..|nodes|] == nodes;
  }

  method ShouldLock(ghost nodes: seq<Node>, deleting: set<Id>, index: RootIndex, byRoot: map<Id, nat>, id: Id)
    returns (shouldLock: bool)
    requires index.Valid() && index.byId == IndexOf(nodes)
    requires forall r :: r in byRoot ==> byRoot[r] > 0
    requires forall r :: r in byRoot <==> Deploying(nodes, index.byId, r)
    modifies index
    ensures index.Valid()
    ensures shouldLock == Locked(nodes, deleting, id)
  {
    var rootId := index.Resolve(id);
    var deployLocked := id != rootId && rootId in byRoot && byRoot[rootId] > 0;
    shouldLock := deployLocked || id in deleting;
  }

  /** One row: a new one only where the flag has to change. */
  method ProjectRow(n: Node, shouldLock: bool) returns (m: Node, changed: bool)
    ensures shouldLock ==> m == n.(draggable := Some(false))
    ensures !shouldLock ==> m == if n.draggable == Some(false) then n.(draggable := None) else n
    ensures !changed ==> m == n
  {
    if shouldLock && n.draggable != Some(false) {
      return n.(draggable := Some(false)), true;
    } else if !shouldLock && n.draggable == Some(false) {
      return n.(draggable := None), true;
    }
    return n, false;
  }

  method ProjectLocks(nodes: seq<Node>, deleting: set<Id>) returns (next: seq<Node>)
    ensures |next| == |nodes|
    ensures deleting == {} && (forall n :: n in nodes ==> !n.provisioning) ==> next == nodes
    // only the flag changes: off where locked, back to the default where a lock is gone
    ensures deleting != {} || (exists n :: n in nodes && n.provisioning) ==>
              forall i :: 0 <= i < |nodes| ==>
                var n, locked := nodes[i], Locked(nodes, deleting, nodes[i].id);
                && (locked ==> next[i] == n.(draggable := Some(false)))
                && (!locked && n.draggable == Some(false) ==> next[i] == n.(draggable := None))
                && (!locked && n.draggable != Some(false) ==> next[i] == n)
  {
    var anyProvisioning := exists n :: n in nodes && n.provisioning;
    if !anyProvisioning && deleting == {} { return nodes; }
    var index := BuildIndex(nodes);
    var byRoot := CountProvisioning(nodes, index);
    var touched := false;
    next := [];
    for i := 0 to |nodes|
      invariant index.Valid() && index.byId == IndexOf(nodes)
      invariant |next| == i
      invariant forall j :: 0 <= j < i ==> next[j] == Projected(nodes, deleting, nodes[j])
      invariant !touched ==> next == nodes[..i]
    {
      var shouldLock := ShouldLock(nodes, deleting, index, byRoot, nodes[i].id);
      var m, changed := ProjectRow(nodes[i], shouldLock);
      touched := touched || changed;
      next := next + [m];
    }
    if !touched {
      assert next == nodes[..|nodes|] == nodes;
      next := nodes;
    }
  }

  ghost predicate BelowDeployingRoot(nodes: seq<Node>, byId: Index, x: Id) {
    exists r, m ::
      RootedAt(byId, x, r) && x != r && m in nodes && m.provisioning && RootedAt(byId, m.id, r)
  }

  /** A lock by the walk: the node is being deleted, or hangs below a root that some provisioning
      row also hangs from. Nodes on cycles or dangling chains are never deploy-locked. */
  lemma LockIff(nodes: seq<Node>, deleting: set<Id>, x: Id)
    ensures Locked(nodes, deleting, x) <==> x in deleting || BelowDeployingRoot(nodes, IndexOf(nodes), x)
  {
    var byId := IndexOf(nodes);
    if r, m :| RootedAt(byId, x, r) && x != r && m in nodes && m.provisioning && RootedAt(byId, m.id, r) {
      RootedIsRoot(byId, x, r);
      RootedIsRoot(byId, m.id, r);
      assert Deploying(nodes, byId, r);
    }
    if Locked(nodes, deleting, x) && x !in deleting {
      var r := RootOrSelf(byId, x);
      var m :| m in nodes && m.provisioning && RootOrSelf(byId, m.id) == r;
      assert RootedAt(byId, x, r);
      var k: nat :| RootIn(byId, x, r, k);
      RootEndsAtRoot(byId, x, r, k);
      if m.id == r {
        assert RootIn(byId, m.id, r, 0);
      }
      assert RootedAt(byId, x, r) && x != r && m in nodes && m.provisioning && RootedAt(byId, m.id, r);
    }
  }

  lemma {:induction false} RootEndsAtRoot(byId: Index, x: Id, r: Id, k: nat)
    requires RootIn(byId, x, r, k)
    ensures IsRoot(byId, r)
    decreases k
  {
    if k > 0 {
      RootEndsAtRoot(byId, Up(byId, x).value, r, k - 1);
    }
  }

  // ----- the index and the rows -----

  /** Row `i` is the last one with the id. */
  ghost predicate LastRow(nodes: seq<Node>, x: Id, i: nat) {
    i < |nodes| && nodes[i].id == x && forall j :: i < j < |nodes| ==> nodes[j].id != x
  }

  /** The index knows exactly the ids of the rows, each by its last row. */
  lemma {:induction false} IndexMeaning(nodes: seq<Node>, x: Id)
    ensures x in IndexOf(nodes) <==> exists n :: n in nodes && n.id == x
    ensures forall i: nat :: LastRow(nodes, x, i) ==> x in IndexOf(nodes) && IndexOf(nodes)[x] == nodes[i]
  {
    if nodes != [] {
      var n := |nodes| - 1;
      var before := nodes[..n];
      IndexMeaning(before, x);
      assert nodes == before + [nodes[n]];
      forall i: nat | LastRow(nodes, x, i) ensures x in IndexOf(nodes) && IndexOf(nodes)[x] == nodes[i] {
        if i < n {
          assert nodes[n].id != x;
          assert LastRow(before, x, i);
        }
      }
    }
  }

  /** Some row of the id has no parent; an empty parent counts as none. */
  ghost predicate RootRow(nodes: seq<Node>, r: Id) {
    exists i :: 0 <= i < |nodes| && nodes[i].id == r && (nodes[i].parentId == None || nodes[i].parentId == Some(""))
  }

  /** Each id is non-empty and has one row. */
  ghost predicate Keyed(nodes: seq<Node>) {
    UniqueIds(nodes) && forall n :: n in nodes ==> n.id != ""
  }

  lemma UpIsParent(nodes: seq<Node>, x: Id, p: Id)
    requires Keyed(nodes)
    ensures Up(IndexOf(nodes), x) == Some(p) <==> ChildOf(nodes, x, p) && p != ""
    ensures IsRoot(IndexOf(nodes), x) <==> RootRow(nodes, x)
  {
    IndexMeaning(nodes, x);
    if x in IndexOf(nodes) {
      var n :| n in nodes && n.id == x;
      var i :| 0 <= i < |nodes| && nodes[i] == n;
    }
  }

  lemma {:induction false} RootInIff(nodes: seq<Node>, x: Id, r: Id, k: nat)
    requires Keyed(nodes)
    ensures RootIn(IndexOf(nodes), x, r, k) <==> Climbs(nodes, x, r, k) && RootRow(nodes, r)
    decreases k
  {
    var byId := IndexOf(nodes);
    if k == 0 {
      UpIsParent(nodes, x, x);
    } else {
      if RootIn(byId, x, r, k) {
        var p := Up(byId, x).value;
        UpIsParent(nodes, x, p);
        RootInIff(nodes, p, r, k - 1);
      }
      if Climbs(nodes, x, r, k) && RootRow(nodes, r) {
        var p :| ChildOf(nodes, x, p) && Climbs(nodes, p, r, k - 1);
        RootInIff(nodes, p, r, k - 1);
        UpIsParent(nodes, x, p);
      }
    }
  }

  /** The walk finds a root exactly when the rows' parent links lead to a row without a parent. */
  lemma RootedIff(nodes: seq<Node>, x: Id, r: Id)
    requires Keyed(nodes)
    ensures RootedAt(IndexOf(nodes), x, r) <==> InSubtree(nodes, x, r) && RootRow(nodes, r)
  {
    forall k: nat
      ensures RootIn(IndexOf(nodes), x, r, k) <==> Climbs(nodes, x, r, k) && RootRow(nodes, r)
    {
      RootInIff(nodes, x, r, k);
    }
  }

  /** A parentless row has both the node, strictly, and a provisioning row in its subtree. */
  ghost predicate InDeployingTree(nodes: seq<Node>, x: Id) {
    exists r, m :: RootRow(nodes, r) && InSubtree(nodes, x, r) && x != r &&
                   m in nodes && m.provisioning && InSubtree(nodes, m.id, r)
  }

  /** Locks in the plain terms of the rows: the node is being deleted, or sits below the top of a
      tree in which some row is provisioning. */
  lemma DeployLockMeaning(nodes: seq<Node>, deleting: set<Id>, x: Id)
    requires Keyed(nodes)
    ensures Locked(nodes, deleting, x) <==> x in deleting || InDeployingTree(nodes, x)
  {
    var byId := IndexOf(nodes);
    LockIff(nodes, deleting, x);
    forall y, r ensures RootedAt(byId, y, r) <==> InSubtree(nodes, y, r) && RootRow(nodes, r) {
      RootedIff(nodes, y, r);
    }
    if r, m :| RootRow(nodes, r) && InSubtree(nodes, x, r) && x != r &&
               m in nodes && m.provisioning && InSubtree(nodes, m.id, r) {
      assert RootedAt(byId, x, r) && RootedAt(byId, m.id, r);
    }
    if r, m :| RootedAt(byId, x, r) && x != r && m in nodes && m.provisioning && RootedAt(byId, m.id, r) {
      assert InSubtree(nodes, x, r) && InSubtree(nodes, m.id, r);
    }
  }
}
