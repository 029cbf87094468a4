/** The post-merge guard: after each push, every merge commit it brought in must have its pull
    request's head among the new tip's ancestors. */
module MergeGuard {
  import opened Options

  type Sha = string

  /** A commit's parents, and the pull request number its message yields, if any. */
  datatype Commit = Commit(parents: seq<Sha>, pr: Option<nat>)

  type Graph = map<Sha, Commit>

  const ZERO: Sha := "0000000000000000000000000000000000000000"

  /** `y` is `k` parent links away from `x`. */
  ghost predicate ReachIn(g: Graph, x: Sha, y: Sha, k: nat)
    decreases k
  {
    if k == 0 then x == y
    else x in g && exists p :: p in g[x].parents && ReachIn(g, p, y, k - 1)
  }

  /** `y` is `x` or one of its ancestors. */
  ghost predicate Reaches(g: Graph, x: Sha, y: Sha) {
    exists k: nat :: ReachIn(g, x, y, k)
  }

  lemma {:induction false} ReachInTransitive(g: Graph, x: Sha, y: Sha, z: Sha, j: nat, k: nat)
    requires ReachIn(g, x, y, j) && ReachIn(g, y, z, k)
    ensures ReachIn(g, x, z, j + k)
    decreases j
  {
    if j > 0 {
      var p :| p in g[x].parents && ReachIn(g, p, y, j - 1);
      ReachInTransitive(g, p, y, z, j - 1, k);
      assert ReachIn(g, p, z, j + k - 1);
    }
  }

  lemma ReachesTransitive(g: Graph, x: Sha, y: Sha, z: Sha)
    requires Reaches(g, x, y) && Reaches(g, y, z)
    ensures Reaches(g, x, z)
  {
    var j: nat :| ReachIn(g, x, y, j);
    var k: nat :| ReachIn(g, y, z, k);
    ReachInTransitive(g, x, y, z, j, k);
  }

  /** What a push finds outside: `git rev-list before..after`, the API's answer for each pull
      request's head, and `git merge-base --is-ancestor`. */
  datatype World = World(revList: seq<Sha>, headOf: nat -> Option<Sha>, isAncestor: (Sha, Sha) -> bool)

  /** A branch creation guards only its tip. */
  function PushedCommits(before: Sha, after: Sha, w: World): seq<Sha> {
    if before == ZERO then [after] else w.revList
  }

  predicate IsMerge(g: Graph, c: Sha) {
    c in g && |g[c].parents| == 2
  }

  /** A merge commit whose pull request is known. */
  predicate Guarded(g: Graph, c: Sha) {
    IsMerge(g, c) && g[c].pr.Some?
  }

  /** The head was fetched and is an ancestor of the tip. */
  predicate HeadLanded(g: Graph, c: Sha, after: Sha, w: World)
    requires Guarded(g, c)
  {
    var head := w.headOf(g[c].pr.value);
    head.Some? && w.isAncestor(head.value, after)
  }

  /** What a zero exit means: one unfetchable or missing head fails the push. */
  ghost predicate Passes(g: Graph, before: Sha, after: Sha, w: World) {
    || before == "" || after == ""
    || forall c :: c in PushedCommits(before, after, w) && Guarded(g, c) ==> HeadLanded(g, c, after, w)
  }

  /** A branch creation brings its tip, any other push what git lists. */
  ghost predicate Brought(before: Sha, after: Sha, w: World, c: Sha) {
    (before == ZERO && c == after) || (before != ZERO && c in w.revList)
  }

  /** If the commit has two parents and a known pull request, that one's head was fetched and is
      an ancestor of the tip. */
  ghost predicate Landed(c: Commit, after: Sha, w: World) {
    |c.parents| == 2 && c.pr.Some? ==>
      var head := w.headOf(c.pr.value);
      head.Some? && w.isAncestor(head.value, after)
  }

  lemma PassesIff(g: Graph, before: Sha, after: Sha, w: World)
    requires before != "" && after != ""
    ensures Passes(g, before, after, w) <==>
            forall c :: c in g && Brought(before, after, w, c) ==> Landed(g[c], after, w)
  {
    forall c | c in g
      ensures c in PushedCommits(before, after, w) <==> Brought(before, after, w, c)
      ensures Landed(g[c], after, w) <==> (Guarded(g, c) ==> HeadLanded(g, c, after, w))
    {
    }
    if Passes(g, before, after, w) {
      forall c | c in g && Brought(before, after, w, c) ensures Landed(g[c], after, w) {
        assert c in PushedCommits(before, after, w);
      }
    }
  }

  method Guard(g: Graph, before: Sha, after: Sha, w: World) returns (exit: int)
    ensures exit == 0 || exit == 1
    ensures exit == 0 <==> Passes(g, before, after, w)
    // a branch creation guards its tip, any other push the commits it brought in: those with two
    // parents and a known pull request
    ensures before != "" && after != "" ==>
              (exit == 0 <==> forall c :: c in g && Brought(before, after, w, c) ==> Landed(g[c], after, w))
    ensures before == "" || after == "" ==> exit == 0
  {
    if before == "" || after == "" { return 0; }
    PassesIff(g, before, after, w);
    var failures: seq<(Sha, nat, Sha)> := [];
    var apiFailures: seq<(Sha, nat)> := [];
    var skipped := 0;
    var pushed := PushedCommits(before, after, w);
    for i := 0 to |pushed|
      invariant failures == [] && apiFailures == [] <==>
                forall j :: 0 <= j < i && Guarded(g, pushed[j]) ==> HeadLanded(g, pushed[j], after, w)
    {
      var sha := pushed[i];
      if !IsMerge(g, sha) { continue; }
      if g[sha].pr.None? {
        skipped := skipped + 1;
        continue;
      }
      var number := g[sha].pr.value;
      var head := w.headOf(number);
      if head.None? {
        apiFailures := apiFailures + [(sha, number)];
        continue;
      }
      if !w.isAncestor(head.value, after) {
        failures := failures + [(sha, number, head.value)];
      }
    }
    exit := if apiFailures != [] || failures != [] then 1 else 0;
    if exit == 0 {
      forall c | c in pushed && Guarded(g, c) ensures HeadLanded(g, c, after, w) {
        var j :| 0 <= j < |pushed| && pushed[j] == c;
      }
    } else {
      ghost var j :| 0 <= j < |pushed| && Guarded(g, pushed[j]) && !HeadLanded(g, pushed[j], after, w);
      assert pushed[j] in pushed;
    }
  }

  // ----- chains of pushes -----

  datatype Push = Push(after: Sha, w: World)

  /** Git answers by the commit graph: `rev-list` lists exactly the commits the tip reaches and
      the old tip does not, and ancestry is reachability. */
  ghost predicate Honest(g: Graph, before: Sha, p: Push) {
    && (forall c :: c in p.w.revList <==> Reaches(g, p.after, c) && !Reaches(g, before, c))
    && (forall x, y :: p.w.isAncestor(x, y) <==> Reaches(g, y, x))
  }

  ghost function Tip(start: Sha, pushes: seq<Push>): Sha {
    if pushes == [] then start else pushes[|pushes| - 1].after
  }

  /** Each push starts at the tip the previous one left, is a fast-forward, and passed. */
  ghost predicate GreenChain(g: Graph, start: Sha, pushes: seq<Push>) {
    if pushes == [] then start != "" && start != ZERO
    else
      var init, p := pushes[..|pushes| - 1], pushes[|pushes| - 1];
      var before := Tip(start, init);
      && GreenChain(g, start, init)
      && p.after != "" && p.after != ZERO
      && Reaches(g, p.after, before)
      && Honest(g, before, p)
      && Passes(g, before, p.after, p.w)
  }

  /** Some push of the chain fetched the head of the commit's pull request, and the tip reaches
      that head. */
  ghost predicate Verified(g: Graph, pushes: seq<Push>, c: Sha, tip: Sha)
    requires Guarded(g, c)
  {
    exists i :: 0 <= i < |pushes| && c in pushes[i].w.revList &&
                pushes[i].w.headOf(g[c].pr.value).Some? &&
                Reaches(g, tip, pushes[i].w.headOf(g[c].pr.value).value)
  }

  /** Along every unbroken green chain no pull request lost commits: each merge commit that is
      new since the start has its fetched head among the final tip's ancestors. */
  lemma {:induction false} NothingDropped(g: Graph, start: Sha, pushes: seq<Push>, c: Sha)
    requires GreenChain(g, start, pushes)
    requires Reaches(g, Tip(start, pushes), c) && !Reaches(g, start, c) && Guarded(g, c)
    ensures Verified(g, pushes, c, Tip(start, pushes))
  {
    if pushes != [] {
      var init, p := pushes[..|pushes| - 1], pushes[|pushes| - 1];
      var before := Tip(start, init);
      if Reaches(g, before, c) {
        NothingDropped(g, start, init, c);
        var i :| 0 <= i < |init| && c in init[i].w.revList && init[i].w.headOf(g[c].pr.value).Some? &&
                 Reaches(g, before, init[i].w.headOf(g[c].pr.value).value);
        ReachesTransitive(g, p.after, before, init[i].w.headOf(g[c].pr.value).value);
        assert pushes[i] == init[i];
      } else {
        assert c in p.w.revList;
        assert HeadLanded(g, c, p.after, p.w);
        assert pushes[|pushes| - 1] == p;
      }
    }
  }
}
