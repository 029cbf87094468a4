/** The Stop All button: cancel every active workspace politely, poll the store while any of
    them stays active, and restart the rest after the deadline. */
module StopAll {
  import opened Options

  const DRAIN_TIMEOUT_MS: int := 8000
  const POLL_INTERVAL_MS: int := 250

  type Id = string

  datatype Workspace = Workspace(id: Id, activeTasks: int)

  /** The first row with the id, as `find` returns it. */
  function Find(nodes: seq<Workspace>, id: Id): Option<Workspace> {
    if nodes == [] then None
    else if nodes[0].id == id then Some(nodes[0])
    else Find(nodes[1..], id)
  }

  /** Present and busy; a missing workspace counts as drained. */
  predicate Busy(nodes: seq<Workspace>, id: Id) {
    var n := Find(nodes, id);
    n.Some? && n.value.activeTasks > 0
  }

  /** Row `k` is the first with the id. */
  ghost predicate FirstRow(nodes: seq<Workspace>, id: Id, k: nat) {
    k < |nodes| && nodes[k].id == id && forall j :: 0 <= j < k ==> nodes[j].id != id
  }

  /** Busy is exactly whose first row has active tasks. */
  lemma {:induction false} BusyIff(nodes: seq<Workspace>, id: Id)
    ensures Busy(nodes, id) <==> exists k: nat :: FirstRow(nodes, id, k) && nodes[k].activeTasks > 0
  {
    if nodes != [] {
      BusyIff(nodes[1..], id);
      if nodes[0].id == id {
        assert FirstRow(nodes, id, 0);
      } else {
        if k: nat :| FirstRow(nodes[1..], id, k) && nodes[1..][k].activeTasks > 0 {
          assert FirstRow(nodes, id, k + 1);
        }
        if k: nat :| FirstRow(nodes, id, k) && nodes[k].activeTasks > 0 {
          assert FirstRow(nodes[1..], id, k - 1);
        }
      }
    }
  }

  /** The ids of the busy rows, in order. */
  function ActiveIds(nodes: seq<Workspace>): (ids: seq<Id>)
    ensures forall id :: id in ids <==> exists n :: n in nodes && n.id == id && n.activeTasks > 0
  {
    if nodes == [] then []
    else if nodes[0].activeTasks > 0 then [nodes[0].id] + ActiveIds(nodes[1..])
    else ActiveIds(nodes[1..])
  }

  /** The store: its snapshot at each poll. The clock: its reading before the loop, then at each
      loop test. */
  datatype World = World(snapshot: nat -> seq<Workspace>, clock: nat -> int)

  ghost predicate BusyThroughout(w: World, id: Id, polls: nat) {
    forall k: nat :: k < polls ==> Busy(w.snapshot(k), id)
  }

  ghost predicate SomeBusy(w: World, ids: seq<Id>, polls: nat) {
    exists id :: id in ids && BusyThroughout(w, id, polls)
  }

  predicate TimeLeft(w: World, polls: nat) {
    w.clock(polls + 1) < w.clock(0) + DRAIN_TIMEOUT_MS
  }

  /** The loop ends after `polls` polls: before each there was time left and someone busy
      throughout, and then there is not. */
  ghost predicate Exits(w: World, ids: seq<Id>, polls: nat) {
    && (forall k: nat :: k < polls ==> TimeLeft(w, k) && SomeBusy(w, ids, k))
    && !(TimeLeft(w, polls) && SomeBusy(w, ids, polls))
  }

  /** `left` are the ids that were busy in every one of the polls. */
  ghost predicate Undrained(w: World, ids: seq<Id>, left: set<Id>, polls: nat) {
    forall id :: id in left <==> id in ids && BusyThroughout(w, id, polls)
  }

  /** One poll: keep the ids that the fresh snapshot still shows busy. */
  method StillActive(undrained: set<Id>, nodes: seq<Workspace>) returns (stillActive: set<Id>)
    ensures forall id :: id in stillActive <==> id in undrained && Busy(nodes, id)
  {
    stillActive := {};
    var todo := undrained;
    while todo != {}
      invariant todo <= undrained
      invariant forall id :: id in stillActive <==> id in undrained && id !in todo && Busy(nodes, id)
      decreases todo
    {
      var id :| id in todo;
      todo := todo - {id};
      if Busy(nodes, id) { stillActive := stillActive + {id}; }
    }
  }

  /** The whole protocol, in any world in which the loop ends, after `exit` polls. */
  method Run(nodes: seq<Workspace>, w: World, ghost exit: nat)
    returns (cancelled: seq<Id>, restarted: set<Id>, polls: nat)
    requires Exits(w, ActiveIds(nodes), exit)
    // every workspace with active tasks is cancelled
    ensures cancelled == ActiveIds(nodes)
    ensures forall id :: id in cancelled <==> exists n :: n in nodes && n.id == id && n.activeTasks > 0
    // the world alone decides after how many polls
    ensures forall k: nat :: Exits(w, cancelled, k) <==> k == polls
    ensures Undrained(w, cancelled, restarted, polls)
    // no one is restarted before the deadline
    ensures restarted != {} ==> w.clock(polls + 1) >= w.clock(0) + 8000
    // everyone gets a poll, unless the deadline had passed at the first test
    ensures polls == 0 <==> cancelled == [] || !TimeLeft(w, 0)
  {
    cancelled := ActiveIds(nodes);
    restarted, polls := Drain(cancelled, w, exit);
    LeftIsBusy(w, cancelled, restarted, polls);
    forall k: nat | Exits(w, cancelled, k) ensures k == polls { }
    FirstTest(w, cancelled, polls);
  }

  /** The polling loop. */
  method Drain(ids: seq<Id>, w: World, ghost exit: nat) returns (undrained: set<Id>, polls: nat)
    requires Exits(w, ids, exit)
    ensures polls == exit && Undrained(w, ids, undrained, polls)
  {
    var deadline := w.clock(0) + DRAIN_TIMEOUT_MS;
    undrained, polls := set id | id in ids, 0;
    while undrained != {} && w.clock(polls + 1) < deadline
      invariant Undrained(w, ids, undrained, polls)
      invariant polls <= exit
      decreases exit - polls
    {
      LeftIsBusy(w, ids, undrained, polls);
      var stillActive := StillActive(undrained, w.snapshot(polls));
      undrained, polls := stillActive, polls + 1;
    }
    LeftIsBusy(w, ids, undrained, polls);
  }

  /** The first test decides whether there is a poll at all. */
  lemma FirstTest(w: World, ids: seq<Id>, polls: nat)
    requires Exits(w, ids, polls)
    ensures polls == 0 <==> ids == [] || !TimeLeft(w, 0)
  {
    LeftIsBusy(w, ids, set id | id in ids, 0);
  }

  /** Someone is left exactly when someone was busy throughout. */
  lemma LeftIsBusy(w: World, ids: seq<Id>, left: set<Id>, polls: nat)
    requires Undrained(w, ids, left, polls)
    ensures left != {} <==> SomeBusy(w, ids, polls)
    ensures polls == 0 ==> (left != {} <==> ids != [])
  {
    if left != {} {
      var id :| id in left;
    }
    if polls == 0 && ids != [] {
      assert BusyThroughout(w, ids[0], 0) && ids[0] in left;
    }
  }

  // ----- how many polls -----

  /** Each wait takes at least the poll interval, and the clock does not run backwards before
      the first test. */
  ghost predicate Waits(w: World) {
    w.clock(0) <= w.clock(1) && forall k: nat :: k > 0 ==> w.clock(k + 1) >= w.clock(k) + POLL_INTERVAL_MS
  }

  lemma {:induction false} ClockAdvances(w: World, k: nat)
    requires Waits(w)
    ensures w.clock(k + 1) >= w.clock(0) + k * POLL_INTERVAL_MS
  {
    if k > 0 {
      ClockAdvances(w, k - 1);
    }
  }

  lemma {:induction false} ExitFrom(w: World, ids: seq<Id>, k: nat, bound: nat) returns (exit: nat)
    requires k <= bound && !TimeLeft(w, bound)
    requires forall j: nat :: j < k ==> TimeLeft(w, j) && SomeBusy(w, ids, j)
    ensures exit <= bound && Exits(w, ids, exit)
    decreases bound - k
  {
    if TimeLeft(w, k) && SomeBusy(w, ids, k) {
      exit := ExitFrom(w, ids, k + 1, bound);
    } else {
      exit := k;
    }
  }

  /** Where each wait takes its 250 ms the loop ends, after at most 32 polls. */
  lemma AtMost32Polls(w: World, ids: seq<Id>) returns (exit: nat)
    requires Waits(w)
    ensures exit <= 32 && Exits(w, ids, exit)
  {
    ClockAdvances(w, 32);
    exit := ExitFrom(w, ids, 0, 32);
  }

}
