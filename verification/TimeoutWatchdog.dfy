/** The provisioning-timeout banner: when a workspace is tracked, flagged, dismissed and
    forgotten. A snapshot is the list of provisioning nodes the effect last ran with. */
module TimeoutWatchdog {
  import opened Options

  const CONCURRENCY: int := 3
  const SLOT_EXTRA_MS: int := 45_000

  type Id = string

  datatype Prov = Prov(id: Id, name: string, runtime: string, timeoutMs: Option<int>)

  datatype Entry = Entry(id: Id, name: string, startedAt: int)

  datatype State = State(tracking: map<Id, int>, timedOut: seq<Entry>, dismissed: set<Id>, snapshot: seq<Prov>)

  /** The effect on a new snapshot, with the clock as it reads at each node; the interval
      callback; the dismiss button; and a retry or cancel that the server accepted. */
  datatype Event = Sync(nodes: seq<Prov>, clock: nat -> int) | Tick(now: int) | Dismiss(id: Id) | Forget(id: Id)

  function Effective(base: int, concurrent: nat): int {
    base + (if concurrent > CONCURRENCY then concurrent - CONCURRENCY else 0) * SLOT_EXTRA_MS
  }

  function Ids(nodes: seq<Prov>): set<Id> {
    set n | n in nodes :: n.id
  }

  /** The first position of an id, or the length. */
  function FirstIndex(nodes: seq<Prov>, id: Id): (k: nat)
    ensures k <= |nodes| && (k < |nodes| ==> nodes[k].id == id)
    ensures forall j :: 0 <= j < k ==> nodes[j].id != id
  {
    if nodes == [] || nodes[0].id == id then 0 else 1 + FirstIndex(nodes[1..], id)
  }

  function EntryIds(entries: seq<Entry>): set<Id> {
    set e | e in entries :: e.id
  }

  function KeepIn(entries: seq<Entry>, ids: set<Id>): (r: seq<Entry>)
    ensures forall e :: e in r <==> e in entries && e.id in ids
  {
    if entries == [] then []
    else
      var last := entries[|entries| - 1];
      assert entries == entries[..|entries| - 1] + [last];
      var before := KeepIn(entries[..|entries| - 1], ids);
      if last.id in ids then before + [last] else before
  }

  function KeepOut(entries: seq<Entry>, ids: set<Id>): (r: seq<Entry>)
    ensures forall e :: e in r <==> e in entries && e.id !in ids
  {
    if entries == [] then []
    else
      var last := entries[|entries| - 1];
      assert entries == entries[..|entries| - 1] + [last];
      var before := KeepOut(entries[..|entries| - 1], ids);
      if last.id !in ids then before + [last] else before
  }

  /** The node has been tracked for its effective timeout; a start of zero counts as untracked. */
  predicate Overdue(n: Prov, base: Prov -> int, st: State, now: int) {
    n.id in st.tracking && st.tracking[n.id] != 0 && now - st.tracking[n.id] >= Effective(base(n), |st.snapshot|)
  }

  function Overdues(nodes: seq<Prov>, base: Prov -> int, st: State, now: int): (r: seq<Entry>)
    ensures forall e :: e in r <==>
              exists n :: n in nodes && Overdue(n, base, st, now) && e == Entry(n.id, n.name, st.tracking[n.id])
  {
    if nodes == [] then []
    else
      var last := nodes[|nodes| - 1];
      assert nodes == nodes[..|nodes| - 1] + [last];
      var before := Overdues(nodes[..|nodes| - 1], base, st, now);
      if Overdue(last, base, st, now) then before + [Entry(last.id, last.name, st.tracking[last.id])] else before
  }

  /** Tracked nodes keep their start, new ones start at the reading taken for them. */
  function Retrack(tracking: map<Id, int>, nodes: seq<Prov>, clock: nat -> int): map<Id, int> {
    map x | x in Ids(nodes) :: if x in tracking then tracking[x] else clock(FirstIndex(nodes, x))
  }

  function Step(base: Prov -> int, st: State, e: Event): State {
    match e
    case Sync(nodes, clock) =>
      var ids := Ids(nodes);
      State(Retrack(st.tracking, nodes, clock), KeepIn(st.timedOut, ids), st.dismissed * ids, nodes)
    case Tick(now) =>
      var late := Overdues(st.snapshot, base, st, now);
      st.(timedOut := st.timedOut + KeepOut(late, EntryIds(st.timedOut)))
    case Dismiss(id) =>
      st.(dismissed := st.dismissed + {id}, timedOut := KeepOut(st.timedOut, {id}))
    case Forget(id) =>
      st.(timedOut := KeepOut(st.timedOut, {id}), tracking := st.tracking - {id})
  }

  function Run(base: Prov -> int, events: seq<Event>): State {
    if events == [] then State(map[], [], {}, [])
    else Step(base, Run(base, events[..|events| - 1]), events[|events| - 1])
  }

  /** What the banner lists while the socket is connected. */
  function Visible(st: State, connected: bool): seq<Entry> {
    if connected then KeepOut(st.timedOut, st.dismissed) else []
  }

  // ----- properties of every run -----

  /** Every snapshot from event `i` on holds `id`. */
  ghost predicate PresentFrom(events: seq<Event>, id: Id, i: nat) {
    forall j :: i <= j < |events| && events[j].Sync? ==> id in Ids(events[j].nodes)
  }

  /** No retry or cancel of `id` succeeded from event `i` on. */
  ghost predicate NotForgotten(events: seq<Event>, id: Id, i: nat) {
    forall j :: i <= j < |events| && events[j].Forget? ==> events[j].id != id
  }

  /** The clock as a snapshot's effect reads it at the id. */
  function Reading(e: Event, id: Id): int
    requires e.Sync?
  {
    e.clock(FirstIndex(e.nodes, id))
  }

  /** Snapshot `i` held `id` when the clock read `t`, so did every one since, and it was neither
      retried nor cancelled since. */
  ghost predicate PresentSince(events: seq<Event>, id: Id, t: int, i: nat) {
    && i < |events| && events[i].Sync? && Reading(events[i], id) == t
    && PresentFrom(events, id, i) && NotForgotten(events, id, i)
  }

  /** Tick `j` found `e` overdue by the effective timeout of its own snapshot, having been
      present in every snapshot since event `i`, at `e.startedAt`, and not retried or cancelled
      since then. */
  ghost predicate FlaggedBy(base: Prov -> int, events: seq<Event>, e: Entry, i: nat, j: nat) {
    && PresentSince(events, e.id, e.startedAt, i)
    && i < j < |events| && events[j].Tick?
    && exists n :: n in Run(base, events[..j]).snapshot && n.id == e.id && n.name == e.name &&
                   events[j].now - e.startedAt >= Effective(base(n), |Run(base, events[..j]).snapshot|)
  }

  ghost predicate Flagged(base: Prov -> int, events: seq<Event>, e: Entry) {
    exists i: nat, j: nat :: FlaggedBy(base, events, e, i, j)
  }

  ghost predicate Tracked(events: seq<Event>, id: Id, t: int) {
    exists i: nat :: PresentSince(events, id, t, i)
  }

  lemma FlaggedGrows(base: Prov -> int, events: seq<Event>, e: Event, entry: Entry)
    requires Flagged(base, events, entry)
    requires (e.Sync? ==> entry.id in Ids(e.nodes)) && (e.Forget? ==> e.id != entry.id)
    ensures Flagged(base, events + [e], entry)
  {
    var i: nat, j: nat :| FlaggedBy(base, events, entry, i, j);
    assert (events + [e])[..j] == events[..j];
    assert FlaggedBy(base, events + [e], entry, i, j);
  }

  /** What is tracked has been in every snapshot since the time recorded for it, with no retry or
      cancel in between. */
  lemma TrackingSound(base: Prov -> int, events: seq<Event>, id: Id)
    requires id in Run(base, events).tracking
    ensures Tracked(events, id, Run(base, events).tracking[id])
  {
    TrackingIff(base, events, id);
    var i: nat :| StayStarts(events, id, i);
    assert PresentSince(events, id, Reading(events[i], id), i);
  }

  /** A new flag is justified by the tick that raises it. */
  lemma TickFlags(base: Prov -> int, before: seq<Event>, now: int, entry: Entry)
    requires entry in Overdues(Run(base, before).snapshot, base, Run(base, before), now)
    ensures Flagged(base, before + [Tick(now)], entry)
  {
    var st, events := Run(base, before), before + [Tick(now)];
    var n :| n in st.snapshot && Overdue(n, base, st, now) && entry == Entry(n.id, n.name, st.tracking[n.id]);
    TrackingSound(base, before, entry.id);
    var i: nat :| PresentSince(before, entry.id, entry.startedAt, i);
    assert events[..|before|] == before;
    assert FlaggedBy(base, events, entry, i, |before|);
  }

  /** No false alarm: every flag was raised by a tick that came at least the effective timeout
      after a snapshot from which on the workspace was in every snapshot and neither retried nor
      cancelled: a retry gives the whole timeout again. */
  lemma {:induction false} FlagsSound(base: Prov -> int, events: seq<Event>, entry: Entry)
    requires entry in Run(base, events).timedOut
    ensures Flagged(base, events, entry)
  {
    var before, e := events[..|events| - 1], events[|events| - 1];
    assert events == before + [e];
    var prev := Run(base, before);
    if entry in prev.timedOut {
      FlagsSound(base, before, entry);
      FlaggedGrows(base, before, e, entry);
    } else {
      assert e.Tick?;
      TickFlags(base, before, e.now, entry);
    }
  }

  /** After a tick every overdue node of the snapshot is flagged. */
  lemma TickComplete(base: Prov -> int, st: State, now: int, n: Prov)
    requires n in st.snapshot && Overdue(n, base, st, now)
    ensures n.id in EntryIds(Step(base, st, Tick(now)).timedOut)
  {
    var late := Overdues(st.snapshot, base, st, now);
    var entry := Entry(n.id, n.name, st.tracking[n.id]);
    assert entry in late;
    var after := Step(base, st, Tick(now)).timedOut;
    if n.id in EntryIds(st.timedOut) {
      var e :| e in st.timedOut && e.id == n.id;
      assert e in after;
    } else {
      assert entry in after;
    }
  }

  /** A tick appends what it flags: the list before it stays in front, in its order. */
  lemma TickAppends(base: Prov -> int, events: seq<Event>, now: int)
    ensures Run(base, events).timedOut <= Run(base, events + [Tick(now)]).timedOut
  {
    assert (events + [Tick(now)])[..|events|] == events;
  }

  /** The clock reads positive times that never go back. */
  ghost predicate ClockRuns(events: seq<Event>) {
    && (forall i, id :: 0 <= i < |events| && events[i].Sync? && id in Ids(events[i].nodes) ==>
          Reading(events[i], id) > 0)
    && (forall i, j, id :: 0 <= i < j < |events| && events[i].Sync? && events[j].Sync? &&
                           id in Ids(events[i].nodes) && id in Ids(events[j].nodes) ==>
          Reading(events[i], id) <= Reading(events[j], id))
  }

  /** Whoever stays in every snapshot from a sync on, without a retry or cancel, is tracked from
      that sync or earlier. */
  lemma {:induction false} TrackedFrom(base: Prov -> int, events: seq<Event>, id: Id, i: nat)
    requires ClockRuns(events) && i < |events| && events[i].Sync?
    requires PresentFrom(events, id, i) && NotForgotten(events, id, i)
    ensures id in Run(base, events).tracking && 0 < Run(base, events).tracking[id] <= Reading(events[i], id)
  {
    var before, e := events[..|events| - 1], events[|events| - 1];
    var prev := Run(base, before);
    assert forall j :: 0 <= j < |before| ==> before[j] == events[j];
    if i < |before| {
      TrackedFrom(base, before, id, i);
      assert e.Sync? ==> id in Ids(e.nodes);
    } else if id in prev.tracking {
      TrackingSound(base, before, id);
      var j: nat :| PresentSince(before, id, prev.tracking[id], j);
      assert before[j] == events[j];
    }
  }

  /** No missed alarm over a run: such a workspace is flagged by the first tick that comes the
      effective timeout after that sync. */
  lemma FlagsComplete(base: Prov -> int, events: seq<Event>, n: Prov, i: nat, now: int)
    requires ClockRuns(events) && i < |events| && events[i].Sync?
    requires PresentFrom(events, n.id, i) && NotForgotten(events, n.id, i)
    requires n in Run(base, events).snapshot
    requires now - Reading(events[i], n.id) >= Effective(base(n), |Run(base, events).snapshot|)
    ensures n.id in EntryIds(Run(base, events + [Tick(now)]).timedOut)
  {
    TrackedFrom(base, events, n.id, i);
    TickComplete(base, Run(base, events), now, n);
    assert (events + [Tick(now)])[..|events|] == events;
  }

  /** Flagged workspaces are still provisioning. */
  lemma {:induction false} FlagsProvisioning(base: Prov -> int, events: seq<Event>)
    ensures EntryIds(Run(base, events).timedOut) <= Ids(Run(base, events).snapshot)
  {
    if events != [] {
      FlagsProvisioning(base, events[..|events| - 1]);
      var prev := Run(base, events[..|events| - 1]);
      var st := Run(base, events);
      forall x | x in EntryIds(st.timedOut) ensures x in Ids(st.snapshot) {
        var e :| e in st.timedOut && e.id == x;
        if e in prev.timedOut {
          assert e.id in EntryIds(prev.timedOut);
        }
      }
    }
  }

  ghost predicate DistinctIds(entries: seq<Entry>) {
    forall i, j :: 0 <= i < j < |entries| ==> entries[i].id != entries[j].id
  }

  ghost predicate UniqueNodes(nodes: seq<Prov>) {
    forall i, j :: 0 <= i < j < |nodes| ==> nodes[i].id != nodes[j].id
  }

  lemma {:induction false} KeepDistinct(entries: seq<Entry>, ids: set<Id>)
    requires DistinctIds(entries)
    ensures DistinctIds(KeepIn(entries, ids)) && DistinctIds(KeepOut(entries, ids))
  {
    if entries != [] {
      var init := entries[..|entries| - 1];
      KeepDistinct(init, ids);
      forall e | e in init ensures e.id != entries[|entries| - 1].id { }
      forall i | 0 <= i < |KeepIn(init, ids)| ensures KeepIn(init, ids)[i] in init { }
      forall i | 0 <= i < |KeepOut(init, ids)| ensures KeepOut(init, ids)[i] in init { }
    }
  }

  lemma {:induction false} OverduesDistinct(nodes: seq<Prov>, base: Prov -> int, st: State, now: int)
    requires UniqueNodes(nodes)
    ensures DistinctIds(Overdues(nodes, base, st, now))
  {
    if nodes != [] {
      var init := nodes[..|nodes| - 1];
      OverduesDistinct(init, base, st, now);
      var before := Overdues(init, base, st, now);
      forall i | 0 <= i < |before| ensures before[i].id != nodes[|nodes| - 1].id {
        assert before[i] in before;
        var n :| n in init && n.id == before[i].id;
      }
    }
  }

  lemma DistinctAppend(a: seq<Entry>, b: seq<Entry>)
    requires DistinctIds(a) && DistinctIds(b)
    requires forall e :: e in b ==> e.id !in EntryIds(a)
    ensures DistinctIds(a + b)
  {
    forall i, j | 0 <= i < j < |a + b| ensures (a + b)[i].id != (a + b)[j].id {
      if i < |a| <= j {
        assert a[i] in a && b[j - |a|] in b;
        assert a[i].id in EntryIds(a);
      }
    }
  }

  /** With distinct ids in each snapshot, no workspace is flagged twice. */
  lemma {:induction false} FlagsDistinct(base: Prov -> int, events: seq<Event>)
    requires forall e :: e in events && e.Sync? ==> UniqueNodes(e.nodes)
    ensures UniqueNodes(Run(base, events).snapshot) && DistinctIds(Run(base, events).timedOut)
  {
    if events != [] {
      var before, e := events[..|events| - 1], events[|events| - 1];
      assert e in events;
      FlagsDistinct(base, before);
      var prev := Run(base, before);
      match e
      case Sync(nodes, _) => KeepDistinct(prev.timedOut, Ids(nodes));
      case Tick(now) =>
        var late := Overdues(prev.snapshot, base, prev, now);
        OverduesDistinct(prev.snapshot, base, prev, now);
        KeepDistinct(late, EntryIds(prev.timedOut));
        DistinctAppend(prev.timedOut, KeepOut(late, EntryIds(prev.timedOut)));
      case Dismiss(id) => KeepDistinct(prev.timedOut, {id});
      case Forget(id) => KeepDistinct(prev.timedOut, {id});
    }
  }

  lemma {:induction false} DismissedStays(base: Prov -> int, events: seq<Event>, i: nat)
    requires i < |events| && events[i].Dismiss?
    requires PresentFrom(events, events[i].id, i)
    ensures events[i].id in Run(base, events).dismissed
  {
    if i < |events| - 1 {
      var before := events[..|events| - 1];
      assert before[i] == events[i];
      assert PresentFrom(before, events[i].id, i) by {
        assert forall j :: 0 <= j < |before| ==> before[j] == events[j];
      }
      DismissedStays(base, before, i);
    }
  }

  /** A dismissed workspace stays hidden until some snapshot lacks it. */
  lemma DismissedHidden(base: Prov -> int, events: seq<Event>, i: nat, connected: bool)
    requires i < |events| && events[i].Dismiss?
    requires PresentFrom(events, events[i].id, i)
    ensures events[i].id !in EntryIds(Visible(Run(base, events), connected))
  {
    DismissedStays(base, events, i);
  }

  // ----- what is tracked, flagged, dismissed and shown, by the events alone -----

  /** The nodes of the last snapshot. */
  ghost function LastNodes(events: seq<Event>): seq<Prov> {
    if events == [] then []
    else if events[|events| - 1].Sync? then events[|events| - 1].nodes
    else LastNodes(events[..|events| - 1])
  }

  lemma {:induction false} SnapshotIsLast(base: Prov -> int, events: seq<Event>)
    ensures Run(base, events).snapshot == LastNodes(events)
  {
    if events != [] {
      SnapshotIsLast(base, events[..|events| - 1]);
    }
  }

  /** From sync `i` on the id was in every snapshot and neither retried nor cancelled. */
  ghost predicate Unbroken(events: seq<Event>, id: Id, i: nat) {
    i < |events| && events[i].Sync? && PresentFrom(events, id, i) && NotForgotten(events, id, i)
  }

  /** `i` is the first sync of the id's present stay. */
  ghost predicate StayStarts(events: seq<Event>, id: Id, i: nat) {
    Unbroken(events, id, i) && forall k: nat :: k < i ==> !Unbroken(events, id, k)
  }

  lemma UnbrokenStep(events: seq<Event>, e: Event, id: Id, i: nat)
    requires i < |events|
    ensures Unbroken(events + [e], id, i) <==>
            Unbroken(events, id, i) && (e.Sync? ==> id in Ids(e.nodes)) && (e.Forget? ==> e.id != id)
  {
    var all := events + [e];
    assert all[|events|] == e && forall j :: 0 <= j < |events| ==> all[j] == events[j];
  }

  lemma StayStep(events: seq<Event>, e: Event, id: Id, i: nat)
    requires StayStarts(events, id, i) && (e.Sync? ==> id in Ids(e.nodes)) && (e.Forget? ==> e.id != id)
    ensures StayStarts(events + [e], id, i)
  {
    UnbrokenStep(events, e, id, i);
    forall k: nat | k < i ensures !Unbroken(events + [e], id, k) {
      UnbrokenStep(events, e, id, k);
    }
  }

  lemma StayNow(events: seq<Event>, e: Event, id: Id)
    requires e.Sync? && id in Ids(e.nodes) && forall k: nat :: !StayStarts(events, id, k)
    ensures StayStarts(events + [e], id, |events|)
  {
    forall k: nat | k < |events| ensures !Unbroken(events + [e], id, k) {
      UnbrokenStep(events, e, id, k);
      if Unbroken(events, id, k) { var m := LeastUnbroken(events, id, k); }
    }
  }

  lemma {:induction false} LeastUnbroken(events: seq<Event>, id: Id, k: nat) returns (m: nat)
    requires Unbroken(events, id, k)
    ensures StayStarts(events, id, m)
  {
    if j: nat :| j < k && Unbroken(events, id, j) {
      m := LeastUnbroken(events, id, j);
    } else {
      m := k;
    }
  }

  lemma StayEnds(events: seq<Event>, e: Event, id: Id, i: nat)
    requires StayStarts(events + [e], id, i) && i < |events|
    ensures StayStarts(events, id, i) && (e.Sync? ==> id in Ids(e.nodes)) && (e.Forget? ==> e.id != id)
  {
    UnbrokenStep(events, e, id, i);
    forall k: nat | k < i ensures !Unbroken(events, id, k) {
      UnbrokenStep(events, e, id, k);
    }
  }

  /** Tracked is exactly whoever is in an unbroken stay, since the reading of its first sync. */
  lemma {:induction false} TrackingIff(base: Prov -> int, events: seq<Event>, id: Id)
    ensures id in Run(base, events).tracking <==> exists i: nat :: StayStarts(events, id, i)
    ensures forall i: nat :: StayStarts(events, id, i) ==> Run(base, events).tracking[id] == Reading(events[i], id)
  {
    if events != [] {
      var before, e := events[..|events| - 1], events[|events| - 1];
      var prev := Run(base, before);
      assert events == before + [e];
      TrackingIff(base, before, id);
      var stays := (e.Sync? ==> id in Ids(e.nodes)) && (e.Forget? ==> e.id != id);
      if id in prev.tracking && stays {
        var i: nat :| StayStarts(before, id, i);
        StayStep(before, e, id, i);
      } else if e.Sync? && id in Ids(e.nodes) {
        StayNow(before, e, id);
      }
      forall i: nat | StayStarts(events, id, i)
        ensures id in Run(base, events).tracking && Run(base, events).tracking[id] == Reading(events[i], id)
      {
        if i < |before| {
          StayEnds(before, e, id, i);
          assert before[i] == events[i];
        } else if i0: nat :| StayStarts(before, id, i0) {
          StayStep(before, e, id, i0);
        }
      }
    }
  }

  /** At `now` the id has stayed, since sync `i`, for the timeout of a node `n` of the last
      snapshot. A reading of zero counts as no start. */
  ghost predicate DueSince(base: Prov -> int, events: seq<Event>, id: Id, now: int, i: nat, n: Prov) {
    && StayStarts(events, id, i) && Reading(events[i], id) != 0
    && n in LastNodes(events) && n.id == id
    && Waited(now - Reading(events[i], id), base(n), |LastNodes(events)|)
  }

  /** The node's own timeout, and 45 s more for each node beyond the third. */
  ghost predicate Waited(waited: int, timeout: int, nodes: nat) {
    waited >= timeout && (nodes > 3 ==> waited >= timeout + 45_000 * (nodes - 3))
  }

  ghost predicate DueBy(base: Prov -> int, events: seq<Event>, id: Id, now: int) {
    exists i: nat, n :: DueSince(base, events, id, now, i, n)
  }

  /** Tick `j` finds the id overdue. */
  ghost predicate DueAt(base: Prov -> int, events: seq<Event>, id: Id, j: nat) {
    j < |events| && events[j].Tick? && DueBy(base, events[..j], id, events[j].now)
  }

  lemma OverdueIff(base: Prov -> int, events: seq<Event>, now: int, id: Id)
    ensures var st := Run(base, events);
            (exists n :: n in st.snapshot && n.id == id && Overdue(n, base, st, now)) <==> DueBy(base, events, id, now)
  {
    var st := Run(base, events);
    TrackingIff(base, events, id);
    SnapshotIsLast(base, events);
    if n :| n in st.snapshot && n.id == id && Overdue(n, base, st, now) {
      var i: nat :| StayStarts(events, id, i);
      assert DueSince(base, events, id, now, i, n);
    }
    if i: nat, n :| DueSince(base, events, id, now, i, n) {
      assert Overdue(n, base, st, now);
    }
  }

  /** Since tick `j` every snapshot held the id, and no dismissal, retry or cancel named it. */
  ghost predicate LeftAlone(events: seq<Event>, id: Id, j: nat) {
    && PresentFrom(events, id, j) && NotForgotten(events, id, j)
    && forall k :: j <= k < |events| && events[k].Dismiss? ==> events[k].id != id
  }

  ghost predicate Raised(base: Prov -> int, events: seq<Event>, id: Id) {
    exists j: nat :: DueAt(base, events, id, j) && LeftAlone(events, id, j)
  }

  /** The event lets a flag of the id stand. */
  ghost predicate Spares(e: Event, id: Id) {
    match e
    case Sync(nodes, _) => id in Ids(nodes)
    case Tick(_) => true
    case _ => e.id != id
  }

  lemma AloneStep(events: seq<Event>, e: Event, id: Id, j: nat)
    requires j <= |events|
    ensures LeftAlone(events + [e], id, j) <==> LeftAlone(events, id, j) && Spares(e, id)
  {
    var all := events + [e];
    assert all[|events|] == e && forall k :: 0 <= k < |events| ==> all[k] == events[k];
  }

  lemma DueStep(base: Prov -> int, events: seq<Event>, e: Event, id: Id, j: nat)
    requires j < |events|
    ensures DueAt(base, events + [e], id, j) <==> DueAt(base, events, id, j)
  {
    var all := events + [e];
    assert all[..j] == events[..j] && all[j] == events[j];
  }

  lemma RaisedStep(base: Prov -> int, events: seq<Event>, e: Event, id: Id)
    ensures Raised(base, events + [e], id) <==>
            (Raised(base, events, id) && Spares(e, id)) || DueAt(base, events + [e], id, |events|)
  {
    var all := events + [e];
    if j: nat :| DueAt(base, all, id, j) && LeftAlone(all, id, j) {
      if j < |events| {
        DueStep(base, events, e, id, j);
        AloneStep(events, e, id, j);
      }
    }
    if j: nat :| DueAt(base, events, id, j) && LeftAlone(events, id, j) {
      DueStep(base, events, e, id, j);
      AloneStep(events, e, id, j);
    }
    if DueAt(base, all, id, |events|) {
      AloneStep(events, e, id, |events|);
    }
  }

  lemma FlagStep(base: Prov -> int, st: State, e: Event, id: Id)
    ensures id in EntryIds(Step(base, st, e).timedOut) <==>
            || (id in EntryIds(st.timedOut) && Spares(e, id))
            || (e.Tick? && exists n :: n in st.snapshot && n.id == id && Overdue(n, base, st, e.now))
  {
    var after := Step(base, st, e).timedOut;
    if id in EntryIds(st.timedOut) && Spares(e, id) {
      var x :| x in st.timedOut && x.id == id;
      assert x in after;
    }
    if e.Tick? {
      if n :| n in st.snapshot && n.id == id && Overdue(n, base, st, e.now) {
        TickComplete(base, st, e.now, n);
      }
    }
    if id in EntryIds(after) {
      var x :| x in after && x.id == id;
      if x in st.timedOut {
        assert id in EntryIds(st.timedOut);
      } else {
        var n :| n in st.snapshot && Overdue(n, base, st, e.now) && x == Entry(n.id, n.name, st.tracking[n.id]);
      }
    }
  }

  /** Flagged is exactly whoever some tick found overdue and has been left alone since. */
  lemma {:induction false} FlaggedIff(base: Prov -> int, events: seq<Event>, id: Id)
    ensures id in EntryIds(Run(base, events).timedOut) <==> Raised(base, events, id)
  {
    if events != [] {
      var before, e := events[..|events| - 1], events[|events| - 1];
      assert events == before + [e];
      FlaggedIff(base, before, id);
      RaisedStep(base, before, e, id);
      FlagStep(base, Run(base, before), e, id);
      assert events[..|before|] == before;
      if e.Tick? { OverdueIff(base, before, e.now, id); }
    }
  }

  /** The id was dismissed, and every snapshot since held it. */
  ghost predicate Dismissed(events: seq<Event>, id: Id) {
    exists i: nat :: i < |events| && events[i] == Dismiss(id) && PresentFrom(events, id, i)
  }

  /** A dismissal lasts exactly until a snapshot lacks the id. */
  lemma {:induction false} DismissedIff(base: Prov -> int, events: seq<Event>, id: Id)
    ensures id in Run(base, events).dismissed <==> Dismissed(events, id)
  {
    if events != [] {
      var before, e := events[..|events| - 1], events[|events| - 1];
      assert events == before + [e];
      assert forall k :: 0 <= k < |before| ==> before[k] == events[k];
      DismissedIff(base, before, id);
      if i: nat :| i < |before| && before[i] == Dismiss(id) && PresentFrom(before, id, i) {
        assert (e.Sync? ==> id in Ids(e.nodes)) ==> PresentFrom(events, id, i);
        assert events[i] == Dismiss(id);
      }
      if i: nat :| i < |events| && events[i] == Dismiss(id) && PresentFrom(events, id, i) {
        if i < |before| {
          assert before[i] == Dismiss(id) && PresentFrom(before, id, i);
        }
      }
      if e == Dismiss(id) {
        assert events[|before|] == Dismiss(id) && PresentFrom(events, id, |before|);
      }
    }
  }

  /** The banner lists exactly, while connected, whoever some tick found overdue and has been left
      alone since, unless a dismissal of it still lasts. */
  lemma ShownIff(base: Prov -> int, events: seq<Event>, id: Id, connected: bool)
    ensures id in EntryIds(Visible(Run(base, events), connected)) <==>
            connected && Raised(base, events, id) && !Dismissed(events, id)
  {
    FlaggedIff(base, events, id);
    DismissedIff(base, events, id);
    var st := Run(base, events);
    if connected && id in EntryIds(st.timedOut) && id !in st.dismissed {
      var x :| x in st.timedOut && x.id == id;
      assert x in Visible(st, connected);
    }
  }

  // ----- the component -----

  lemma RunAppend(base: Prov -> int, events: seq<Event>, e: Event)
    ensures Run(base, events + [e]) == Step(base, Run(base, events), e)
  {
    assert (events + [e])[..|events|] == events;
  }

  /** The map after the first `i` nodes: old starts kept, each new id at its first reading. */
  ghost predicate TracksFirst(track: map<Id, int>, tracking: map<Id, int>, nodes: seq<Prov>, clock: nat -> int,
                              i: nat) {
    && (forall x :: x in track <==> x in tracking || FirstIndex(nodes, x) < i)
    && (forall x :: x in track ==> track[x] == if x in tracking then tracking[x] else clock(FirstIndex(nodes, x)))
  }

  lemma TrackStep(track: map<Id, int>, tracking: map<Id, int>, nodes: seq<Prov>, clock: nat -> int, i: nat)
    requires i < |nodes| && TracksFirst(track, tracking, nodes, clock, i)
    ensures var id := nodes[i].id;
            TracksFirst(if id in track then track else track[id := clock(i)], tracking, nodes, clock, i + 1)
  {
    forall x ensures FirstIndex(nodes, x) < i + 1 <==> FirstIndex(nodes, x) < i || x == nodes[i].id { }
  }

  lemma TracksAll(track: map<Id, int>, tracking: map<Id, int>, nodes: seq<Prov>, clock: nat -> int)
    requires TracksFirst(track, tracking, nodes, clock, |nodes|)
    ensures (map x | x in track && x in Ids(nodes) :: track[x]) == Retrack(tracking, nodes, clock)
  {
    forall x | x in Ids(nodes) ensures x in track { }
  }

  /** Start tracking new nodes, then drop those no longer provisioning. */
  method Track(tracking: map<Id, int>, nodes: seq<Prov>, clock: nat -> int) returns (track: map<Id, int>)
    ensures track == Retrack(tracking, nodes, clock)
  {
    track := tracking;
    for i := 0 to |nodes|
      invariant TracksFirst(track, tracking, nodes, clock, i)
    {
      TrackStep(track, tracking, nodes, clock, i);
      if nodes[i].id !in track {
        track := track[nodes[i].id := clock(i)];
      }
    }
    TracksAll(track, tracking, nodes, clock);
    track := map x | x in track && x in Ids(nodes) :: track[x];
  }

  method FindOverdue(base: Prov -> int, st: State, now: int) returns (late: seq<Entry>)
    ensures late == Overdues(st.snapshot, base, st, now)
  {
    late := [];
    for i := 0 to |st.snapshot|
      invariant late == Overdues(st.snapshot[..i], base, st, now)
    {
      var node := st.snapshot[i];
      assert st.snapshot[..i + 1][..i] == st.snapshot[..i];
      if node.id in st.tracking && st.tracking[node.id] != 0 {
        var startedAt := st.tracking[node.id];
        if now - startedAt >= Effective(base(node), |st.snapshot|) {
          late := late + [Entry(node.id, node.name, startedAt)];
        }
      }
    }
    assert st.snapshot[..|st.snapshot|] == st.snapshot;
  }

  /** The component's refs and states; `events` is everything that happened to it. */
  class Banner {
    const base: Prov -> int
    var tracking: map<Id, int>
    var timedOut: seq<Entry>
    var dismissed: set<Id>
    var snapshot: seq<Prov>
    ghost var events: seq<Event>

    function Now(): State
      reads this
    {
      State(tracking, timedOut, dismissed, snapshot)
    }

    ghost predicate Valid()
      reads this
    {
      Now() == Run(base, events)
    }

    constructor (base: Prov -> int)
      ensures Valid() && this.base == base && events == []
    {
      this.base := base;
      tracking, timedOut, dismissed, snapshot := map[], [], {}, [];
      events := [];
    }

    method OnSync(nodes: seq<Prov>, clock: nat -> int)
      requires Valid()
      modifies this
      ensures Valid() && events == old(events) + [Sync(nodes, clock)]
    {
      var ids := Ids(nodes);
      tracking := Track(tracking, nodes, clock);
      timedOut := KeepIn(timedOut, ids);
      dismissed := set x | x in dismissed && x in ids;
      assert dismissed == old(dismissed) * ids;
      snapshot := nodes;
      RunAppend(base, events, Sync(nodes, clock));
      events := events + [Sync(nodes, clock)];
    }

    method OnTick(now: int)
      requires Valid()
      modifies this
      ensures Valid() && events == old(events) + [Tick(now)]
    {
      var newTimedOut := FindOverdue(base, Now(), now);
      var additions := KeepOut(newTimedOut, EntryIds(timedOut));
      if |additions| > 0 {
        timedOut := timedOut + additions;
      }
      RunAppend(base, events, Tick(now));
      events := events + [Tick(now)];
    }

    method OnDismiss(id: Id)
      requires Valid()
      modifies this
      ensures Valid() && events == old(events) + [Dismiss(id)]
    {
      dismissed := dismissed + {id};
      timedOut := KeepOut(timedOut, {id});
      RunAppend(base, events, Dismiss(id));
      events := events + [Dismiss(id)];
    }

    method OnForget(id: Id)
      requires Valid()
      modifies this
      ensures Valid() && events == old(events) + [Forget(id)]
    {
      timedOut := KeepOut(timedOut, {id});
      tracking := tracking - {id};
      RunAppend(base, events, Forget(id));
      events := events + [Forget(id)];
    }

    /** What the banner lists: while connected exactly the workspaces that a tick of the past found
        overdue and that were left alone since, less those whose dismissal lasts; each entry with
        its cause. */
    method Shown(connected: bool) returns (r: seq<Entry>)
      requires Valid()
      ensures forall e :: e in r ==> Flagged(base, events, e) && e.id in Ids(snapshot)
      ensures forall id :: id in EntryIds(r) <==> connected && Raised(base, events, id) && !Dismissed(events, id)
    {
      r := Visible(Now(), connected);
      forall e | e in r ensures Flagged(base, events, e) && e.id in Ids(snapshot) {
        FlagsSound(base, events, e);
        FlagsProvisioning(base, events);
        assert e.id in EntryIds(timedOut);
      }
      forall id
        ensures id in EntryIds(r) <==> connected && Raised(base, events, id) && !Dismissed(events, id)
      {
        ShownIff(base, events, id, connected);
      }
    }
  }
}
