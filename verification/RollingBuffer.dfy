/** The delegation overlay's rolling row buffer: pruned to the window on every change, while
    the edges it publishes are those of the whole, never pruned log. */
module RollingBuffer {
  import opened Options
  import opened DelegationEdges
  import opened FirstPerId

  function Filter(s: seq<Row>, keep: Row -> bool): seq<Row> {
    if s == [] then []
    else if keep(s[0]) then [s[0]] + Filter(s[1..], keep)
    else Filter(s[1..], keep)
  }

  function NewerThan(cutoff: int): Row -> bool {
    (r: Row) => r.at > cutoff
  }

  function QualifiesAt(now: int): Row -> bool {
    (r: Row) => Qualifies(r, now)
  }

  /** The rows newer than a cutoff, in order. */
  function After(s: seq<Row>, cutoff: int): seq<Row> {
    Filter(s, NewerThan(cutoff))
  }

  function IdOf(r: Row): string {
    r.id
  }

  /** A finished fan-out, an admitted socket event (each prunes, then builds, reading the clock
      twice), or a clear when the overlay is hidden or has no workspaces. */
  datatype Event =
    | Bootstrap(fetched: seq<Row>, pruneAt: int, buildAt: int)
    | Live(row: Row, pruneAt: int, buildAt: int)
    | Clear

  function Step(buffer: seq<Row>, e: Event): seq<Row> {
    match e
    case Bootstrap(fetched, p, _) => After(Dedup(fetched + buffer, {}, IdOf), p - WINDOW_MS)
    case Live(row, p, _) => After(buffer + [row], p - WINDOW_MS)
    case Clear => []
  }

  function Buffer(events: seq<Event>): seq<Row> {
    if events == [] then [] else Step(Buffer(events[..|events| - 1]), events[|events| - 1])
  }

  /** The edges a step pushes to the store, given the buffer it leaves. */
  function Published(buffer: seq<Row>, e: Event): seq<Edge> {
    match e
    case Bootstrap(_, _, b) => Edges(Qualifying(buffer, b), b)
    case Live(_, _, b) => Edges(Qualifying(buffer, b), b)
    case Clear => []
  }

  /** The same history with nothing ever pruned. */
  function Log(events: seq<Event>): seq<Row> {
    if events == [] then []
    else
      var before := Log(events[..|events| - 1]);
      match events[|events| - 1]
      case Bootstrap(fetched, _, _) => Dedup(fetched + before, {}, IdOf)
      case Live(row, _, _) => before + [row]
      case Clear => []
  }

  /** The last clock reading of a run that started at `t0`. */
  function Now(events: seq<Event>, t0: int): int {
    if events == [] then t0
    else match events[|events| - 1]
      case Bootstrap(_, _, b) => b
      case Live(_, _, b) => b
      case Clear => Now(events[..|events| - 1], t0)
  }

  /** The cutoff of the last prune. */
  function Cutoff(events: seq<Event>, t0: int): int {
    if events == [] then t0 - WINDOW_MS
    else match events[|events| - 1]
      case Bootstrap(_, p, _) => p - WINDOW_MS
      case Live(_, p, _) => p - WINDOW_MS
      case Clear => Cutoff(events[..|events| - 1], t0)
  }

  /** The clock never goes back. */
  ghost predicate Monotone(events: seq<Event>, t0: int) {
    events != [] ==>
      var before := events[..|events| - 1];
      && Monotone(before, t0)
      && match events[|events| - 1]
         case Bootstrap(_, p, b) => Now(before, t0) <= p <= b
         case Live(_, p, b) => Now(before, t0) <= p <= b
         case Clear => true
  }

  // ----- filtering -----

  lemma {:induction false} FilterConcat(a: seq<Row>, b: seq<Row>, keep: Row -> bool)
    ensures Filter(a + b, keep) == Filter(a, keep) + Filter(b, keep)
  {
    if a == [] {
      assert a + b == b;
    } else {
      assert (a + b)[1..] == a[1..] + b;
      FilterConcat(a[1..], b, keep);
    }
  }

  lemma {:induction false} FilterTwice(s: seq<Row>, c: int, keep: Row -> bool)
    requires forall r :: keep(r) ==> r.at > c
    ensures Filter(After(s, c), keep) == Filter(s, keep)
  {
    if s != [] {
      FilterTwice(s[1..], c, keep);
      if s[0].at > c {
        assert ([s[0]] + After(s[1..], c))[1..] == After(s[1..], c);
      }
    }
  }

  lemma {:induction false} QualifyingIsFilter(s: seq<Row>, now: int)
    ensures Qualifying(s, now) == Filter(s, QualifiesAt(now))
  {
    if s != [] {
      QualifyingIsFilter(s[1..], now);
    }
  }

  lemma {:induction false} FilterMembers(s: seq<Row>, keep: Row -> bool)
    ensures forall r :: r in Filter(s, keep) <==> r in s && keep(r)
  {
    if s != [] {
      FilterMembers(s[1..], keep);
      assert forall r :: r in s <==> r == s[0] || r in s[1..];
    }
  }

  // ----- when pruning before the merge shows -----

  /** The first row of an id. */
  function FirstOf(s: seq<Row>, id: string): Option<Row> {
    if s == [] then None else if s[0].id == id then Some(s[0]) else FirstOf(s[1..], id)
  }

  /** The id is not in `seen`, its first row was pruned at `c`, and the first of its rows that
      survived the pruning is one to keep. */
  ghost predicate Shadowed(s: seq<Row>, seen: set<string>, c: int, keep: Row -> bool, id: string) {
    && id !in seen
    && FirstOf(s, id).Some? && FirstOf(s, id).value.at <= c
    && FirstOf(After(s, c), id).Some? && keep(FirstOf(After(s, c), id).value)
  }

  ghost predicate NoShadow(s: seq<Row>, seen: set<string>, c: int, keep: Row -> bool) {
    forall id :: !Shadowed(s, seen, c, keep, id)
  }

  /** Hiding one more id drops exactly its first row, if that is one to keep. */
  lemma {:induction false} HideOne(s: seq<Row>, seen: set<string>, id: string, keep: Row -> bool)
    requires id !in seen
    ensures var shown, hidden := Filter(Dedup(s, seen, IdOf), keep), Filter(Dedup(s, seen + {id}, IdOf), keep);
            var first := FirstOf(s, id);
            if first.Some? && keep(first.value) then |shown| == |hidden| + 1 else shown == hidden
  {
    if s != [] {
      var y, t := s[0], s[1..];
      if y.id in seen {
        HideOne(t, seen, id, keep);
      } else if y.id == id {
        var d := Dedup(t, seen + {id}, IdOf);
        assert ([y] + d)[1..] == d;
      } else {
        HideOne(t, seen + {y.id}, id, keep);
        assert seen + {y.id} + {id} == seen + {id} + {y.id};
        var d, d' := Dedup(t, seen + {y.id}, IdOf), Dedup(t, seen + {id} + {y.id}, IdOf);
        assert ([y] + d)[1..] == d && ([y] + d')[1..] == d';
      }
    }
  }

  /** Whether some id is shadowed, past a head that is not itself in question. */
  lemma ShadowStep(s: seq<Row>, seen: set<string>, c: int, keep: Row -> bool)
    requires s != []
    ensures s[0].id in seen ==> (NoShadow(s, seen, c, keep) <==> NoShadow(s[1..], seen, c, keep))
    ensures s[0].id !in seen ==>
              (NoShadow(s, seen, c, keep) <==>
               NoShadow(s[1..], seen + {s[0].id}, c, keep) && !Shadowed(s, seen, c, keep, s[0].id))
  {
    forall id | id != s[0].id
      ensures Shadowed(s, seen, c, keep, id) <==> Shadowed(s[1..], seen, c, keep, id)
      ensures Shadowed(s, seen, c, keep, id) <==> Shadowed(s[1..], seen + {s[0].id}, c, keep, id)
    {
    }
  }

  /** Pruning before removing duplicates keeps the rows that matter exactly as not pruning does
      when no id is shadowed, and keeps strictly more of them otherwise. */
  lemma {:induction false} PruneThenDedup(s: seq<Row>, seen: set<string>, c: int, keep: Row -> bool)
    requires forall r :: keep(r) ==> r.at > c
    ensures var pruned, whole := Filter(Dedup(After(s, c), seen, IdOf), keep), Filter(Dedup(s, seen, IdOf), keep);
            if NoShadow(s, seen, c, keep) then pruned == whole else |pruned| > |whole|
  {
    if s != [] {
      var y, t := s[0], s[1..];
      ShadowStep(s, seen, c, keep);
      if y.at > c {
        assert ([y] + After(t, c))[1..] == After(t, c);
      }
      if y.id in seen {
        PruneThenDedup(t, seen, c, keep);
      } else {
        PruneThenDedup(t, seen + {y.id}, c, keep);
        var d, d' := Dedup(t, seen + {y.id}, IdOf), Dedup(After(t, c), seen + {y.id}, IdOf);
        assert ([y] + d)[1..] == d && ([y] + d')[1..] == d';
        if y.at <= c {
          HideOne(After(t, c), seen, y.id, keep);
        }
      }
    } else {
      assert NoShadow(s, seen, c, keep);
    }
  }

  function RowIds(s: seq<Row>): set<string> {
    set r | r in s :: r.id
  }

  lemma {:induction false} DedupConcat(a: seq<Row>, b: seq<Row>, seen: set<string>)
    ensures Dedup(a + b, seen, IdOf) == Dedup(a, seen, IdOf) + Dedup(b, seen + RowIds(a), IdOf)
  {
    if a == [] {
      assert a + b == b && seen + RowIds(a) == seen;
    } else {
      assert (a + b)[1..] == a[1..] + b;
      var seen' := if a[0].id in seen then seen else seen + {a[0].id};
      DedupConcat(a[1..], b, seen');
      assert RowIds(a) == RowIds(a[1..]) + {a[0].id};
      assert seen' + RowIds(a[1..]) == seen + RowIds(a);
    }
  }

  /** The same for a whole merge: only ids that the fetch did not bring can be shadowed. */
  lemma MergeIff(fetched: seq<Row>, log: seq<Row>, c: int, keep: Row -> bool)
    requires forall r :: keep(r) ==> r.at > c
    ensures var pruned, whole := Filter(Dedup(fetched + After(log, c), {}, IdOf), keep),
                                 Filter(Dedup(fetched + log, {}, IdOf), keep);
            if NoShadow(log, RowIds(fetched), c, keep) then pruned == whole else |pruned| > |whole|
  {
    var ids, head := RowIds(fetched), Dedup(fetched, {}, IdOf);
    DedupConcat(fetched, After(log, c), {});
    DedupConcat(fetched, log, {});
    assert {} + ids == ids;
    FilterConcat(head, Dedup(After(log, c), ids, IdOf), keep);
    FilterConcat(head, Dedup(log, ids, IdOf), keep);
    PruneThenDedup(log, ids, c, keep);
  }

  // ----- runs -----

  /** The buffer holds exactly the log's rows after the last cutoff, in the log's order. */
  ghost predicate RowsAgree(events: seq<Event>, t0: int) {
    Buffer(events) == After(Log(events), Cutoff(events, t0))
  }

  /** Event `k` is a merge that meets a shadowed id: one that the fetch did not bring, whose first
      log row was pruned before, while its first surviving row is still in the window. */
  ghost predicate ShadowedAt(events: seq<Event>, t0: int, k: nat) {
    && k < |events| && events[k].Bootstrap?
    && !NoShadow(Log(events[..k]), RowIds(events[k].fetched), Cutoff(events[..k], t0),
                 NewerThan(events[k].pruneAt - WINDOW_MS))
  }

  lemma {:induction false} CutoffBehindClock(events: seq<Event>, t0: int)
    requires Monotone(events, t0)
    ensures Cutoff(events, t0) <= Now(events, t0) - WINDOW_MS
  {
    if events != [] {
      CutoffBehindClock(events[..|events| - 1], t0);
    }
  }

  lemma LiveAgrees(before: seq<Event>, e: Event, t0: int)
    requires Monotone(before + [e], t0) && RowsAgree(before, t0) && e.Live?
    ensures RowsAgree(before + [e], t0)
  {
    assert (before + [e])[..|before|] == before;
    var log, c, keep := Log(before), Cutoff(before, t0), NewerThan(e.pruneAt - WINDOW_MS);
    CutoffBehindClock(before, t0);
    FilterTwice(log, c, keep);
    FilterConcat(After(log, c), [e.row], keep);
    FilterConcat(log, [e.row], keep);
  }

  lemma BootstrapRows(before: seq<Event>, e: Event, t0: int)
    requires e.Bootstrap?
    ensures Buffer(before + [e]) == After(Dedup(e.fetched + Buffer(before), {}, IdOf), e.pruneAt - WINDOW_MS)
    ensures Log(before + [e]) == Dedup(e.fetched + Log(before), {}, IdOf)
    ensures Cutoff(before + [e], t0) == e.pruneAt - WINDOW_MS
  {
    assert (before + [e])[..|before|] == before;
  }

  lemma BootstrapIff(before: seq<Event>, e: Event, t0: int)
    requires Monotone(before + [e], t0) && RowsAgree(before, t0) && e.Bootstrap?
    ensures RowsAgree(before + [e], t0) <==> !ShadowedAt(before + [e], t0, |before|)
  {
    var log, c, keep := Log(before), Cutoff(before, t0), NewerThan(e.pruneAt - WINDOW_MS);
    assert (before + [e])[..|before|] == before;
    CutoffBehindClock(before, t0);
    BootstrapRows(before, e, t0);
    MergeIff(e.fetched, log, c, keep);
    assert !ShadowedAt(before + [e], t0, |before|) <==> NoShadow(log, RowIds(e.fetched), c, keep);
  }

  /** One event, from a state in which the rows agree. */
  lemma StepIff(before: seq<Event>, e: Event, t0: int)
    requires Monotone(before + [e], t0) && RowsAgree(before, t0)
    ensures RowsAgree(before + [e], t0) <==> !ShadowedAt(before + [e], t0, |before|)
  {
    match e
    case Clear =>
    case Live(_, _, _) => LiveAgrees(before, e, t0);
    case Bootstrap(_, _, _) => BootstrapIff(before, e, t0);
  }

  lemma {:induction false} MonotonePrefix(events: seq<Event>, t0: int, k: nat)
    requires Monotone(events, t0) && k <= |events|
    ensures Monotone(events[..k], t0)
    decreases |events|
  {
    if k < |events| {
      var before := events[..|events| - 1];
      MonotonePrefix(before, t0, k);
      assert before[..k] == events[..k];
    } else {
      assert events[..k] == events;
    }
  }

  lemma ShadowedPrefix(events: seq<Event>, t0: int, n: nat, k: nat)
    requires k < n <= |events|
    ensures ShadowedAt(events[..n], t0, k) <==> ShadowedAt(events, t0, k)
  {
    assert events[..n][..k] == events[..k] && events[..n][k] == events[k];
  }

  lemma {:induction false} UnshadowedAgree(events: seq<Event>, t0: int)
    requires Monotone(events, t0) && forall k: nat :: !ShadowedAt(events, t0, k)
    ensures RowsAgree(events, t0)
  {
    if events != [] {
      var n := |events| - 1;
      var before := events[..n];
      forall k: nat ensures !ShadowedAt(before, t0, k) {
        if k < n { ShadowedPrefix(events, t0, n, k); }
      }
      UnshadowedAgree(before, t0);
      assert events == before + [events[n]];
      StepIff(before, events[n], t0);
    }
  }

  /** Over every run: buffer and log agree on the rows in the window at every moment, if and only
      if no merge ever meets a shadowed id. */
  lemma BufferExactIff(events: seq<Event>, t0: int)
    requires Monotone(events, t0)
    ensures (forall k :: 0 <= k <= |events| ==> RowsAgree(events[..k], t0)) <==>
            (forall k: nat :: !ShadowedAt(events, t0, k))
  {
    if forall k: nat :: !ShadowedAt(events, t0, k) {
      forall n | 0 <= n <= |events| ensures RowsAgree(events[..n], t0) {
        MonotonePrefix(events, t0, n);
        forall k: nat ensures !ShadowedAt(events[..n], t0, k) {
          if k < n { ShadowedPrefix(events, t0, n, k); }
        }
        UnshadowedAgree(events[..n], t0);
      }
    }
    if forall k :: 0 <= k <= |events| ==> RowsAgree(events[..k], t0) {
      forall k: nat ensures !ShadowedAt(events, t0, k) {
        if k < |events| {
          assert RowsAgree(events[..k], t0) && RowsAgree(events[..k + 1], t0);
          AgreeingStep(events, t0, k);
        }
      }
    }
  }

  lemma AgreeingStep(events: seq<Event>, t0: int, k: nat)
    requires Monotone(events, t0) && k < |events|
    requires RowsAgree(events[..k], t0) && RowsAgree(events[..k + 1], t0)
    ensures !ShadowedAt(events, t0, k)
  {
    var before, upto := events[..k], events[..k + 1];
    assert upto == before + [events[k]] && |before| == k;
    MonotonePrefix(events, t0, k + 1);
    StepIff(before, events[k], t0);
    assert !ShadowedAt(upto, t0, k);
    ShadowedPrefix(events, t0, k + 1, k);
  }

  /** So in a run without shadowing the edges pushed last are those of the never pruned log, built
      at the last clock reading, and none after a clear. */
  lemma RollingBufferExact(events: seq<Event>, t0: int)
    requires Monotone(events, t0) && forall k: nat :: !ShadowedAt(events, t0, k)
    ensures events == [] || events[|events| - 1].Clear? ==> Pushed(events) == []
    ensures events != [] && !events[|events| - 1].Clear? ==>
              var now := events[|events| - 1].buildAt;
              Pushed(events) == Edges(Qualifying(Log(events), now), now)
  {
    if events != [] {
      BufferExactIff(events, t0);
      assert events[..|events|] == events && RowsAgree(events[..|events|], t0);
      var now := Now(events, t0);
      CutoffBehindClock(events, t0);
      QualifyingIsFilter(Buffer(events), now);
      QualifyingIsFilter(Log(events), now);
      FilterTwice(Log(events), Cutoff(events, t0), QualifiesAt(now));
    }
  }

  lemma EdgesOfMore(q: seq<Row>, q': seq<Row>, now: int)
    requires AllEnds(q) && AllEnds(q') && |q| != |q'|
    ensures Edges(q, now) != Edges(q', now)
  {
    CountsConserved(q, now);
    CountsConserved(q', now);
  }

  /** A merge's edges, built at `now` from rows pruned at `c` before it and at `c'` after it. */
  lemma MergeEdges(fetched: seq<Row>, log: seq<Row>, c: int, c': int, now: int)
    requires c <= now - WINDOW_MS && c' <= now - WINDOW_MS
    ensures var pruned := Qualifying(After(Dedup(fetched + After(log, c), {}, IdOf), c'), now);
            var whole := Qualifying(Dedup(fetched + log, {}, IdOf), now);
            Edges(pruned, now) == Edges(whole, now) <==> NoShadow(log, RowIds(fetched), c, QualifiesAt(now))
  {
    var merged, whole := Dedup(fetched + After(log, c), {}, IdOf), Dedup(fetched + log, {}, IdOf);
    QualifyingIsFilter(After(merged, c'), now);
    QualifyingIsFilter(whole, now);
    FilterTwice(merged, c', QualifiesAt(now));
    MergeIff(fetched, log, c, QualifiesAt(now));
    var q, q' := Qualifying(After(merged, c'), now), Qualifying(whole, now);
    if |q| != |q'| {
      EdgesOfMore(q, q', now);
    }
  }

  /** And the first merge that meets a shadowed id publishes other edges exactly when the first
      surviving row of some shadowed id is one that counts. */
  lemma PublishedIff(before: seq<Event>, e: Event, t0: int)
    requires Monotone(before + [e], t0) && RowsAgree(before, t0) && e.Bootstrap?
    ensures Published(Buffer(before + [e]), e) == Published(Log(before + [e]), e) <==>
            NoShadow(Log(before), RowIds(e.fetched), Cutoff(before, t0), QualifiesAt(e.buildAt))
  {
    assert (before + [e])[..|before|] == before;
    CutoffBehindClock(before, t0);
    BootstrapRows(before, e, t0);
    MergeEdges(e.fetched, Log(before), Cutoff(before, t0), e.pruneAt - WINDOW_MS, e.buildAt);
  }

  // ----- what the log holds -----

  lemma {:induction false} FirstOfConcat(a: seq<Row>, b: seq<Row>, id: string)
    ensures FirstOf(a + b, id) == if FirstOf(a, id).Some? then FirstOf(a, id) else FirstOf(b, id)
  {
    if a == [] {
      assert a + b == b;
    } else {
      assert (a + b)[1..] == a[1..] + b;
      FirstOfConcat(a[1..], b, id);
    }
  }

  lemma {:induction false} FirstOfDedup(s: seq<Row>, seen: set<string>, id: string)
    ensures FirstOf(Dedup(s, seen, IdOf), id) == if id in seen then None else FirstOf(s, id)
  {
    if s != [] {
      var seen' := if s[0].id in seen then seen else seen + {s[0].id};
      FirstOfDedup(s[1..], seen', id);
      var d := Dedup(s[1..], seen', IdOf);
      assert ([s[0]] + d)[1..] == d;
    }
  }

  ghost predicate OneRowPerId(s: seq<Row>) {
    forall i, j :: 0 <= i < j < |s| ==> s[i].id != s[j].id
  }

  lemma {:induction false} DedupOnePerId(s: seq<Row>, seen: set<string>)
    ensures OneRowPerId(Dedup(s, seen, IdOf)) && forall r :: r in Dedup(s, seen, IdOf) ==> r.id !in seen
  {
    if s != [] {
      DedupOnePerId(s[1..], if s[0].id in seen then seen else seen + {s[0].id});
    }
  }

  /** After a fetch the log has one row per id: the fetch's first, or else the log's own first. */
  lemma LogAfterFetch(before: seq<Event>, e: Event, id: string)
    requires e.Bootstrap?
    ensures OneRowPerId(Log(before + [e]))
    ensures FirstOf(Log(before + [e]), id) ==
            if FirstOf(e.fetched, id).Some? then FirstOf(e.fetched, id) else FirstOf(Log(before), id)
  {
    assert (before + [e])[..|before|] == before;
    DedupOnePerId(e.fetched + Log(before), {});
    FirstOfDedup(e.fetched + Log(before), {}, id);
    FirstOfConcat(e.fetched, Log(before), id);
  }

  /** Live rows are appended one by one, and a clear leaves nothing. */
  lemma {:induction false} LogAfterLive(events: seq<Event>, from: nat)
    requires from <= |events| && forall k :: from <= k < |events| ==> events[k].Live?
    ensures var start, n := Log(events[..from]), |events| - from;
            && (from > 0 && events[from - 1].Clear? ==> start == [])
            && |Log(events)| == |start| + n && Log(events)[..|start|] == start
            && forall k :: from <= k < |events| ==> Log(events)[|start| + (k - from)] == events[k].row
    decreases |events|
  {
    if from == |events| {
      assert events[..from] == events;
    } else {
      var before := events[..|events| - 1];
      assert before[..from] == events[..from];
      LogAfterLive(before, from);
    }
  }

  // ----- one timestamp per id is enough -----

  /** Every row carries the one timestamp of its id. */
  ghost predicate Stamped(s: seq<Row>, stamp: string -> int) {
    forall r :: r in s ==> r.at == stamp(r.id)
  }

  ghost predicate EventStamped(e: Event, stamp: string -> int) {
    match e
    case Bootstrap(fetched, _, _) => Stamped(fetched, stamp)
    case Live(row, _, _) => row.at == stamp(row.id)
    case Clear => true
  }

  lemma {:induction false} FirstOfMember(s: seq<Row>, id: string)
    ensures FirstOf(s, id).Some? ==> FirstOf(s, id).value in s && FirstOf(s, id).value.id == id
  {
    if s != [] {
      FirstOfMember(s[1..], id);
    }
  }

  lemma {:induction false} DedupStamped(s: seq<Row>, seen: set<string>, stamp: string -> int)
    requires Stamped(s, stamp)
    ensures Stamped(Dedup(s, seen, IdOf), stamp)
  {
    if s != [] {
      DedupStamped(s[1..], if s[0].id in seen then seen else seen + {s[0].id}, stamp);
    }
  }

  lemma {:induction false} LogStamped(events: seq<Event>, stamp: string -> int)
    requires forall e :: e in events ==> EventStamped(e, stamp)
    ensures Stamped(Log(events), stamp)
  {
    if events != [] {
      var before, e := events[..|events| - 1], events[|events| - 1];
      assert e in events;
      LogStamped(before, stamp);
      if e.Bootstrap? {
        DedupStamped(e.fetched + Log(before), {}, stamp);
      }
    }
  }

  lemma StampedNoShadow(s: seq<Row>, stamp: string -> int, seen: set<string>, c: int, keep: Row -> bool)
    requires Stamped(s, stamp)
    ensures NoShadow(s, seen, c, keep)
  {
    forall id ensures !Shadowed(s, seen, c, keep, id) {
      FirstOfMember(s, id);
      FirstOfMember(After(s, c), id);
      FilterMembers(s, NewerThan(c));
    }
  }

  /** A run in which every row id has one timestamp never shadows. */
  lemma StampedRunsNeverShadow(events: seq<Event>, stamp: string -> int, t0: int, k: nat)
    requires forall e :: e in events ==> EventStamped(e, stamp)
    ensures !ShadowedAt(events, t0, k)
  {
    if k < |events| && events[k].Bootstrap? {
      forall e | e in events[..k] ensures e in events { }
      LogStamped(events[..k], stamp);
      StampedNoShadow(Log(events[..k]), stamp, RowIds(events[k].fetched), Cutoff(events[..k], t0),
                      NewerThan(events[k].pruneAt - WINDOW_MS));
    }
  }

  /** Two live rows and a merge that fetches nothing, at the times `t` and then `now`. */
  function Repeat(r: Row, r': Row, t: int, now: int): seq<Event> {
    [Live(r, t, t), Live(r', now, now), Bootstrap([], now, now)]
  }

  lemma RepeatRun(r: Row, r': Row, t: int, now: int)
    requires t <= now
    ensures var events := Repeat(r, r', t, now);
            && Monotone(events, t) && RowsAgree(events[..2], t)
            && Log(events[..2]) == [r, r'] && Cutoff(events[..2], t) == now - WINDOW_MS
  {
    var events := Repeat(r, r', t, now);
    var e0, e1 := events[0], events[1];
    assert events[..2] == [e0, e1] && [e0, e1][..1] == [e0] && [e0][..0] == [];
    assert Monotone([], t) && Monotone([e0], t) && Monotone([e0, e1], t);
    assert Log([e0]) == [r];
    UnshadowedAgree(events[..2], t);
  }

  lemma FirstIsShadowed(r: Row, r': Row, c: int, keep: Row -> bool)
    requires r.id == r'.id && r.at <= c < r'.at && keep(r')
    ensures Shadowed([r, r'], {}, c, keep, r.id)
  {
    assert [r, r'][1..] == [r'] && [r'][1..] == [];
    assert Filter([r'], NewerThan(c)) == [r'];
    assert After([r, r'], c) == [r'];
  }

  /** Shadowing happens: a live row repeated under a fresh timestamp survives in the buffer,
      while the log's merge keeps only the expired first copy, and the edges differ. */
  lemma RestampedRowDiffers(r: Row, t: int, now: int)
    requires r.at + WINDOW_MS <= now && t <= now && Qualifies(r.(at := now), now)
    ensures var events := Repeat(r, r.(at := now), t, now);
            Monotone(events, t) && Published(Buffer(events), events[2]) != Published(Log(events), events[2])
  {
    var events := Repeat(r, r.(at := now), t, now);
    RepeatRun(r, r.(at := now), t, now);
    assert events == events[..2] + [events[2]];
    FirstIsShadowed(r, r.(at := now), now - WINDOW_MS, QualifiesAt(now));
    assert RowIds([]) == {};
    PublishedIff(events[..2], events[2], t);
  }

  /** A second timestamp alone does no harm: while the first row is in the window nothing is
      shadowed. */
  lemma RestampedInWindowAgrees(r: Row, at: int, t: int, now: int)
    requires t <= now && now - WINDOW_MS < r.at && now - WINDOW_MS < at
    ensures RowsAgree(Repeat(r, r.(at := at), t, now), t)
  {
    var r' := r.(at := at);
    var events, c := Repeat(r, r', t, now), now - WINDOW_MS;
    RepeatRun(r, r', t, now);
    assert events == events[..2] + [events[2]];
    forall id ensures !Shadowed([r, r'], RowIds([]), c, NewerThan(c), id) {
      FirstOfMember([r, r'], id);
    }
    StepIff(events[..2], events[2], t);
  }

  // ----- the overlay -----

  /** The edges pushed last. */
  function Pushed(events: seq<Event>): seq<Edge> {
    if events == [] then [] else Published(Buffer(events), events[|events| - 1])
  }

  /** `bufferRef` and the store's `a2aEdges`; `events` is everything that happened to them. */
  class TopologyOverlay {
    var buffer: seq<Row>
    var edges: seq<Edge>
    ghost var events: seq<Event>

    ghost predicate Valid()
      reads this
    {
      buffer == Buffer(events) && edges == Pushed(events)
    }

    constructor ()
      ensures Valid() && events == []
    {
      buffer, edges, events := [], [], [];
    }

    method RecomputeAndPush(pruneAt: int, buildAt: int)
      modifies `buffer, `edges
      ensures buffer == After(old(buffer), pruneAt - WINDOW_MS)
      ensures edges == Edges(Qualifying(buffer, buildAt), buildAt)
    {
      buffer := After(buffer, pruneAt - WINDOW_MS);
      edges := BuildEdges(buffer, buildAt);
    }

    method FinishBootstrap(fetched: seq<Row>, pruneAt: int, buildAt: int)
      requires Valid()
      modifies this
      ensures Valid() && events == old(events) + [Bootstrap(fetched, pruneAt, buildAt)]
    {
      ghost var e := Bootstrap(fetched, pruneAt, buildAt);
      buffer := FilterSeen(fetched + buffer, IdOf);
      RecomputeAndPush(pruneAt, buildAt);
      events := events + [e];
    }

    method OnDelegation(entry: Row, pruneAt: int, buildAt: int)
      requires Valid()
      modifies this
      ensures Valid() && events == old(events) + [Live(entry, pruneAt, buildAt)]
    {
      ghost var e := Live(entry, pruneAt, buildAt);
      buffer := buffer + [entry];
      RecomputeAndPush(pruneAt, buildAt);
      events := events + [e];
    }

    method ClearAll()
      requires Valid()
      modifies this
      ensures Valid() && events == old(events) + [Clear]
    {
      events := events + [Clear];
      buffer, edges := [], [];
    }

    /** What the canvas draws: nothing at first and after a clear, and otherwise the edges of the
        never pruned log at the last clock reading, unless some merge met a shadowed id or the
        clock went back. With keys that separate the pairs these count the log's calls pair by
        pair. */
    method Drawn(ghost t0: int) returns (r: seq<Edge>)
      requires Valid()
      ensures events == [] || events[|events| - 1].Clear? ==> r == []
      ensures events != [] && !events[|events| - 1].Clear? &&
              Monotone(events, t0) && (forall k: nat :: !ShadowedAt(events, t0, k)) ==>
                var now := events[|events| - 1].buildAt;
                && r == Edges(Qualifying(Log(events), now), now)
                && (KeysSeparate(Qualifying(Log(events), now)) ==> DrawsCalls(r, Log(events), now))
    {
      r := edges;
      if events != [] && Monotone(events, t0) && forall k: nat :: !ShadowedAt(events, t0, k) {
        RollingBufferExact(events, t0);
        ghost var now := Now(events, t0);
        if KeysSeparate(Qualifying(Log(events), now)) {
          EdgesByPair(Log(events), now);
        }
      }
    }
  }
}
