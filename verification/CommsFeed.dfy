/** The communications overlay: a list kept newest first, one row per id, cut to 20 rows after
    every change. Timestamps are ranks in the order that `localeCompare` sorts them. */
module CommsFeed {
  import opened FirstPerId

  const RENDER_CAP: nat := 20

  datatype Comm = Comm(id: string, sourceId: string, targetId: string, summary: string, timestamp: int)

  // ----- what `.sort` promises: newest first, and stable -----

  ghost predicate NewestFirst(s: seq<Comm>) {
    forall i, j :: 0 <= i < j < |s| ==> s[i].timestamp >= s[j].timestamp
  }

  /** The rows stamped `t`, in list order. */
  function AtTime(s: seq<Comm>, t: int): seq<Comm> {
    if s == [] then [] else (if s[0].timestamp == t then [s[0]] else []) + AtTime(s[1..], t)
  }

  ghost predicate SameRows(a: seq<Comm>, b: seq<Comm>) {
    forall t :: AtTime(a, t) == AtTime(b, t)
  }

  ghost predicate IsStableSort(input: seq<Comm>, output: seq<Comm>) {
    NewestFirst(output) && SameRows(input, output)
  }

  /** Put `x` in front of the first row that is not newer. */
  function Insert(x: Comm, s: seq<Comm>): seq<Comm> {
    if s == [] || x.timestamp >= s[0].timestamp then [x] + s else [s[0]] + Insert(x, s[1..])
  }

  function Sort(s: seq<Comm>): seq<Comm> {
    if s == [] then [] else Insert(s[0], Sort(s[1..]))
  }

  lemma {:induction false} InsertAtTime(x: Comm, s: seq<Comm>, t: int)
    ensures AtTime(Insert(x, s), t) == AtTime([x] + s, t)
  {
    assert ([x] + s)[1..] == s;
    if s != [] && x.timestamp < s[0].timestamp {
      InsertAtTime(x, s[1..], t);
      assert ([x] + s[1..])[1..] == s[1..];
      assert ([s[0]] + Insert(x, s[1..]))[1..] == Insert(x, s[1..]);
    }
  }

  lemma {:induction false} InsertSorted(x: Comm, s: seq<Comm>)
    requires NewestFirst(s)
    ensures NewestFirst(Insert(x, s))
    ensures forall c :: c in Insert(x, s) <==> c == x || c in s
  {
    if s != [] && x.timestamp < s[0].timestamp {
      InsertSorted(x, s[1..]);
      assert forall c :: c in s <==> c == s[0] || c in s[1..];
      forall c | c in Insert(x, s[1..]) ensures c.timestamp <= s[0].timestamp { }
    }
  }

  lemma {:induction false} SortIsStable(s: seq<Comm>)
    ensures IsStableSort(s, Sort(s))
  {
    if s != [] {
      SortIsStable(s[1..]);
      InsertSorted(s[0], Sort(s[1..]));
      forall t ensures AtTime(s, t) == AtTime(Sort(s), t) {
        InsertAtTime(s[0], Sort(s[1..]), t);
        assert ([s[0]] + Sort(s[1..]))[1..] == Sort(s[1..]);
        assert AtTime(s[1..], t) == AtTime(Sort(s[1..]), t);
      }
    }
  }

  lemma {:induction false} AtTimeMembers(s: seq<Comm>, c: Comm)
    ensures c in s <==> c in AtTime(s, c.timestamp)
  {
    if s != [] {
      AtTimeMembers(s[1..], c);
    }
  }

  lemma SameHead(a: seq<Comm>, b: seq<Comm>)
    requires NewestFirst(a) && NewestFirst(b) && SameRows(a, b) && a != []
    ensures b != [] && a[0] == b[0]
  {
    var t := a[0].timestamp;
    AtTimeMembers(a, a[0]);
    AtTimeMembers(b, a[0]);
    assert AtTime(a, t) == AtTime(b, t);
    assert a[0] in b;
    AtTimeMembers(a, b[0]);
    AtTimeMembers(b, b[0]);
    assert AtTime(a, b[0].timestamp) == AtTime(b, b[0].timestamp);
    assert b[0].timestamp == t;
    assert AtTime(a, t)[0] == a[0] && AtTime(b, t)[0] == b[0];
  }

  lemma SameTail(a: seq<Comm>, b: seq<Comm>)
    requires a != [] && b != [] && a[0] == b[0] && SameRows(a, b)
    ensures SameRows(a[1..], b[1..])
  {
    forall u ensures AtTime(a[1..], u) == AtTime(b[1..], u) {
      assert AtTime(a, u) == AtTime(b, u);
      if u == a[0].timestamp {
        assert AtTime(a, u)[1..] == AtTime(a[1..], u) && AtTime(b, u)[1..] == AtTime(b[1..], u);
      } else {
        assert AtTime(a, u) == AtTime(a[1..], u) && AtTime(b, u) == AtTime(b[1..], u);
      }
    }
  }

  /** Stability leaves no choice, so any engine's sort agrees with `Sort`. */
  lemma {:induction false} StableSortUnique(a: seq<Comm>, b: seq<Comm>)
    requires NewestFirst(a) && NewestFirst(b) && SameRows(a, b)
    ensures a == b
  {
    if a != [] {
      SameHead(a, b);
      SameTail(a, b);
      StableSortUnique(a[1..], b[1..]);
      assert a == [a[0]] + a[1..] && b == [b[0]] + b[1..];
    } else if b != [] {
      SameHead(b, a);
    }
  }

  lemma SortOfSorted(s: seq<Comm>)
    requires NewestFirst(s)
    ensures Sort(s) == s
  {
    SortIsStable(s);
    StableSortUnique(Sort(s), s);
  }

  // ----- the `seen` filter -----

  function IdOf(c: Comm): string {
    c.id
  }

  function Take(s: seq<Comm>, n: nat): (r: seq<Comm>)
    ensures r <= s && |r| == if |s| <= n then |s| else n
  {
    if |s| <= n then s else s[..n]
  }

  lemma {:induction false} DedupMembers(s: seq<Comm>, seen: set<string>)
    ensures forall c :: c in Dedup(s, seen, IdOf) ==> c in s && c.id !in seen
  {
    if s != [] {
      DedupMembers(s[1..], if s[0].id in seen then seen else seen + {s[0].id});
      assert forall c :: c in s[1..] ==> c in s;
    }
  }

  ghost predicate DistinctIds(s: seq<Comm>) {
    forall i, j :: 0 <= i < j < |s| ==> s[i].id != s[j].id
  }

  lemma {:induction false} DedupDistinct(s: seq<Comm>, seen: set<string>)
    ensures DistinctIds(Dedup(s, seen, IdOf))
  {
    if s != [] {
      var seen' := if s[0].id in seen then seen else seen + {s[0].id};
      DedupDistinct(s[1..], seen');
      var tail := Dedup(s[1..], seen', IdOf);
      DedupMembers(s[1..], seen');
      forall j | 0 <= j < |tail| ensures tail[j].id !in seen' {
        assert tail[j] in tail;
      }
    }
  }

  lemma {:induction false} DedupSorted(s: seq<Comm>, seen: set<string>)
    requires NewestFirst(s)
    ensures NewestFirst(Dedup(s, seen, IdOf))
  {
    if s != [] {
      var seen' := if s[0].id in seen then seen else seen + {s[0].id};
      DedupSorted(s[1..], seen');
      var tail := Dedup(s[1..], seen', IdOf);
      DedupMembers(s[1..], seen');
      forall j | 0 <= j < |tail| ensures tail[j].timestamp <= s[0].timestamp {
        assert tail[j] in s[1..];
      }
    }
  }

  /** Every row has a row of its own id, at least as new, in the filtered list. */
  lemma {:induction false} DedupKeepsNewest(s: seq<Comm>, seen: set<string>, c: Comm)
    requires NewestFirst(s) && c in s && c.id !in seen
    ensures exists d :: d in Dedup(s, seen, IdOf) && d.id == c.id && d.timestamp >= c.timestamp
  {
    if s[0].id == c.id {
      assert s[0] in Dedup(s, seen, IdOf);
    } else {
      var seen' := if s[0].id in seen then seen else seen + {s[0].id};
      DedupKeepsNewest(s[1..], seen', c);
      var d :| d in Dedup(s[1..], seen', IdOf) && d.id == c.id && d.timestamp >= c.timestamp;
      assert d in Dedup(s, seen, IdOf);
    }
  }

  lemma {:induction false} DedupIdempotent(s: seq<Comm>, seen: set<string>, n: nat)
    ensures Dedup(Take(Dedup(s, seen, IdOf), n), seen, IdOf) == Take(Dedup(s, seen, IdOf), n)
  {
    if s != [] && n > 0 {
      if s[0].id in seen {
        DedupIdempotent(s[1..], seen, n);
      } else {
        DedupIdempotent(s[1..], seen + {s[0].id}, n - 1);
        TakeCons(s[0], Dedup(s[1..], seen + {s[0].id}, IdOf), n);
      }
    }
  }

  lemma TakeCons(x: Comm, s: seq<Comm>, n: nat)
    requires n > 0
    ensures Take([x] + s, n) == [x] + Take(s, n - 1)
    ensures Take([x] + s, n)[1..] == Take(s, n - 1)
  {
  }

  /** Hiding one more id from a cut list needs no row beyond the cut. */
  lemma {:induction false} DedupMore(s: seq<Comm>, seen: set<string>, id: string, n: nat)
    requires n > 0
    ensures Take(Dedup(s, seen + {id}, IdOf), n - 1) ==
            Take(Dedup(Take(Dedup(s, seen, IdOf), n), seen + {id}, IdOf), n - 1)
  {
    if s != [] {
      var y, t := s[0], s[1..];
      if y.id in seen {
        DedupMore(t, seen, id, n);
      } else {
        var d := Dedup(t, seen + {y.id}, IdOf);
        TakeCons(y, d, n);
        if y.id == id {
          // both sides keep the rest, and no row left carries the id
          DedupIdempotent(t, seen + {id}, n - 1);
        } else {
          assert seen + {id} + {y.id} == seen + {y.id} + {id};
          if n > 1 {
            DedupMore(t, seen + {y.id}, id, n - 1);
            TakeCons(y, Dedup(t, seen + {id} + {y.id}, IdOf), n - 1);
            TakeCons(y, Dedup(Take(d, n - 1), seen + {y.id} + {id}, IdOf), n - 1);
          }
        }
      }
    }
  }

  lemma {:induction false} TakeSorted(s: seq<Comm>, seen: set<string>, n: nat)
    requires NewestFirst(s)
    ensures NewestFirst(Take(Dedup(s, seen, IdOf), n))
  {
    DedupSorted(s, seen);
  }

  /** Cutting before an insertion loses nothing that the cut after it would keep. */
  lemma {:induction false} CutCommutes(x: Comm, s: seq<Comm>, seen: set<string>, n: nat)
    requires NewestFirst(s)
    ensures Take(Dedup(Insert(x, s), seen, IdOf), n) ==
            Take(Dedup(Insert(x, Take(Dedup(s, seen, IdOf), n)), seen, IdOf), n)
  {
    if s != [] && n > 0 {
      var y, t := s[0], s[1..];
      if x.timestamp >= y.timestamp {
        var kept := Take(Dedup(s, seen, IdOf), n);
        DedupMembers(s, seen);
        assert Insert(x, kept) == [x] + kept by {
          if kept != [] { assert kept[0] in Dedup(s, seen, IdOf); }
        }
        assert ([x] + s)[1..] == s && ([x] + kept)[1..] == kept;
        if x.id in seen {
          DedupIdempotent(s, seen, n);
        } else {
          DedupMore(s, seen, x.id, n);
          TakeCons(x, Dedup(s, seen + {x.id}, IdOf), n);
          TakeCons(x, Dedup(kept, seen + {x.id}, IdOf), n);
        }
      } else if y.id in seen {
        CutCommutes(x, t, seen, n);
      } else {
        var seen' := seen + {y.id};
        CutCommutes(x, t, seen', n - 1);
        var d := Dedup(t, seen', IdOf);
        TakeCons(y, d, n);
        var kept := Take(d, n - 1);
        assert Insert(x, [y] + kept) == [y] + Insert(x, kept) by {
          assert ([y] + kept)[1..] == kept;
        }
        TakeCons(y, Dedup(Insert(x, t), seen', IdOf), n);
        TakeCons(y, Dedup(Insert(x, kept), seen', IdOf), n);
        assert ([y] + Insert(x, t))[1..] == Insert(x, t);
        assert ([y] + Insert(x, kept))[1..] == Insert(x, kept);
      }
    }
  }

  // ----- runs -----

  /** `Bootstrap` is a finished fetch replacing the list, `Live` an admitted socket event. */
  datatype Event = Bootstrap(rows: seq<Comm>) | Live(row: Comm)

  /** Sort, filter and cut a whole history, latest arrival first. */
  function Batch(history: seq<Comm>): seq<Comm> {
    Take(Dedup(Sort(history), {}, IdOf), RENDER_CAP)
  }

  function Apply(comms: seq<Comm>, e: Event): seq<Comm> {
    match e
    case Bootstrap(rows) => Batch(rows)
    case Live(row) => Batch([row] + comms)
  }

  function Run(events: seq<Event>): seq<Comm> {
    if events == [] then [] else Apply(Run(events[..|events| - 1]), events[|events| - 1])
  }

  /** The last fetch's rows and every event since, latest first, never cut. */
  function History(events: seq<Event>): seq<Comm> {
    if events == [] then []
    else match events[|events| - 1]
      case Bootstrap(rows) => rows
      case Live(row) => [row] + History(events[..|events| - 1])
  }

  /** The events from `from` on are all live, and a fetch of `rows` came right before them, or
      nothing did. */
  ghost predicate SinceFetch(events: seq<Event>, from: nat, rows: seq<Comm>) {
    && from <= |events| && (forall k :: from <= k < |events| ==> events[k].Live?)
    && (if from == 0 then rows == [] else events[from - 1] == Bootstrap(rows))
  }

  /** The history holds the live rows since the last fetch, latest first, then the fetched ones. */
  lemma {:induction false} HistoryMeaning(events: seq<Event>, from: nat, rows: seq<Comm>)
    requires SinceFetch(events, from, rows)
    ensures var h, n := History(events), |events| - from;
            |h| == n + |rows| && h[n..] == rows && forall k :: 0 <= k < n ==> h[k] == events[|events| - 1 - k].row
  {
    if from < |events| {
      var before := events[..|events| - 1];
      assert SinceFetch(before, from, rows);
      HistoryMeaning(before, from, rows);
    } else if events != [] {
      assert events[|events| - 1] == Bootstrap(rows);
    }
  }

  /** Streaming equals batch: the list after any run is the cut of the uncut history. */
  lemma {:induction false} FeedIsBatch(events: seq<Event>)
    ensures Run(events) == Batch(History(events))
  {
    if events != [] {
      var before := events[..|events| - 1];
      FeedIsBatch(before);
      match events[|events| - 1]
      case Bootstrap(rows) =>
      case Live(row) =>
        var h := History(before);
        SortIsStable(h);
        var kept := Batch(h);
        TakeSorted(Sort(h), {}, RENDER_CAP);
        SortOfSorted(kept);
        assert ([row] + h)[1..] == h && ([row] + kept)[1..] == kept;
        CutCommutes(row, Sort(h), {}, RENDER_CAP);
    }
  }

  lemma SortMembers(s: seq<Comm>)
    ensures forall d :: d in Sort(s) <==> d in s
  {
    SortIsStable(s);
    forall d ensures d in Sort(s) <==> d in s {
      AtTimeMembers(s, d);
      AtTimeMembers(Sort(s), d);
    }
  }

  /** What the list shows: rows of the history, newest first, distinct ids, at most 20. */
  lemma FeedShape(history: seq<Comm>)
    ensures var feed := Batch(history);
            && |feed| <= 20 && NewestFirst(feed) && DistinctIds(feed)
            && (forall d :: d in feed ==> d in history)
  {
    SortIsStable(history);
    SortMembers(history);
    DedupMembers(Sort(history), {});
    DedupDistinct(Sort(history), {});
    DedupSorted(Sort(history), {});
  }

  /** What it leaves out: a row is missing only when a row of the same id at least as new is
      shown, or 20 rows at least as new are. */
  lemma NothingNewerLost(history: seq<Comm>, c: Comm)
    requires c in history
    ensures var feed := Batch(history);
            || (exists d :: d in feed && d.id == c.id && d.timestamp >= c.timestamp)
            || (|feed| == 20 && forall d :: d in feed ==> d.timestamp >= c.timestamp)
  {
    var sorted := Sort(history);
    SortIsStable(history);
    SortMembers(history);
    DedupSorted(sorted, {});
    DedupKeepsNewest(sorted, {}, c);
    var all, feed := Dedup(sorted, {}, IdOf), Batch(history);
    var d :| d in all && d.id == c.id && d.timestamp >= c.timestamp;
    var i :| 0 <= i < |all| && all[i] == d;
    if i < |feed| {
      assert feed[i] == d;
    } else {
      forall e | e in feed ensures e.timestamp >= d.timestamp {
        var j :| 0 <= j < |feed| && feed[j] == e;
        assert all[j] == e;
      }
    }
  }

  // ----- the overlay -----

  lemma RunAppend(events: seq<Event>, e: Event)
    ensures Run(events + [e]) == Apply(Run(events), e)
  {
    assert (events + [e])[..|events|] == events;
  }

  /** The `comms` state; `events` is everything that happened to it. */
  class Overlay {
    var comms: seq<Comm>
    ghost var events: seq<Event>

    ghost predicate Valid()
      reads this
    {
      comms == Run(events)
    }

    constructor ()
      ensures Valid() && events == []
    {
      comms, events := [], [];
    }

    method BootstrapComms(rows: seq<Comm>)
      requires Valid()
      modifies this
      ensures Valid() && events == old(events) + [Bootstrap(rows)]
    {
      RunAppend(events, Bootstrap(rows));
      events := events + [Bootstrap(rows)];
      var kept := FilterSeen(Sort(rows), IdOf);
      comms := Take(kept, RENDER_CAP);
    }

    method OnActivity(incoming: Comm)
      requires Valid()
      modifies this
      ensures Valid() && events == old(events) + [Live(incoming)]
    {
      RunAppend(events, Live(incoming));
      events := events + [Live(incoming)];
      var kept := FilterSeen(Sort([incoming] + comms), IdOf);
      comms := Take(kept, RENDER_CAP);
    }

    /** What the panel lists: the cut of everything since the last fetch, nothing newer lost. */
    method Shown() returns (r: seq<Comm>)
      requires Valid()
      ensures r == Batch(History(events)) && |r| <= 20 && NewestFirst(r) && DistinctIds(r)
      ensures forall c :: c in History(events) ==>
                || (exists d :: d in r && d.id == c.id && d.timestamp >= c.timestamp)
                || (|r| == 20 && forall d :: d in r ==> d.timestamp >= c.timestamp)
    {
      r := comms;
      FeedIsBatch(events);
      FeedShape(History(events));
      forall c | c in History(events)
        ensures || (exists d :: d in r && d.id == c.id && d.timestamp >= c.timestamp)
                || (|r| == 20 && forall d :: d in r ==> d.timestamp >= c.timestamp)
      {
        NothingNewerLost(History(events), c);
      }
    }
  }
}
