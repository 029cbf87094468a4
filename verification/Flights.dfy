/** Message flights: a bounded list of envelopes in the air, each dropped by its own timer, all
    dropped when the user asks for reduced motion. */
module Flights {
  import opened Options

  const TTL_MS: int := 984 + 420 + 120
  const MAX_CONCURRENT: nat := 12

  datatype Kind = Send | Receive | Task

  datatype Flight = Flight(key: string, sourceId: string, targetId: string, kind: Kind)

  datatype Timer = Timer(due: int, key: string)

  /** An activity message: its kind if it is a flight kind, the payload's endpoints and the
      sending workspace. */
  datatype Message = Message(kind: Option<Kind>, sourceId: Option<string>, targetId: Option<string>,
                             workspaceId: string)

  function OrElse(s: Option<string>, other: string): string {
    if s.Some? && s.value != "" then s.value else other
  }

  /** The flight a message launches; none without two distinct endpoints. */
  function Launch(m: Message, key: string): Option<Flight> {
    var source, target := OrElse(m.sourceId, m.workspaceId), OrElse(m.targetId, "");
    if m.kind.None? || source == "" || target == "" || source == target then None
    else Some(Flight(key, source, target, m.kind.value))
  }

  datatype State = State(flights: seq<Flight>, timers: seq<Timer>, reduced: bool)

  /** A message with the random key it would get, a timer expiry at some time, or a change of
      the motion preference. */
  datatype Event = Arrive(now: int, enabled: bool, m: Message, key: string) | Expire(now: int) | Motion(reduced: bool)

  /** The last `n` elements, as `slice(-n)` takes them. */
  function Last<T>(s: seq<T>, n: nat): seq<T> {
    if |s| <= n then s else s[|s| - n..]
  }

  function Without(s: seq<Flight>, key: string): seq<Flight> {
    if s == [] then []
    else if s[0].key == key then Without(s[1..], key)
    else [s[0]] + Without(s[1..], key)
  }

  /** The index of the timer the browser fires next: least due time, first created on a tie. */
  function Earliest(timers: seq<Timer>): (i: nat)
    requires timers != []
    ensures i < |timers|
    ensures forall j :: 0 <= j < |timers| ==>
              timers[i].due <= timers[j].due && (j < i ==> timers[i].due < timers[j].due)
  {
    if |timers| == 1 then 0
    else
      var i := Earliest(timers[..|timers| - 1]);
      assert forall j :: 0 <= j < |timers| - 1 ==> timers[..|timers| - 1][j] == timers[j];
      if timers[|timers| - 1].due < timers[i].due then |timers| - 1 else i
  }

  function Step(st: State, e: Event): State {
    match e
    case Arrive(now, enabled, m, key) =>
      var f := Launch(m, key);
      if !enabled || st.reduced || f.None? then st
      else st.(flights := Last(st.flights, MAX_CONCURRENT - 1) + [f.value],
               timers := st.timers + [Timer(now + TTL_MS, key)])
    case Expire(now) =>
      if st.timers == [] || st.timers[Earliest(st.timers)].due > now then st
      else
        var i := Earliest(st.timers);
        st.(flights := Without(st.flights, st.timers[i].key), timers := st.timers[..i] + st.timers[i + 1..])
    case Motion(reduced) =>
      st.(reduced := reduced, flights := if reduced then [] else st.flights)
  }

  function Run(reduced: bool, events: seq<Event>): State {
    if events == [] then State([], [], reduced)
    else Step(Run(reduced, events[..|events| - 1]), events[|events| - 1])
  }

  // ----- the whole history, never cut -----

  datatype Takeoff = Takeoff(flight: Flight, at: int)

  /** Every takeoff of the run, how many of them have expired, and how many had happened when
      the list was last cleared. */
  datatype History = History(takeoffs: seq<Takeoff>, expired: nat, cleared: nat, reduced: bool)

  function Record(h: History, e: Event): History {
    match e
    case Arrive(now, enabled, m, key) =>
      var f := Launch(m, key);
      if !enabled || h.reduced || f.None? then h else h.(takeoffs := h.takeoffs + [Takeoff(f.value, now)])
    case Expire(now) =>
      if h.expired < |h.takeoffs| && h.takeoffs[h.expired].at + TTL_MS <= now then h.(expired := h.expired + 1) else h
    case Motion(reduced) =>
      h.(reduced := reduced, cleared := if reduced then |h.takeoffs| else h.cleared)
  }

  function Recorded(reduced: bool, events: seq<Event>): History {
    if events == [] then History([], 0, 0, reduced)
    else Record(Recorded(reduced, events[..|events| - 1]), events[|events| - 1])
  }

  function FlightsOf(t: seq<Takeoff>): (r: seq<Flight>)
    ensures |r| == |t| && forall i :: 0 <= i < |t| ==> r[i] == t[i].flight
  {
    seq(|t|, i requires 0 <= i < |t| => t[i].flight)
  }

  function TimersOf(t: seq<Takeoff>): (r: seq<Timer>)
    ensures |r| == |t| && forall i :: 0 <= i < |t| ==> r[i] == Timer(t[i].at + TTL_MS, t[i].flight.key)
  {
    seq(|t|, i requires 0 <= i < |t| => Timer(t[i].at + TTL_MS, t[i].flight.key))
  }

  function Max(a: nat, b: nat): nat {
    if a < b then b else a
  }

  /** The flights neither expired nor cleared, oldest first. */
  function Airborne(h: History): seq<Flight>
    requires h.expired <= |h.takeoffs| && h.cleared <= |h.takeoffs|
  {
    FlightsOf(h.takeoffs[Max(h.expired, h.cleared)..])
  }

  ghost predicate DistinctKeys(t: seq<Takeoff>) {
    forall i, j :: 0 <= i < j < |t| ==> t[i].flight.key != t[j].flight.key
  }

  /** Takeoffs happen in the order of the clock. */
  ghost predicate InOrder(t: seq<Takeoff>) {
    forall i, j :: 0 <= i < j < |t| ==> t[i].at <= t[j].at
  }

  ghost predicate Refines(st: State, h: History) {
    && h.expired <= |h.takeoffs| && h.cleared <= |h.takeoffs|
    && st.reduced == h.reduced
    && st.timers == TimersOf(h.takeoffs[h.expired..])
    && st.flights == Last(Airborne(h), MAX_CONCURRENT)
  }

  lemma WithoutNone(s: seq<Flight>, key: string)
    requires forall f :: f in s ==> f.key != key
    ensures Without(s, key) == s
  {
    if s != [] {
      WithoutNone(s[1..], key);
    }
  }

  /** Dropping the oldest flight by key drops it from the cut list, if it is still there. */
  lemma ExpireOldest(s: seq<Flight>, n: nat)
    requires s != [] && n > 0
    requires forall i :: 0 < i < |s| ==> s[i].key != s[0].key
    ensures Without(Last(s, n), s[0].key) == Last(s[1..], n)
  {
    if |s| <= n {
      WithoutNone(s[1..], s[0].key);
    } else {
      WithoutNone(Last(s, n), s[0].key);
      assert Last(s[1..], n) == Last(s, n);
    }
  }

  lemma TakeoffAppends(t: seq<Takeoff>, x: Takeoff, from: nat)
    requires from <= |t|
    ensures FlightsOf((t + [x])[from..]) == FlightsOf(t[from..]) + [x.flight]
    ensures TimersOf((t + [x])[from..]) == TimersOf(t[from..]) + [Timer(x.at + TTL_MS, x.flight.key)]
  {
    assert (t + [x])[from..] == t[from..] + [x];
  }

  /** A takeoff, on the cut list and on the uncut history. */
  lemma TakeoffRefines(st: State, h: History, x: Takeoff)
    requires Refines(st, h)
    ensures Refines(State(Last(st.flights, MAX_CONCURRENT - 1) + [x.flight],
                          st.timers + [Timer(x.at + TTL_MS, x.flight.key)], st.reduced),
                    History(h.takeoffs + [x], h.expired, h.cleared, h.reduced))
  {
    TakeoffAppends(h.takeoffs, x, h.expired);
    TakeoffAppends(h.takeoffs, x, Max(h.expired, h.cleared));
  }

  lemma ArriveRefines(st: State, h: History, e: Event)
    requires Refines(st, h) && e.Arrive?
    ensures Refines(Step(st, e), Record(h, e))
  {
    var f := Launch(e.m, e.key);
    if e.enabled && !st.reduced && f.Some? {
      TakeoffRefines(st, h, Takeoff(f.value, e.now));
    }
  }

  /** Equal delays and an ordered clock keep the timers in order, so the first fires first. */
  lemma FirstFires(t: seq<Takeoff>)
    requires t != [] && InOrder(t)
    ensures Earliest(TimersOf(t)) == 0
  {
    var timers := TimersOf(t);
    var i := Earliest(timers);
    assert timers[i].due <= timers[0].due && timers[0].due <= timers[i].due;
  }

  /** A timer of an already cleared flight finds nothing to drop. */
  lemma ClearedTimerMisses(h: History, k: nat)
    requires k < h.cleared <= |h.takeoffs| && DistinctKeys(h.takeoffs)
    ensures var list := Last(FlightsOf(h.takeoffs[h.cleared..]), MAX_CONCURRENT);
            Without(list, h.takeoffs[k].flight.key) == list
  {
    var rest := h.takeoffs[h.cleared..];
    var air := FlightsOf(rest);
    forall f | f in Last(air, MAX_CONCURRENT) ensures f.key != h.takeoffs[k].flight.key {
      var j :| 0 <= j < |air| && air[j] == f;
      assert rest[j] == h.takeoffs[h.cleared + j];
    }
    WithoutNone(Last(air, MAX_CONCURRENT), h.takeoffs[k].flight.key);
  }

  /** The oldest airborne flight's timer drops exactly that flight. */
  lemma OldestTimerDrops(t: seq<Takeoff>)
    requires t != [] && DistinctKeys(t)
    ensures Without(Last(FlightsOf(t), MAX_CONCURRENT), t[0].flight.key) == Last(FlightsOf(t[1..]), MAX_CONCURRENT)
  {
    var air := FlightsOf(t);
    ExpireOldest(air, MAX_CONCURRENT);
    assert air[1..] == FlightsOf(t[1..]);
  }

  /** The list after the first pending timer fires, its flight still uncleared. */
  lemma UnclearedTimerDrops(h: History)
    requires h.cleared <= h.expired < |h.takeoffs| && InOrder(h.takeoffs) && DistinctKeys(h.takeoffs)
    ensures Without(Last(Airborne(h), MAX_CONCURRENT), h.takeoffs[h.expired].flight.key) ==
            Last(Airborne(h.(expired := h.expired + 1)), MAX_CONCURRENT)
  {
    var pending := h.takeoffs[h.expired..];
    OldestTimerDrops(pending);
    assert pending[0] == h.takeoffs[h.expired] && pending[1..] == h.takeoffs[h.expired + 1..];
  }

  /** The list after the first pending timer fires. */
  lemma FirstTimerDrops(h: History)
    requires h.expired < |h.takeoffs| && h.cleared <= |h.takeoffs|
    requires InOrder(h.takeoffs) && DistinctKeys(h.takeoffs)
    ensures Without(Last(Airborne(h), MAX_CONCURRENT), h.takeoffs[h.expired].flight.key) ==
            Last(Airborne(h.(expired := h.expired + 1)), MAX_CONCURRENT)
  {
    if h.expired >= h.cleared {
      UnclearedTimerDrops(h);
    } else {
      ClearedTimerMisses(h, h.expired);
    }
  }

  /** An expiry, seen from the pending takeoffs: the first one goes, if it is due. */
  lemma ExpireStep(st: State, now: int, pending: seq<Takeoff>)
    requires pending != [] && InOrder(pending) && st.timers == TimersOf(pending)
    ensures Step(st, Expire(now)) ==
            if pending[0].at + TTL_MS > now then st
            else State(Without(st.flights, pending[0].flight.key), TimersOf(pending[1..]), st.reduced)
  {
    FirstFires(pending);
    assert st.timers[..0] + st.timers[1..] == TimersOf(pending[1..]);
  }

  lemma ExpireRefines(st: State, h: History, now: int)
    requires Refines(st, h) && DistinctKeys(h.takeoffs) && InOrder(h.takeoffs)
    ensures Refines(Step(st, Expire(now)), Record(h, Expire(now)))
  {
    var k := h.expired;
    if k < |h.takeoffs| {
      ExpireStep(st, now, h.takeoffs[k..]);
      FirstTimerDrops(h);
      assert h.takeoffs[k..][1..] == h.takeoffs[k + 1..];
    }
  }

  lemma MotionRefines(st: State, h: History, e: Event)
    requires Refines(st, h) && e.Motion?
    ensures Refines(Step(st, e), Record(h, e))
  {
  }

  lemma RecordGrows(h: History, e: Event)
    ensures h.takeoffs <= Record(h, e).takeoffs
  {
  }

  /** In every reachable state the list is the last 12 of the flights neither expired nor
      cleared, given a clock that orders the takeoffs and keys that do not repeat. */
  lemma {:induction false} FlightsExact(reduced: bool, events: seq<Event>)
    requires DistinctKeys(Recorded(reduced, events).takeoffs) && InOrder(Recorded(reduced, events).takeoffs)
    ensures Refines(Run(reduced, events), Recorded(reduced, events))
  {
    if events != [] {
      var before, e := events[..|events| - 1], events[|events| - 1];
      var h := Recorded(reduced, before);
      RecordGrows(h, e);
      FlightsExact(reduced, before);
      match e
      case Arrive(_, _, _, _) => ArriveRefines(Run(reduced, before), h, e);
      case Expire(now) => ExpireRefines(Run(reduced, before), h, now);
      case Motion(_) => MotionRefines(Run(reduced, before), h, e);
    }
  }

  /** The flight goes from the message's source, or the sending workspace when it names none,
      to its target, and the two are distinct. */
  ghost predicate Carries(m: Message, f: Flight) {
    && m.kind == Some(f.kind)
    && m.targetId == Some(f.targetId) && f.targetId != "" && f.sourceId != "" && f.sourceId != f.targetId
    && (m.sourceId == Some(f.sourceId) || (m.sourceId in {None, Some("")} && m.workspaceId == f.sourceId))
  }

  /** The motion preference after the events: the last change of it, if any. */
  ghost function MotionAfter(reduced: bool, events: seq<Event>): bool {
    if events == [] then reduced
    else if events[|events| - 1].Motion? then events[|events| - 1].reduced
    else MotionAfter(reduced, events[..|events| - 1])
  }

  lemma {:induction false} ReducedIsLast(reduced: bool, events: seq<Event>)
    ensures Run(reduced, events).reduced == MotionAfter(reduced, events) == Recorded(reduced, events).reduced
  {
    if events != [] {
      ReducedIsLast(reduced, events[..|events| - 1]);
    }
  }

  /** Event `j` is an admitted message that launched the flight while motion was on, and motion
      was never reduced since. */
  ghost predicate LaunchedBy(reduced: bool, events: seq<Event>, f: Flight, j: nat) {
    && j < |events| && events[j].Arrive? && events[j].enabled && events[j].key == f.key && Carries(events[j].m, f)
    && !MotionAfter(reduced, events[..j])
    && forall k :: j < k < |events| && events[k].Motion? ==> !events[k].reduced
  }

  lemma LaunchedStays(reduced: bool, events: seq<Event>, e: Event, f: Flight, j: nat)
    requires LaunchedBy(reduced, events, f, j) && (e.Motion? ==> !e.reduced)
    ensures LaunchedBy(reduced, events + [e], f, j)
  {
    assert (events + [e])[..j] == events[..j];
  }

  lemma LaunchedNow(reduced: bool, events: seq<Event>, e: Event, f: Flight)
    requires e.Arrive? && e.enabled && e.key == f.key && Carries(e.m, f) && !MotionAfter(reduced, events)
    ensures LaunchedBy(reduced, events + [e], f, |events|)
  {
    assert (events + [e])[..|events|] == events;
  }

  /** Whatever the clock and the keys, there are never more than 12 flights, and each was
      launched by some message of the run between that message's own endpoints, with no reduced
      motion since. */
  lemma {:induction false} FlightsBounded(reduced: bool, events: seq<Event>)
    ensures |Run(reduced, events).flights| <= 12
    ensures forall f :: f in Run(reduced, events).flights ==> exists j: nat :: LaunchedBy(reduced, events, f, j)
  {
    if events != [] {
      var before, e := events[..|events| - 1], events[|events| - 1];
      FlightsBounded(reduced, before);
      var st := Run(reduced, before);
      if e.Expire? && st.timers != [] {
        WithoutMembers(st.flights, st.timers[Earliest(st.timers)].key);
      }
      ReducedIsLast(reduced, before);
      assert events == before + [e];
      forall f | f in Run(reduced, events).flights ensures exists j: nat :: LaunchedBy(reduced, events, f, j) {
        if f in st.flights {
          var j: nat :| LaunchedBy(reduced, before, f, j);
          LaunchedStays(reduced, before, e, f, j);
        } else {
          LaunchedNow(reduced, before, e, f);
        }
      }
    }
  }

  lemma {:induction false} WithoutMembers(s: seq<Flight>, key: string)
    ensures |Without(s, key)| <= |s|
    ensures forall f :: f in Without(s, key) <==> f in s && f.key != key
  {
    if s != [] {
      WithoutMembers(s[1..], key);
    }
  }

  // ----- every admitted message flies -----

  /** A message can carry a flight exactly when it has a flight kind and two distinct, non-empty
      endpoints, the workspace standing in for a source it does not name. */
  lemma AirworthyIff(m: Message)
    ensures (exists f :: Carries(m, f)) <==>
            && m.kind.Some? && m.targetId.Some? && m.targetId.value != ""
            && var source := if m.sourceId.Some? && m.sourceId.value != "" then m.sourceId.value else m.workspaceId;
               source != "" && source != m.targetId.value
  {
    if m.kind.Some? && m.targetId.Some? {
      var source := if m.sourceId.Some? && m.sourceId.value != "" then m.sourceId.value else m.workspaceId;
      var f := Flight("", source, m.targetId.value, m.kind.value);
      assert m.targetId.value != "" && source != "" && source != m.targetId.value ==> Carries(m, f);
    }
  }

  /** An arrival adds exactly the flight its message carries, under its key and at its time, if
      it is enabled, motion is on and the message can carry one; otherwise it adds none. */
  lemma ArrivalTakesOff(reduced: bool, events: seq<Event>, e: Event, f: Flight)
    requires e.Arrive? && f.key == e.key
    ensures var h, h' := Recorded(reduced, events), Recorded(reduced, events + [e]);
            && h'.cleared == h.cleared && h'.expired == h.expired
            && (e.enabled && !MotionAfter(reduced, events) && Carries(e.m, f) ==>
                  h'.takeoffs == h.takeoffs + [Takeoff(f, e.now)])
            && (!e.enabled || MotionAfter(reduced, events) || !(exists g :: Carries(e.m, g)) ==>
                  h'.takeoffs == h.takeoffs)
  {
    assert (events + [e])[..|events|] == events;
    ReducedIsLast(reduced, events);
    AirworthyIff(e.m);
  }

  lemma {:induction false} MarksInRange(reduced: bool, events: seq<Event>)
    ensures var h := Recorded(reduced, events);
            h.cleared <= |h.takeoffs| && h.expired <= |h.takeoffs|
  {
    if events != [] {
      MarksInRange(reduced, events[..|events| - 1]);
      RecordGrows(Recorded(reduced, events[..|events| - 1]), events[|events| - 1]);
    }
  }

  /** A takeoff keeps its place in the history, after the last clear. */
  lemma {:induction false} TakeoffKept(reduced: bool, events: seq<Event>, f: Flight, j: nat)
    requires LaunchedBy(reduced, events, f, j)
    ensures var h, k := Recorded(reduced, events), |Recorded(reduced, events[..j]).takeoffs|;
            k < |h.takeoffs| && h.takeoffs[k] == Takeoff(f, events[j].now) && h.cleared <= k
  {
    var before, e := events[..|events| - 1], events[|events| - 1];
    assert events == before + [e];
    if j == |before| {
      MarksInRange(reduced, before);
      ArrivalTakesOff(reduced, before, e, f);
    } else {
      assert before[..j] == events[..j];
      TakeoffKept(reduced, before, f, j);
      RecordGrows(Recorded(reduced, before), e);
    }
  }

  /** The flight's lifetime is not over, and fewer than 12 took off after it. */
  ghost predicate Aloft(reduced: bool, events: seq<Event>, f: Flight, j: nat, now: int) {
    && LaunchedBy(reduced, events, f, j) && ExpiredBy(events, now) && now < events[j].now + 1524
    && |Recorded(reduced, events).takeoffs| - |Recorded(reduced, events[..j]).takeoffs| <= 12
  }

  /** Such a flight is shown. */
  lemma AloftIsShown(reduced: bool, events: seq<Event>, f: Flight, j: nat, now: int)
    requires DistinctKeys(Recorded(reduced, events).takeoffs) && InOrder(Recorded(reduced, events).takeoffs)
    requires Aloft(reduced, events, f, j, now)
    ensures f in Run(reduced, events).flights
  {
    var h, k := Recorded(reduced, events), |Recorded(reduced, events[..j]).takeoffs|;
    TakeoffKept(reduced, events, f, j);
    FlightsExact(reduced, events);
    ExpiredAreOver(reduced, events, now);
    AirborneAt(h, k);
    AmongLast(Airborne(h), k - Max(h.expired, h.cleared), MAX_CONCURRENT);
  }

  lemma AirborneAt(h: History, k: nat)
    requires h.expired <= k < |h.takeoffs| && h.cleared <= k
    ensures var i := k - Max(h.expired, h.cleared);
            i < |Airborne(h)| && Airborne(h)[i] == h.takeoffs[k].flight && |Airborne(h)| - i == |h.takeoffs| - k
  {
    var from := Max(h.expired, h.cleared);
    assert h.takeoffs[from..][k - from] == h.takeoffs[k];
  }

  lemma AmongLast(s: seq<Flight>, i: nat, n: nat)
    requires i < |s| && |s| - i <= n
    ensures s[i] in Last(s, n)
  {
    var list := Last(s, n);
    assert list[i - (|s| - |list|)] == s[i];
  }

  // ----- by the clock -----

  /** The takeoffs still in their lifetime at `now`. */
  function AliveAt(t: seq<Takeoff>, now: int): seq<Takeoff> {
    if t == [] then []
    else if t[0].at + 1524 > now then [t[0]] + AliveAt(t[1..], now)
    else AliveAt(t[1..], now)
  }

  lemma {:induction false} AliveIsSuffix(t: seq<Takeoff>, k: nat, now: int)
    requires k <= |t|
    requires forall i :: 0 <= i < k ==> t[i].at + TTL_MS <= now
    requires forall i :: k <= i < |t| ==> t[i].at + TTL_MS > now
    ensures AliveAt(t, now) == t[k..]
  {
    if t != [] {
      if k > 0 {
        AliveIsSuffix(t[1..], k - 1, now);
        assert t[1..][k - 1..] == t[k..];
      } else {
        AliveIsSuffix(t[1..], 0, now);
        assert t[1..][0..] == t[1..];
      }
    }
  }

  /** No timer of the run fired later than `now`. */
  ghost predicate ExpiredBy(events: seq<Event>, now: int) {
    forall e :: e in events && e.Expire? ==> e.now <= now
  }

  lemma {:induction false} ExpiredAreOver(reduced: bool, events: seq<Event>, now: int)
    requires ExpiredBy(events, now)
    ensures var h := Recorded(reduced, events);
            h.expired <= |h.takeoffs| && forall i :: 0 <= i < h.expired ==> h.takeoffs[i].at + TTL_MS <= now
  {
    if events != [] {
      var before, e := events[..|events| - 1], events[|events| - 1];
      assert e in events;
      ExpiredAreOver(reduced, before, now);
      RecordGrows(Recorded(reduced, before), e);
    }
  }

  /** In clock terms: once every timer that is due has fired, the list is the last 12 takeoffs
      since the last clear whose lifetime is not over. */
  lemma FlightsByClock(reduced: bool, events: seq<Event>, now: int)
    requires DistinctKeys(Recorded(reduced, events).takeoffs) && InOrder(Recorded(reduced, events).takeoffs)
    requires ExpiredBy(events, now) && forall timer :: timer in Run(reduced, events).timers ==> timer.due > now
    ensures var h := Recorded(reduced, events);
            && h.cleared <= |h.takeoffs|
            && Run(reduced, events).flights == Last(FlightsOf(AliveAt(h.takeoffs[h.cleared..], now)), MAX_CONCURRENT)
  {
    var h, st := Recorded(reduced, events), Run(reduced, events);
    FlightsExact(reduced, events);
    ExpiredAreOver(reduced, events, now);
    var t, from := h.takeoffs[h.cleared..], Max(h.expired, h.cleared);
    forall i | h.expired <= i < |h.takeoffs| ensures h.takeoffs[i].at + TTL_MS > now {
      assert h.takeoffs[h.expired..][i - h.expired] == h.takeoffs[i];
      assert st.timers[i - h.expired] in st.timers;
    }
    AliveIsSuffix(t, from - h.cleared, now);
    assert t[from - h.cleared..] == h.takeoffs[from..];
  }

  // ----- the hook -----

  lemma RunAppend(reduced: bool, events: seq<Event>, e: Event)
    ensures Run(reduced, events + [e]) == Step(Run(reduced, events), e)
  {
    assert (events + [e])[..|events|] == events;
  }

  /** The hook's state and refs; `events` is everything that happened to it, and `initially` the
      motion preference it started with. */
  class Hook {
    var flights: seq<Flight>
    var timers: seq<Timer>
    var reduced: bool
    ghost const initially: bool
    ghost var events: seq<Event>

    function Now(): State
      reads this
    {
      State(flights, timers, reduced)
    }

    ghost predicate Valid()
      reads this
    {
      Now() == Run(initially, events)
    }

    constructor (reduced: bool)
      ensures Valid() && initially == reduced && events == []
    {
      this.flights, this.timers, this.reduced := [], [], reduced;
      this.initially, this.events := reduced, [];
    }

    method OnMessage(now: int, enabled: bool, m: Message, key: string)
      requires Valid()
      modifies this
      ensures Valid() && events == old(events) + [Arrive(now, enabled, m, key)]
    {
      if enabled && !reduced {
        var f := Launch(m, key);
        if f.Some? {
          flights := Last(flights, MAX_CONCURRENT - 1) + [f.value];
          timers := timers + [Timer(now + TTL_MS, key)];
        }
      }
      assert Now() == Step(old(Now()), Arrive(now, enabled, m, key));
      RunAppend(initially, events, Arrive(now, enabled, m, key));
      events := events + [Arrive(now, enabled, m, key)];
    }

    method OnTimer(now: int)
      requires Valid()
      modifies this
      ensures Valid() && events == old(events) + [Expire(now)]
    {
      if timers != [] {
        var i := Earliest(timers);
        if timers[i].due <= now {
          flights := Without(flights, timers[i].key);
          timers := timers[..i] + timers[i + 1..];
        }
      }
      assert Now() == Step(old(Now()), Expire(now));
      RunAppend(initially, events, Expire(now));
      events := events + [Expire(now)];
    }

    method OnMotionChange(matches: bool)
      requires Valid()
      modifies this
      ensures Valid() && events == old(events) + [Motion(matches)]
    {
      reduced := matches;
      if matches { flights := []; }
      RunAppend(initially, events, Motion(matches));
      events := events + [Motion(matches)];
    }

    /** What the hook returns. */
    method Current() returns (r: seq<Flight>)
      requires Valid()
      ensures |r| <= 12 && forall f :: f in r ==> exists j: nat :: LaunchedBy(initially, events, f, j)
      ensures var h := Recorded(initially, events);
              DistinctKeys(h.takeoffs) && InOrder(h.takeoffs) ==>
                && h.expired <= |h.takeoffs| && h.cleared <= |h.takeoffs| && r == Last(Airborne(h), MAX_CONCURRENT)
                && forall f, j: nat, now :: Aloft(initially, events, f, j, now) ==> f in r
    {
      r := flights;
      FlightsBounded(initially, events);
      if DistinctKeys(Recorded(initially, events).takeoffs) && InOrder(Recorded(initially, events).takeoffs) {
        FlightsExact(initially, events);
        forall f, j: nat, now | Aloft(initially, events, f, j, now) ensures f in r {
          AloftIsShown(initially, events, f, j, now);
        }
      }
    }
  }
}
