/** Pull requests opening, pushing, being checked, merging and closing around the migration
    check. A pull request is the set of migration files it adds or modifies; the base grows. */
module MigrationProtocol {
  import opened Options
  import opened MigrationCheck

  /** `passed`: its last check passed, and it has not changed since. */
  datatype PullRequest = PullRequest(files: set<string>, passed: bool)

  /** The base branch's files and the open pull requests by number. */
  datatype Repo = Repo(base: set<string>, open: map<nat, PullRequest>)

  /** A check is run with the names and the base it saw and the listings it was given. */
  datatype Event =
    | Open(n: nat, files: set<string>)
    | Push(n: nat, files: set<string>)
    | RunCheck(n: nat, names: seq<string>, base: seq<string>, api: int -> Option<seq<Peer>>)
    | Merge(n: nat)
    | Close(n: nat)

  ghost predicate Uses(files: set<string>, prefix: int) {
    exists f :: f in files && Prefix(f) == Some(prefix)
  }

  ghost predicate Disjoint(a: set<string>, b: set<string>) {
    forall p :: !(Uses(a, p) && Uses(b, p))
  }

  /** No file that is new to the base carries a prefix the base already has. */
  ghost predicate AddsNoClash(files: set<string>, base: set<string>) {
    forall f, g :: f in files - base && g in base && Prefix(f).Some? ==> Prefix(f) != Prefix(g)
  }

  /** What the check would decide if the API listed every open pull request and every file. */
  ghost predicate Pass(repo: Repo, n: nat)
    requires n in repo.open
  {
    && AddsNoClash(repo.open[n].files, repo.base)
    && forall m :: m in repo.open && m != n ==> Disjoint(repo.open[m].files, repo.open[n].files)
  }

  ghost predicate SameNames(names: seq<string>, files: set<string>) {
    forall f :: f in names <==> f in files
  }

  /** A check sees its own files and the base as they are; of the listings nothing is asked. */
  ghost predicate Enabled(repo: Repo, e: Event) {
    match e
    case Open(n, _) => n !in repo.open
    case RunCheck(n, names, base, _) =>
      n in repo.open && SameNames(names, repo.open[n].files) && SameNames(base, repo.base)
    case Merge(n) => n in repo.open && repo.open[n].passed
    case _ => e.n in repo.open
  }

  ghost function Step(repo: Repo, e: Event): Repo
    requires Enabled(repo, e)
  {
    match e
    case Open(n, files) => repo.(open := repo.open[n := PullRequest(files, false)])
    case Push(n, files) => repo.(open := repo.open[n := PullRequest(files, false)])
    case RunCheck(n, names, base, api) =>
      repo.(open := repo.open[n := repo.open[n].(passed := Passes(n, names, base, api))])
    case Merge(n) => Repo(repo.base + repo.open[n].files, repo.open - {n})
    case Close(n) => repo.(open := repo.open - {n})
  }

  ghost predicate ValidRun(base: set<string>, events: seq<Event>)
    decreases |events|, 0
  {
    events != [] ==>
      ValidRun(base, events[..|events| - 1]) && Enabled(After(base, events[..|events| - 1]), events[|events| - 1])
  }

  ghost function After(base: set<string>, events: seq<Event>): Repo
    requires ValidRun(base, events)
    decreases |events|, 1
  {
    if events == [] then Repo(base, map[])
    else Step(After(base, events[..|events| - 1]), events[|events| - 1])
  }

  // ----- the script decides `Pass` -----

  /** The listing shows only what is so: whoever it names is open, with the files it shows. It
      may miss pull requests and files, or be missing altogether. */
  ghost predicate Truthful(listing: Option<seq<Peer>>, repo: Repo, self: nat) {
    listing.Some? ==>
      forall peer :: peer in listing.value && peer.number != self && peer.files.Some? ==>
        peer.number in repo.open && forall f :: f in peer.files.value ==> f in repo.open[peer.number].files
  }

  /** Some open pull request shares a number with this one, and the listing asked for about that
      number does not show it. */
  ghost predicate Hidden(repo: Repo, self: nat, api: int -> Option<seq<Peer>>)
    requires self in repo.open
  {
    exists m, p :: m in repo.open && m != self && Uses(repo.open[m].files, p) && Uses(repo.open[self].files, p) &&
                   !Claimed(api(p), p, self)
  }

  /** The listing names every other open pull request with all its files, and nothing else. */
  ghost predicate Complete(listing: Option<seq<Peer>>, repo: Repo, self: nat) {
    && listing.Some?
    && (forall peer :: peer in listing.value && peer.number != self ==>
          peer.number in repo.open && peer.files.Some? && SameNames(peer.files.value, repo.open[peer.number].files))
    && (forall m :: m in repo.open && m != self ==> exists peer :: peer in listing.value && peer.number == m)
  }

  lemma ClashIsBaseClash(names: seq<string>, base: seq<string>, files: set<string>, onBase: set<string>)
    requires SameNames(names, files) && SameNames(base, onBase)
    ensures AddsNoClash(files, onBase) <==> forall p :: p in Prefixes(names) ==> !BaseClash(names, base, p)
  {
    if AddsNoClash(files, onBase) {
      forall p, f, g | g in base && f in names && f !in base && Prefix(f) == Some(p)
        ensures Prefix(g) != Some(p)
      {
        assert f in files - onBase && g in onBase;
      }
    } else {
      var f, g :| f in files - onBase && g in onBase && Prefix(f).Some? && Prefix(f) == Prefix(g);
      var p := Prefix(f).value;
      assert f in names && p in Prefixes(names);
      assert Lists(base, p) by { assert g in base && Prefix(g) == Some(p); }
      assert BaseClash(names, base, p);
    }
  }

  /** With listings that show only what is so, the script passes too much exactly when one hides
      a pull request that shares a number. */
  lemma ScriptDecidesIff(repo: Repo, n: nat, names: seq<string>, base: seq<string>, api: int -> Option<seq<Peer>>)
    requires n in repo.open && SameNames(names, repo.open[n].files) && SameNames(base, repo.base)
    requires forall p :: Truthful(api(p), repo, n)
    ensures Pass(repo, n) <==> Passes(n, names, base, api) && !Hidden(repo, n, api)
  {
    var files := repo.open[n].files;
    ClashIsBaseClash(names, base, files, repo.base);
    forall p ensures p in Prefixes(names) <==> Uses(files, p) { }
    if Pass(repo, n) {
      forall p | p in Prefixes(names) ensures !Claimed(api(p), p, n) { }
    }
    if Passes(n, names, base, api) && !Hidden(repo, n, api) {
      forall m | m in repo.open && m != n ensures Disjoint(repo.open[m].files, files) {
        forall p ensures !(Uses(repo.open[m].files, p) && Uses(files, p)) {
          assert Uses(files, p) ==> !Claimed(api(p), p, n);
        }
      }
    }
  }

  /** With complete listings the script's decision is exactly the protocol's. */
  lemma ScriptDecidesPass(repo: Repo, n: nat, names: seq<string>, base: seq<string>, api: int -> Option<seq<Peer>>)
    requires n in repo.open && SameNames(names, repo.open[n].files) && SameNames(base, repo.base)
    requires forall p :: Complete(api(p), repo, n)
    ensures Passes(n, names, base, api) <==> Pass(repo, n)
  {
    forall p ensures Truthful(api(p), repo, n) {
      assert Complete(api(p), repo, n);
    }
    ScriptDecidesIff(repo, n, names, base, api);
    forall m, p | m in repo.open && m != n && Uses(repo.open[m].files, p) ensures Claimed(api(p), p, n) { }
  }

  // ----- safety of every run -----

  /** Live passes stay prefix-disjoint from each other and clash-free against the base. */
  ghost predicate Inv(repo: Repo) {
    && (forall n, m :: n in repo.open && m in repo.open && n != m && repo.open[n].passed && repo.open[m].passed ==>
          Disjoint(repo.open[n].files, repo.open[m].files))
    && (forall n :: n in repo.open && repo.open[n].passed ==> AddsNoClash(repo.open[n].files, repo.base))
  }

  /** Merging one of two disjoint, clash-free file sets leaves the other clash-free. */
  lemma MergeKeepsOther(a: set<string>, b: set<string>, base: set<string>)
    requires Disjoint(a, b) && AddsNoClash(b, base)
    ensures AddsNoClash(b, base + a)
  {
    forall f, g | f in b - (base + a) && g in base + a && Prefix(f).Some? ensures Prefix(f) != Prefix(g) {
      if g !in base && Prefix(f) == Prefix(g) {
        var p := Prefix(f).value;
        assert Uses(a, p) by { assert g in a && Prefix(g) == Some(p); }
        assert Uses(b, p) by { assert f in b && Prefix(f) == Some(p); }
      }
    }
  }

  /** Some other pull request holds a live pass and shares a number with this one, and the
      listing asked for about that number does not show it. */
  ghost predicate HidesPassed(repo: Repo, self: nat, api: int -> Option<seq<Peer>>)
    requires self in repo.open
  {
    exists m, p :: m in repo.open && m != self && repo.open[m].passed &&
                   Uses(repo.open[m].files, p) && Uses(repo.open[self].files, p) && !Claimed(api(p), p, self)
  }

  /** The event is a check that passes while its listings hide such a pull request. */
  ghost predicate Slips(repo: Repo, e: Event)
    requires Enabled(repo, e)
  {
    e.RunCheck? && Passes(e.n, e.names, e.base, e.api) && HidesPassed(repo, e.n, e.api)
  }

  lemma PassedUnclaimed(repo: Repo, e: Event, p: int)
    requires e.RunCheck? && Enabled(repo, e) && Passes(e.n, e.names, e.base, e.api)
    requires Uses(repo.open[e.n].files, p)
    ensures !Claimed(e.api(p), p, e.n)
  {
  }

  /** A check keeps live passes apart exactly when it does not slip. */
  lemma CheckIff(repo: Repo, e: Event)
    requires Inv(repo) && Enabled(repo, e) && e.RunCheck?
    ensures Inv(Step(repo, e)) <==> !Slips(repo, e)
  {
    var n, after := e.n, Step(repo, e);
    var files := repo.open[n].files;
    if Slips(repo, e) {
      var m, p :| m in repo.open && m != n && repo.open[m].passed &&
                  Uses(repo.open[m].files, p) && Uses(files, p) && !Claimed(e.api(p), p, n);
      assert after.open[n].passed && after.open[m].passed && !Disjoint(after.open[n].files, after.open[m].files);
    } else if after.open[n].passed {
      ClashIsBaseClash(e.names, e.base, files, repo.base);
      forall m | m in repo.open && m != n && repo.open[m].passed
        ensures Disjoint(files, repo.open[m].files) && Disjoint(repo.open[m].files, files)
      {
        forall p ensures !(Uses(files, p) && Uses(repo.open[m].files, p)) {
          if Uses(files, p) { PassedUnclaimed(repo, e, p); }
        }
      }
    }
  }

  lemma MergeKeepsInv(repo: Repo, e: Event)
    requires Inv(repo) && Enabled(repo, e) && e.Merge?
    ensures Inv(Step(repo, e))
  {
    forall m | m in repo.open && m != e.n && repo.open[m].passed
      ensures AddsNoClash(repo.open[m].files, repo.base + repo.open[e.n].files)
    {
      MergeKeepsOther(repo.open[e.n].files, repo.open[m].files, repo.base);
    }
  }

  lemma StepIff(repo: Repo, e: Event)
    requires Inv(repo) && Enabled(repo, e)
    ensures Inv(Step(repo, e)) <==> !Slips(repo, e)
  {
    if e.RunCheck? {
      CheckIff(repo, e);
    } else if e.Merge? {
      MergeKeepsInv(repo, e);
    }
  }

  /** With complete listings no check slips. */
  lemma CompleteNeverSlips(repo: Repo, e: Event)
    requires Enabled(repo, e) && e.RunCheck? && forall p :: Complete(e.api(p), repo, e.n)
    ensures !Slips(repo, e)
  {
    forall m, p | m in repo.open && m != e.n && Uses(repo.open[m].files, p) ensures Claimed(e.api(p), p, e.n) { }
  }

  lemma {:induction false} PrefixOfRun(base: set<string>, events: seq<Event>, i: nat)
    requires ValidRun(base, events) && i <= |events|
    ensures ValidRun(base, events[..i])
    ensures i < |events| ==> Enabled(After(base, events[..i]), events[i])
    ensures After(base, events[..i]).base <= After(base, events).base
    decreases |events|
  {
    if i < |events| {
      var before := events[..|events| - 1];
      PrefixOfRun(base, before, i);
      assert before[..i] == events[..i];
    } else {
      assert events[..i] == events;
    }
  }

  /** Event `k` of the run is a check that slips. */
  ghost predicate SlipsAt(base: set<string>, events: seq<Event>, k: nat)
    requires ValidRun(base, events)
  {
    k < |events| && (PrefixOfRun(base, events, k); Slips(After(base, events[..k]), events[k]))
  }

  ghost predicate NoSlip(base: set<string>, events: seq<Event>)
    requires ValidRun(base, events)
  {
    forall k: nat :: !SlipsAt(base, events, k)
  }

  lemma NoSlipPrefix(base: set<string>, events: seq<Event>, n: nat)
    requires ValidRun(base, events) && NoSlip(base, events) && n <= |events|
    ensures ValidRun(base, events[..n]) && NoSlip(base, events[..n])
  {
    PrefixOfRun(base, events, n);
    forall k: nat ensures !SlipsAt(base, events[..n], k) {
      if k < n {
        assert events[..n][..k] == events[..k] && !SlipsAt(base, events, k);
      }
    }
  }

  lemma {:induction false} RunKeepsInv(base: set<string>, events: seq<Event>)
    requires ValidRun(base, events) && NoSlip(base, events)
    ensures Inv(After(base, events))
  {
    if events != [] {
      var n := |events| - 1;
      NoSlipPrefix(base, events, n);
      RunKeepsInv(base, events[..n]);
      assert !SlipsAt(base, events, n);
      StepIff(After(base, events[..n]), events[n]);
    }
  }

  ghost predicate InvAt(base: set<string>, events: seq<Event>, k: nat)
    requires ValidRun(base, events) && k <= |events|
  {
    PrefixOfRun(base, events, k);
    Inv(After(base, events[..k]))
  }

  lemma InvThenNoSlip(base: set<string>, events: seq<Event>, k: nat)
    requires ValidRun(base, events) && k < |events| && InvAt(base, events, k) && InvAt(base, events, k + 1)
    ensures !SlipsAt(base, events, k)
  {
    PrefixOfRun(base, events, k);
    PrefixOfRun(base, events, k + 1);
    assert events[..k + 1][..k] == events[..k];
    StepIff(After(base, events[..k]), events[k]);
  }

  /** Over every run: live passes are prefix-disjoint and clash-free at every moment, if and only
      if no check of the run slips. */
  lemma InvIff(base: set<string>, events: seq<Event>)
    requires ValidRun(base, events)
    ensures (forall k: nat :: k <= |events| ==> InvAt(base, events, k)) <==> NoSlip(base, events)
  {
    if NoSlip(base, events) {
      forall k: nat | k <= |events| ensures InvAt(base, events, k) {
        NoSlipPrefix(base, events, k);
        RunKeepsInv(base, events[..k]);
      }
    }
    if forall k: nat :: k <= |events| ==> InvAt(base, events, k) {
      forall k: nat ensures !SlipsAt(base, events, k) {
        if k < |events| {
          assert InvAt(base, events, k) && InvAt(base, events, k + 1);
          InvThenNoSlip(base, events, k);
        }
      }
    }
  }

  /** The base as event `i` of a run finds it. */
  ghost function BaseBefore(base: set<string>, events: seq<Event>, i: nat): set<string>
    requires ValidRun(base, events) && i < |events|
  {
    PrefixOfRun(base, events, i);
    After(base, events[..i]).base
  }

  /** The files that merge `i` of a run adds to the base. */
  ghost function Introduced(base: set<string>, events: seq<Event>, i: nat): set<string>
    requires ValidRun(base, events) && i < |events| && events[i].Merge?
  {
    PrefixOfRun(base, events, i);
    var repo := After(base, events[..i]);
    repo.open[events[i].n].files - repo.base
  }

  /** The base holds exactly what it started with and what the merges introduced. */
  lemma {:induction false} BaseMeaning(base: set<string>, events: seq<Event>, f: string)
    requires ValidRun(base, events)
    ensures f in After(base, events).base <==>
            f in base || exists i: nat :: i < |events| && events[i].Merge? && f in Introduced(base, events, i)
  {
    if events != [] {
      var n := |events| - 1;
      var before := events[..n];
      BaseMeaning(base, before, f);
      if i: nat :| i < n && before[i].Merge? && f in Introduced(base, before, i) {
        assert before[..i] == events[..i] && f in Introduced(base, events, i);
      }
      if i: nat :| i < |events| && events[i].Merge? && f in Introduced(base, events, i) {
        if i < n {
          assert before[..i] == events[..i] && f in Introduced(base, before, i);
        }
      }
      if events[n].Merge? && f in After(base, events).base && f !in After(base, before).base {
        assert f in Introduced(base, events, n);
      }
    }
  }

  /** A pull request stands as the last event about it left it: open with these files and no pass
      after an opening or a push, with the script's verdict after a check, gone after a merge or a
      close. */
  ghost predicate StandsAs(e: Event, n: nat, before: Repo, after: Repo) {
    match e
    case Open(_, files) => n in after.open && after.open[n] == PullRequest(files, false)
    case Push(_, files) => n in after.open && after.open[n] == PullRequest(files, false)
    case RunCheck(_, names, base, api) =>
      n in before.open && n in after.open && after.open[n].files == before.open[n].files &&
      (after.open[n].passed <==> Passes(n, names, base, api))
    case _ => n !in after.open
  }

  lemma {:induction false} OpenMeaning(base: set<string>, events: seq<Event>, n: nat, i: nat)
    requires ValidRun(base, events) && i < |events| && ValidRun(base, events[..i])
    requires events[i].n == n && forall j :: i < j < |events| ==> events[j].n != n
    ensures StandsAs(events[i], n, After(base, events[..i]), After(base, events))
    decreases |events|
  {
    if i < |events| - 1 {
      var before := events[..|events| - 1];
      assert before[..i] == events[..i];
      OpenMeaning(base, before, n, i);
    }
  }

  /** In a run without a slip no merge adds a new file under a prefix that the base already has. */
  lemma MergeSafe(base: set<string>, events: seq<Event>, i: nat, f: string, g: string)
    requires ValidRun(base, events) && i < |events| && events[i].Merge? && NoSlip(base, events)
    requires f in Introduced(base, events, i) && Prefix(f).Some? && g in BaseBefore(base, events, i)
    ensures Prefix(f) != Prefix(g)
  {
    PrefixOfRun(base, events, i);
    NoSlipPrefix(base, events, i);
    RunKeepsInv(base, events[..i]);
  }

  /** So over a whole run each migration number is introduced by at most one merge. */
  lemma NumberIntroducedOnce(base: set<string>, events: seq<Event>, i: nat, j: nat, f: string, g: string)
    requires ValidRun(base, events) && NoSlip(base, events)
    requires i < j < |events| && events[i].Merge? && events[j].Merge?
    requires f in Introduced(base, events, i) && g in Introduced(base, events, j) && Prefix(g).Some?
    ensures Prefix(f) != Prefix(g)
  {
    PrefixOfRun(base, events, i);
    PrefixOfRun(base, events, j);
    PrefixOfRun(base, events, i + 1);
    assert events[..i + 1][..i] == events[..i];
    assert f in After(base, events[..i + 1]).base;
    PrefixOfRun(base, events[..j], i + 1);
    assert events[..j][..i + 1] == events[..i + 1];
    MergeSafe(base, events, j, g, f);
  }

  /** When the API is down, two pull requests that share a number both pass against a base that
      has not got it yet. */
  lemma BlindChecksBothPass(f: string, g: string, base: seq<string>, n: nat, m: nat)
    requires Prefix(f).Some? && Prefix(f) == Prefix(g) && f != g && !Lists(base, Prefix(f).value)
    ensures Passes(n, [f], base, _ => None) && Passes(m, [g], base, _ => None)
    ensures !Disjoint({f}, {g})
  {
    assert Prefixes([f]) == {Prefix(f).value} && Prefixes([g]) == {Prefix(g).value};
    assert Uses({f}, Prefix(f).value) && Uses({g}, Prefix(f).value);
  }

  lemma Extend(base: set<string>, events: seq<Event>, e: Event)
    requires ValidRun(base, events) && Enabled(After(base, events), e)
    ensures ValidRun(base, events + [e]) && After(base, events + [e]) == Step(After(base, events), e)
  {
    assert (events + [e])[..|events|] == events;
  }

  /** Two pull requests opened, checked blindly and merged. */
  ghost function BlindRun(f: string, g: string): seq<Event> {
    [Open(1, {f}), Open(2, {g}), RunCheck(1, [f], [], _ => None), RunCheck(2, [g], [], _ => None), Merge(1)]
  }

  lemma BlindRunOpens(f: string, g: string)
    ensures var events := BlindRun(f, g)[..2];
            && ValidRun({}, events)
            && After({}, events) == Repo({}, map[1 := PullRequest({f}, false), 2 := PullRequest({g}, false)])
  {
    var first, second := Open(1, {f}), Open(2, {g});
    Extend({}, [], first);
    assert [] + [first] == [first] && [first] + [second] == [first, second];
    assert After({}, [first]) == Repo({}, map[1 := PullRequest({f}, false)]);
    Extend({}, [first], second);
    assert BlindRun(f, g)[..2] == [first, second];
  }

  lemma BlindRunChecks(f: string, g: string)
    requires Prefix(f).Some? && Prefix(f) == Prefix(g) && f != g
    ensures var events := BlindRun(f, g)[..4];
            && ValidRun({}, events)
            && After({}, events) == Repo({}, map[1 := PullRequest({f}, true), 2 := PullRequest({g}, true)])
  {
    var events := BlindRun(f, g);
    BlindRunOpens(f, g);
    BlindChecksBothPass(f, g, [], 1, 2);
    assert events[..3] == events[..2] + [events[2]] && events[..4] == events[..3] + [events[3]];
    Extend({}, events[..2], events[2]);
    Extend({}, events[..3], events[3]);
  }

  lemma BlindRunRuns(f: string, g: string)
    requires Prefix(f).Some? && Prefix(f) == Prefix(g) && f != g
    ensures ValidRun({}, BlindRun(f, g)) && After({}, BlindRun(f, g)) == Repo({f}, map[2 := PullRequest({g}, true)])
  {
    var events := BlindRun(f, g);
    BlindRunChecks(f, g);
    assert events == events[..4] + [Merge(1)];
    Extend({}, events[..4], Merge(1));
    assert After({}, events).base == {f};
  }

  /** Then both merges go through, and the number is introduced twice. */
  lemma BlindMergesCollide(f: string, g: string)
    requires Prefix(f).Some? && Prefix(f) == Prefix(g) && f != g
    ensures var events := BlindRun(f, g) + [Merge(2)];
            && ValidRun({}, events) && !NoSlip({}, events)
            && f in Introduced({}, events, 4) && g in Introduced({}, events, 5)
  {
    var before := BlindRun(f, g);
    var events := before + [Merge(2)];
    BlindRunChecks(f, g);
    BlindRunRuns(f, g);
    Extend({}, before, Merge(2));
    assert events[..4] == before[..4] && events[..5] == before;
    assert f in Introduced({}, events, 4) && g in Introduced({}, events, 5);
    if NoSlip({}, events) {
      NumberIntroducedOnce({}, events, 4, 5, f, g);
    }
  }
}
