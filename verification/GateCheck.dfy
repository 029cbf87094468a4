/** The merge gate: the newest CI status of each required context, the fold of all gate
    verdicts into an exit code, and the walk back through the target branch's history. */
module GateCheck {
  import opened Options
  import opened Letters

  // ----- CI statuses -----

  /** A commit status; ids grow with time, the list comes in any order. */
  datatype Status = Status(context: string, id: int, status: string)

  const TARGET := " (pull_request_target)"
  const QA := "qa-review / approved"
  const SECURITY := "security-review / approved"
  const SOP := "sop-checklist / all-items-acked"

  const GOVERNANCE: seq<string> := [QA + TARGET, SECURITY + TARGET, SOP + TARGET]

  function LowerAll(s: string): (r: string)
    ensures |r| == |s| && forall k :: 0 <= k < |s| ==> r[k] == Lower(s[k])
  {
    if s == "" then "" else [Lower(s[0])] + LowerAll(s[1..])
  }

  predicate Contains(s: string, part: string) {
    part <= s || (s != "" && Contains(s[1..], part))
  }

  /** The gate's own statuses, which it must not read back. */
  predicate OwnStatus(context: string) {
    Contains(LowerAll(context), "gate-check")
  }

  /** The text stands at `i`, letters in any case. */
  ghost predicate Names(context: string, text: string, i: nat) {
    i + |text| <= |context| && SameText(context[i..i + |text|], text)
  }

  ghost predicate StandsAt(s: string, part: string, i: nat) {
    i + |part| <= |s| && s[i..i + |part|] == part
  }

  lemma {:induction false} ContainsIff(s: string, part: string)
    ensures Contains(s, part) <==> exists i: nat :: StandsAt(s, part, i)
  {
    assert part <= s <==> StandsAt(s, part, 0);
    if s != "" {
      ContainsIff(s[1..], part);
      if i: nat :| StandsAt(s[1..], part, i) {
        assert s[1..][i..i + |part|] == s[i + 1..i + 1 + |part|];
        assert StandsAt(s, part, i + 1);
      }
      if i: nat :| StandsAt(s, part, i) {
        if i > 0 {
          assert s[1..][i - 1..i - 1 + |part|] == s[i..i + |part|];
          assert StandsAt(s[1..], part, i - 1);
        }
      }
    }
  }

  lemma NamesAt(context: string, text: string, i: nat)
    requires i + |text| <= |context|
    ensures LowerAll(context)[i..i + |text|] == LowerAll(text) <==> Names(context, text, i)
  {
    var low, here := LowerAll(context)[i..i + |text|], context[i..i + |text|];
    forall k | 0 <= k < |text| ensures low[k] == LowerAll(text)[k] <==> SameLetter(here[k], text[k]) {
      LowerIff(here[k], text[k]);
    }
  }

  /** For a lower-case text: the lowered context contains it exactly when the context names it. */
  lemma ContainsAnyCase(context: string, text: string)
    requires forall c :: c in text ==> Lower(c) == c
    ensures Contains(LowerAll(context), text) <==> exists i: nat :: Names(context, text, i)
  {
    var low := LowerAll(context);
    ContainsIff(low, text);
    forall i: nat ensures StandsAt(low, text, i) <==> Names(context, text, i) {
      if i + |text| <= |context| { NamesAt(context, text, i); }
    }
  }

  /** Own are exactly the contexts that name the gate, in any case. */
  lemma OwnIff(context: string)
    ensures OwnStatus(context) <==> exists i: nat :: Names(context, "gate-check", i)
  {
    ContainsAnyCase(context, "gate-check");
  }

  lemma NamesGa(context: string, i: nat)
    requires Names(context, "gate-check", i)
    ensures i + 1 < |context| && context[i] in {'g', 'G'} && context[i + 1] in {'a', 'A'}
  {
    var here := context[i..i + 10];
    LowerIff(here[0], 'g');
    LowerIff(here[1], 'a');
    assert SameLetter(here[0], "gate-check"[0]) && SameLetter(here[1], "gate-check"[1]);
    assert here[0] == context[i] && here[1] == context[i + 1];
  }

  /** A name without a `g`, followed by the event, does not name the gate. */
  lemma NotOwn(name: string, context: string)
    requires 'g' !in name && 'G' !in name && context == name + TARGET
    ensures !OwnStatus(context)
  {
    OwnIff(context);
    assert forall k :: 0 <= k < |TARGET| && TARGET[k] in {'g', 'G'} ==> k == 18;
    assert TARGET[19] == 'e';
    if i: nat :| Names(context, "gate-check", i) {
      NamesGa(context, i);
    }
  }

  lemma NamesHaveNoG()
    ensures forall c :: c in QA || c in SECURITY || c in SOP ==> c != 'g' && c != 'G'
  {
  }

  /** The governance contexts are not the gate's own. */
  lemma GovernanceNotOwn(context: string)
    requires context in GOVERNANCE
    ensures !OwnStatus(context)
  {
    NamesHaveNoG();
    if context == QA + TARGET {
      NotOwn(QA, context);
    } else if context == SECURITY + TARGET {
      NotOwn(SECURITY, context);
    } else {
      NotOwn(SOP, context);
    }
  }

  /** The index of the first status of the context with the highest id. */
  function Newest(statuses: seq<Status>, context: string): Option<nat> {
    if statuses == [] then None
    else
      var last := |statuses| - 1;
      var best := Newest(statuses[..last], context);
      if statuses[last].context != context then best
      else if best.Some? && best.value < last && statuses[last].id <= statuses[best.value].id then best
      else Some(last)
  }

  lemma {:induction false} NewestMeaning(statuses: seq<Status>, context: string)
    ensures Newest(statuses, context).None? <==> forall s :: s in statuses ==> s.context != context
    ensures var n := Newest(statuses, context);
            n.Some? ==>
              && n.value < |statuses| && statuses[n.value].context == context
              && forall i :: 0 <= i < |statuses| && statuses[i].context == context ==>
                   statuses[i].id <= statuses[n.value].id && (i < n.value ==> statuses[i].id < statuses[n.value].id)
  {
    if statuses != [] {
      var last := |statuses| - 1;
      NewestMeaning(statuses[..last], context);
      assert statuses == statuses[..last] + [statuses[last]];
      assert forall i :: 0 <= i < last ==> statuses[..last][i] == statuses[i];
    }
  }

  /** The state of a context as the gate sees it. */
  function StateOf(statuses: seq<Status>, context: string): string {
    var n := Newest(statuses, context);
    if OwnStatus(context) || n.None? || n.value >= |statuses| then "null" else statuses[n.value].status
  }

  /** A context that is the gate's own, or has no status, is in no state. */
  lemma NoState(statuses: seq<Status>, context: string)
    requires (exists i: nat :: Names(context, "gate-check", i)) || forall s :: s in statuses ==> s.context != context
    ensures StateOf(statuses, context) == "null"
  {
    OwnIff(context);
    NewestMeaning(statuses, context);
  }

  method LatestByContext(statuses: seq<Status>) returns (latest: map<string, Status>)
    ensures forall c :: (if c in latest then latest[c].status else "null") == StateOf(statuses, c)
  {
    latest := map[];
    for i := 0 to |statuses|
      invariant forall c :: c in latest <==> !OwnStatus(c) && Newest(statuses[..i], c).Some?
      invariant forall c :: c in latest ==>
                  Newest(statuses[..i], c).value < i && latest[c] == statuses[Newest(statuses[..i], c).value]
    {
      var s := statuses[i];
      assert statuses[..i + 1][..i] == statuses[..i];
      forall c ensures Newest(statuses[..i + 1], c) ==
          var best := Newest(statuses[..i], c);
          if s.context != c then best
          else if best.Some? && best.value < i && s.id <= statuses[best.value].id then best
          else Some(i) { }
      if !OwnStatus(s.context) && (s.context !in latest || s.id > latest[s.context].id) {
        latest := latest[s.context := s];
      }
    }
    assert statuses[..|statuses|] == statuses;
  }

  datatype Verdict =
    | Error | CiFail | Blocked | StaleRc | CiPending | NotApplicable | Warning | Clear
    | Other(name: string)

  predicate Green(state: string) {
    state == "success" || state == "neutral"
  }

  /** Some required context is in the failing state. */
  ghost predicate CiFails(statuses: seq<Status>, protection: seq<string>) {
    exists c :: (c in protection || c in GOVERNANCE) && StateOf(statuses, c) == "failure"
  }

  method SignalCi(statuses: seq<Status>, protection: seq<string>)
    returns (verdict: Verdict, failing: seq<string>, pending: seq<string>)
    ensures forall c :: c in failing <==> (c in protection || c in GOVERNANCE) && StateOf(statuses, c) == "failure"
    ensures forall c :: c in pending <==>
              (c in protection || c in GOVERNANCE) && StateOf(statuses, c) !in {"failure", "success", "neutral"}
    ensures verdict == if failing != [] then CiFail else if pending != [] then CiPending else Clear
    ensures verdict == CiFail <==> CiFails(statuses, protection)
  {
    var latest := LatestByContext(statuses);
    failing, pending := Classify(statuses, latest, protection + GOVERNANCE);
    if failing != [] { assert failing[0] in failing; }
    verdict := if failing != [] then CiFail else if pending != [] then CiPending else Clear;
  }

  /** Sort the required contexts, each once, by the state the newest statuses give them. */
  method Classify(ghost statuses: seq<Status>, latest: map<string, Status>, required: seq<string>)
    returns (failing: seq<string>, pending: seq<string>)
    requires forall c :: (if c in latest then latest[c].status else "null") == StateOf(statuses, c)
    ensures forall c :: c in failing <==> c in required && StateOf(statuses, c) == "failure"
    ensures forall c :: c in pending <==>
              c in required && StateOf(statuses, c) != "failure" && !Green(StateOf(statuses, c))
  {
    failing, pending := [], [];
    for i := 0 to |required|
      invariant forall c :: c in failing <==> c in required[..i] && StateOf(statuses, c) == "failure"
      invariant forall c :: c in pending <==>
                  c in required[..i] && StateOf(statuses, c) != "failure" && !Green(StateOf(statuses, c))
    {
      var c := required[i];
      assert required[..i + 1] == required[..i] + [c];
      var state := if c in latest then latest[c].status else "null";
      if c !in required[..i] {
        if state == "failure" { failing := failing + [c]; }
        else if !Green(state) { pending := pending + [c]; }
      }
    }
    assert required[..|required|] == required;
  }

  ghost predicate DistinctIds(statuses: seq<Status>) {
    forall i, j :: 0 <= i < j < |statuses| && statuses[i].context == statuses[j].context ==>
                     statuses[i].id != statuses[j].id
  }

  /** The highest-id status of a context decides its state, wherever it stands in the list. */
  lemma HighestIdWins(statuses: seq<Status>, s: Status)
    requires s in statuses && !OwnStatus(s.context)
    requires forall t :: t in statuses && t.context == s.context && t != s ==> t.id < s.id
    ensures StateOf(statuses, s.context) == s.status
  {
    NewestMeaning(statuses, s.context);
    var n := Newest(statuses, s.context).value;
    var i :| 0 <= i < |statuses| && statuses[i] == s;
    assert statuses[n] in statuses;
  }

  /** With one status per id, the order of the list does not matter. */
  lemma StatusOrderIrrelevant(statuses: seq<Status>, other: seq<Status>, context: string)
    requires DistinctIds(statuses) && forall s :: s in statuses <==> s in other
    ensures StateOf(statuses, context) == StateOf(other, context)
  {
    NewestMeaning(statuses, context);
    NewestMeaning(other, context);
    var n := Newest(statuses, context);
    if n.Some? && !OwnStatus(context) {
      var s := statuses[n.value];
      forall t | t in statuses && t.context == context && t != s ensures t.id < s.id {
        var i :| 0 <= i < |statuses| && statuses[i] == t;
      }
      HighestIdWins(other, s);
    }
  }

  // ----- folding the gates -----

  /** The place in the table of verdicts, worst first; a verdict not in the table is 99. */
  function Rank(v: Verdict): nat {
    match v
    case Error => 0
    case CiFail => 1
    case Blocked => 2
    case StaleRc => 3
    case CiPending => 4
    case NotApplicable => 5
    case Warning => 6
    case Clear => 7
    case Other(_) => 99
  }

  predicate Blocks(v: Verdict) {
    v == Blocked || v == CiFail || v == StaleRc || v == Error
  }

  /** The table, worst first. */
  const TABLE: seq<Verdict> := [Error, CiFail, Blocked, StaleRc, CiPending, NotApplicable, Warning, Clear]

  /** `worst` is in the table and no gate's verdict is before it there. */
  ghost predicate IsWorst(gates: seq<Verdict>, worst: Verdict) {
    && (worst == Clear || worst in gates)
    && exists i :: 0 <= i < |TABLE| && TABLE[i] == worst && forall j :: 0 <= j < i ==> TABLE[j] !in gates
  }

  /** The same by rank. */
  ghost predicate Least(gates: seq<Verdict>, worst: Verdict) {
    && (worst == Clear || worst in gates) && !worst.Other?
    && forall v :: v in gates ==> Rank(worst) <= Rank(v)
  }

  lemma LeastIsWorst(gates: seq<Verdict>, worst: Verdict)
    requires Least(gates, worst)
    ensures IsWorst(gates, worst)
  {
    assert TABLE[Rank(worst)] == worst;
    forall j | 0 <= j < Rank(worst) ensures TABLE[j] !in gates {
      assert Rank(TABLE[j]) == j;
    }
  }

  method ComputeVerdict(gates: seq<Verdict>) returns (worst: Verdict, blockers: seq<Verdict>)
    ensures IsWorst(gates, worst)
    ensures forall v :: v in blockers <==> v in gates && v in {Blocked, CiFail, StaleRc, Error}
  {
    worst, blockers := Clear, [];
    for i := 0 to |gates|
      invariant Least(gates[..i], worst)
      invariant forall v :: v in blockers <==> v in gates[..i] && Blocks(v)
    {
      var v := gates[i];
      assert gates[..i + 1] == gates[..i] + [v];
      if Rank(v) < Rank(worst) { worst := v; }
      if Blocks(v) { blockers := blockers + [v]; }
    }
    assert gates[..|gates|] == gates;
    LeastIsWorst(gates, worst);
  }

  function ExitCode(verdict: Verdict): int {
    if verdict == Error then 2 else if Blocks(verdict) then 1 else 0
  }

  /** The whole gate: the CI signal among the verdicts of the other signals, in any order, or an
      API error in one of them. Pending CI and verdicts outside the table do not block. */
  method Run(statuses: seq<Status>, protection: seq<string>, before: seq<Verdict>, after: seq<Verdict>, apiError: bool)
    returns (exit: int)
    ensures exit == 2 <==> apiError || Error in before + after
    ensures exit != 0 <==>
            || apiError || CiFails(statuses, protection)
            || exists v :: v in before + after && v in {Blocked, CiFail, StaleRc, Error}
    ensures 0 <= exit <= 2
  {
    if apiError { return ExitCode(Error); }
    var ci, _, _ := SignalCi(statuses, protection);
    var worst, _ := ComputeVerdict(before + [ci] + after);
    WorstBlocks(before + [ci] + after, worst);
    OneMoreGate(before, ci, after);
    exit := ExitCode(worst);
  }

  lemma OneMoreGate(before: seq<Verdict>, ci: Verdict, after: seq<Verdict>)
    ensures Error in before + [ci] + after <==> Error in before + after || ci == Error
    ensures (exists v :: v in before + [ci] + after && Blocks(v)) <==>
            (exists v :: v in before + after && Blocks(v)) || Blocks(ci)
  {
    assert forall v :: v in before + [ci] + after <==> v in before + after || v == ci;
  }

  /** The worst verdict blocks exactly when some verdict does. */
  lemma WorstBlocks(gates: seq<Verdict>, worst: Verdict)
    requires IsWorst(gates, worst)
    ensures worst == Error <==> Error in gates
    ensures Blocks(worst) <==> exists v :: v in gates && Blocks(v)
  {
    var i :| 0 <= i < |TABLE| && TABLE[i] == worst && forall j :: 0 <= j < i ==> TABLE[j] !in gates;
    assert TABLE[0] == Error && TABLE[1] == CiFail && TABLE[2] == Blocked && TABLE[3] == StaleRc;
  }

  /** A required context whose highest-id status is a failure fails the CI signal, and with it
      the gate, wherever that status stands in the list. A governance context is required whatever
      the branch protection says. */
  lemma FailureBlocks(statuses: seq<Status>, protection: seq<string>, s: Status)
    requires s in statuses && s.status == "failure"
    requires (s.context in protection && !OwnStatus(s.context)) || s.context in GOVERNANCE
    requires forall t :: t in statuses && t.context == s.context && t != s ==> t.id < s.id
    ensures CiFails(statuses, protection)
  {
    if s.context in GOVERNANCE { GovernanceNotOwn(s.context); }
    HighestIdWins(statuses, s);
  }

  /** A pending required context does not block: the gate exits 0 on it. */
  method PendingExitsZero() returns (exit: int)
    ensures StateOf([Status("ci", 1, "pending")], "ci") == "pending"
    ensures exit == 0
  {
    var statuses := [Status("ci", 1, "pending")];
    forall c ensures StateOf(statuses, c) != "failure" {
      NewestMeaning(statuses, c);
    }
    NewestMeaning(statuses, "ci");
    assert statuses[0] in statuses;
    OwnIff("ci");
    exit := Run(statuses, ["ci"], [], [], false);
  }

  // ----- how far the branch is behind -----

  const PER_PAGE: nat := 50
  const MAX_PAGES: nat := 20

  datatype Commit = Commit(sha: string, files: seq<string>)

  /** The non-empty names among the files of the commits. */
  function FilesOf(commits: seq<Commit>): set<string> {
    if commits == [] then {}
    else FilesOf(commits[..|commits| - 1]) + Named(commits[|commits| - 1].files)
  }

  function Named(files: seq<string>): set<string> {
    set f | f in files && f != ""
  }

  /** The files are exactly the non-empty names that some commit changed. */
  lemma {:induction false} FilesMeaning(commits: seq<Commit>, f: string)
    ensures f in FilesOf(commits) <==> f != "" && exists c :: c in commits && f in c.files
  {
    if commits != [] {
      var init, last := commits[..|commits| - 1], commits[|commits| - 1];
      FilesMeaning(init, f);
      assert commits == init + [last];
    }
  }

  /** The first position of a commit, or the length. */
  function IndexOf(h: seq<Commit>, sha: string): (i: nat)
    ensures i <= |h| && (i < |h| ==> h[i].sha == sha) && forall j :: 0 <= j < i ==> h[j].sha != sha
  {
    if h == [] || h[0].sha == sha then 0 else 1 + IndexOf(h[1..], sha)
  }

  function Min(a: nat, b: nat): nat {
    if a < b then a else b
  }

  function Page(h: seq<Commit>, page: nat): seq<Commit>
    requires page > 0
  {
    var from := PER_PAGE * (page - 1);
    if from >= |h| then [] else h[from..Min(from + PER_PAGE, |h|)]
  }

  /** The API serves the branch's history, newest first, up to a page that fails, if any of the
      pages the walk may ask for does. */
  ghost predicate Serves(api: nat -> Option<seq<Commit>>, h: seq<Commit>, failAt: nat) {
    && failAt > 0 && (failAt <= MAX_PAGES ==> api(failAt).None?)
    && forall p: nat :: 0 < p < failAt && p <= MAX_PAGES ==> api(p) == Some(Page(h, p))
  }

  /** The pages the walk would ask for if none failed and the base were not found. */
  function PagesNeeded(h: seq<Commit>): nat {
    Min(MAX_PAGES, |h| / PER_PAGE + 1)
  }

  /** What the walk returns: the base's exact index and the files before it when it is within
      reach; nothing when a page failed first; otherwise the whole stretch walked. */
  function Behind(h: seq<Commit>, base: string, failAt: nat): (Option<nat>, set<string>)
    requires failAt > 0
  {
    var served := Min(PER_PAGE * (failAt - 1), Min(|h|, PER_PAGE * MAX_PAGES));
    var i := IndexOf(h, base);
    if i < served then (Some(i), FilesOf(h[..i]))
    else if failAt <= PagesNeeded(h) then (None, FilesOf(h[..served]))
    else (if served > 0 then Some(served) else None, FilesOf(h[..served]))
  }

  /** A base among the newest 1000 commits of a history served without failure is found: as many
      commits behind as stand before it, with exactly their files. */
  lemma BehindExact(h: seq<Commit>, base: string, failAt: nat, i: nat)
    requires i < |h| && i < 1000 && failAt > 20
    requires h[i].sha == base && forall j :: 0 <= j < i ==> h[j].sha != base
    ensures Behind(h, base, failAt).0 == Some(i)
    ensures forall f :: f in Behind(h, base, failAt).1 <==> f != "" && exists j :: 0 <= j < i && f in h[j].files
  {
    assert IndexOf(h, base) == i;
    forall f ensures f in FilesOf(h[..i]) <==> f != "" && exists j :: 0 <= j < i && f in h[j].files {
      FilesMeaning(h[..i], f);
      if j :| 0 <= j < i && f in h[j].files { assert h[j] == h[..i][j] && h[j] in h[..i]; }
    }
  }

  /** A base that is not in the history: the walk counts all of it, up to 1000 commits, and says
      nothing for an empty one; if a page it asks for fails, it says nothing either. */
  lemma BehindMissing(h: seq<Commit>, base: string, failAt: nat)
    requires failAt > 0 && forall j :: 0 <= j < |h| ==> h[j].sha != base
    ensures failAt > 20 && |h| > 0 ==> Behind(h, base, failAt).0 == Some(if |h| < 1000 then |h| else 1000)
    ensures failAt > 20 && |h| == 0 ==> Behind(h, base, failAt).0 == None
    ensures failAt <= 20 && 50 * (failAt - 1) <= |h| ==>
              Behind(h, base, failAt) == (None, FilesOf(h[..50 * (failAt - 1)]))
  {
    assert IndexOf(h, base) == |h|;
  }

  lemma FilesOfStep(h: seq<Commit>, i: nat)
    requires i < |h|
    ensures FilesOf(h[..i + 1]) == FilesOf(h[..i]) + Named(h[i].files)
  {
    assert h[..i + 1][..i] == h[..i];
  }

  lemma PageSlice(h: seq<Commit>, page: nat)
    requires page > 0 && PER_PAGE * (page - 1) <= |h|
    ensures var from, commits := PER_PAGE * (page - 1), Page(h, page);
            && from + |commits| <= |h| && commits == h[from..from + |commits|] && |commits| <= PER_PAGE
            && (|commits| < PER_PAGE ==> from + |commits| == |h|)
  {
  }

  /** One page of the walk. */
  method WalkPage(commits: seq<Commit>, base: string, ghost h: seq<Commit>, behind: nat, files: set<string>)
    returns (found: bool, behind': nat, files': set<string>)
    requires behind + |commits| <= |h| && commits == h[behind..behind + |commits|]
    requires files == FilesOf(h[..behind]) && behind <= IndexOf(h, base)
    ensures found ==> behind' == IndexOf(h, base) < behind + |commits|
    ensures !found ==> behind' == behind + |commits| <= IndexOf(h, base)
    ensures behind' <= |h| && files' == FilesOf(h[..behind'])
  {
    behind', files' := behind, files;
    for i := 0 to |commits|
      invariant behind' == behind + i <= IndexOf(h, base)
      invariant files' == FilesOf(h[..behind'])
    {
      var c := commits[i];
      assert c == h[behind'];
      if c.sha == base { return true, behind', files'; }
      FilesOfStep(h, behind');
      behind' := behind' + 1;
      files' := files' + Named(c.files);
    }
    found := false;
  }

  method CommitsBehind(api: nat -> Option<seq<Commit>>, base: string, ghost h: seq<Commit>, ghost failAt: nat)
    returns (count: Option<nat>, files: set<string>)
    requires Serves(api, h, failAt)
    ensures (count, files) == Behind(h, base, failAt)
  {
    var behind: nat, page: nat := 0, 1;
    files := {};
    while page <= MAX_PAGES
      invariant 1 <= page <= MAX_PAGES + 1
      invariant behind == PER_PAGE * (page - 1) <= |h|
      invariant files == FilesOf(h[..behind]) && behind <= IndexOf(h, base)
      invariant page <= failAt
    {
      var answer := api(page);
      if answer.None? {
        assert page == failAt;
        return None, files;
      }
      var commits := answer.value;
      PageSlice(h, page);
      var found;
      found, behind, files := WalkPage(commits, base, h, behind, files);
      if found { return Some(behind), files; }
      if |commits| < PER_PAGE {
        assert behind == |h|;
        break;
      }
      page := page + 1;
    }
    count := if behind > 0 then Some(behind) else None;
  }
}
