/** The delegation overlay's aggregation: activity rows become one directed edge per pair of
    workspaces. Times are milliseconds. */
module DelegationEdges {
  import opened Options
  import opened Grouping

  const WINDOW_MS: int := 60 * 60 * 1000
  const HOT_MS: int := 5 * 60 * 1000

  datatype Row = Row(id: string, verb: string, source: Option<string>, target: Option<string>, at: int)

  datatype Edge = Edge(source: string, target: string, count: nat, lastAt: int, hot: bool)

  // ----- aggregation -----

  predicate HasEnds(r: Row) {
    r.source.Some? && r.target.Some?
  }

  predicate Qualifies(r: Row, now: int) {
    r.verb == "delegate" && HasEnds(r) && r.at > now - WINDOW_MS
  }

  function Qualifying(rows: seq<Row>, now: int): (q: seq<Row>)
    ensures forall r :: r in q <==> r in rows && Qualifies(r, now)
  {
    if rows == [] then []
    else if Qualifies(rows[0], now) then [rows[0]] + Qualifying(rows[1..], now)
    else Qualifying(rows[1..], now)
  }

  ghost predicate AllEnds(q: seq<Row>) {
    forall r :: r in q ==> HasEnds(r)
  }

  /** The map key: both ids around an arrow. */
  function KeyOf(r: Row): string {
    if HasEnds(r) then r.source.value + "→" + r.target.value else ""
  }

  /** The latest time in a group, never below zero, where the fold starts. */
  function LatestAt(g: seq<Row>): int {
    if g == [] then 0
    else
      var t := LatestAt(g[..|g| - 1]);
      if g[|g| - 1].at > t then g[|g| - 1].at else t
  }

  lemma {:induction false} LatestMeaning(g: seq<Row>)
    ensures LatestAt(g) >= 0 && (LatestAt(g) == 0 || exists r :: r in g && r.at == LatestAt(g))
    ensures forall r :: r in g ==> r.at <= LatestAt(g)
  {
    if g != [] {
      assert g == g[..|g| - 1] + [g[|g| - 1]];
      LatestMeaning(g[..|g| - 1]);
    }
  }

  function EdgeOf(g: seq<Row>, now: int): Edge
    requires g != [] && HasEnds(g[0])
  {
    var lastAt := LatestAt(g);
    Edge(g[0].source.value, g[0].target.value, |g|, lastAt, now - lastAt < HOT_MS)
  }

  function Edges(q: seq<Row>, now: int): seq<Edge>
    requires AllEnds(q)
  {
    var keys := Keys(q, KeyOf);
    seq(|keys|, i requires 0 <= i < |keys| =>
      KeyHasGroup(q, KeyOf, keys[i]);
      EdgeOf(Group(q, KeyOf, keys[i]), now))
  }

  datatype Agg = Agg(source: string, target: string, count: nat, lastAt: int)

  /** The map entry a row leaves behind, given the entry it finds. */
  function Bump(byKey: map<string, Agg>, row: Row): Agg
    requires HasEnds(row)
  {
    var prev := if KeyOf(row) in byKey then byKey[KeyOf(row)] else Agg(row.source.value, row.target.value, 0, 0);
    prev.(count := prev.count + 1, lastAt := if row.at > prev.lastAt then row.at else prev.lastAt)
  }

  ghost predicate AggIs(a: Agg, g: seq<Row>) {
    g != [] && HasEnds(g[0]) && a == Agg(g[0].source.value, g[0].target.value, |g|, LatestAt(g))
  }

  /** The map holds one entry per key seen, summing up that key's rows. */
  ghost predicate Aggregated(byKey: map<string, Agg>, order: seq<string>, q: seq<Row>) {
    && order == Keys(q, KeyOf)
    && (forall k :: k in byKey <==> k in order)
    && (forall k :: k in byKey ==> AggIs(byKey[k], Group(q, KeyOf, k)))
  }

  lemma BumpIs(byKey: map<string, Agg>, q: seq<Row>, row: Row)
    requires HasEnds(row) && Aggregated(byKey, Keys(q, KeyOf), q)
    ensures AggIs(Bump(byKey, row), Group(q + [row], KeyOf, KeyOf(row)))
  {
    var key := KeyOf(row);
    var g := Group(q, KeyOf, key);
    GroupAppend(q, row, KeyOf, key);
    KeyHasGroup(q, KeyOf, key);
    if key in byKey {
      assert AggIs(byKey[key], g);
    } else {
      assert g == [];
    }
  }

  lemma AggregateRow(byKey: map<string, Agg>, q: seq<Row>, row: Row)
    requires HasEnds(row) && Aggregated(byKey, Keys(q, KeyOf), q)
    ensures Aggregated(byKey[KeyOf(row) := Bump(byKey, row)], Keys(q + [row], KeyOf), q + [row])
  {
    BumpIs(byKey, q, row);
    assert (q + [row])[..|q|] == q;
    forall k | k in byKey && k != KeyOf(row) ensures AggIs(byKey[k], Group(q + [row], KeyOf, k)) {
      GroupAppend(q, row, KeyOf, k);
    }
  }

  method Aggregate(q: seq<Row>) returns (byKey: map<string, Agg>, order: seq<string>)
    requires AllEnds(q)
    ensures Aggregated(byKey, order, q)
  {
    byKey, order := map[], [];
    for i := 0 to |q|
      invariant Aggregated(byKey, order, q[..i])
    {
      var row := q[i];
      assert row in q;
      AggregateRow(byKey, q[..i], row);
      assert q[..i + 1] == q[..i] + [row] && q[..i + 1][..i] == q[..i];
      if KeyOf(row) !in byKey { order := order + [KeyOf(row)]; }
      byKey := byKey[KeyOf(row) := Bump(byKey, row)];
    }
    assert q[..|q|] == q;
  }

  method BuildEdges(rows: seq<Row>, now: int) returns (edges: seq<Edge>)
    ensures edges == Edges(Qualifying(rows, now), now)
  {
    var q := Qualifying(rows, now);
    var byKey, order := Aggregate(q);
    edges := [];
    for i := 0 to |order|
      invariant edges == Edges(q, now)[..i]
    {
      assert order[i] in order;
      var a := byKey[order[i]];
      edges := edges + [Edge(a.source, a.target, a.count, a.lastAt, now - a.lastAt < HOT_MS)];
    }
  }

  // ----- what an edge means, pair by pair -----

  predicate Joins(r: Row, s: string, t: string) {
    r.source == Some(s) && r.target == Some(t)
  }

  /** The rows from `s` to `t`. */
  function PairRows(q: seq<Row>, s: string, t: string): (g: seq<Row>)
    ensures forall r :: r in g <==> r in q && Joins(r, s, t)
  {
    if q == [] then []
    else
      var last := q[|q| - 1];
      assert q == q[..|q| - 1] + [last];
      PairRows(q[..|q| - 1], s, t) + (if Joins(last, s, t) then [last] else [])
  }

  /** Rows under one key join one pair. */
  ghost predicate KeysSeparate(q: seq<Row>) {
    forall r, r' :: r in q && r' in q && KeyOf(r) == KeyOf(r') ==> r.source == r'.source && r.target == r'.target
  }

  /** Ids free of the arrow keep the key injective; the sources alone suffice. */
  lemma ArrowFreeSeparates(q: seq<Row>)
    requires AllEnds(q) && forall r :: r in q ==> '→' !in r.source.value
    ensures KeysSeparate(q)
  {
    forall r, r' | r in q && r' in q && KeyOf(r) == KeyOf(r')
      ensures r.source == r'.source && r.target == r'.target
    {
      KeyInjective(r.source.value, r.target.value, r'.source.value, r'.target.value);
    }
  }

  lemma KeyInjective(s: string, t: string, s': string, t': string)
    requires '→' !in s && '→' !in s'
    requires s + "→" + t == s' + "→" + t'
    ensures s == s' && t == t'
  {
    var k := s + "→" + t;
    assert k[|s|] == '→' && k[..|s|] == s && k[|s| + 1..] == t;
    assert k == s' + "→" + t';
    assert k[|s'|] == '→' && k[..|s'|] == s' && k[|s'| + 1..] == t';
    assert forall i :: 0 <= i < |s| ==> k[i] == s[i] && k[i] != '→';
    assert forall i :: 0 <= i < |s'| ==> k[i] == s'[i] && k[i] != '→';
  }

  lemma {:induction false} GroupIsPair(q: seq<Row>, whole: seq<Row>, r: Row)
    requires AllEnds(whole) && KeysSeparate(whole) && r in whole
    requires forall x :: x in q ==> x in whole
    ensures Group(q, KeyOf, KeyOf(r)) == PairRows(q, r.source.value, r.target.value)
  {
    if q != [] {
      assert q == q[..|q| - 1] + [q[|q| - 1]];
      GroupIsPair(q[..|q| - 1], whole, r);
    }
  }

  ghost predicate ExactEdge(q: seq<Row>, e: Edge, now: int) {
    var g := PairRows(q, e.source, e.target);
    g != [] && e == Edge(e.source, e.target, |g|, LatestAt(g), now - LatestAt(g) < HOT_MS)
  }

  /** One edge per pair, counting exactly that pair's rows and carrying their latest time. */
  ghost predicate ExactEdges(q: seq<Row>, edges: seq<Edge>, now: int) {
    && (forall e :: e in edges ==> ExactEdge(q, e, now))
    && (forall i, j :: 0 <= i < j < |edges| ==>
          (edges[i].source, edges[i].target) != (edges[j].source, edges[j].target))
    && (forall r :: r in q ==> exists e :: e in edges && Joins(r, e.source, e.target))
  }

  lemma EdgeAt(q: seq<Row>, now: int, i: nat) returns (r: Row)
    requires AllEnds(q) && i < |Keys(q, KeyOf)|
    ensures r in q && KeyOf(r) == Keys(q, KeyOf)[i]
    ensures Group(q, KeyOf, KeyOf(r)) != [] && r == Group(q, KeyOf, KeyOf(r))[0]
    ensures Edges(q, now)[i] == EdgeOf(Group(q, KeyOf, KeyOf(r)), now)
  {
    var key := Keys(q, KeyOf)[i];
    assert key in Keys(q, KeyOf);
    var g := Group(q, KeyOf, key);
    KeyHasGroup(q, KeyOf, key);
    GroupMembers(q, KeyOf, key);
    r := g[0];
    assert r in g;
  }

  /** With separated keys each edge is its pair's, and joined back gives its key. */
  lemma EdgeIsExact(q: seq<Row>, now: int, i: nat)
    requires AllEnds(q) && KeysSeparate(q) && i < |Edges(q, now)|
    ensures ExactEdge(q, Edges(q, now)[i], now)
    ensures Edges(q, now)[i].source + "→" + Edges(q, now)[i].target == Keys(q, KeyOf)[i]
  {
    var r := EdgeAt(q, now, i);
    GroupIsPair(q, q, r);
  }

  lemma RowHasEdge(q: seq<Row>, now: int, r: Row) returns (i: nat)
    requires AllEnds(q) && r in q
    ensures i < |Edges(q, now)| && Keys(q, KeyOf)[i] == KeyOf(r)
  {
    KeysMembers(q, KeyOf);
    assert KeyOf(r) in Keys(q, KeyOf);
    i :| 0 <= i < |Keys(q, KeyOf)| && Keys(q, KeyOf)[i] == KeyOf(r);
  }

  lemma SeparateIsExact(q: seq<Row>, now: int)
    requires AllEnds(q) && KeysSeparate(q)
    ensures ExactEdges(q, Edges(q, now), now)
  {
    var edges, keys := Edges(q, now), Keys(q, KeyOf);
    forall i | 0 <= i < |edges|
      ensures ExactEdge(q, edges[i], now) && edges[i].source + "→" + edges[i].target == keys[i]
    {
      EdgeIsExact(q, now, i);
    }
    KeysMembers(q, KeyOf);
    forall r | r in q ensures exists e :: e in edges && Joins(r, e.source, e.target) {
      var i := RowHasEdge(q, now, r);
      var first := EdgeAt(q, now, i);
      assert edges[i] in edges && Joins(r, edges[i].source, edges[i].target);
    }
  }

  lemma MergedIsNotExact(q: seq<Row>, now: int, r: Row, r': Row)
    requires AllEnds(q) && r in q && r' in q && KeyOf(r) == KeyOf(r')
    requires !(r.source == r'.source && r.target == r'.target)
    ensures !ExactEdges(q, Edges(q, now), now)
  {
    var i := RowHasEdge(q, now, r);
    var first := EdgeAt(q, now, i);
    var other := if Joins(r, first.source.value, first.target.value) then r' else r;
    MergedPairsOvercount(q, first, other);
    assert Edges(q, now)[i] in Edges(q, now);
  }

  /** Aggregation is exact if and only if the keys separate the pairs. */
  lemma AggregationExact(q: seq<Row>, now: int)
    requires AllEnds(q)
    ensures ExactEdges(q, Edges(q, now), now) <==> KeysSeparate(q)
  {
    if KeysSeparate(q) {
      SeparateIsExact(q, now);
    } else {
      var r, r' :| r in q && r' in q && KeyOf(r) == KeyOf(r') && !(r.source == r'.source && r.target == r'.target);
      MergedIsNotExact(q, now, r, r');
    }
  }

  /** A key shared by two pairs counts a row too many for the pair it names. */
  lemma {:induction false} MergedPairsOvercount(q: seq<Row>, first: Row, other: Row)
    requires AllEnds(q) && HasEnds(first)
    requires other in q && KeyOf(other) == KeyOf(first)
    requires !Joins(other, first.source.value, first.target.value)
    ensures |Group(q, KeyOf, KeyOf(first))| > |PairRows(q, first.source.value, first.target.value)|
  {
    var init, last := q[..|q| - 1], q[|q| - 1];
    assert q == init + [last];
    if other in init {
      MergedPairsOvercount(init, first, other);
    } else {
      PairWithinGroup(init, first);
    }
  }

  lemma {:induction false} PairWithinGroup(q: seq<Row>, first: Row)
    requires AllEnds(q) && HasEnds(first)
    ensures |Group(q, KeyOf, KeyOf(first))| >= |PairRows(q, first.source.value, first.target.value)|
  {
    if q != [] {
      assert q == q[..|q| - 1] + [q[|q| - 1]];
      PairWithinGroup(q[..|q| - 1], first);
    }
  }

  /** Without separation it fails: an arrow inside ids puts two pairs under one key. */
  lemma ArrowInIdMergesPairs(a: string, b: string, c: string, now: int)
    ensures var q := [Row("1", "delegate", Some(a + "→" + b), Some(c), now),
                      Row("2", "delegate", Some(a), Some(b + "→" + c), now)];
            AllEnds(q) && !ExactEdges(q, Edges(q, now), now)
  {
    var r, r' := Row("1", "delegate", Some(a + "→" + b), Some(c), now),
                 Row("2", "delegate", Some(a), Some(b + "→" + c), now);
    var q := [r, r'];
    assert q[0] in q && q[1] in q;
    assert a + "→" + b + "→" + c == a + "→" + (b + "→" + c);
    assert |a + "→" + b| > |a| && r.source != r'.source;
    assert KeyOf(r) == KeyOf(r') && !KeysSeparate(q);
    AggregationExact(q, now);
  }

  function TotalCount(edges: seq<Edge>): nat {
    if edges == [] then 0 else TotalCount(edges[..|edges| - 1]) + edges[|edges| - 1].count
  }

  lemma {:induction false} TotalIsGroupTotal(q: seq<Row>, now: int, n: nat)
    requires AllEnds(q) && n <= |Keys(q, KeyOf)|
    ensures TotalCount(Edges(q, now)[..n]) == GroupTotal(q, KeyOf, Keys(q, KeyOf)[..n])
  {
    if n > 0 {
      TotalIsGroupTotal(q, now, n - 1);
      var r := EdgeAt(q, now, n - 1);
      assert Edges(q, now)[..n][..n - 1] == Edges(q, now)[..n - 1];
      assert Keys(q, KeyOf)[..n][..n - 1] == Keys(q, KeyOf)[..n - 1];
    }
  }

  /** Conservation: the edge counts add up to the qualifying rows, whatever the ids. */
  lemma CountsConserved(q: seq<Row>, now: int)
    requires AllEnds(q)
    ensures TotalCount(Edges(q, now)) == |q|
  {
    TotalIsGroupTotal(q, now, |Keys(q, KeyOf)|);
    GroupTotalAll(q, KeyOf);
    assert Edges(q, now)[..|Keys(q, KeyOf)|] == Edges(q, now) && Keys(q, KeyOf)[..|Keys(q, KeyOf)|] == Keys(q, KeyOf);
  }

  lemma {:induction false} PairRowsMultiset(q: seq<Row>, s: string, t: string, r: Row)
    ensures multiset(PairRows(q, s, t))[r] == if Joins(r, s, t) then multiset(q)[r] else 0
  {
    if q != [] {
      assert q == q[..|q| - 1] + [q[|q| - 1]];
      PairRowsMultiset(q[..|q| - 1], s, t, r);
    }
  }

  lemma PermutedPairRows(q: seq<Row>, q': seq<Row>, s: string, t: string)
    requires multiset(q) == multiset(q')
    ensures |PairRows(q, s, t)| == |PairRows(q', s, t)|
    ensures LatestAt(PairRows(q, s, t)) == LatestAt(PairRows(q', s, t))
  {
    var g, g' := PairRows(q, s, t), PairRows(q', s, t);
    forall r ensures multiset(g)[r] == multiset(g')[r] {
      PairRowsMultiset(q, s, t, r);
      PairRowsMultiset(q', s, t, r);
    }
    assert multiset(g) == multiset(g');
    assert |g| == |multiset(g)| && |g'| == |multiset(g')|;
    forall r ensures r in g <==> r in g' {
      assert r in g <==> r in multiset(g);
      assert r in g' <==> r in multiset(g');
    }
    LatestMeaning(g);
    LatestMeaning(g');
  }

  /** The edges do not depend on the order in which the rows arrived. */
  lemma OrderIrrelevant(q: seq<Row>, q': seq<Row>, now: int, e: Edge)
    requires AllEnds(q) && KeysSeparate(q) && multiset(q) == multiset(q')
    ensures AllEnds(q') && KeysSeparate(q')
    ensures e in Edges(q, now) <==> e in Edges(q', now)
  {
    forall r ensures r in q <==> r in q' {
      assert r in q <==> r in multiset(q);
      assert r in q' <==> r in multiset(q');
    }
    EdgeIffExact(q, now, e);
    EdgeIffExact(q', now, e);
    PermutedPairRows(q, q', e.source, e.target);
  }

  lemma EdgeIffExact(q: seq<Row>, now: int, e: Edge)
    requires AllEnds(q) && KeysSeparate(q)
    ensures e in Edges(q, now) <==> ExactEdge(q, e, now)
  {
    AggregationExact(q, now);
    if ExactEdge(q, e, now) {
      var g := PairRows(q, e.source, e.target);
      var r := g[0];
      assert r in g;
      var e' :| e' in Edges(q, now) && Joins(r, e'.source, e'.target);
      assert ExactEdge(q, e', now);
    }
  }

  // ----- the rows an edge counts -----

  /** The row is a delegation from `s` to `t` of the last hour; results and other verbs are not. */
  predicate IsCall(r: Row, s: string, t: string, now: int) {
    r.verb == "delegate" && r.source == Some(s) && r.target == Some(t) && now - r.at < 3_600_000
  }

  function Calls(rows: seq<Row>, s: string, t: string, now: int): nat {
    if rows == [] then 0 else (if IsCall(rows[0], s, t, now) then 1 else 0) + Calls(rows[1..], s, t, now)
  }

  lemma {:induction false} PairRowsCons(x: Row, q: seq<Row>, s: string, t: string)
    ensures |PairRows([x] + q, s, t)| == (if Joins(x, s, t) then 1 else 0) + |PairRows(q, s, t)|
  {
    if q == [] {
      assert [x] + q == [x] && [x][..0] == [];
    } else {
      var init := q[..|q| - 1];
      PairRowsCons(x, init, s, t);
      assert ([x] + q)[..|q|] == [x] + init;
    }
  }

  lemma {:induction false} CallsArePairRows(rows: seq<Row>, s: string, t: string, now: int)
    ensures Calls(rows, s, t, now) == |PairRows(Qualifying(rows, now), s, t)|
  {
    if rows != [] {
      CallsArePairRows(rows[1..], s, t, now);
      if Qualifies(rows[0], now) {
        PairRowsCons(rows[0], Qualifying(rows[1..], now), s, t);
      }
    }
  }

  /** The edge counts the pair's calls and carries the time of the latest, from zero up. */
  ghost predicate CountsCalls(rows: seq<Row>, e: Edge, now: int) {
    && e.count == Calls(rows, e.source, e.target, now) > 0
    && (forall r :: r in rows && IsCall(r, e.source, e.target, now) ==> r.at <= e.lastAt)
    && (e.lastAt == 0 || exists r :: r in rows && IsCall(r, e.source, e.target, now) && r.at == e.lastAt)
    && (e.hot <==> now - e.lastAt < 300_000)
  }

  /** One edge for each pair with calls among the rows, and no other, counting them. */
  ghost predicate DrawsCalls(edges: seq<Edge>, rows: seq<Row>, now: int) {
    && (forall e :: e in edges ==> CountsCalls(rows, e, now))
    && (forall i, j :: 0 <= i < j < |edges| ==>
          (edges[i].source, edges[i].target) != (edges[j].source, edges[j].target))
    && (forall s, t :: Calls(rows, s, t, now) > 0 ==> exists e :: e in edges && e.source == s && e.target == t)
  }

  /** Pair by pair over all rows: the edges are those of the pairs with calls, and count them. */
  lemma EdgesByPair(rows: seq<Row>, now: int)
    requires KeysSeparate(Qualifying(rows, now))
    ensures DrawsCalls(Edges(Qualifying(rows, now), now), rows, now)
  {
    var q := Qualifying(rows, now);
    var edges := Edges(q, now);
    AggregationExact(q, now);
    forall e | e in edges ensures CountsCalls(rows, e, now) {
      EdgeCounts(rows, e, now);
    }
    forall s, t | Calls(rows, s, t, now) > 0 ensures exists e :: e in edges && e.source == s && e.target == t {
      CallsArePairRows(rows, s, t, now);
      var r := PairRows(q, s, t)[0];
      assert r in PairRows(q, s, t);
      var e :| e in edges && Joins(r, e.source, e.target);
    }
  }

  lemma EdgeCounts(rows: seq<Row>, e: Edge, now: int)
    requires ExactEdge(Qualifying(rows, now), e, now)
    ensures CountsCalls(rows, e, now)
  {
    var g := PairRows(Qualifying(rows, now), e.source, e.target);
    CallsArePairRows(rows, e.source, e.target, now);
    LatestMeaning(g);
    if e.lastAt != 0 {
      var r :| r in g && r.at == e.lastAt;
      assert r in rows && IsCall(r, e.source, e.target, now);
    }
  }

}
