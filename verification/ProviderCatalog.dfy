/** The provider dropdown: models bucketed by vendor and required credentials, and the search
    back from a model id to its bucket. The vendor inference is a parameter. */
module ProviderCatalog {
  import opened Options
  import opened Delimited
  import opened SortedStrings
  import opened Grouping

  /** A selectable model; the template may name its provider outright. */
  datatype Model = Model(id: string, provider: Option<string>, requiredEnv: seq<string>)

  /** The label's base text, with the number of models when it is shown. */
  datatype Label = Label(base: string, count: Option<nat>)

  datatype Entry = Entry(id: string, vendor: string, caption: Label, envVars: seq<string>,
                         models: seq<Model>, wildcard: bool)

  /** `inferVendor` and the table of vendor labels. */
  datatype Vendors = Vendors(infer: Model -> string, caption: string -> string)

  function Key(v: Vendors, m: Model): string {
    v.infer(m) + "|" + Join(Sort(m.requiredEnv), '|')
  }

  function KeyOf(v: Vendors): Model -> string {
    m => Key(v, m)
  }

  predicate IsWildcard(m: Model) {
    '*' in m.id
  }

  predicate AnyWildcard(models: seq<Model>) {
    exists m :: m in models && IsWildcard(m)
  }

  /** The bucket of a group of models, first model deciding vendor and credentials. */
  function Bucket(v: Vendors, key: string, group: seq<Model>): Entry
    requires group != []
  {
    var first := group[0];
    var vendor := v.infer(first);
    Entry(key, vendor, Label(v.caption(vendor), None), first.requiredEnv, group, AnyWildcard(group))
  }

  /** The model count is added when two or more concrete models share the bucket. */
  function Decorate(e: Entry): Entry {
    if !e.wildcard && |e.models| > 1 then e.(caption := e.caption.(count := Some(|e.models|))) else e
  }

  function Catalog(v: Vendors, models: seq<Model>): (r: seq<Entry>)
    ensures |r| == |Keys(models, KeyOf(v))|
  {
    var keys := Keys(models, KeyOf(v));
    seq(|keys|, i requires 0 <= i < |keys| =>
      KeyHasGroup(models, KeyOf(v), keys[i]);
      Decorate(Bucket(v, keys[i], Group(models, KeyOf(v), keys[i]))))
  }

  // ----- building it -----

  /** The entry a model leaves in its bucket, given what the map held. */
  function Add(v: Vendors, buckets: map<string, Entry>, m: Model): Entry {
    var key, wildcard := Key(v, m), IsWildcard(m);
    var vendor := v.infer(m);
    var entry := if key in buckets then buckets[key]
                 else Entry(key, vendor, Label(v.caption(vendor), None), m.requiredEnv, [], wildcard);
    entry.(models := entry.models + [m], wildcard := entry.wildcard || wildcard)
  }

  ghost predicate Sums(v: Vendors, e: Entry, models: seq<Model>, key: string) {
    var group := Group(models, KeyOf(v), key);
    group != [] && e == Bucket(v, key, group)
  }

  /** The map holds one entry per key seen, summing up that key's models. */
  ghost predicate Bucketed(v: Vendors, buckets: map<string, Entry>, order: seq<string>, models: seq<Model>) {
    && order == Keys(models, KeyOf(v))
    && (forall k :: k in buckets <==> k in order)
    && (forall k :: k in buckets ==> Sums(v, buckets[k], models, k))
  }

  lemma WildcardAppend(g: seq<Model>, m: Model)
    ensures AnyWildcard(g + [m]) <==> AnyWildcard(g) || IsWildcard(m)
  {
    if AnyWildcard(g) {
      var x :| x in g && IsWildcard(x);
      assert x in g + [m];
    }
    if IsWildcard(m) { assert m in g + [m]; }
  }

  lemma AddIsBucket(v: Vendors, buckets: map<string, Entry>, models: seq<Model>, m: Model)
    requires Bucketed(v, buckets, Keys(models, KeyOf(v)), models)
    ensures Sums(v, Add(v, buckets, m), models + [m], Key(v, m))
  {
    var key := Key(v, m);
    var g := Group(models, KeyOf(v), key);
    GroupAppend(models, m, KeyOf(v), key);
    WildcardAppend(g, m);
    KeyHasGroup(models, KeyOf(v), key);
    if key in buckets {
      assert Sums(v, buckets[key], models, key);
    } else {
      assert g == [] && !AnyWildcard(g);
    }
  }

  lemma OthersKept(v: Vendors, e: Entry, models: seq<Model>, m: Model, key: string)
    requires Sums(v, e, models, key) && key != Key(v, m)
    ensures Sums(v, e, models + [m], key)
  {
    GroupAppend(models, m, KeyOf(v), key);
  }

  lemma AddKeeps(v: Vendors, buckets: map<string, Entry>, models: seq<Model>, m: Model)
    requires Bucketed(v, buckets, Keys(models, KeyOf(v)), models)
    ensures Bucketed(v, buckets[Key(v, m) := Add(v, buckets, m)], Keys(models + [m], KeyOf(v)), models + [m])
  {
    AddIsBucket(v, buckets, models, m);
    forall k | k in buckets && k != Key(v, m) ensures Sums(v, buckets[k], models + [m], k) {
      OthersKept(v, buckets[k], models, m, k);
    }
  }

  method FillBuckets(v: Vendors, models: seq<Model>) returns (buckets: map<string, Entry>, order: seq<string>)
    ensures Bucketed(v, buckets, order, models)
  {
    buckets, order := map[], [];
    for i := 0 to |models|
      invariant Bucketed(v, buckets, order, models[..i])
    {
      var m := models[i];
      AddKeeps(v, buckets, models[..i], m);
      assert models[..i + 1] == models[..i] + [m];
      var entry := Add(v, buckets, m);
      if Key(v, m) !in buckets { order := order + [Key(v, m)]; }
      buckets := buckets[Key(v, m) := entry];
    }
    assert models[..|models|] == models;
  }

  method BuildProviderCatalog(v: Vendors, models: seq<Model>) returns (catalog: seq<Entry>)
    ensures catalog == Catalog(v, models)
  {
    var buckets, order := FillBuckets(v, models);
    catalog := [];
    for i := 0 to |order|
      invariant catalog == Catalog(v, models)[..i]
    {
      assert order[i] in order;
      catalog := catalog + [Decorate(buckets[order[i]])];
    }
  }

  // ----- the key -----

  /** What the key is made of: the vendor and the sorted credentials, cut at every pipe. */
  function Pieces(v: Vendors, m: Model): seq<string> {
    Split(v.infer(m), '|') + Split(Join(Sort(m.requiredEnv), '|'), '|')
  }

  /** Two models have the same key exactly when these pieces agree, whatever the names hold. */
  lemma KeyIffPieces(v: Vendors, m: Model, n: Model)
    ensures Key(v, m) == Key(v, n) <==> Pieces(v, m) == Pieces(v, n)
  {
    SplitConcat(v.infer(m), Join(Sort(m.requiredEnv), '|'), '|');
    SplitConcat(v.infer(n), Join(Sort(n.requiredEnv), '|'), '|');
    JoinSplit(Key(v, m), '|');
    JoinSplit(Key(v, n), '|');
  }

  /** The same vendor, and the same credentials up to order. */
  ghost predicate SameClass(v: Vendors, m: Model, n: Model) {
    v.infer(m) == v.infer(n) && multiset(m.requiredEnv) == multiset(n.requiredEnv)
  }

  lemma ClassHasKey(v: Vendors, m: Model, n: Model)
    requires SameClass(v, m, n)
    ensures Key(v, m) == Key(v, n)
  {
    SortIff(m.requiredEnv, n.requiredEnv);
  }

  predicate PipeFree(v: Vendors, m: Model) {
    '|' !in v.infer(m) && forall e :: e in m.requiredEnv ==> '|' !in e
  }

  /** No credential, or one with an empty name: the two lists that join to the same string. */
  predicate Blank(env: seq<string>) {
    env == [] || env == [""]
  }

  lemma SortedPipeFree(env: seq<string>)
    requires forall e :: e in env ==> '|' !in e
    ensures forall e :: e in Sort(env) ==> '|' !in e
  {
    SortSorts(env);
    forall e | e in Sort(env) ensures '|' !in e {
      assert e in multiset(Sort(env));
      assert e in multiset(env);
    }
  }

  /** What splitting the joined credentials gives back. */
  lemma SplitEnv(env: seq<string>)
    requires forall e :: e in env ==> '|' !in e
    ensures Split(Join(Sort(env), '|'), '|') == if env == [] then [""] else Sort(env)
  {
    SortSorts(env);
    assert |Sort(env)| == |multiset(Sort(env))| == |multiset(env)| == |env|;
    if env != [] {
      SortedPipeFree(env);
      SplitJoin(Sort(env), '|');
    }
  }

  /** Without pipes the key separates models exactly by vendor and credentials, but for the two
      blank lists. */
  lemma KeyIff(v: Vendors, m: Model, n: Model)
    requires PipeFree(v, m) && PipeFree(v, n)
    ensures Key(v, m) == Key(v, n) <==>
            SameClass(v, m, n) || (v.infer(m) == v.infer(n) && Blank(m.requiredEnv) && Blank(n.requiredEnv))
  {
    var a, b := m.requiredEnv, n.requiredEnv;
    KeyIffPieces(v, m, n);
    SplitPlain(v.infer(m), '|');
    SplitPlain(v.infer(n), '|');
    SplitEnv(a);
    SplitEnv(b);
    SortIff(a, b);
    SortBlank(a);
    SortBlank(b);
    var sa, sb := Split(Join(Sort(a), '|'), '|'), Split(Join(Sort(b), '|'), '|');
    assert Pieces(v, m)[0] == v.infer(m) && Pieces(v, m)[1..] == sa;
    assert Pieces(v, n)[0] == v.infer(n) && Pieces(v, n)[1..] == sb;
    assert Pieces(v, m) == Pieces(v, n) <==> v.infer(m) == v.infer(n) && sa == sb;
  }

  lemma SortBlank(env: seq<string>)
    ensures Sort(env) == [""] <==> env == [""]
    ensures Sort(env) == [] <==> env == []
  {
    SortSorts(env);
    assert |Sort(env)| == |multiset(Sort(env))| == |multiset(env)| == |env|;
    if |env| == 1 {
      assert env[1..] == [] && Sort(env) == [env[0]];
    }
  }

  lemma SortOne(a: string)
    ensures Sort([a]) == [a]
  {
    assert [a][1..] == [];
  }

  lemma SortTwo(a: string, b: string)
    requires LexLe(a, b)
    ensures Sort([a, b]) == [a, b] && Join(Sort([a, b]), '|') == a + "|" + b
  {
    SortOne(b);
    assert [a, b][1..] == [b];
  }

  /** A pipe in a vendor name does merge what should be apart: vendor `a|b` with `c`, and vendor
      `a` with `b` and `c`. */
  lemma PipeMergesVendors(v: Vendors, m: Model, n: Model, a: string, b: string, c: string)
    requires v.infer(m) == a + "|" + b && m.requiredEnv == [c]
    requires v.infer(n) == a && n.requiredEnv == [b, c] && LexLe(b, c)
    ensures Key(v, m) == Key(v, n) && !SameClass(v, m, n)
  {
    SortOne(c);
    SortTwo(b, c);
    assert a + "|" + b + "|" + c == a + "|" + (b + "|" + c);
    assert |v.infer(m)| > |v.infer(n)|;
  }

  /** So does a pipe in a credential, under one vendor: `b|c` alone, and `b` with `c`. */
  lemma PipeMergesCredentials(v: Vendors, m: Model, n: Model, b: string, c: string)
    requires v.infer(m) == v.infer(n) && m.requiredEnv == [b + "|" + c] && n.requiredEnv == [b, c] && LexLe(b, c)
    ensures Key(v, m) == Key(v, n) && !SameClass(v, m, n)
  {
    SortOne(b + "|" + c);
    SortTwo(b, c);
    assert |multiset(m.requiredEnv)| == 1 && |multiset(n.requiredEnv)| == 2;
  }

  // ----- what the catalogue means -----

  /** An entry, field by field: the models of its key, vendor and credentials of the first of them,
      the wildcard flag, and a count in the caption of two or more models without a wildcard. */
  lemma EntryAt(v: Vendors, models: seq<Model>, i: nat)
    requires i < |Catalog(v, models)|
    ensures var e, key := Catalog(v, models)[i], Keys(models, KeyOf(v))[i];
            && e.id == key && e.models == Group(models, KeyOf(v), key) != []
            && e.models[0] in models && Key(v, e.models[0]) == key
            && e.vendor == v.infer(e.models[0]) && e.envVars == e.models[0].requiredEnv
            && (e.wildcard <==> exists m :: m in e.models && '*' in m.id)
            && e.caption.base == v.caption(e.vendor)
            && e.caption.count == if |e.models| > 1 && !e.wildcard then Some(|e.models|) else None
  {
    KeyHasGroup(models, KeyOf(v), Keys(models, KeyOf(v))[i]);
  }

  function ModelCount(entries: seq<Entry>): nat {
    if entries == [] then 0 else ModelCount(entries[..|entries| - 1]) + |entries[|entries| - 1].models|
  }

  lemma {:induction false} CountIsTotal(v: Vendors, models: seq<Model>, n: nat)
    requires n <= |Catalog(v, models)|
    ensures ModelCount(Catalog(v, models)[..n]) == GroupTotal(models, KeyOf(v), Keys(models, KeyOf(v))[..n])
  {
    if n > 0 {
      CountIsTotal(v, models, n - 1);
      EntryAt(v, models, n - 1);
      assert Catalog(v, models)[..n][..n - 1] == Catalog(v, models)[..n - 1];
      assert Keys(models, KeyOf(v))[..n][..n - 1] == Keys(models, KeyOf(v))[..n - 1];
    }
  }

  lemma ModelsConserved(v: Vendors, models: seq<Model>)
    ensures ModelCount(Catalog(v, models)) == |models|
  {
    var catalog, keys := Catalog(v, models), Keys(models, KeyOf(v));
    CountIsTotal(v, models, |catalog|);
    GroupTotalAll(models, KeyOf(v));
    assert catalog[..|catalog|] == catalog && keys[..|keys|] == keys;
  }

  /** An entry holds a model given exactly when it carries the model's key. */
  lemma HoldersOf(v: Vendors, models: seq<Model>, m: Model)
    requires m in models
    ensures forall i :: 0 <= i < |Catalog(v, models)| ==>
              (m in Catalog(v, models)[i].models <==> Keys(models, KeyOf(v))[i] == Key(v, m))
  {
    forall i | 0 <= i < |Catalog(v, models)|
      ensures m in Catalog(v, models)[i].models <==> Keys(models, KeyOf(v))[i] == Key(v, m)
    {
      EntryAt(v, models, i);
      GroupMembers(models, KeyOf(v), Keys(models, KeyOf(v))[i]);
    }
  }

  /** Each model is held by one entry and no other; the entries hold as many models as were
      given. */
  lemma Partition(v: Vendors, models: seq<Model>, m: Model)
    requires m in models
    ensures exists i :: 0 <= i < |Catalog(v, models)| && m in Catalog(v, models)[i].models
    ensures forall i, j :: 0 <= i < j < |Catalog(v, models)| ==>
              !(m in Catalog(v, models)[i].models && m in Catalog(v, models)[j].models)
    ensures ModelCount(Catalog(v, models)) == |models|
  {
    var catalog, keys := Catalog(v, models), Keys(models, KeyOf(v));
    KeysMembers(models, KeyOf(v));
    HoldersOf(v, models, m);
    assert KeyOf(v)(m) in keys;
    var i :| 0 <= i < |keys| && keys[i] == Key(v, m);
    assert m in catalog[i].models;
    ModelsConserved(v, models);
  }

  ghost predicate Share(v: Vendors, models: seq<Model>, m: Model, n: Model) {
    exists e :: e in Catalog(v, models) && m in e.models && n in e.models
  }

  /** Two models share an entry exactly when their keys agree. */
  lemma ShareIffKey(v: Vendors, models: seq<Model>, m: Model, n: Model)
    requires m in models && n in models
    ensures Share(v, models, m, n) <==> Key(v, m) == Key(v, n)
  {
    var catalog, keys := Catalog(v, models), Keys(models, KeyOf(v));
    HoldersOf(v, models, m);
    HoldersOf(v, models, n);
    KeysMembers(models, KeyOf(v));
    assert KeyOf(v)(m) in keys;
    var i :| 0 <= i < |keys| && keys[i] == Key(v, m);
    if Key(v, m) == Key(v, n) {
      assert catalog[i] in catalog && m in catalog[i].models && n in catalog[i].models;
    }
    if e :| e in catalog && m in e.models && n in e.models {
      var j :| 0 <= j < |catalog| && catalog[j] == e;
    }
  }

  /** The entries are exactly the classes of equal vendor and credentials. */
  ghost predicate EntriesAreClasses(v: Vendors, models: seq<Model>) {
    forall m, n :: m in models && n in models ==> (Share(v, models, m, n) <==> SameClass(v, m, n))
  }

  /** Equal pieces come only from equal vendor and credentials. */
  ghost predicate PiecesSeparate(v: Vendors, models: seq<Model>) {
    forall m, n :: m in models && n in models && Pieces(v, m) == Pieces(v, n) ==> SameClass(v, m, n)
  }

  /** The catalogue is faithful to the classes if and only if the pieces separate them. */
  lemma CatalogExact(v: Vendors, models: seq<Model>)
    ensures EntriesAreClasses(v, models) <==> PiecesSeparate(v, models)
  {
    forall m, n | m in models && n in models
      ensures Share(v, models, m, n) <==> Pieces(v, m) == Pieces(v, n)
      ensures SameClass(v, m, n) ==> Pieces(v, m) == Pieces(v, n)
    {
      ShareIffKey(v, models, m, n);
      KeyIffPieces(v, m, n);
      if SameClass(v, m, n) { ClassHasKey(v, m, n); }
    }
  }

  /** Without pipes two models share an entry exactly when vendor and credentials agree, the two
      blank lists apart. */
  lemma ShareIff(v: Vendors, models: seq<Model>, m: Model, n: Model)
    requires m in models && n in models && PipeFree(v, m) && PipeFree(v, n)
    ensures Share(v, models, m, n) <==>
            SameClass(v, m, n) || (v.infer(m) == v.infer(n) && Blank(m.requiredEnv) && Blank(n.requiredEnv))
  {
    ShareIffKey(v, models, m, n);
    KeyIff(v, m, n);
  }

  // ----- back from a model id -----

  predicate EndsWithStar(s: string) {
    s != "" && s[|s| - 1] == '*'
  }

  /** The id itself, or a trailing-star pattern whose stem starts it. */
  ghost predicate Covers(m: Model, id: string) {
    m.id == id || exists stem :: m.id == stem + "*" && stem <= id
  }

  lemma CoversIff(m: Model, id: string)
    ensures Covers(m, id) <==> m.id == id || (EndsWithStar(m.id) && m.id[..|m.id| - 1] <= id)
  {
    if EndsWithStar(m.id) {
      assert m.id == m.id[..|m.id| - 1] + "*";
    }
    if stem :| m.id == stem + "*" && stem <= id {
      assert m.id[..|m.id| - 1] == stem;
    }
  }

  predicate Holds(e: Entry, id: string) {
    (exists m :: m in e.models && m.id == id) ||
    (e.wildcard && exists m :: m in e.models && EndsWithStar(m.id) && m.id[..|m.id| - 1] <= id)
  }

  function FindProvider(catalog: seq<Entry>, id: string): Option<Entry> {
    if id == "" || catalog == [] then None
    else if Holds(catalog[0], id) then Some(catalog[0])
    else FindProvider(catalog[1..], id)
  }

  /** The first entry that holds the id is found. */
  lemma {:induction false} FindsFirst(catalog: seq<Entry>, id: string, i: nat)
    requires id != "" && i < |catalog| && Holds(catalog[i], id)
    ensures exists j :: 0 <= j <= i && FindProvider(catalog, id) == Some(catalog[j]) && Holds(catalog[j], id) &&
                        forall k :: 0 <= k < j ==> !Holds(catalog[k], id)
  {
    if !Holds(catalog[0], id) {
      FindsFirst(catalog[1..], id, i - 1);
      var j :| 0 <= j <= i - 1 && FindProvider(catalog[1..], id) == Some(catalog[1..][j]) &&
               Holds(catalog[1..][j], id) && forall k :: 0 <= k < j ==> !Holds(catalog[1..][k], id);
      forall k | 0 <= k < j + 1 ensures !Holds(catalog[k], id) {
        assert k > 0 ==> catalog[k] == catalog[1..][k - 1];
      }
      assert catalog[j + 1] == catalog[1..][j];
    } else {
      assert FindProvider(catalog, id) == Some(catalog[0]);
    }
  }

  /** In a built catalogue the wildcard flag hides no pattern, so an id is found exactly when
      some model given covers it; what is found covers it. */
  lemma BackDerivation(v: Vendors, models: seq<Model>, id: string)
    ensures var found := FindProvider(Catalog(v, models), id);
            && (found.Some? <==> id != "" && exists m :: m in models && Covers(m, id))
            && (found.Some? ==> found.value in Catalog(v, models) &&
                                exists m :: m in found.value.models && Covers(m, id))
  {
    var catalog := Catalog(v, models);
    forall i | 0 <= i < |catalog|
      ensures Holds(catalog[i], id) <==> exists m :: m in catalog[i].models && Covers(m, id)
      ensures forall m :: m in catalog[i].models ==> m in models
    {
      EntryAt(v, models, i);
      GroupMembers(models, KeyOf(v), Keys(models, KeyOf(v))[i]);
      StarIsWildcard(catalog[i], id);
    }
    if m :| id != "" && m in models && Covers(m, id) {
      Partition(v, models, m);
      var i :| 0 <= i < |catalog| && m in catalog[i].models;
      FindsFirst(catalog, id, i);
    }
    FoundHolds(catalog, id);
  }

  lemma StarIsWildcard(e: Entry, id: string)
    requires e.wildcard <==> AnyWildcard(e.models)
    ensures Holds(e, id) <==> exists m :: m in e.models && Covers(m, id)
  {
    forall m | m in e.models
      ensures Covers(m, id) <==> m.id == id || (EndsWithStar(m.id) && m.id[..|m.id| - 1] <= id)
    {
      CoversIff(m, id);
    }
    forall m | m in e.models && EndsWithStar(m.id) ensures e.wildcard {
      assert m.id[|m.id| - 1] in m.id;
      assert IsWildcard(m);
    }
  }

  lemma {:induction false} FoundHolds(catalog: seq<Entry>, id: string)
    ensures FindProvider(catalog, id).Some? ==>
              exists i :: 0 <= i < |catalog| && catalog[i] == FindProvider(catalog, id).value && Holds(catalog[i], id)
  {
    if id != "" && catalog != [] {
      if Holds(catalog[0], id) {
        assert catalog[0] == FindProvider(catalog, id).value;
      } else {
        FoundHolds(catalog[1..], id);
        if FindProvider(catalog, id).Some? {
          var i :| 0 <= i < |catalog[1..]| && catalog[1..][i] == FindProvider(catalog, id).value &&
                   Holds(catalog[1..][i], id);
          assert catalog[i + 1] == catalog[1..][i];
        }
      }
    }
  }
}
