/** The migration collision check: which numbered files a pull request touches, against the base
    branch and against what the API lists of the other open pull requests. */
module MigrationCheck {
  import opened Options
  import opened Numerals

  predicate EndsWith(s: string, suffix: string) {
    |s| >= |suffix| && s[|s| - |suffix|..] == suffix
  }

  function LeadingDigits(s: string): (n: nat)
    ensures n <= |s|
  {
    if s == "" || !IsDigit(s[0]) then 0 else 1 + LeadingDigits(s[1..])
  }

  /** The number of a migration file: digits, an underscore, a non-empty stem without slashes,
      and `.up.sql` or `.down.sql`. Other names carry none. */
  function Prefix(name: string): Option<int> {
    var d := LeadingDigits(name);
    if d == 0 || d == |name| || name[d] != '_' then None
    else
      var rest := name[d + 1..];
      if '/' !in rest && ((EndsWith(rest, ".up.sql") && |rest| > 7) || (EndsWith(rest, ".down.sql") && |rest| > 9))
      then Some(ReadDigits(name[..d]))
      else None
  }

  /** The shape of a migration file name: digits, underscore, stem, direction. */
  ghost predicate Shape(name: string, digits: string, stem: string, suffix: string) {
    && name == digits + "_" + (stem + suffix)
    && AllDigits(digits) && stem != "" && '/' !in stem
    && (suffix == ".up.sql" || suffix == ".down.sql")
  }

  lemma {:induction false} LeadingDigitsOf(digits: string, rest: string)
    requires forall c :: c in digits ==> IsDigit(c)
    requires rest != "" && !IsDigit(rest[0])
    ensures LeadingDigits(digits + rest) == |digits|
  {
    if digits == "" {
      assert digits + rest == rest;
    } else {
      assert digits[0] in digits;
      assert (digits + rest)[1..] == digits[1..] + rest;
      LeadingDigitsOf(digits[1..], rest);
    }
  }

  lemma {:induction false} LeadingAreDigits(s: string)
    ensures forall c :: c in s[..LeadingDigits(s)] ==> IsDigit(c)
  {
    if s != "" && IsDigit(s[0]) {
      LeadingAreDigits(s[1..]);
      assert s[..LeadingDigits(s)] == [s[0]] + s[1..][..LeadingDigits(s[1..])];
    }
  }

  /** A name of the shape carries the number its digits spell. */
  lemma ShapeHasPrefix(name: string, digits: string, stem: string, suffix: string)
    requires Shape(name, digits, stem, suffix)
    ensures Prefix(name) == Some(ReadDigits(digits))
  {
    var rest := stem + suffix;
    assert name == digits + ("_" + rest);
    LeadingDigitsOf(digits, "_" + rest);
    assert name[|digits|] == '_' && name[..|digits|] == digits && name[|digits| + 1..] == rest;
    assert EndsWith(rest, suffix) && '/' !in rest by {
      assert rest[|stem|..] == suffix;
      assert '/' !in suffix;
    }
  }

  lemma PrefixHasShape(name: string) returns (digits: string, stem: string, suffix: string)
    requires Prefix(name).Some?
    ensures Shape(name, digits, stem, suffix)
  {
    var d := LeadingDigits(name);
    LeadingAreDigits(name);
    digits := name[..d];
    var rest := name[d + 1..];
    suffix := if EndsWith(rest, ".up.sql") && |rest| > 7 then ".up.sql" else ".down.sql";
    stem := rest[..|rest| - |suffix|];
    assert rest == stem + suffix;
    assert name == digits + "_" + rest;
  }

  /** A name carries a number exactly when it has the shape. */
  lemma PrefixIff(name: string)
    ensures Prefix(name).Some? <==> exists digits, stem, suffix :: Shape(name, digits, stem, suffix)
  {
    if digits, stem, suffix :| Shape(name, digits, stem, suffix) {
      ShapeHasPrefix(name, digits, stem, suffix);
    }
    if Prefix(name).Some? {
      var digits, stem, suffix := PrefixHasShape(name);
    }
  }

  /** One pull request as the API lists it; its file list may fail to load. */
  datatype Peer = Peer(number: nat, files: Option<seq<string>>)

  function Prefixes(names: seq<string>): set<int> {
    set f | f in names && Prefix(f).Some? :: Prefix(f).value
  }

  ghost predicate Lists(names: seq<string>, prefix: int) {
    exists f :: f in names && Prefix(f) == Some(prefix)
  }

  ghost predicate PeerClaims(peer: Peer, prefix: int, self: nat) {
    peer.number != self && peer.files.Some? && Lists(peer.files.value, prefix)
  }

  /** Some listed peer claims the prefix; a failed listing shows none. */
  ghost predicate Claimed(listing: Option<seq<Peer>>, prefix: int, self: nat) {
    listing.Some? && exists peer :: peer in listing.value && PeerClaims(peer, prefix, self)
  }

  /** The base already has the prefix, and the pull request brings another name under it. */
  ghost predicate BaseClash(files: seq<string>, base: seq<string>, prefix: int) {
    Lists(base, prefix) && exists f :: f in files && Prefix(f) == Some(prefix) && f !in base
  }

  /** What a zero exit means. The API is asked anew for each prefix. */
  ghost predicate Passes(self: nat, files: seq<string>, base: seq<string>, api: int -> Option<seq<Peer>>) {
    forall p :: p in Prefixes(files) ==> !BaseClash(files, base, p) && !Claimed(api(p), p, self)
  }

  method CollectPrefixes(names: seq<string>) returns (prefixes: set<int>)
    ensures prefixes == Prefixes(names)
  {
    prefixes := {};
    for i := 0 to |names|
      invariant prefixes == Prefixes(names[..i])
    {
      assert names[..i + 1] == names[..i] + [names[i]];
      if Prefix(names[i]).Some? {
        prefixes := prefixes + {Prefix(names[i]).value};
      }
    }
    assert names[..|names|] == names;
  }

  method NamesUnder(names: seq<string>, prefix: int) returns (r: set<string>)
    ensures forall f :: f in r <==> f in names && Prefix(f) == Some(prefix)
  {
    r := set f | f in names && Prefix(f) == Some(prefix);
  }

  /** A listed pull request of this number, not the one checked, has a file under the prefix. */
  ghost predicate ClaimedBy(prs: seq<Peer>, n: nat, prefix: int, self: nat) {
    exists k :: 0 <= k < |prs| && prs[k].number == n != self && prs[k].files.Some? && Lists(prs[k].files.value, prefix)
  }

  method OpenPeers(listing: Option<seq<Peer>>, prefix: int, self: nat) returns (matches: seq<nat>)
    ensures matches != [] <==> Claimed(listing, prefix, self)
    ensures forall n :: n in matches <==> listing.Some? && ClaimedBy(listing.value, n, prefix, self)
  {
    matches := [];
    if listing.None? { return; }
    var prs := listing.value;
    for i := 0 to |prs|
      invariant matches != [] <==> exists k :: 0 <= k < i && PeerClaims(prs[k], prefix, self)
      invariant forall n :: n in matches <==> ClaimedBy(prs[..i], n, prefix, self)
    {
      var pr := prs[i];
      assert prs[..i + 1] == prs[..i] + [pr];
      if pr.number != self && pr.files.Some? {
        var files := pr.files.value;
        var found := false;
        for j := 0 to |files|
          invariant found <==> exists k :: 0 <= k < j && Prefix(files[k]) == Some(prefix)
        {
          if Prefix(files[j]) == Some(prefix) { found := true; }
        }
        assert found <==> Lists(files, prefix);
        if found { matches := matches + [pr.number]; }
      }
    }
    if matches != [] {
      ghost var k :| 0 <= k < |prs| && PeerClaims(prs[k], prefix, self);
      assert prs[k] in prs;
    }
  }

  method BaseCollisions(added: set<int>, files: seq<string>, base: seq<string>) returns (clashes: set<int>)
    ensures forall p :: p in clashes <==> p in added && BaseClash(files, base, p)
    ensures clashes != {} ==> exists p :: p in added && BaseClash(files, base, p)
  {
    var basePrefixes := CollectPrefixes(base);
    clashes := {};
    var todo := added * basePrefixes;
    while todo != {}
      invariant todo <= added * basePrefixes
      invariant forall p :: p in clashes <==> p in added * basePrefixes && p !in todo && BaseClash(files, base, p)
      invariant clashes != {} ==> exists p :: p in added && BaseClash(files, base, p)
      decreases todo
    {
      var prefix :| prefix in todo;
      todo := todo - {prefix};
      var baseNames := NamesUnder(base, prefix);
      var prNames := NamesUnder(files, prefix);
      assert prNames - baseNames != {} <==> BaseClash(files, base, prefix) by {
        assert prefix in Prefixes(base);
        if prNames - baseNames != {} {
          var f :| f in prNames - baseNames;
        }
        if BaseClash(files, base, prefix) {
          var f :| f in files && Prefix(f) == Some(prefix) && f !in base;
          assert f in prNames - baseNames;
        }
      }
      if prNames - baseNames != {} { clashes := clashes + {prefix}; }
    }
  }

  method Check(self: nat, files: seq<string>, base: seq<string>, api: int -> Option<seq<Peer>>) returns (exit: int)
    ensures exit == 0 || exit == 1
    ensures exit == 0 <==> Passes(self, files, base, api)
  {
    var added := CollectPrefixes(files);
    if added == {} { return 0; }
    var baseCollisions := BaseCollisions(added, files, base);
    var peerCollisions: set<int> := {};
    var todo := added;
    while todo != {}
      invariant todo <= added
      invariant forall p :: p in peerCollisions <==> p in added && p !in todo && Claimed(api(p), p, self)
      invariant peerCollisions != {} ==> exists p :: p in added && Claimed(api(p), p, self)
      decreases todo
    {
      var prefix :| prefix in todo;
      todo := todo - {prefix};
      var peers := OpenPeers(api(prefix), prefix, self);
      if peers != [] { peerCollisions := peerCollisions + {prefix}; }
    }
    assert baseCollisions == {} && peerCollisions == {} ==> Passes(self, files, base, api) by {
      if baseCollisions == {} && peerCollisions == {} {
        forall p | p in added ensures !BaseClash(files, base, p) && !Claimed(api(p), p, self) {
          assert p !in baseCollisions && p !in peerCollisions;
        }
      }
    }
    exit := if baseCollisions == {} && peerCollisions == {} then 0 else 1;
  }
}
