/** The filter both overlays apply with a `seen` set: keep the first element of each id. */
module FirstPerId {

  /** The first element of each id that is not in `seen`. */
  function Dedup<T>(s: seq<T>, seen: set<string>, idOf: T -> string): seq<T> {
    if s == [] then []
    else if idOf(s[0]) in seen then Dedup(s[1..], seen, idOf)
    else [s[0]] + Dedup(s[1..], seen + {idOf(s[0])}, idOf)
  }

  /** Element `i` is the first of its id, and that id is not in `seen`. */
  ghost predicate IsFirst<T(!new)>(s: seq<T>, seen: set<string>, idOf: T -> string, i: nat) {
    i < |s| && idOf(s[i]) !in seen && forall j :: 0 <= j < i ==> idOf(s[j]) != idOf(s[i])
  }

  /** What is kept is exactly what comes first of its id. */
  lemma {:induction false} KeptIffFirst<T(!new)>(s: seq<T>, seen: set<string>, idOf: T -> string, x: T)
    ensures x in Dedup(s, seen, idOf) <==> exists i: nat :: IsFirst(s, seen, idOf, i) && s[i] == x
  {
    if s != [] {
      var seen' := if idOf(s[0]) in seen then seen else seen + {idOf(s[0])};
      KeptIffFirst(s[1..], seen', idOf, x);
      if i: nat :| IsFirst(s[1..], seen', idOf, i) && s[1..][i] == x {
        assert IsFirst(s, seen, idOf, i + 1) && s[i + 1] == x;
      }
      if i: nat :| IsFirst(s, seen, idOf, i) && s[i] == x {
        if i > 0 {
          assert s[0] == s[0] && IsFirst(s[1..], seen', idOf, i - 1) && s[1..][i - 1] == x;
        }
      }
      if idOf(s[0]) !in seen {
        assert IsFirst(s, seen, idOf, 0);
      }
    }
  }

  method FilterSeen<T>(s: seq<T>, idOf: T -> string) returns (r: seq<T>)
    ensures r == Dedup(s, {}, idOf)
  {
    var seen: set<string> := {};
    r := [];
    for i := 0 to |s|
      invariant Dedup(s, {}, idOf) == r + Dedup(s[i..], seen, idOf)
    {
      assert s[i..][1..] == s[i + 1..];
      if idOf(s[i]) !in seen {
        seen := seen + {idOf(s[i])};
        r := r + [s[i]];
      }
    }
  }
}
