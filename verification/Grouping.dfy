/** Grouping a list under string keys, the way an insertion-ordered map filled in one pass does:
    keys in first-seen order, each with its elements in list order. */
module Grouping {

  /** The elements under a key, in order. */
  function Group<T>(q: seq<T>, keyOf: T -> string, key: string): seq<T> {
    if q == [] then []
    else if keyOf(q[|q| - 1]) == key then Group(q[..|q| - 1], keyOf, key) + [q[|q| - 1]]
    else Group(q[..|q| - 1], keyOf, key)
  }

  /** The distinct keys in first-seen order. */
  function Keys<T>(q: seq<T>, keyOf: T -> string): seq<string> {
    if q == [] then []
    else
      var before := Keys(q[..|q| - 1], keyOf);
      if keyOf(q[|q| - 1]) in before then before else before + [keyOf(q[|q| - 1])]
  }

  lemma GroupAppend<T>(q: seq<T>, x: T, keyOf: T -> string, key: string)
    ensures Group(q + [x], keyOf, key) == if keyOf(x) == key then Group(q, keyOf, key) + [x] else Group(q, keyOf, key)
  {
    assert (q + [x])[..|q|] == q;
  }

  lemma {:induction false} GroupMembers<T>(q: seq<T>, keyOf: T -> string, key: string)
    ensures forall x :: x in Group(q, keyOf, key) <==> x in q && keyOf(x) == key
  {
    if q != [] {
      assert q == q[..|q| - 1] + [q[|q| - 1]];
      GroupMembers(q[..|q| - 1], keyOf, key);
    }
  }

  lemma {:induction false} KeysMembers<T>(q: seq<T>, keyOf: T -> string)
    ensures forall x :: x in q ==> keyOf(x) in Keys(q, keyOf)
    ensures forall i, j :: 0 <= i < j < |Keys(q, keyOf)| ==> Keys(q, keyOf)[i] != Keys(q, keyOf)[j]
  {
    if q != [] {
      assert q == q[..|q| - 1] + [q[|q| - 1]];
      KeysMembers(q[..|q| - 1], keyOf);
    }
  }

  /** A key is listed exactly when its group has elements. */
  lemma {:induction false} KeyHasGroup<T>(q: seq<T>, keyOf: T -> string, key: string)
    ensures key in Keys(q, keyOf) <==> Group(q, keyOf, key) != []
    ensures key in Keys(q, keyOf) ==> Group(q, keyOf, key)[0] in q && keyOf(Group(q, keyOf, key)[0]) == key
  {
    if q != [] {
      assert q == q[..|q| - 1] + [q[|q| - 1]];
      KeyHasGroup(q[..|q| - 1], keyOf, key);
    }
  }

  function GroupTotal<T>(q: seq<T>, keyOf: T -> string, keys: seq<string>): nat {
    if keys == [] then 0
    else GroupTotal(q, keyOf, keys[..|keys| - 1]) + |Group(q, keyOf, keys[|keys| - 1])|
  }

  lemma {:induction false} GroupTotalStep<T>(q: seq<T>, x: T, keyOf: T -> string, keys: seq<string>)
    requires forall i, j :: 0 <= i < j < |keys| ==> keys[i] != keys[j]
    ensures GroupTotal(q + [x], keyOf, keys) == GroupTotal(q, keyOf, keys) + if keyOf(x) in keys then 1 else 0
  {
    if keys != [] {
      assert keys == keys[..|keys| - 1] + [keys[|keys| - 1]];
      GroupTotalStep(q, x, keyOf, keys[..|keys| - 1]);
      GroupAppend(q, x, keyOf, keys[|keys| - 1]);
    }
  }

  /** Conservation: the groups hold as many elements as the list. */
  lemma {:induction false} GroupTotalAll<T>(q: seq<T>, keyOf: T -> string)
    ensures GroupTotal(q, keyOf, Keys(q, keyOf)) == |q|
  {
    if q != [] {
      var init, last := q[..|q| - 1], q[|q| - 1];
      assert q == init + [last];
      GroupTotalAll(init, keyOf);
      KeysMembers(init, keyOf);
      var before := Keys(init, keyOf);
      GroupTotalStep(init, last, keyOf, before);
      if keyOf(last) !in before {
        KeyHasGroup(init, keyOf, keyOf(last));
        GroupAppend(init, last, keyOf, keyOf(last));
        assert (before + [keyOf(last)])[..|before|] == before;
      }
    }
  }
}
