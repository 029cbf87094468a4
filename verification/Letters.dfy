/** Comparing text without regard to the case of ASCII letters. */
module Letters {

  function Lower(c: char): char {
    if 'A' <= c <= 'Z' then (c as int + 32) as char else c
  }

  /** One letter in either case: the pairs A and a to Z and z. */
  predicate SameLetter(a: char, b: char) {
    a == b || CapitalOf(a, b) || CapitalOf(b, a)
  }

  predicate CapitalOf(a: char, b: char) {
    exists k :: 0 <= k < 26 && a == "ABCDEFGHIJKLMNOPQRSTUVWXYZ"[k] && b == "abcdefghijklmnopqrstuvwxyz"[k]
  }

  predicate SameText(s: string, t: string) {
    |s| == |t| && forall k :: 0 <= k < |s| ==> SameLetter(s[k], t[k])
  }

  lemma CapitalIs(a: char, b: char)
    ensures CapitalOf(a, b) <==> 'A' <= a <= 'Z' && b as int == a as int + 32
  {
    assert forall k :: 0 <= k < 26 ==> "ABCDEFGHIJKLMNOPQRSTUVWXYZ"[k] as int == 65 + k;
    assert forall k :: 0 <= k < 26 ==> "abcdefghijklmnopqrstuvwxyz"[k] as int == 97 + k;
    if 'A' <= a <= 'Z' && b as int == a as int + 32 {
      var k := a as int - 65;
      assert a == "ABCDEFGHIJKLMNOPQRSTUVWXYZ"[k] && b == "abcdefghijklmnopqrstuvwxyz"[k];
    }
  }

  /** Lowering tells exactly the letters apart that differ in more than case. */
  lemma LowerIff(a: char, b: char)
    ensures Lower(a) == Lower(b) <==> SameLetter(a, b)
  {
    CapitalIs(a, b);
    CapitalIs(b, a);
  }
}
