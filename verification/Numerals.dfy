/** Decimal numerals, written and read. */
module Numerals {
  import opened Options

  function Digit(d: nat): char
    requires d < 10
  {
    ('0' as int + d) as char
  }

  function ShowNat(n: nat): (s: string)
    ensures s != ""
  {
    if n < 10 then [Digit(n)] else ShowNat(n / 10) + [Digit(n % 10)]
  }

  function Show(n: int): string {
    if n < 0 then "-" + ShowNat(-n) else ShowNat(n)
  }

  predicate IsDigit(c: char) {
    '0' <= c <= '9'
  }

  function ReadDigits(s: string): int {
    if s == "" then 0 else ReadDigits(s[..|s| - 1]) * 10 + (s[|s| - 1] as int - '0' as int)
  }

  predicate AllDigits(s: string) {
    s != "" && forall c :: c in s ==> IsDigit(c)
  }

  /** `Number` on integer numerals; anything else is not a number. */
  function Number(s: string): Option<int> {
    if AllDigits(s) then Some(ReadDigits(s))
    else if |s| > 1 && s[0] == '-' && AllDigits(s[1..]) then Some(-ReadDigits(s[1..]))
    else None
  }

  lemma {:induction false} ReadShowNat(n: nat)
    ensures AllDigits(ShowNat(n)) && ReadDigits(ShowNat(n)) == n
  {
    if n >= 10 {
      ReadShowNat(n / 10);
      var s := ShowNat(n);
      assert s[..|s| - 1] == ShowNat(n / 10) && s[|s| - 1] == Digit(n % 10);
      assert n == n / 10 * 10 + n % 10;
    }
  }

  lemma NumberShow(n: int)
    ensures Number(Show(n)) == Some(n)
    ensures forall c :: c in Show(n) ==> IsDigit(c) || c == '-'
  {
    if n < 0 {
      ReadShowNat(-n);
      var digits := ShowNat(-n);
      var s := "-" + digits;
      assert s[0] == '-' && s[1..] == digits;
      assert !AllDigits(s) by {
        assert s[0] in s && !IsDigit(s[0]);
      }
    } else {
      ReadShowNat(n);
    }
  }
}
