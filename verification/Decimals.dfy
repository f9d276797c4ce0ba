/** Decimal notation. */
module Decimals {
  function Itoa(n: nat): (s: string)
    ensures s != ""
  {
    var digits := "0123456789";
    if n < 10 then [digits[n]] else Itoa(n / 10) + [digits[n % 10]]
  }

  predicate IsDigits(s: string) { forall i :: 0 <= i < |s| ==> '0' <= s[i] <= '9' }

  /** The number that a string of digits denotes. */
  function ValueOf(s: string): nat
    requires IsDigits(s)
  {
    if s == "" then 0
    else
      var n := |s| - 1;
      10 * ValueOf(s[..n]) + (s[n] as int - '0' as int)
  }

  lemma Digit(n: nat)
    requires n < 10
    ensures var c := "0123456789"[n]; '0' <= c <= '9' && c as int - '0' as int == n
  {
    assert n == 0 || n == 1 || n == 2 || n == 3 || n == 4 || n == 5 || n == 6 || n == 7 || n == 8 || n == 9;
  }

  lemma {:induction false} ItoaParses(n: nat)
    ensures IsDigits(Itoa(n)) && ValueOf(Itoa(n)) == n
  {
    Digit(n % 10);
    if n < 10 {
      assert Itoa(n)[..0] == "";
    } else {
      ItoaParses(n / 10);
      assert Itoa(n)[..|Itoa(n)| - 1] == Itoa(n / 10);
    }
  }
}
