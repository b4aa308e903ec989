/** strconv.Itoa on naturals, strconv.Atoi on what it prints, and why different numbers print differently. */
module Decimal {

  function Digit(d: nat): char
    requires d < 10
  {
    '0' + (d as char)
  }

  predicate IsDigit(c: char) {
    '0' <= c <= '9'
  }

  function Itoa(n: nat): (s: string)
    ensures s != [] && forall c :: c in s ==> IsDigit(c)
  {
    if n < 10 then [Digit(n)] else Itoa(n / 10) + [Digit(n % 10)]
  }

  /** Atoi, with 0 for what is not a number, as the caller drops the error. */
  function Atoi(s: string): nat {
    if s == [] || exists c :: c in s && !IsDigit(c) then 0 else Value(s)
  }

  function Value(s: string): nat
    requires forall c :: c in s ==> IsDigit(c)
  {
    if s == [] then 0
    else
      var last := s[|s| - 1];
      assert last in s && IsDigit(last);
      10 * Value(s[..|s| - 1]) + (last - '0') as nat
  }

  lemma {:induction false} ValueOfItoa(n: nat)
    ensures Value(Itoa(n)) == n
  {
    var s := Itoa(n);
    if n < 10 {
      assert s[..|s| - 1] == [];
    } else {
      assert s[..|s| - 1] == Itoa(n / 10);
      ValueOfItoa(n / 10);
    }
  }

  lemma {:induction false} AtoiOfItoa(n: nat)
    ensures Atoi(Itoa(n)) == n
  {
    ValueOfItoa(n);
  }

  lemma {:induction false} ItoaIsInjective(m: nat, n: nat)
    requires Itoa(m) == Itoa(n)
    ensures m == n
  {
    ValueOfItoa(m);
    ValueOfItoa(n);
  }
}
