/** Decimal printing, as the %d verb and Rust's integer Display produce it. */
module Decimal {

  predicate IsDigit(c: char) { '0' <= c <= '9' }

  function Digit(n: nat): (c: char)
    requires n < 10
    ensures IsDigit(c)
  {
    (48 + n) as char
  }

  function Natural(n: nat): (s: string)
    ensures s != [] && forall i :: 0 <= i < |s| ==> IsDigit(s[i])
  {
    if n < 10 then [Digit(n)] else Natural(n / 10) + [Digit(n % 10)]
  }

  function Integer(n: int): string {
    if n < 0 then "-" + Natural(-n) else Natural(n)
  }

  /** The number a digit string reads as, most significant digit first. */
  function Read(s: string): int {
    if s == [] then 0 else 10 * Read(s[..|s| - 1]) + (s[|s| - 1] as int - 48)
  }

  /** Printing is decimal notation: it reads back, without leading zeros. */
  lemma {:induction false} NaturalReadsBack(n: nat)
    ensures Read(Natural(n)) == n
    ensures Natural(n)[0] == '0' <==> n == 0
  {
    if n >= 10 {
      NaturalReadsBack(n / 10);
      var s := Natural(n);
      assert s[..|s| - 1] == Natural(n / 10) && s[0] == Natural(n / 10)[0];
    } else {
      assert Natural(n)[..0] == [];
    }
  }

  /** Two numbers that print alike are equal. */
  lemma {:induction false} NaturalInjective(m: nat, n: nat)
    requires Natural(m) == Natural(n)
    ensures m == n
  {
    var s := Natural(m);
    assert s[|s| - 1] == Digit(m % 10) && s[|s| - 1] == Digit(n % 10);
    assert m % 10 == n % 10;
    assert m >= 10 <==> |s| > 1;
    assert n >= 10 <==> |s| > 1;
    if m >= 10 {
      assert Natural(m / 10) == s[..|s| - 1] == Natural(n / 10);
      NaturalInjective(m / 10, n / 10);
    }
  }

  /** The last dash splits a string only one way when nothing after it holds a dash. */
  lemma SplitAtLastDash(a: string, d: string, b: string, e: string)
    requires a + "-" + d == b + "-" + e
    requires '-' !in d && '-' !in e
    ensures a == b && d == e
  {
    var s := a + "-" + d;
    assert s[|a|] == '-' && forall i :: |a| < i < |s| ==> s[i] == d[i - |a| - 1];
    assert s[|b|] == '-' && forall i :: |b| < i < |s| ==> s[i] == e[i - |b| - 1];
    assert a == s[..|a|] && b == s[..|b|];
    assert d == s[|a| + 1..] && e == s[|b| + 1..];
  }
}
