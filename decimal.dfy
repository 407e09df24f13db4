/** Decimal rendering of a non-negative integer, as a JavaScript template
    literal renders a number such as `alarms.length + 1`. */
module Decimal {

  predicate IsDigit(c: char) {
    '0' <= c <= '9'
  }

  predicate AllDigits(s: string) {
    forall i :: 0 <= i < |s| ==> IsDigit(s[i])
  }

  /** The character of a single decimal digit. */
  function DigitChar(d: nat): (c: char)
    requires d < 10
    ensures IsDigit(c)
    ensures c as int - '0' as int == d
  {
    ('0' as int + d) as char
  }

  /** The shortest decimal string of `n`: digits only, never empty, and
      without a leading zero unless `n` is zero itself. */
  function FromNat(n: nat): (s: string)
    ensures |s| >= 1
    ensures AllDigits(s)
    ensures s[0] == '0' <==> n == 0
    ensures n == 0 ==> s == "0"
    decreases n
  {
    if n < 10 then [DigitChar(n)]
    else FromNat(n / 10) + [DigitChar(n % 10)]
  }

  /** The number a string of decimal digits denotes. */
  function Value(s: string): nat
    requires AllDigits(s)
  {
    if s == [] then 0
    else Value(s[..|s| - 1]) * 10 + (s[|s| - 1] as int - '0' as int)
  }

  /** Reading back the rendering of `n` gives `n`. */
  lemma {:induction false} ValueOfFromNat(n: nat)
    ensures Value(FromNat(n)) == n
    decreases n
  {
    var s := FromNat(n);
    if n >= 10 {
      ValueOfFromNat(n / 10);
      assert s[..|s| - 1] == FromNat(n / 10);
    } else {
      assert s[..|s| - 1] == [];
    }
  }

  /** Distinct numbers render as distinct strings. */
  lemma FromNatInjective(m: nat, n: nat)
    requires FromNat(m) == FromNat(n)
    ensures m == n
  {
    ValueOfFromNat(m);
    ValueOfFromNat(n);
  }
}
