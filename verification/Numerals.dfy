/** Positional numerals: the text of a number in a base, and reading it back. */
module Numerals {
  function DigitChar(d: nat): char
    requires d < 16
  {
    "0123456789abcdef"[d]
  }

  function DigitValue(c: char): int {
    if '0' <= c <= '9' then c as int - '0' as int
    else if 'a' <= c <= 'f' then c as int - 'a' as int + 10
    else -1
  }

  predicate IsDecimalDigit(c: char) {
    '0' <= c <= '9'
  }

  predicate AllDecimal(s: string) {
    forall i :: 0 <= i < |s| ==> IsDecimalDigit(s[i])
  }

  // The bases the program prints in.
  predicate IsBase(base: nat) {
    base == 10 || base == 16
  }

  // Everything but the last digit, and the last digit.
  function Leading(n: nat, base: nat): nat
    requires IsBase(base)
  {
    if base == 10 then n / 10 else n / 16
  }

  function Last(n: nat, base: nat): (d: nat)
    requires IsBase(base)
    ensures d < base
  {
    if base == 10 then n % 10 else n % 16
  }

  // The shortest numeral of n, "0" for zero.
  function Numeral(n: nat, base: nat): (s: string)
    requires IsBase(base)
    ensures |s| >= 1
    ensures base == 10 ==> AllDecimal(s)
    ensures n > 0 ==> s[0] != '0'
    decreases n
  {
    if n < base then [DigitChar(n)] else Numeral(Leading(n, base), base) + [DigitChar(Last(n, base))]
  }

  // The number a string of digits denotes, most significant digit first.
  function NumeralValue(s: string, base: nat): int {
    if s == [] then 0
    else NumeralValue(s[..|s| - 1], base) * base + DigitValue(s[|s| - 1])
  }

  lemma {:induction false} NumeralDenotes(n: nat, base: nat)
    requires IsBase(base)
    ensures NumeralValue(Numeral(n, base), base) == n
    decreases n
  {
    if n < base {
      assert Numeral(n, base)[..0] == "";
      assert NumeralValue("", base) == 0;
    } else {
      NumeralDenotes(Leading(n, base), base);
      LastDigit(Numeral(Leading(n, base), base), Last(n, base), base);
      LeadingAndLast(n, base);
    }
  }

  lemma LastDigit(s: string, d: nat, base: nat)
    requires d < 16
    ensures NumeralValue(s + [DigitChar(d)], base) == NumeralValue(s, base) * base + d
  {
    assert (s + [DigitChar(d)])[..|s|] == s;
  }

  lemma LeadingAndLast(n: nat, base: nat)
    requires IsBase(base)
    ensures Leading(n, base) * base + Last(n, base) == n
  {
    if base == 10 {
      assert n == n / 10 * 10 + n % 10;
    } else {
      assert n == n / 16 * 16 + n % 16;
    }
  }
}
