/** Decimal numerals, as %d and str print them. */
module Decimals {
  import opened Basics

  function Digit(d: nat): (c: char)
    requires d < 10
    ensures c as int == 48 + d
  {
    '0' + d as char
  }

  function Decimal(n: nat): (s: string)
    ensures forall i :: 0 <= i < |s| ==> '0' <= s[i] <= '9'
  {
    if n < 10 then [Digit(n)] else Decimal(n / 10) + [Digit(n % 10)]
  }

  predicate IsDigit(c: char) { '0' <= c <= '9' }

  /** What a reader makes of a text by taking its digits in order and skipping everything else. */
  function DigitsOf(s: string): nat {
    if s == "" then 0
    else
      var n, c := DigitsOf(s[..|s| - 1]), s[|s| - 1];
      if IsDigit(c) then n * 10 + (c as int - '0' as int) else n
  }

  lemma DigitsAppend(s: string, c: char)
    ensures DigitsOf(s + [c]) == if IsDigit(c) then DigitsOf(s) * 10 + (c as int - '0' as int) else DigitsOf(s)
  {
    assert (s + [c])[..|s|] == s;
  }

  /** Text without digits in front of a numeral does not change what is read. */
  lemma {:induction false} DigitsOfDecimal(pre: string, n: nat)
    requires DigitsOf(pre) == 0
    ensures DigitsOf(pre + Decimal(n)) == n
  {
    if n < 10 {
      DigitsAppend(pre, Digit(n));
    } else {
      DigitsOfDecimal(pre, n / 10);
      assert pre + Decimal(n) == pre + Decimal(n / 10) + [Digit(n % 10)];
      DigitsAppend(pre + Decimal(n / 10), Digit(n % 10));
    }
  }

  /** A numeral of n has at most d digits when n is below the d-th power of ten. */
  lemma {:induction false} DecimalLength(n: nat, d: nat)
    requires d >= 1 && n < Pow10(d)
    ensures |Decimal(n)| <= d
  {
    if n >= 10 {
      assert d > 1 && n < 10 * Pow10(d - 1);
      DecimalLength(n / 10, d - 1);
    }
  }

  function Pow10(d: nat): (p: nat)
    ensures p >= 1
  {
    if d == 0 then 1 else 10 * Pow10(d - 1)
  }

  /** Digit k of a numeral, counted from its end, is the digit of 10^k. */
  lemma {:induction false} NumeralDigits(n: nat, k: nat)
    requires k < |Decimal(n)|
    ensures Decimal(n)[|Decimal(n)| - 1 - k] as int == 48 + n / Pow10(k) % 10
  {
    if k == 0 {
      LastDigit(n);
    } else {
      NumeralDigits(n / 10, k - 1);
      DivTwice(n, 10, Pow10(k - 1));
      assert n / Pow10(k) == n / 10 / Pow10(k - 1);
      assert Decimal(n) == Decimal(n / 10) + [Digit(n % 10)];
    }
  }

  lemma LastDigit(n: nat)
    ensures Decimal(n) != [] && Decimal(n)[|Decimal(n)| - 1] as int == 48 + n / Pow10(0) % 10
  {
    assert n / 1 == n;
  }

  lemma ShortNumerals(c: char)
    ensures Decimal(0) == "0" && Decimal(10) == "10" && Decimal(2047) == "2047"
    ensures DigitsOf("") == 0 && (IsDigit(c) <==> 48 <= c as int <= 57)
  {
    assert Decimal(204) == "204";
  }
}
