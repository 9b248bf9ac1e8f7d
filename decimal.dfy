/**
 * Decimal text of integers, as Python's f-string formatting writes an `int`
 * (`f"{n}"`): a minus sign for negative values, then the digits without
 * leading zeros. The parser is the partner that shows the text loses nothing.
 */
module Decimal {

  import opened Wrappers

  predicate IsDigit(c: char) {
    '0' <= c <= '9'
  }

  predicate AllDigits(s: string) {
    forall i :: 0 <= i < |s| ==> IsDigit(s[i])
  }

  function DigitChar(d: nat): (c: char)
    requires d < 10
    ensures IsDigit(c)
  {
    (d + '0' as int) as char
  }

  function DigitValue(c: char): (d: nat)
    requires IsDigit(c)
    ensures d < 10
  {
    c as int - '0' as int
  }

  /** The decimal text of a non-negative integer. */
  function NatText(n: nat): string
    decreases n
  {
    if n < 10 then [DigitChar(n)] else NatText(n / 10) + [DigitChar(n % 10)]
  }

  /** The text is a non-empty string of digits without leading zeros. */
  lemma {:induction false} NatTextDigits(n: nat)
    ensures var s := NatText(n);
      |s| >= 1 && AllDigits(s) && (s[0] == '0' ==> n == 0)
    decreases n
  {
    if n >= 10 {
      NatTextDigits(n / 10);
    }
  }

  /** The value of a string of decimal digits (most significant first). */
  function ParseNat(s: string): nat
    requires AllDigits(s)
  {
    if s == [] then 0 else 10 * ParseNat(s[..|s| - 1]) + DigitValue(s[|s| - 1])
  }

  lemma {:induction false} ParseNatText(n: nat)
    ensures AllDigits(NatText(n)) && ParseNat(NatText(n)) == n
    decreases n
  {
    NatTextDigits(n);
    if n >= 10 {
      var s := NatText(n);
      assert s[..|s| - 1] == NatText(n / 10);
      ParseNatText(n / 10);
    }
  }

  /** `f"{n}"` for a Python `int`. */
  function IntText(n: int): string {
    if n < 0 then "-" + NatText(-n) else NatText(n)
  }

  /** A minus sign exactly for negative values, and digits after the first character. */
  lemma IntTextShape(n: int)
    ensures var s := IntText(n);
      && |s| >= 1 && AllDigits(s[1..])
      && (IsDigit(s[0]) <==> n >= 0)
      && (s[0] == '-' <==> n < 0)
  {
    if n < 0 {
      NatTextDigits(-n);
      assert IntText(n)[1..] == NatText(-n);
    } else {
      NatTextDigits(n);
    }
  }

  /** Reads back what IntText writes; None for text it never writes in that shape. */
  function ParseInt(s: string): Option<int> {
    if |s| >= 2 && s[0] == '-' && AllDigits(s[1..]) then Some(-(ParseNat(s[1..]) as int))
    else if |s| >= 1 && AllDigits(s) then Some(ParseNat(s))
    else None
  }

  lemma ParseIntText(n: int)
    ensures ParseInt(IntText(n)) == Some(n)
  {
    if n < 0 {
      assert IntText(n)[1..] == NatText(-n);
      ParseNatText(-n);
    } else {
      ParseNatText(n);
    }
  }

  /** Distinct integers have distinct texts. */
  lemma IntTextInjective(a: int, b: int)
    ensures IntText(a) == IntText(b) <==> a == b
  {
    if IntText(a) == IntText(b) {
      ParseIntText(a);
      ParseIntText(b);
    }
  }
}
