/** Decimal output (the %d and %zu of printf), and what a reader makes of a text. */
module Decimals {
  import opened SqlText

  /** A value read from the front of a text and the text behind it, or no sense in the text. */
  datatype Read<T> = Read(value: T, rest: string) | Garbage

  function Digit(n: nat): char
    requires n < 10
  {
    '0' + n as char
  }

  function NatText(n: nat): string {
    if n < 10 then [Digit(n)] else NatText(n / 10) + [Digit(n % 10)]
  }

  function IntText(n: int): string {
    if n < 0 then "-" + NatText(-n) else NatText(n)
  }

  lemma {:induction false} NatTextValue(n: nat)
    ensures NatText(n) != "" && AllDigits(NatText(n)) && DigitsValue(NatText(n)) == n
  {
    if n < 10 {
      assert NatText(n)[..0] == "";
    } else {
      NatTextValue(n / 10);
      assert NatText(n)[..|NatText(n)| - 1] == NatText(n / 10);
    }
  }

  /** The text of an integer is a literal of SQL whose value is the integer. */
  lemma IntTextValue(n: int)
    ensures IsNumber(IntText(n)) && NumberValue(IntText(n)) == n
  {
    if n < 0 {
      NatTextValue(-n);
      assert IntText(n)[1..] == NatText(-n);
    } else {
      NatTextValue(n);
    }
  }

  /** Every 32-bit integer, printed, is parsed back to itself. */
  lemma PrintedIntIsParsed(g: string, n: int, s: string)
    requires Gap(g) && INT32_MIN <= n <= INT32_MAX && !(s != "" && IsDigit(s[0]))
    ensures ParseInt(g + (IntText(n) + s)) == Token(true, s, n)
  {
    IntTextValue(n);
    IntAt(g, IntText(n), s);
  }
}
