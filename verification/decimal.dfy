/**
 * Decimal text of natural numbers, as the widget produces it: a JavaScript
 * number interpolated into a template literal prints its shortest decimal
 * form, and the labels and the time text pad that form with one leading
 * zero below ten.
 */
module Decimal {

  /** True when every character of `s` is a decimal digit. */
  predicate IsDigits(s: string) {
    forall i :: 0 <= i < |s| ==> '0' <= s[i] <= '9'
  }

  /** The numeric value of one digit character. */
  function DigitValue(c: char): (d: nat)
    requires '0' <= c <= '9'
    ensures d < 10
  {
    c as int - '0' as int
  }

  /** The digit character for a value below ten. */
  function DigitChar(d: nat): (c: char)
    requires d < 10
    ensures '0' <= c <= '9'
    ensures DigitValue(c) == d
  {
    ('0' as int + d) as char
  }

  /** The value of a digit string read as a decimal number (leading zeros allowed). */
  function ReadDigits(s: string): nat
    requires IsDigits(s)
  {
    if |s| == 0 then 0
    else ReadDigits(s[..|s| - 1]) * 10 + DigitValue(s[|s| - 1])
  }

  /**
   * The shortest decimal text of `n`: what `${n}` yields for a non-negative
   * integer below 10^21 (larger numbers print in exponent form; the selectors
   * only ever hold values up to 59).
   */
  function Show(n: nat): (s: string)
    ensures IsDigits(s) && |s| >= 1
  {
    if n < 10 then [DigitChar(n)]
    else Show(n / 10) + [DigitChar(n % 10)]
  }

  /** The text has one digit below ten, two from ten to 99, and no leading zero. */
  lemma {:induction false} ShowLength(n: nat)
    ensures n < 10 <==> |Show(n)| == 1
    ensures 10 <= n < 100 <==> |Show(n)| == 2
    ensures Show(n)[0] != '0' || n == 0
  {
    if n >= 10 {
      ShowLength(n / 10);
    }
  }

  /** Reading the shortest decimal text gives back the number. */
  lemma {:induction false} ReadShow(n: nat)
    ensures ReadDigits(Show(n)) == n
  {
    if n >= 10 {
      var s := Show(n);
      assert s[..|s| - 1] == Show(n / 10);
      ReadShow(n / 10);
    }
  }

  /** A leading zero does not change the value read. */
  lemma {:induction false} ReadLeadingZero(s: string)
    requires IsDigits(s)
    ensures IsDigits("0" + s)
    ensures ReadDigits("0" + s) == ReadDigits(s)
  {
    if |s| > 0 {
      var t := "0" + s;
      assert t[..|t| - 1] == "0" + s[..|s| - 1];
      ReadLeadingZero(s[..|s| - 1]);
    }
  }

  /** `n < 10 ? "0" + n : n` in a template literal. */
  function Pad2(n: nat): string {
    if n < 10 then "0" + Show(n) else Show(n)
  }

  /**
   * The padded text is all digits, reads back as `n`, has exactly two
   * characters for every value below 100, and is the plain decimal text from
   * ten on.
   */
  lemma Pad2Facts(n: nat)
    ensures IsDigits(Pad2(n))
    ensures ReadDigits(Pad2(n)) == n
    ensures n < 100 <==> |Pad2(n)| == 2
    ensures n >= 10 ==> Pad2(n) == Show(n)
  {
    ReadShow(n);
    ShowLength(n);
    if n < 10 {
      ReadLeadingZero(Show(n));
    }
  }

  /** Distinct values have distinct padded texts. */
  lemma Pad2Injective(a: nat, b: nat)
    requires Pad2(a) == Pad2(b)
    ensures a == b
  {
    Pad2Facts(a);
    Pad2Facts(b);
  }
}
