/** Unsigned numbers as decimal text, and reading them back. */
module Numerals {
  import opened Digits
  import opened NumberText
  import opened NumberReading

  predicate IsDigit(c: char) {
    '0' <= c <= '9'
  }

  /** std::to_string of an unsigned number */
  function Decimal(n: nat): string {
    if n == 0 then "0" else Chars(HighDigits(n, 10))
  }

  /** The value of a run of digits, n = n * 10 + d from the left. */
  function NumberOf(t: string): nat
    requires AllDecimal(t)
  {
    Fold(DigitValues(t), 10)
  }

  /** How many digits a text starts with. */
  function DigitRun(s: string): (n: nat)
    ensures n <= |s| && AllDecimal(s[..n]) && (n < |s| ==> !IsDigit(s[n]))
  {
    if s == "" || !IsDigit(s[0]) then 0 else
    var n := 1 + DigitRun(s[1..]);
    assert s[..n] == [s[0]] + s[1..][..n - 1];
    n
  }

  lemma DecimalDigits(n: nat)
    ensures Decimal(n) != "" && AllDecimal(Decimal(n)) && forall i :: 0 <= i < |Decimal(n)| ==> IsDigit(Decimal(n)[i])
  {
    hide HighDigits;
    if n > 0 { CharsRead(HighDigits(n, 10)); }
  }

  /** Decimal text reads back as its number. */
  lemma NumberOfDecimal(n: nat)
    ensures AllDecimal(Decimal(n)) && NumberOf(Decimal(n)) == n
  {
    hide HighDigits, Fold, Chars;
    if n == 0 {
      assert DigitValues("0") == [0];
      FoldSingle(0, 10);
    } else {
      CharsRead(HighDigits(n, 10));
      FoldHighDigits(n, 10);
    }
  }

  lemma DecimalInjective(m: nat, n: nat)
    requires Decimal(m) == Decimal(n)
    ensures m == n
  {
    hide Decimal, NumberOf;
    NumberOfDecimal(m);
    NumberOfDecimal(n);
  }

  lemma {:induction false} RunOfDigits(t: string, rest: string)
    requires AllDecimal(t) && (rest == "" || !IsDigit(rest[0]))
    ensures DigitRun(t + rest) == |t|
  {
    if t == "" {
      assert t + rest == rest;
    } else {
      RunOfDigits(t[1..], rest);
      assert (t + rest)[1..] == t[1..] + rest;
    }
  }
}
