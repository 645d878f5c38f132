/** Decimal text of naturals: how it is read, how it is written, and that the two undo each other. */
module Decimals {
  import opened Common

  function DigitValue(c: char): nat
    requires IsDigit(c)
  {
    (c - '0') as nat
  }

  function DigitChar(d: nat): (c: char)
    requires d < 10
    ensures IsDigit(c) && DigitValue(c) == d
  {
    '0' + d as char
  }

  predicate AllDigits(s: string) { forall i | 0 <= i < |s| :: IsDigit(s[i]) }

  /** The value of a run of digits, most significant first. */
  function Number(s: string): nat
    requires AllDigits(s)
  {
    if s == "" then 0 else 10 * Number(s[..|s| - 1]) + DigitValue(s[|s| - 1])
  }

  /** The digits at the start of s. */
  function DigitRun(s: string): (r: string)
    ensures AllDigits(r) && r <= s
    ensures |r| < |s| ==> !IsDigit(s[|r|])
  {
    if s == "" || !IsDigit(s[0]) then "" else [s[0]] + DigitRun(s[1..])
  }

  lemma {:induction false} DigitRunAll(s: string)
    requires AllDigits(s)
    ensures DigitRun(s) == s
  {
    if s != "" { DigitRunAll(s[1..]); }
  }

  /** The digits of n, none for zero. */
  function Digits(n: nat): string {
    if n == 0 then "" else Digits(n / 10) + [DigitChar(n % 10)]
  }

  function Decimal(n: nat): string {
    if n == 0 then "0" else Digits(n)
  }

  lemma {:induction false} DigitsRead(n: nat)
    ensures AllDigits(Digits(n)) && Number(Digits(n)) == n
    ensures n > 0 ==> |Digits(n)| > 0 && Digits(n)[0] != '0'
  {
    if n > 0 {
      DigitsRead(n / 10);
      NumberSnoc(Digits(n / 10), DigitChar(n % 10));
      if n < 10 {
        assert DigitValue(Digits(n)[0]) == n;
      }
    }
  }

  /** Reading what was written gives the number back, and nothing is written with a leading zero. */
  lemma DecimalRoundTrip(n: nat)
    ensures AllDigits(Decimal(n)) && Number(Decimal(n)) == n
    ensures Decimal(n)[0] == '0' ==> Decimal(n) == "0"
  {
    DigitsRead(n);
    assert "0"[..0] == "";
  }

  function Reversed(s: string): (r: string)
    ensures |r| == |s|
  {
    if s == "" then "" else Reversed(s[1..]) + [s[0]]
  }

  lemma {:induction false} ReversedSnoc(s: string, c: char)
    ensures Reversed(s + [c]) == [c] + Reversed(s)
  {
    if s != "" {
      ReversedSnoc(s[1..], c);
      assert (s + [c])[1..] == s[1..] + [c];
    } else {
      assert s + [c] == [c];
    }
  }

  lemma {:induction false} ReversedTwice(s: string)
    ensures Reversed(Reversed(s)) == s
  {
    if s != "" {
      ReversedTwice(s[1..]);
      ReversedSnoc(Reversed(s[1..]), s[0]);
    }
  }

  /** Moving the last digit of n over to the digits already written, in reverse. */
  lemma DigitsStep(n: nat, result: string)
    ensures n > 0 ==> Digits(n / 10) + Reversed(result + [DigitChar(n % 10)]) == Digits(n) + Reversed(result)
    ensures n == 0 ==> Reversed(result + [DigitChar(n % 10)]) == ['0'] + Reversed(result)
  {
    var c := DigitChar(n % 10);
    ReversedSnoc(result, c);
    if n > 0 { AppendTwice(Digits(n / 10), c, Reversed(result)); }
  }

  lemma AppendTwice(s: string, c: char, t: string)
    ensures s + ([c] + t) == s + [c] + t
  {
  }

  lemma NumberSnoc(s: string, c: char)
    requires AllDigits(s) && IsDigit(c)
    ensures AllDigits(s + [c]) && Number(s + [c]) == 10 * Number(s) + DigitValue(c)
  {
    assert (s + [c])[..|s|] == s;
  }

  lemma DigitRunStep(read: string, p: string)
    requires p != "" && IsDigit(p[0])
    ensures read + DigitRun(p) == (read + [p[0]]) + DigitRun(p[1..])
  {
  }
}
