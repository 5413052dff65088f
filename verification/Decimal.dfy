/** atoi and the "%d" of asprintf, as mapreduce/reducers/sum.c uses them. */
module Decimal {

  predicate IsDigit(c: char) {
    '0' <= c <= '9'
  }

  function DigitValue(c: char): (d: nat)
    requires IsDigit(c)
    ensures d < 10
  {
    c as int - '0' as int
  }

  function DigitChar(d: nat): (c: char)
    requires d < 10
    ensures IsDigit(c) && DigitValue(c) == d
  {
    ('0' as int + d) as char
  }

  function Digits(n: nat): (s: string)
    ensures s != "" && forall i :: 0 <= i < |s| ==> IsDigit(s[i])
  {
    if n < 10 then [DigitChar(n)] else Digits(n / 10) + [DigitChar(n % 10)]
  }

  /** "%d" */
  function Print(n: int): string {
    if n < 0 then "-" + Digits(-n) else Digits(n)
  }

  predicate IsSpace(c: char) {
    c == ' ' || ('\t' <= c <= '\r')
  }

  // The number that the leading digits of s continue.
  function Leading(s: string, acc: nat): nat {
    if s == "" || !IsDigit(s[0]) then acc
    else Leading(s[1..], acc * 10 + DigitValue(s[0]))
  }

  /** Leading white space, an optional sign, then digits up to the first other character. */
  function Atoi(s: string): int {
    if s != "" && IsSpace(s[0]) then Atoi(s[1..])
    else if s != "" && s[0] == '-' then 0 - Leading(s[1..], 0)
    else if s != "" && s[0] == '+' then Leading(s[1..], 0)
    else Leading(s, 0)
  }

  lemma {:induction false} LeadingAppend(s: string, d: char, acc: nat)
    requires IsDigit(d) && forall i :: 0 <= i < |s| ==> IsDigit(s[i])
    ensures Leading(s + [d], acc) == Leading(s, acc) * 10 + DigitValue(d)
  {
    if s == "" {
      assert s + [d] == [d];
      assert [d][1..] == "";
    } else {
      assert (s + [d])[1..] == s[1..] + [d];
      LeadingAppend(s[1..], d, acc * 10 + DigitValue(s[0]));
    }
  }

  lemma {:induction false} LeadingDigits(n: nat)
    ensures Leading(Digits(n), 0) == n
  {
    if n < 10 {
      assert [DigitChar(n)][1..] == "";
    } else {
      LeadingDigits(n / 10);
      LeadingAppend(Digits(n / 10), DigitChar(n % 10), 0);
    }
  }

  /** Reading back what was printed. */
  lemma RoundTrip(n: int)
    ensures Atoi(Print(n)) == n
  {
    if n < 0 {
      LeadingDigits(-n);
      assert Print(n)[1..] == Digits(-n);
    } else {
      LeadingDigits(n);
      assert IsDigit(Digits(n)[0]);
    }
  }

  /** The number a sequence of digits stands for, the last digit counting one. */
  ghost function PlaceValue(s: string): int {
    if s == "" then 0 else 10 * PlaceValue(s[..|s| - 1]) + (s[|s| - 1] as int - '0' as int)
  }

  /** What is printed is the decimal form: the places add up to the number and only 0 starts with a zero. */
  lemma {:induction false} DigitsAreDecimal(n: nat)
    ensures PlaceValue(Digits(n)) == n
    ensures Digits(n)[0] == '0' ==> Digits(n) == "0"
  {
    if n < 10 {
      assert [DigitChar(n)][..0] == "";
    } else {
      DigitsAreDecimal(n / 10);
      var s, d := Digits(n / 10), DigitChar(n % 10);
      assert (s + [d])[..|s|] == s;
    }
  }
}
