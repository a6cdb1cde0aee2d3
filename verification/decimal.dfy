/** Decimal rendering of a natural number, as Go's `%d` verb prints an
    unsigned integer: the shortest run of ASCII digits, most significant
    first, with no sign and no leading zeros. */
module Decimal {

  predicate IsDigit(c: char) {
    '0' <= c <= '9'
  }

  predicate AllDigits(s: string) {
    forall i :: 0 <= i < |s| ==> IsDigit(s[i])
  }

  /** The form `%d` produces: at least one digit, and a leading `0` only
      when it is the whole number. */
  predicate Canonical(s: string) {
    |s| > 0 && AllDigits(s) && (s[0] == '0' ==> |s| == 1)
  }

  function DigitChar(d: nat): (c: char)
    requires d < 10
    ensures IsDigit(c)
  {
    ('0' as int + d) as char
  }

  function DigitValue(c: char): (d: nat)
    requires IsDigit(c)
    ensures d < 10 && DigitChar(d) == c
  {
    c as int - '0' as int
  }

  /** The digits of `n`, as `%d` prints them. */
  function Digits(n: nat): (s: string)
    ensures Canonical(s)
    ensures s[0] == '0' <==> n == 0
    ensures |s| == 1 <==> n < 10
  {
    if n < 10 then [DigitChar(n)] else Digits(n / 10) + [DigitChar(n % 10)]
  }

  /** The number a run of digits denotes; the reader's side of `Digits`. */
  function Parse(s: string): nat
    requires AllDigits(s)
  {
    if |s| == 0 then 0 else Parse(s[..|s| - 1]) * 10 + DigitValue(s[|s| - 1])
  }

  /** Reading back what `%d` printed gives the number printed. */
  lemma {:induction false} ParseDigits(n: nat)
    ensures Parse(Digits(n)) == n
  {
    if n >= 10 {
      var s := Digits(n);
      assert s[..|s| - 1] == Digits(n / 10);
      ParseDigits(n / 10);
    }
  }

  /** A number is at least its leading digit. */
  lemma {:induction false} ParseAtLeastLeadingDigit(s: string)
    requires |s| > 0 && AllDigits(s)
    ensures Parse(s) >= DigitValue(s[0])
  {
    if |s| > 1 {
      ParseAtLeastLeadingDigit(s[..|s| - 1]);
    }
  }

  /** Every canonical digit string is what `%d` prints for the number it
      denotes, so `Digits` is a bijection onto canonical strings. */
  lemma {:induction false} DigitsParse(s: string)
    requires Canonical(s)
    ensures Digits(Parse(s)) == s
  {
    if |s| > 1 {
      var p := s[..|s| - 1];
      ParseAtLeastLeadingDigit(p);
      DigitsParse(p);
      var n := Parse(s);
      assert n / 10 == Parse(p) && n % 10 == DigitValue(s[|s| - 1]);
      assert s == p + [s[|s| - 1]];
    } else {
      assert Parse(s) == DigitValue(s[0]);
    }
  }

  /** A byte prints as one to three digits. */
  lemma ByteWidth(n: nat)
    requires n < 0x100
    ensures 1 <= |Digits(n)| <= 3
  {
  }
}
