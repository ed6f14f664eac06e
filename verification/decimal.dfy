/** Decimal numerals over ASCII digits: the `str.isdigit` / `int(...)` pair the
    menu uses to recognise a numeric toggle, and the canonical spelling of a
    natural number that a user would type. */
module Decimal {

  predicate IsDigit(c: char) {
    '0' <= c <= '9'
  }

  predicate AllDigits(s: string) {
    forall i :: 0 <= i < |s| ==> IsDigit(s[i])
  }

  /** `s.isdigit()`: non-empty and made of digits only. */
  predicate IsDigits(s: string) {
    |s| > 0 && AllDigits(s)
  }

  function DigitValue(c: char): (d: nat)
    requires IsDigit(c)
  {
    c as int - '0' as int
  }

  function DigitChar(d: nat): (c: char)
    requires d < 10
    ensures IsDigit(c) && DigitValue(c) == d
  {
    ('0' as int + d) as char
  }

  /** `int(s)` for an all-digit string, read most significant digit first. */
  function Value(s: string): nat
    requires AllDigits(s)
  {
    if |s| == 0 then 0 else Value(s[..|s| - 1]) * 10 + DigitValue(s[|s| - 1])
  }

  /** The canonical numeral of `k`: digits only, no leading zero unless `k` is 0. */
  function Spell(k: nat): (s: string)
    ensures IsDigits(s)
    ensures s[0] == '0' ==> k == 0
    ensures |s| > 1 ==> s[0] != '0'
  {
    if k < 10 then [DigitChar(k)] else Spell(k / 10) + [DigitChar(k % 10)]
  }

  /** Reading back the canonical numeral gives the number. */
  lemma {:induction false} ValueOfSpell(k: nat)
    ensures Value(Spell(k)) == k
  {
    var s := Spell(k);
    if k >= 10 {
      assert s[..|s| - 1] == Spell(k / 10);
      ValueOfSpell(k / 10);
    }
  }

  /** A leading zero does not change the value: `int("07") == 7`. */
  lemma {:induction false} LeadingZero(s: string)
    requires AllDigits(s)
    ensures AllDigits(['0'] + s) && Value(['0'] + s) == Value(s)
  {
    var t := ['0'] + s;
    if |s| > 0 {
      assert t[..|t| - 1] == ['0'] + s[..|s| - 1];
      LeadingZero(s[..|s| - 1]);
    }
  }

  /** Appending digits never makes a numeral smaller. */
  lemma {:induction false} ValueAtLeastPrefix(s: string, k: nat)
    requires AllDigits(s) && k <= |s|
    ensures AllDigits(s[..k]) && Value(s[..k]) <= Value(s)
    decreases |s| - k
  {
    if k < |s| {
      var t := s[..|s| - 1];
      assert t[..k] == s[..k];
      ValueAtLeastPrefix(t, k);
    } else {
      assert s[..k] == s;
    }
  }
}
