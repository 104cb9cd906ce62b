/** Decimal digit strings: the value `int(s)` gives a string that `s.isdigit()`
    accepted, and the text an f-string writes for a natural number (the count
    label and the chapter document names). Only ASCII digits are modelled. */
module Decimal {

  predicate IsDigit(c: char) {
    '0' <= c <= '9'
  }

  /** `str.isdigit` over ASCII: non-empty, and every character a digit. */
  predicate IsDigits(s: string) {
    |s| > 0 && forall i :: 0 <= i < |s| ==> IsDigit(s[i])
  }

  /** The form f-strings print: digits without a leading zero, except "0" itself. */
  predicate Canonical(s: string) {
    IsDigits(s) && (|s| == 1 || s[0] != '0')
  }

  function DigitValue(c: char): (d: nat)
    requires IsDigit(c)
    ensures d < 10
  {
    c as int - '0' as int
  }

  function DigitChar(d: nat): (c: char)
    requires d < 10
    ensures IsDigit(c) && DigitValue(c) == d
  {
    ('0' as int + d) as char
  }

  /** The value of a digit string, most significant digit first (`int(s)`). */
  function ParseDigits(s: string): (v: nat)
    requires forall i :: 0 <= i < |s| ==> IsDigit(s[i])
    ensures v == 0 <==> forall i :: 0 <= i < |s| ==> s[i] == '0'
  {
    if |s| == 0 then 0
    else
      var init := s[..|s| - 1];
      assert forall i :: 0 <= i < |init| ==> init[i] == s[i];
      ParseDigits(init) * 10 + DigitValue(s[|s| - 1])
  }

  /** The decimal text of `n`, as `f"{n}"` writes it. */
  function NatToString(n: nat): (s: string)
    ensures IsDigits(s)
    ensures s[0] == '0' <==> n == 0
    decreases n
  {
    if n < 10 then [DigitChar(n)]
    else NatToString(n / 10) + [DigitChar(n % 10)]
  }

  /** Parsing undoes formatting. */
  lemma {:induction false} ParseFormat(n: nat)
    ensures ParseDigits(NatToString(n)) == n
    decreases n
  {
    var s := NatToString(n);
    if n < 10 {
      assert s[..|s| - 1] == [];
    } else {
      assert s[..|s| - 1] == NatToString(n / 10);
      ParseFormat(n / 10);
    }
  }

  /** Formatting undoes parsing, for the strings formatting can produce. */
  lemma {:induction false} FormatParse(s: string)
    requires Canonical(s)
    ensures NatToString(ParseDigits(s)) == s
    decreases |s|
  {
    var c := s[|s| - 1];
    assert DigitChar(DigitValue(c)) == c;
    if |s| == 1 {
      assert s == [c] && s[..0] == [];
    } else {
      var init := s[..|s| - 1];
      assert Canonical(init) by {
        assert init[0] == s[0];
        assert forall i :: 0 <= i < |init| ==> init[i] == s[i];
      }
      var v := ParseDigits(init);
      assert v != 0 by {
        assert init[0] != '0';
      }
      var n := v * 10 + DigitValue(c);
      assert ParseDigits(s) == n;
      assert n >= 10 && n / 10 == v && n % 10 == DigitValue(c);
      FormatParse(init);
      assert NatToString(ParseDigits(s)) == NatToString(v) + [DigitChar(DigitValue(c))];
      assert init + [c] == s;
    }
  }
}
