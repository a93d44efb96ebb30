/** Decimal rendering of natural numbers, as Python's `str(int)` and f-string
    interpolation print them, and the matching reader. */
module Decimal {
  import opened Chars

  function DigitChar(d: nat): (c: char)
    requires d < 10
    ensures IsDigit(c)
  {
    ('0' as int + d) as char
  }

  function DigitValue(c: char): (d: nat)
    requires IsDigit(c)
    ensures d < 10
  {
    c as int - '0' as int
  }

  predicate AllDigits(s: string)
  {
    forall k :: 0 <= k < |s| ==> IsDigit(s[k])
  }

  /** The canonical decimal text of `n`: at least one digit, no leading zero. */
  function NatToString(n: nat): (s: string)
    ensures |s| > 0 && AllDigits(s)
    ensures s[0] == '0' ==> |s| == 1
  {
    if n < 10 then [DigitChar(n)] else NatToString(n / 10) + [DigitChar(n % 10)]
  }

  /** The value of a string of decimal digits (the empty string reads as 0). */
  function ParseNat(s: string): nat
    requires AllDigits(s)
  {
    if |s| == 0 then 0 else 10 * ParseNat(s[..|s| - 1]) + DigitValue(s[|s| - 1])
  }

  /** Reading the decimal text of `n` gives back `n`. */
  lemma {:induction false} ParseNatToString(n: nat)
    ensures ParseNat(NatToString(n)) == n
  {
    var s := NatToString(n);
    if n >= 10 {
      assert s[..|s| - 1] == NatToString(n / 10);
      ParseNatToString(n / 10);
    }
  }

  /** A digit string without a leading zero reads as a positive number. */
  lemma {:induction false} ParseNatPositive(s: string)
    requires AllDigits(s) && |s| > 0 && s[0] != '0'
    ensures ParseNat(s) > 0
  {
    if |s| > 1 {
      ParseNatPositive(s[..|s| - 1]);
    }
  }

  /** The canonical digit strings are exactly the decimal texts of numbers:
      rendering what was read gives back the same text. */
  lemma {:induction false} NatToStringParse(s: string)
    requires AllDigits(s) && |s| > 0
    requires s[0] == '0' ==> |s| == 1
    ensures NatToString(ParseNat(s)) == s
  {
    if |s| > 1 {
      var p := s[..|s| - 1];
      ParseNatPositive(p);
      NatToStringParse(p);
      var n := ParseNat(s);
      assert n / 10 == ParseNat(p);
      assert DigitChar(n % 10) == s[|s| - 1];
      assert s == p + [s[|s| - 1]];
    }
  }
}

/** Decimal texts of the totals that the playtime examples print. */
module DecimalExamples {
  import opened Decimal

  lemma PrintsSecondExample(n: nat)
    requires n == 1000
    ensures NatToString(n) == "1000"
  {
    assert NatToString(10) == "10";
    assert NatToString(100) == "100";
  }

  lemma PrintsMinuteExample(n: nat)
    requires n == 61000
    ensures NatToString(n) == "61000"
  {
    assert NatToString(61) == "61";
    assert NatToString(610) == "610";
    assert NatToString(6100) == "6100";
  }

  lemma PrintsPrefix(n: nat)
    requires n == 3661
    ensures NatToString(n) == "3661"
  {
    assert NatToString(36) == "36";
    assert NatToString(366) == "366";
  }

  lemma PrintsHourExample(n: nat)
    requires n == 3661000
    ensures NatToString(n) == "3661000"
  {
    PrintsPrefix(3661);
    assert NatToString(36610) == "36610";
    assert NatToString(366100) == "366100";
  }
}
