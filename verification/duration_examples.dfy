/**
  Worked arguments of `/mute`'s duration option: the thirty-day cap is
  inclusive, a day more is capped, hours are not a unit, zero is rejected,
  and padding and case do not matter.
*/
module DurationExamples {
  import opened Wrappers
  import opened Ascii
  import opened Duration

  lemma DigitsThirty(d: string)
    requires d == "30"
    ensures AllDigits(d) && DigitsValue(d) == 30
  {
    assert d[..1] == "3" && d[..1][..0] == [];
    assert DigitsValue(d[..1]) == 3;
  }

  lemma DigitsThirtyOne(d: string)
    requires d == "31"
    ensures AllDigits(d) && DigitsValue(d) == 31
  {
    assert d[..1] == "3" && d[..1][..0] == [];
    assert DigitsValue(d[..1]) == 3;
  }

  lemma DigitsTen(d: string)
    requires d == "10"
    ensures AllDigits(d) && DigitsValue(d) == 10
  {
    assert d[..1] == "1" && d[..1][..0] == [];
    assert DigitsValue(d[..1]) == 1;
  }

  lemma DigitsZero(d: string)
    requires d == "0"
    ensures AllDigits(d) && DigitsValue(d) == 0
  {
  }

  lemma DescribeThirtyDays()
    ensures Describe(30, Day) == "30 days"
  {
    assert NatToString(30) == "30" by { assert NatToString(3) == "3"; }
  }

  lemma DescribeTenMinutes()
    ensures Describe(10, Minute) == "10 minutes"
  {
    assert NatToString(10) == "10" by { assert NatToString(1) == "1"; }
  }

  /** "30d" is exactly the maximum and is not reported as capped. */
  lemma ThirtyDaysIsTheCap(s: string)
    requires s == "30d"
    ensures Parse(Some(s)) == Some(Parsed(MaxDurationMs, "30 days", false))
  {
    TrimLowerOfCanonical(s);
    DigitsThirty("30");
    assert Fits(s, "30", "", "d");
    assert UnitOf("d") == Some(Day);
    ParseComplete(s, "30", "", "d");
    DescribeThirtyDays();
  }

  /** "31d" exceeds the maximum and is capped to thirty days. */
  lemma ThirtyOneDaysIsCapped(s: string)
    requires s == "31d"
    ensures Parse(Some(s)) == Some(Parsed(MaxDurationMs, ClampedText, true))
  {
    TrimLowerOfCanonical(s);
    DigitsThirtyOne("31");
    assert Fits(s, "31", "", "d");
    assert UnitOf("d") == Some(Day);
    ParseComplete(s, "31", "", "d");
  }

  /** Hours are not among the units. */
  lemma HoursAreRejected(s: string)
    requires s == "10h"
    ensures Parse(Some(s)) == None
  {
    TrimLowerOfCanonical(s);
    DigitsTen("10");
    assert Fits(s, "10", "", "h");
    assert UnitOf("h") == None;
    ParseComplete(s, "10", "", "h");
  }

  /** A zero amount is rejected. */
  lemma ZeroIsRejected(s: string)
    requires s == "0s"
    ensures Parse(Some(s)) == None
  {
    TrimLowerOfCanonical(s);
    DigitsZero("0");
    assert Fits(s, "0", "", "s");
    ParseComplete(s, "0", "", "s");
  }

  lemma PaddedShoutedForm(s: string)
    requires s == " 10 MIN "
    ensures TrimLower(s) == "10 min"
  {
    assert SkipSpace(s, 0) == 1;
    assert SkipSpaceBack(s, 1, 8) == 7;
    assert Trim(s) == "10 MIN";
  }

  lemma TenMinutes(t: string)
    requires t == "10 min"
    ensures Parse(Some(t)) == Some(Parsed(600000, "10 minutes", false))
  {
    TrimLowerOfCanonical(t);
    DigitsTen("10");
    assert Fits(t, "10", " ", "min");
    assert UnitOf("min") == Some(Minute);
    ParseComplete(t, "10", " ", "min");
    DescribeTenMinutes();
  }

  /** Surrounding whitespace and capitals are ignored. */
  lemma PaddingAndCaseIgnored(s: string)
    requires s == " 10 MIN "
    ensures Parse(Some(s)) == Some(Parsed(600000, "10 minutes", false))
  {
    PaddedShoutedForm(s);
    ParseIgnoresCaseAndPadding(s);
    TenMinutes("10 min");
  }
}
