/** Worked calendar cases: concrete ranges and their spellings. */
module CalendarExamples {
  import opened Calendar
  import opened DateStrings
  import opened DateRanges

  lemma IsoDateJanuary30()
    ensures IsoDate(Date(2025, 1, 30)) == "2025-01-30"
  {
    YearDigits2025();
    assert Digits(1, 2) == "01" && Digits(30, 2) == "30";
  }

  lemma IsoDateJanuary31()
    ensures IsoDate(Date(2025, 1, 31)) == "2025-01-31"
  {
    YearDigits2025();
    assert Digits(1, 2) == "01" && Digits(31, 2) == "31";
  }

  lemma IsoDateFebruary1()
    ensures IsoDate(Date(2025, 2, 1)) == "2025-02-01"
  {
    YearDigits2025();
    assert Digits(2, 2) == "02" && Digits(1, 2) == "01";
  }

  /** A range the calendar expands to three days spells out as those three days. */
  lemma ThreeDayRange(a: Date, b: Date, c: Date)
    requires IsoRepresentable(a) && IsoRepresentable(b) && IsoRepresentable(c)
    requires DaysBetween(a, c) == [a, b, c]
    ensures ExpandRange(IsoDate(a), IsoDate(c)) == [IsoDate(a), IsoDate(b), IsoDate(c)]
  {
    ParseIsoDate(a);
    ParseIsoDate(c);
    ExpandRangeOfDates(IsoDate(a), IsoDate(c), a, c);
    var r := IsoDates([a, b, c]);
    assert r[0] == IsoDate(a) && r[1] == IsoDate(b) && r[2] == IsoDate(c);
  }

  /** The month-boundary range 2025-01-30..2025-02-01 expands to three month-correct days
      (the three `IsoDate` values are spelled out by the lemmas above). */
  lemma ExpandRangeAcrossMonths()
    ensures ExpandRange(IsoDate(Date(2025, 1, 30)), IsoDate(Date(2025, 2, 1)))
         == [IsoDate(Date(2025, 1, 30)), IsoDate(Date(2025, 1, 31)), IsoDate(Date(2025, 2, 1))]
  {
    DaysBetweenAcrossMonths();
    ThreeDayRange(Date(2025, 1, 30), Date(2025, 1, 31), Date(2025, 2, 1));
  }
}
