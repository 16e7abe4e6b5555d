/** `getKoreanHolidays(year)` (app/page.tsx:7-26): eight fixed-date holidays for every year,
    plus a hand-written table of lunar-calendar holidays for 2024 to 2027. The dates are
    strings; collecting them in a set drops repeats. */
module Holidays {
  import opened Seqs
  import opened DateStrings
  import opened Overview

  /** 신정, 삼일절, 어린이날, 현충일, 광복절, 개천절, 한글날 and 성탄절 of `year`. */
  function FixedHolidays(year: int): seq<string> {
    var y := IntToString(year);
    [y + "-01-01", y + "-03-01", y + "-05-05", y + "-06-06", y + "-08-15", y + "-10-03", y + "-10-09", y + "-12-25"]
  }

  function LunarHolidays(year: int): seq<string> {
    if year == 2024 then ["2024-02-09", "2024-02-10", "2024-02-11", "2024-05-15", "2024-09-16", "2024-09-17", "2024-09-18"]
    else if year == 2025 then ["2025-01-28", "2025-01-29", "2025-01-30", "2025-05-05", "2025-10-05", "2025-10-06", "2025-10-07"]
    else if year == 2026 then ["2026-02-17", "2026-02-18", "2026-02-19", "2026-05-24", "2026-09-24", "2026-09-25", "2026-09-26"]
    else if year == 2027 then ["2027-02-06", "2027-02-07", "2027-02-08", "2027-05-13", "2027-09-14", "2027-09-15", "2027-09-16"]
    else []
  }

  function KoreanHolidays(year: int): (h: set<string>)
    ensures forall d :: d in FixedHolidays(year) ==> d in h
    ensures forall d :: d in LunarHolidays(year) ==> d in h
    ensures !(2024 <= year <= 2027) ==> h == set d | d in FixedHolidays(year)
  {
    set d | d in FixedHolidays(year) + LunarHolidays(year)
  }

  lemma GridKeyWithSuffix(year: int, m: int, d: int, mm: string, dd: string)
    requires PadStart2(IntToString(m)) == mm && PadStart2(IntToString(d)) == dd
    ensures GridKey(year, m, d) == IntToString(year) + ("-" + mm + "-" + dd)
  {
    RegroupTail(IntToString(year), "-", mm, "-", dd);
  }

  lemma RegroupTail(a: string, b: string, c: string, d: string, e: string)
    ensures a + b + c + d + e == a + (b + c + d + e)
  {
  }

  /** `String(n).padStart(2, '0')` spelled out for `n` = 10a + b below 100. */
  lemma Padded(n: nat, a: nat, b: nat)
    requires a <= 9 && b <= 9 && n == 10 * a + b
    ensures PadStart2(IntToString(n)) == [DigitChar(a), DigitChar(b)]
  {
    PadStart2IsDigits(n);
    TwoDigits(n, a, b);
  }

  lemma TwoDigits(n: nat, a: nat, b: nat)
    requires a <= 9 && b <= 9 && n == 10 * a + b
    ensures Digits(n, 2) == [DigitChar(a), DigitChar(b)]
  {
    assert n / 10 == a && n % 10 == b;
    OneDigit(a);
  }

  lemma OneDigit(a: nat)
    requires a <= 9
    ensures Digits(a, 1) == [DigitChar(a)]
  {
    assert a / 10 == 0 && a % 10 == a;
    assert Digits(a / 10, 0) == [];
  }

  /** The fixed holidays are spelled exactly as the annual grid spells those days (one
      lemma per holiday keeps each literal computation small). */
  lemma NewYearKey(year: int)
    ensures FixedHolidays(year)[0] == GridKey(year, 1, 1)
  {
    Padded(1, 0, 1);
    GridKeyWithSuffix(year, 1, 1, "01", "01");
    assert "-" + "01" + "-" + "01" == "-01-01";
  }

  lemma IndependenceMovementDayKey(year: int)
    ensures FixedHolidays(year)[1] == GridKey(year, 3, 1)
  {
    Padded(3, 0, 3);
    Padded(1, 0, 1);
    GridKeyWithSuffix(year, 3, 1, "03", "01");
    assert "-" + "03" + "-" + "01" == "-03-01";
  }

  lemma ChildrensDayKey(year: int)
    ensures FixedHolidays(year)[2] == GridKey(year, 5, 5)
  {
    Padded(5, 0, 5);
    GridKeyWithSuffix(year, 5, 5, "05", "05");
    assert "-" + "05" + "-" + "05" == "-05-05";
  }

  lemma MemorialDayKey(year: int)
    ensures FixedHolidays(year)[3] == GridKey(year, 6, 6)
  {
    Padded(6, 0, 6);
    GridKeyWithSuffix(year, 6, 6, "06", "06");
    assert "-" + "06" + "-" + "06" == "-06-06";
  }

  lemma LiberationDayKey(year: int)
    ensures FixedHolidays(year)[4] == GridKey(year, 8, 15)
  {
    Padded(8, 0, 8);
    Padded(15, 1, 5);
    GridKeyWithSuffix(year, 8, 15, "08", "15");
    assert "-" + "08" + "-" + "15" == "-08-15";
  }

  lemma FoundationDayKey(year: int)
    ensures FixedHolidays(year)[5] == GridKey(year, 10, 3)
  {
    Padded(10, 1, 0);
    Padded(3, 0, 3);
    GridKeyWithSuffix(year, 10, 3, "10", "03");
    assert "-" + "10" + "-" + "03" == "-10-03";
  }

  lemma HangulDayKey(year: int)
    ensures FixedHolidays(year)[6] == GridKey(year, 10, 9)
  {
    Padded(10, 1, 0);
    Padded(9, 0, 9);
    GridKeyWithSuffix(year, 10, 9, "10", "09");
    assert "-" + "10" + "-" + "09" == "-10-09";
  }

  lemma ChristmasKey(year: int)
    ensures FixedHolidays(year)[7] == GridKey(year, 12, 25)
  {
    Padded(12, 1, 2);
    Padded(25, 2, 5);
    GridKeyWithSuffix(year, 12, 25, "12", "25");
    assert "-" + "12" + "-" + "25" == "-12-25";
  }

  lemma FixedHolidaysAreGridKeys(year: int)
    ensures FixedHolidays(year) == [GridKey(year, 1, 1), GridKey(year, 3, 1), GridKey(year, 5, 5), GridKey(year, 6, 6),
                                    GridKey(year, 8, 15), GridKey(year, 10, 3), GridKey(year, 10, 9), GridKey(year, 12, 25)]
  {
    NewYearKey(year);
    IndependenceMovementDayKey(year);
    ChildrensDayKey(year);
    MemorialDayKey(year);
    LiberationDayKey(year);
    FoundationDayKey(year);
    HangulDayKey(year);
    ChristmasKey(year);
  }

  /** Whatever the year, the eight fixed holidays are in its set under the grid's spelling,
      so the annual grid shades each of them as a holiday unless it was used. */
  lemma FixedHolidaysShowInGrid(year: int, used: set<string>, weekend: bool)
    ensures var h := KoreanHolidays(year);
      && GridKey(year, 1, 1) in h && GridKey(year, 3, 1) in h && GridKey(year, 5, 5) in h && GridKey(year, 6, 6) in h
      && GridKey(year, 8, 15) in h && GridKey(year, 10, 3) in h && GridKey(year, 10, 9) in h && GridKey(year, 12, 25) in h
    ensures AnnualCell(year, 1, 1, used, KoreanHolidays(year), weekend) in {UsedShade, HolidayShade}
    ensures AnnualCell(year, 12, 25, used, KoreanHolidays(year), weekend) in {UsedShade, HolidayShade}
  {
    FixedHolidaysAreGridKeys(year);
    var f := FixedHolidays(year);
    assert f[0] in f && f[1] in f && f[2] in f && f[3] in f && f[4] in f && f[5] in f && f[6] in f && f[7] in f;
  }

  lemma FixedHolidaysDistinct(year: int)
    ensures forall i, j :: 0 <= i < j < 8 ==> FixedHolidays(year)[i] != FixedHolidays(year)[j]
  {
    var y := IntToString(year);
    var sfx := ["-01-01", "-03-01", "-05-05", "-06-06", "-08-15", "-10-03", "-10-09", "-12-25"];
    forall i, j | 0 <= i < j < 8 ensures FixedHolidays(year)[i] != FixedHolidays(year)[j] {
      assert FixedHolidays(year)[i] == y + sfx[i] && FixedHolidays(year)[j] == y + sfx[j];
      assert (y + sfx[i])[|y|..] == sfx[i] && (y + sfx[j])[|y|..] == sfx[j];
      assert sfx[i][2] != sfx[j][2] || sfx[i][5] != sfx[j][5];
    }
  }

  /** Outside 2024..2027 only the eight fixed days are holidays. */
  lemma HolidayCountOtherYears(year: int)
    requires !(2024 <= year <= 2027)
    ensures |KoreanHolidays(year)| == 8
  {
    FixedHolidaysDistinct(year);
    DistinctCardinality(FixedHolidays(year));
  }

  lemma YearStringLength(year: int)
    requires 1000 <= year <= 9999
    ensures |IntToString(year)| == 4
  {
    assert Pow10(3) == 1000 && Pow10(4) == 10000;
    DecimalIsDigits(year, 4);
  }

  /** No date is listed twice in 2024, 2026 or 2027, so each has 8 + 7 = 15 holidays. */
  lemma HolidayCount2024()
    ensures |KoreanHolidays(2024)| == 15
  {
    YearStringLength(2024);
    var all := FixedHolidays(2024) + LunarHolidays(2024);
    forall i, j | 0 <= i < j < |all| ensures all[i] != all[j] {
      assert all[i][6] != all[j][6] || all[i][8] != all[j][8] || all[i][9] != all[j][9];
    }
    DistinctCardinality(all);
  }

  lemma HolidayCount2026()
    ensures |KoreanHolidays(2026)| == 15
  {
    YearStringLength(2026);
    var all := FixedHolidays(2026) + LunarHolidays(2026);
    forall i, j | 0 <= i < j < |all| ensures all[i] != all[j] {
      assert all[i][6] != all[j][6] || all[i][8] != all[j][8] || all[i][9] != all[j][9];
    }
    DistinctCardinality(all);
  }

  lemma HolidayCount2027()
    ensures |KoreanHolidays(2027)| == 15
  {
    YearStringLength(2027);
    var all := FixedHolidays(2027) + LunarHolidays(2027);
    forall i, j | 0 <= i < j < |all| ensures all[i] != all[j] {
      assert all[i][6] != all[j][6] || all[i][8] != all[j][8] || all[i][9] != all[j][9];
    }
    DistinctCardinality(all);
  }

  /** In 2025 the lunar table repeats 어린이날 (2025-05-05), which the set keeps once:
      14 holidays. */
  lemma HolidayCount2025()
    ensures |KoreanHolidays(2025)| == 14
  {
    var all := FixedHolidays(2025) + LunarHolidays(2025);
    ChildrensDayRepeated2025();
    DropRepeat(all, 2, 11);
    Distinct2025WithoutRepeat();
    DistinctCardinality(DropAt(all, 11));
  }

  /** The fixed 어린이날 (position 2) and the lunar table's 2025-05-05 (position 11). */
  lemma ChildrensDayRepeated2025()
    ensures var all := FixedHolidays(2025) + LunarHolidays(2025);
      |all| == 15 && all[2] == all[11]
  {
    assert Pow10(3) == 1000 && Pow10(4) == 10000;
    DecimalIsDigits(2025, 4);
    YearDigits2025();
    var all := FixedHolidays(2025) + LunarHolidays(2025);
    assert all[2] == "2025" + "-05-05" && all[11] == "2025-05-05";
    forall k | 0 <= k < 10 ensures ("2025" + "-05-05")[k] == "2025-05-05"[k] {
      if k < 4 { assert ("2025" + "-05-05")[k] == "2025"[k]; } else { assert ("2025" + "-05-05")[k] == "-05-05"[k - 4]; }
    }
  }

  /** Apart from that repeat, the 2025 dates are all different. */
  lemma Distinct2025WithoutRepeat()
    ensures var all := FixedHolidays(2025) + LunarHolidays(2025);
      |all| == 15 &&
      var rest := DropAt(all, 11);
      forall i, j :: 0 <= i < j < |rest| ==> rest[i] != rest[j]
  {
    YearStringLength(2025);
    var all := FixedHolidays(2025) + LunarHolidays(2025);
    var rest := DropAt(all, 11);
    forall i, j | 0 <= i < j < |rest| ensures rest[i] != rest[j] {
      assert rest[i][6] != rest[j][6] || rest[i][8] != rest[j][8] || rest[i][9] != rest[j][9];
    }
  }
}
