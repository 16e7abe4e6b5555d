/** Proleptic Gregorian calendar dates and the day-by-day walk the pages use to turn
    a start..end range into individual days (app/page.tsx:64-74, app/leave/page.tsx:94-100). */
module Calendar {

  /** A calendar date; `month` runs 1..12 as in "YYYY-MM-DD" strings. */
  datatype Date = Date(year: int, month: int, day: int)

  predicate IsLeapYear(y: int) {
    (y % 4 == 0 && y % 100 != 0) || y % 400 == 0
  }

  function DaysInMonth(y: int, m: int): (n: int)
    requires 1 <= m <= 12
    ensures 28 <= n <= 31
    ensures n == 29 <==> m == 2 && IsLeapYear(y)
  {
    if m == 2 then (if IsLeapYear(y) then 29 else 28)
    else if m == 4 || m == 6 || m == 9 || m == 11 then 30
    else 31
  }

  /** The date exists on the calendar. */
  predicate Valid(d: Date) {
    1 <= d.month <= 12 && 1 <= d.day <= DaysInMonth(d.year, d.month)
  }

  /** Chronological order: `a` is the same day as `b` or earlier. */
  predicate NotAfter(a: Date, b: Date) {
    || a.year < b.year
    || (a.year == b.year && (a.month < b.month || (a.month == b.month && a.day <= b.day)))
  }

  /** The following calendar day (JavaScript's `d.setDate(d.getDate() + 1)`). */
  function NextDay(d: Date): (r: Date)
    requires Valid(d)
    ensures Valid(r)
    ensures NotAfter(d, r) && r != d
    ensures forall x :: Valid(x) && NotAfter(d, x) && x != d ==> NotAfter(r, x)
  {
    if d.day < DaysInMonth(d.year, d.month) then Date(d.year, d.month, d.day + 1)
    else if d.month < 12 then Date(d.year, d.month + 1, 1)
    else Date(d.year + 1, 1, 1)
  }

  /** Every calendar day from `start` to `end`, both included, in chronological order;
      empty when `end` comes before `start` (the `while (d <= end)` loop). */
  function DaysBetween(start: Date, end: Date): (r: seq<Date>)
    requires Valid(start)
    ensures forall i :: 0 <= i < |r| ==> Valid(r[i]) && NotAfter(start, r[i]) && NotAfter(r[i], end)
    ensures forall i, j :: 0 <= i < j < |r| ==> NotAfter(r[i], r[j]) && r[i] != r[j]
    ensures forall x :: Valid(x) && NotAfter(start, x) && NotAfter(x, end) ==> x in r
    ensures |r| > 0 <==> NotAfter(start, end)
    ensures |r| > 0 ==> r[0] == start
    decreases end.year - start.year, 12 - start.month, 31 - start.day
  {
    if !NotAfter(start, end) then []
    else [start] + DaysBetween(NextDay(start), end)
  }

  /** A range whose start and end coincide is exactly that one day. */
  lemma DaysBetweenSingle(d: Date)
    requires Valid(d)
    ensures DaysBetween(d, d) == [d]
  {
    assert !NotAfter(NextDay(d), d);
  }

  /** The month-boundary case: 30 January to 1 February is three days, month-correct. */
  lemma DaysBetweenAcrossMonths()
    ensures DaysBetween(Date(2025, 1, 30), Date(2025, 2, 1))
         == [Date(2025, 1, 30), Date(2025, 1, 31), Date(2025, 2, 1)]
  {
    assert NextDay(Date(2025, 1, 30)) == Date(2025, 1, 31);
    assert NextDay(Date(2025, 1, 31)) == Date(2025, 2, 1);
    assert NextDay(Date(2025, 2, 1)) == Date(2025, 2, 2);
    assert DaysBetween(Date(2025, 2, 2), Date(2025, 2, 1)) == [];
  }

  /** The leap-day case: 28 February to 1 March spans 29 February only in a leap year. */
  lemma DaysBetweenLeapDay()
    ensures |DaysBetween(Date(2024, 2, 28), Date(2024, 3, 1))| == 3
    ensures |DaysBetween(Date(2025, 2, 28), Date(2025, 3, 1))| == 2
  {
    assert NextDay(Date(2024, 2, 28)) == Date(2024, 2, 29);
    assert NextDay(Date(2024, 2, 29)) == Date(2024, 3, 1);
    assert NextDay(Date(2024, 3, 1)) == Date(2024, 3, 2);
    assert NextDay(Date(2025, 2, 28)) == Date(2025, 3, 1);
    assert NextDay(Date(2025, 3, 1)) == Date(2025, 3, 2);
  }
}
