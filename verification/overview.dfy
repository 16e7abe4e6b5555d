/** The main page (app/page.tsx): the three-month schedule view, the personal used-date
    set, month navigation and the annual grid. */
module Overview {
  import opened Seqs
  import opened Lex
  import opened Calendar
  import opened DateStrings
  import opened DateRanges
  import opened LeaveRequests
  import opened LeaveBalance

  /** `s.start_date <= dateStr && s.end_date >= dateStr`, a comparison of strings. For
      well-formed date strings it agrees with the day-by-day expansion of the row's range. */
  function Covers(d: string): (c: Row -> bool)
    ensures forall x: Row :: IsDateString(x.startDate) && IsDateString(x.endDate) && IsDateString(d) ==>
      (c(x) <==> d in ExpandRange(x.startDate, x.endDate))
  {
    var c := (x: Row) => LexLe(x.startDate, d) && LexLe(d, x.endDate);
    assert forall x: Row :: IsDateString(x.startDate) && IsDateString(x.endDate) && IsDateString(d) ==>
      (c(x) <==> d in ExpandRange(x.startDate, x.endDate)) by {
      forall x: Row | IsDateString(x.startDate) && IsDateString(x.endDate) && IsDateString(d)
        ensures c(x) <==> d in ExpandRange(x.startDate, x.endDate)
      {
        var r := ExpandRange(x.startDate, x.endDate);
        if d in r {
          var i :| 0 <= i < |r| && r[i] == d;
        }
      }
    }
    c
  }

  /** `getSchedulesForDay(dateStr)` */
  function SchedulesForDay(rows: seq<Row>, d: string): (r: seq<Row>)
    ensures forall x :: x in r <==> x in rows && LexLe(x.startDate, d) && LexLe(d, x.endDate)
    ensures |r| <= |rows|
  {
    Filter(rows, Covers(d))
  }

  /** The day's list keeps the order of the fetched rows. */
  lemma SchedulesForDayKeepsOrder(rows: seq<Row>, d: string, i: nat)
    requires i <= |rows|
    ensures SchedulesForDay(rows, d) == SchedulesForDay(rows[..i], d) + SchedulesForDay(rows[i..], d)
  {
    assert rows == rows[..i] + rows[i..];
    FilterAppend(rows[..i], rows[i..], Covers(d));
  }

  /** A single-day row is listed on exactly its own day. */
  lemma SingleDayRowListedOnItsDay(x: Row, d: string)
    requires x.startDate == x.endDate
    ensures Covers(d)(x) <==> x.startDate == d
  {
    if x.startDate == d { LexLeReflexive(d); }
    if Covers(d)(x) { LexLeAntisymmetric(x.startDate, d); }
  }


  /** What a day cell shows: the first three entries and, beyond those, a "+n명" count. */
  datatype DayCell = DayCell(shown: seq<Row>, more: nat)

  function DayCellFor(daySchedules: seq<Row>): (c: DayCell)
    ensures |c.shown| <= 3 && c.shown <= daySchedules
    ensures |c.shown| + c.more == |daySchedules|
    ensures c.more > 0 ==> |c.shown| == 3
  {
    if |daySchedules| > 3 then DayCell(daySchedules[..3], |daySchedules| - 3)
    else DayCell(daySchedules, 0)
  }

  /** `usedDates`: every day of every approved 연차/반차 row of the user, as ISO strings. */
  function UsedDates(rows: seq<Row>, uid: string): (r: set<string>)
    ensures forall d :: d in r <==>
      exists x :: x in rows && Counts(uid, AnnualKinds, x) && d in ExpandRange(x.startDate, x.endDate)
    decreases |rows|
  {
    if |rows| == 0 then {}
    else
      var rest := UsedDates(rows[1..], uid);
      var here := if Counts(uid, AnnualKinds, rows[0]) then set d | d in ExpandRange(rows[0].startDate, rows[0].endDate) else {};
      assert forall d :: d in here + rest <==>
        exists x :: x in rows && Counts(uid, AnnualKinds, x) && d in ExpandRange(x.startDate, x.endDate)
      by {
        forall d ensures d in here + rest <==>
          exists x :: x in rows && Counts(uid, AnnualKinds, x) && d in ExpandRange(x.startDate, x.endDate)
        {
          if d in rest {
            var x :| x in rows[1..] && Counts(uid, AnnualKinds, x) && d in ExpandRange(x.startDate, x.endDate);
            assert x in rows;
          }
          if exists x :: x in rows && Counts(uid, AnnualKinds, x) && d in ExpandRange(x.startDate, x.endDate) {
            var x :| x in rows && Counts(uid, AnnualKinds, x) && d in ExpandRange(x.startDate, x.endDate);
            if x != rows[0] {
              assert x in rows[1..];
            }
          }
        }
      }
      here + rest
  }

  /** On rows with well-formed dates, a day is in the used set exactly when one of the
      user's approved 연차/반차 rows is listed on that day in the schedule view. */
  lemma UsedDatesAreCoveredDays(rows: seq<Row>, uid: string, d: string)
    requires forall x :: x in rows ==> IsDateString(x.startDate) && IsDateString(x.endDate)
    ensures d in UsedDates(rows, uid) <==>
      IsDateString(d) && exists x :: x in SchedulesForDay(rows, d) && Counts(uid, AnnualKinds, x)
  {
    if d in UsedDates(rows, uid) {
      var x :| x in rows && Counts(uid, AnnualKinds, x) && d in ExpandRange(x.startDate, x.endDate);
      var r := ExpandRange(x.startDate, x.endDate);
      var i :| 0 <= i < |r| && r[i] == d;
      assert x in SchedulesForDay(rows, d);
    }
    if IsDateString(d) && exists x :: x in SchedulesForDay(rows, d) && Counts(uid, AnnualKinds, x) {
      var x :| x in SchedulesForDay(rows, d) && Counts(uid, AnnualKinds, x);
    }
  }

  /** A single-day row contributes exactly its own date. */
  lemma UsedDatesSingleDay(x: Row, uid: string)
    requires Counts(uid, AnnualKinds, x) && IsDateString(x.startDate) && x.startDate == x.endDate
    ensures UsedDates([x], uid) == {x.startDate}
  {
    ExpandRangeSingleDay(x.startDate);
  }

  /** A year and a zero-based month, as the page keeps them. */
  datatype YearMonth = YearMonth(year: int, month0: int)

  predicate ValidMonth(ym: YearMonth) {
    0 <= ym.month0 <= 11
  }

  /** The month's position on a single running count of months. */
  function MonthIndex(ym: YearMonth): int {
    ym.year * 12 + ym.month0
  }

  /** The ◀ and ▶ buttons. */
  function NextMonth(ym: YearMonth): (r: YearMonth)
    requires ValidMonth(ym)
    ensures ValidMonth(r) && MonthIndex(r) == MonthIndex(ym) + 1
  {
    if ym.month0 == 11 then YearMonth(ym.year + 1, 0) else YearMonth(ym.year, ym.month0 + 1)
  }

  function PrevMonth(ym: YearMonth): (r: YearMonth)
    requires ValidMonth(ym)
    ensures ValidMonth(r) && MonthIndex(r) == MonthIndex(ym) - 1
  {
    if ym.month0 == 0 then YearMonth(ym.year - 1, 11) else YearMonth(ym.year, ym.month0 - 1)
  }

  lemma MonthIndexInjective(a: YearMonth, b: YearMonth)
    requires ValidMonth(a) && ValidMonth(b) && MonthIndex(a) == MonthIndex(b)
    ensures a == b
  {
    var k := a.year - b.year;
    assert k * 12 == b.month0 - a.month0;
  }

  /** ◀ undoes ▶ and ▶ undoes ◀. */
  lemma NextPrevInverse(ym: YearMonth)
    requires ValidMonth(ym)
    ensures PrevMonth(NextMonth(ym)) == ym && NextMonth(PrevMonth(ym)) == ym
  {
    MonthIndexInjective(PrevMonth(NextMonth(ym)), ym);
    MonthIndexInjective(NextMonth(PrevMonth(ym)), ym);
  }

  /** The `offset`-th of the three months shown (`mOffset`, `yOffset`; the header's
      `m2`, `y2` is offset 2). */
  function DisplayedMonth(current: YearMonth, offset: int): (r: YearMonth)
    requires ValidMonth(current) && 0 <= offset <= 2
    ensures ValidMonth(r)
    ensures r.year == if current.month0 + offset > 11 then current.year + 1 else current.year
    ensures MonthIndex(r) == MonthIndex(current) + offset
  {
    YearMonth(if current.month0 + offset > 11 then current.year + 1 else current.year, (current.month0 + offset) % 12)
  }

  /** The three months shown are the current one and the next two ▶ steps. */
  lemma DisplayedMonthsAreNextSteps(current: YearMonth)
    requires ValidMonth(current)
    ensures DisplayedMonth(current, 0) == current
    ensures DisplayedMonth(current, 1) == NextMonth(current)
    ensures DisplayedMonth(current, 2) == NextMonth(NextMonth(current))
  {
    MonthIndexInjective(DisplayedMonth(current, 0), current);
    MonthIndexInjective(DisplayedMonth(current, 1), NextMonth(current));
    MonthIndexInjective(DisplayedMonth(current, 2), NextMonth(NextMonth(current)));
  }

  /** The key of an annual-grid cell: `${calYear}-${mm}-${dd}` with a 1-based month. For
      four-digit years it is the ISO spelling of the day, the spelling the used-date set is
      built from. */
  function GridKey(year: int, month: int, day: int): (k: string)
    ensures Valid(Date(year, month, day)) && 1000 <= year <= 9999 ==> k == IsoDate(Date(year, month, day))
  {
    var k := IntToString(year) + "-" + PadStart2(IntToString(month)) + "-" + PadStart2(IntToString(day));
    assert k == ToDateStr(year, month - 1, day);
    k
  }

  /** The colour of an annual-grid cell. */
  datatype Shade = Blank | UsedShade | HolidayShade | WeekendShade | PlainShade

  /** Days past the end of the month are blank; otherwise used beats holiday beats
      weekend beats the default. Whether the day is a weekend is given. */
  function AnnualCell(year: int, month: int, day: int, used: set<string>, holidays: set<string>, weekend: bool): (c: Shade)
    requires 1 <= month <= 12 && 1 <= day <= 31
    ensures c == Blank <==> day > DaysInMonth(year, month)
    ensures c == UsedShade <==> day <= DaysInMonth(year, month) && GridKey(year, month, day) in used
    ensures c == HolidayShade <==>
      day <= DaysInMonth(year, month) && GridKey(year, month, day) !in used && GridKey(year, month, day) in holidays
    ensures c == WeekendShade <==>
      day <= DaysInMonth(year, month) && GridKey(year, month, day) !in used && GridKey(year, month, day) !in holidays && weekend
  {
    if day > DaysInMonth(year, month) then Blank
    else
      var key := GridKey(year, month, day);
      if key in used then UsedShade
      else if key in holidays then HolidayShade
      else if weekend then WeekendShade
      else PlainShade
  }

  /** Every day an approved 연차/반차 row of the user covers shows as used in the annual
      grid, whatever holiday or weekend falls on it. */
  lemma ApprovedLeaveShowsInGrid(rows: seq<Row>, uid: string, x: Row, d: Date, holidays: set<string>, weekend: bool)
    requires x in rows && Counts(uid, AnnualKinds, x)
    requires IsDateString(x.startDate) && IsDateString(x.endDate)
    requires Valid(d) && 1000 <= d.year <= 9999
    requires LexLe(x.startDate, IsoDate(d)) && LexLe(IsoDate(d), x.endDate)
    ensures AnnualCell(d.year, d.month, d.day, UsedDates(rows, uid), holidays, weekend) == UsedShade
  {
    ParseIsoDate(d);
    assert Date(d.year, d.month, d.day) == d;
    assert GridKey(d.year, d.month, d.day) == IsoDate(d);
    assert IsoDate(d) in ExpandRange(x.startDate, x.endDate);
    assert IsoDate(d) in UsedDates(rows, uid);
  }
}
