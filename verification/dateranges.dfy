/** Expansion of a row's start_date..end_date into the individual "YYYY-MM-DD" strings
    of the days it covers: `new Date(start)`, then `toISOString` and `setDate(+1)` while
    `d <= new Date(end)` (app/page.tsx:68-73, app/leave/page.tsx:94-100). */
module DateRanges {
  import opened Wrappers
  import opened Calendar
  import opened Lex
  import opened DateStrings

  /** The strings of the days `ds`, in the same order. */
  function IsoDates(ds: seq<Date>): (r: seq<string>)
    requires forall i :: 0 <= i < |ds| ==> IsoRepresentable(ds[i])
    ensures |r| == |ds|
    ensures forall i :: 0 <= i < |r| ==> ParseIso(r[i]) == Some(ds[i])
    ensures forall i :: 0 <= i < |r| ==> r[i] == IsoDate(ds[i])
  {
    forall i | 0 <= i < |ds| ensures ParseIso(IsoDate(ds[i])) == Some(ds[i]) {
      ParseIsoDate(ds[i]);
    }
    seq(|ds|, i requires 0 <= i < |ds| => IsoDate(ds[i]))
  }

  /** Every day from `start` to `end` inclusive, as date strings; nothing when either end
      is not a date string or `end` is earlier than `start`. */
  function ExpandRange(start: string, end: string): (r: seq<string>)
    ensures forall i :: 0 <= i < |r| ==> IsDateString(r[i]) && LexLe(start, r[i]) && LexLe(r[i], end)
    ensures forall i, j :: 0 <= i < j < |r| ==> LexLe(r[i], r[j]) && r[i] != r[j]
    ensures IsDateString(start) && IsDateString(end) ==>
              forall t :: IsDateString(t) && LexLe(start, t) && LexLe(t, end) ==> t in r
    ensures !IsDateString(start) || !IsDateString(end) ==> r == []
  {
    match (ParseIso(start), ParseIso(end))
    case (Some(a), Some(b)) =>
      var ds := DaysBetween(a, b);
      assert forall i :: 0 <= i < |ds| ==> IsoRepresentable(ds[i]);
      var r := IsoDates(ds);
      ExpandRangeSound(start, end, a, b, ds, r);
      ExpandRangeComplete(start, end, a, b, ds, r);
      r
    case _ => []
  }

  lemma ExpandRangeSound(start: string, end: string, a: Date, b: Date, ds: seq<Date>, r: seq<string>)
    requires ParseIso(start) == Some(a) && ParseIso(end) == Some(b)
    requires ds == DaysBetween(a, b)
    requires forall i :: 0 <= i < |ds| ==> IsoRepresentable(ds[i])
    requires r == IsoDates(ds)
    ensures forall i :: 0 <= i < |r| ==> IsDateString(r[i]) && LexLe(start, r[i]) && LexLe(r[i], end)
    ensures forall i, j :: 0 <= i < j < |r| ==> LexLe(r[i], r[j]) && r[i] != r[j]
  {
    IsoDateOfParse(start);
    IsoDateOfParse(end);
    forall i | 0 <= i < |r|
      ensures IsDateString(r[i]) && LexLe(start, r[i]) && LexLe(r[i], end)
    {
      IsoDateOrder(a, ds[i]);
      IsoDateOrder(ds[i], b);
    }
    forall i, j | 0 <= i < j < |r| ensures LexLe(r[i], r[j]) && r[i] != r[j] {
      IsoDateOrder(ds[i], ds[j]);
      IsoDateInjective(ds[i], ds[j]);
    }
  }

  lemma ExpandRangeComplete(start: string, end: string, a: Date, b: Date, ds: seq<Date>, r: seq<string>)
    requires ParseIso(start) == Some(a) && ParseIso(end) == Some(b)
    requires ds == DaysBetween(a, b)
    requires forall i :: 0 <= i < |ds| ==> IsoRepresentable(ds[i])
    requires r == IsoDates(ds)
    ensures forall t :: IsDateString(t) && LexLe(start, t) && LexLe(t, end) ==> t in r
  {
    IsoDateOfParse(start);
    IsoDateOfParse(end);
    forall t | IsDateString(t) && LexLe(start, t) && LexLe(t, end) ensures t in r {
      var x := ParseIso(t).value;
      IsoDateOfParse(t);
      IsoDateOrder(a, x);
      IsoDateOrder(x, b);
      var i :| 0 <= i < |ds| && ds[i] == x;
      assert r[i] == t;
    }
  }

  /** A single-day row (start_date == end_date) contributes exactly its own date. */
  lemma ExpandRangeSingleDay(s: string)
    requires IsDateString(s)
    ensures ExpandRange(s, s) == [s]
  {
    var a := ParseIso(s).value;
    DaysBetweenSingle(a);
    IsoDateOfParse(s);
    assert IsoDates([a]) == [IsoDate(a)];
  }

  lemma ExpandRangeOfDates(start: string, end: string, a: Date, b: Date)
    requires ParseIso(start) == Some(a) && ParseIso(end) == Some(b)
    ensures forall i :: 0 <= i < |DaysBetween(a, b)| ==> IsoRepresentable(DaysBetween(a, b)[i])
    ensures ExpandRange(start, end) == IsoDates(DaysBetween(a, b))
  {
  }
}
