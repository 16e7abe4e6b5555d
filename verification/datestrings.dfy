/** The two ways the pages spell a date: `toDateStr` (app/leave/page.tsx:61-62,
    app/page.tsx:89-90), which writes the year with `String(year)`, and
    `toISOString().split('T')[0]` (app/page.tsx:71, app/leave/page.tsx:98), which always
    writes four year digits; plus reading a "YYYY-MM-DD" string back (`new Date(s)`). */
module DateStrings {
  import opened Wrappers
  import opened Calendar
  import opened Lex

  predicate IsDigit(c: char) {
    '0' <= c <= '9'
  }

  predicate AllDigits(s: string) {
    forall i :: 0 <= i < |s| ==> IsDigit(s[i])
  }

  function DigitChar(n: int): (c: char)
    requires 0 <= n <= 9
    ensures IsDigit(c)
  {
    ('0' as int + n) as char
  }

  function DigitValue(c: char): (n: int)
    requires IsDigit(c)
    ensures 0 <= n <= 9 && DigitChar(n) == c
  {
    c as int - '0' as int
  }

  function Pow10(k: nat): (p: nat)
    ensures p >= 1
  {
    if k == 0 then 1 else 10 * Pow10(k - 1)
  }

  /** JavaScript's `String(n)` for a non-negative integer: decimal without leading zeros. */
  function Decimal(n: nat): (s: string)
    ensures |s| >= 1 && AllDigits(s)
    ensures |s| > 1 ==> s[0] != '0'
    decreases n
  {
    if n < 10 then [DigitChar(n)] else Decimal(n / 10) + [DigitChar(n % 10)]
  }

  /** JavaScript's `String(i)` (or `${i}`) for any integer. */
  function IntToString(i: int): string {
    if i < 0 then "-" + Decimal(-i) else Decimal(i)
  }

  /** `s.padStart(2, '0')`: left-pads with zeros up to two characters, never truncates. */
  function PadStart2(s: string): (r: string)
    ensures |r| == if |s| >= 2 then |s| else 2
    ensures r[|r| - |s|..] == s
    ensures forall i :: 0 <= i < |r| - |s| ==> r[i] == '0'
  {
    if |s| >= 2 then s else if |s| == 1 then "0" + s else "00"
  }

  /** `toDateStr(year, month, day)`; `month0` is zero-based like `Date.getMonth()`. For a
      real day of a four-digit year it spells the day as `toISOString` does, so the
      calendar's keys and the stored dates compare as the same strings. */
  function ToDateStr(year: int, month0: int, day: int): (r: string)
    ensures Valid(Date(year, month0 + 1, day)) && 1000 <= year <= 9999 ==> r == IsoDate(Date(year, month0 + 1, day))
  {
    var r := IntToString(year) + "-" + PadStart2(IntToString(month0 + 1)) + "-" + PadStart2(IntToString(day));
    assert Valid(Date(year, month0 + 1, day)) && 1000 <= year <= 9999 ==> r == IsoDate(Date(year, month0 + 1, day)) by {
      if Valid(Date(year, month0 + 1, day)) && 1000 <= year <= 9999 {
        var d := Date(year, month0 + 1, day);
        assert Pow10(3) == 1000 && Pow10(4) == 10000;
        var y, m, dd := Digits(d.year, 4), Digits(d.month, 2), Digits(d.day, 2);
        assert IntToString(d.year) == y by { DecimalIsDigits(d.year, 4); }
        assert PadStart2(IntToString(month0 + 1)) == m by { PadStart2IsDigits(d.month); }
        assert PadStart2(IntToString(d.day)) == dd by { PadStart2IsDigits(d.day); }
        ConcatRightNested(y, "-", m, "-", dd);
      }
    }
    r
  }

  /** The last `k` decimal digits of `n`, zero-padded to exactly `k` characters. */
  function Digits(n: nat, k: nat): (s: string)
    ensures |s| == k && AllDigits(s)
  {
    if k == 0 then [] else Digits(n / 10, k - 1) + [DigitChar(n % 10)]
  }

  /** The number a string of digits spells. */
  function DigitsValue(s: string): (n: nat)
    requires AllDigits(s)
    ensures n < Pow10(|s|)
  {
    if |s| == 0 then 0
    else DigitsValue(s[..|s| - 1]) * 10 + DigitValue(s[|s| - 1])
  }

  lemma {:induction false} DigitsThenValue(n: nat, k: nat)
    requires n < Pow10(k)
    ensures DigitsValue(Digits(n, k)) == n
  {
    if k > 0 {
      var s := Digits(n, k);
      assert s[..k - 1] == Digits(n / 10, k - 1);
      DigitsThenValue(n / 10, k - 1);
    }
  }

  lemma {:induction false} ValueThenDigits(s: string)
    requires AllDigits(s)
    ensures Digits(DigitsValue(s), |s|) == s
  {
    if |s| > 0 {
      var k := |s|;
      var v := DigitsValue(s);
      assert v / 10 == DigitsValue(s[..k - 1]);
      assert v % 10 == DigitValue(s[k - 1]);
      ValueThenDigits(s[..k - 1]);
      assert s == s[..k - 1] + [s[k - 1]];
    }
  }

  /** Fixed-width digit strings compare like the numbers they spell. */
  lemma {:induction false} DigitsOrder(n: nat, m: nat, k: nat)
    requires n < Pow10(k) && m < Pow10(k)
    ensures LexLe(Digits(n, k), Digits(m, k)) <==> n <= m
  {
    if k > 0 {
      var p, q := Digits(n / 10, k - 1), Digits(m / 10, k - 1);
      TensOrder(n, m, Pow10(k - 1));
      LexLeConcat(p, [DigitChar(n % 10)], q, [DigitChar(m % 10)]);
      if n / 10 == m / 10 {
        DigitCharOrder(n % 10, m % 10);
      } else {
        DigitsThenValue(n / 10, k - 1);
        DigitsThenValue(m / 10, k - 1);
        DigitsOrder(n / 10, m / 10, k - 1);
      }
    }
  }

  /** Numbers with the same tens compare by their last digit, others by their tens. */
  lemma TensOrder(n: nat, m: nat, bound: nat)
    requires n < 10 * bound && m < 10 * bound
    ensures n / 10 < bound && m / 10 < bound
    ensures n / 10 == m / 10 ==> (n <= m <==> n % 10 <= m % 10)
    ensures n / 10 != m / 10 ==> (n <= m <==> n / 10 <= m / 10)
  {
  }

  /** One-digit strings compare like their digits. */
  lemma DigitCharOrder(a: int, b: int)
    requires 0 <= a <= 9 && 0 <= b <= 9
    ensures LexLe([DigitChar(a)], [DigitChar(b)]) <==> a <= b
  {
    assert [DigitChar(a)][1..] == [] && [DigitChar(b)][1..] == [];
  }

  /** Below 10^k and at least 10^(k-1), `String(n)` already has exactly `k` digits. */
  lemma {:induction false} DecimalIsDigits(n: nat, k: nat)
    requires k >= 1 && Pow10(k - 1) <= n < Pow10(k)
    ensures Decimal(n) == Digits(n, k)
  {
    if k > 1 {
      DecimalIsDigits(n / 10, k - 1);
    } else {
      assert Digits(n / 10, 0) == [];
    }
  }

  /** `String(n).padStart(2, '0')` is the two-digit spelling of `n` for 0..99. */
  lemma PadStart2IsDigits(n: nat)
    requires n < 100
    ensures PadStart2(IntToString(n)) == Digits(n, 2)
  {
    if n < 10 {
      assert Digits(n, 2) == Digits(0, 1) + [DigitChar(n)];
      assert Digits(0, 1) == "0";
    } else {
      DecimalIsDigits(n, 2);
    }
  }

  /** A date `toISOString` writes as "YYYY-MM-DD" (years 0..9999). */
  predicate IsoRepresentable(d: Date) {
    Valid(d) && 0 <= d.year <= 9999
  }

  /** `date.toISOString().split('T')[0]`. */
  function IsoDate(d: Date): (s: string)
    requires IsoRepresentable(d)
    ensures |s| == 10
  {
    Digits(d.year, 4) + ("-" + (Digits(d.month, 2) + ("-" + Digits(d.day, 2))))
  }

  /** Ten characters, `-` at positions 4 and 7, digits elsewhere. */
  predicate IsoShaped(s: string) {
    && |s| == 10 && s[4] == '-' && s[7] == '-'
    && AllDigits(s[..4]) && AllDigits(s[5..7]) && AllDigits(s[8..])
  }

  /** `new Date(s)` for a "YYYY-MM-DD" string: the calendar day it names, or None where
      JavaScript gives an Invalid Date (every `d <= end` test on it is then false). */
  function ParseIso(s: string): (r: Option<Date>)
    ensures r.Some? ==> IsoRepresentable(r.value) && IsoShaped(s)
  {
    if !IsoShaped(s) then None
    else
      var d := Date(DigitsValue(s[..4]), DigitsValue(s[5..7]), DigitsValue(s[8..]));
      assert Pow10(4) == 10000;
      if Valid(d) then Some(d) else None
  }

  /** A "YYYY-MM-DD" string naming a real calendar day. */
  predicate IsDateString(s: string) {
    ParseIso(s).Some?
  }

  lemma IsoDateParts(d: Date)
    requires IsoRepresentable(d)
    ensures IsoDate(d)[..4] == Digits(d.year, 4)
    ensures IsoDate(d)[4] == '-' && IsoDate(d)[7] == '-'
    ensures IsoDate(d)[5..7] == Digits(d.month, 2)
    ensures IsoDate(d)[8..] == Digits(d.day, 2)
  {
  }

  /** Reading back what `toISOString` wrote gives the same day. */
  lemma ParseIsoDate(d: Date)
    requires IsoRepresentable(d)
    ensures ParseIso(IsoDate(d)) == Some(d)
  {
    IsoDateParts(d);
    assert Pow10(4) == 10000 && Pow10(2) == 100;
    DigitsThenValue(d.year, 4);
    DigitsThenValue(d.month, 2);
    DigitsThenValue(d.day, 2);
  }

  /** A date string that parses is already in the canonical spelling. */
  lemma IsoDateOfParse(s: string)
    requires IsDateString(s)
    ensures IsoDate(ParseIso(s).value) == s
  {
    var d := ParseIso(s).value;
    var y, mo, da := s[..4], s[5..7], s[8..];
    assert d == Date(DigitsValue(y), DigitsValue(mo), DigitsValue(da));
    ValueThenDigits(y);
    ValueThenDigits(mo);
    ValueThenDigits(da);
    assert IsoDate(d) == y + ("-" + (mo + ("-" + da)));
    IsoShapedSplits(s);
  }

  lemma IsoShapedSplits(s: string)
    requires IsoShaped(s)
    ensures s == s[..4] + ("-" + (s[5..7] + ("-" + s[8..])))
  {
  }

  /** Two date strings name the same day only if they are the same string. */
  lemma IsoDateInjective(a: Date, b: Date)
    requires IsoRepresentable(a) && IsoRepresentable(b)
    ensures IsoDate(a) == IsoDate(b) <==> a == b
  {
    ParseIsoDate(a);
    ParseIsoDate(b);
  }

  /** String comparison of ISO date strings is chronological comparison of the dates;
      this is why the pages may compare and sort dates as plain strings. */
  lemma IsoDateOrder(a: Date, b: Date)
    requires IsoRepresentable(a) && IsoRepresentable(b)
    ensures LexLe(IsoDate(a), IsoDate(b)) <==> NotAfter(a, b)
  {
    assert Pow10(4) == 10000 && Pow10(2) == 100;
    var ya, yb := Digits(a.year, 4), Digits(b.year, 4);
    var ma, mb := Digits(a.month, 2), Digits(b.month, 2);
    var da, db := Digits(a.day, 2), Digits(b.day, 2);
    DigitsThenValue(a.year, 4);
    DigitsThenValue(b.year, 4);
    DigitsThenValue(a.month, 2);
    DigitsThenValue(b.month, 2);
    DigitsOrder(a.year, b.year, 4);
    DigitsOrder(a.month, b.month, 2);
    DigitsOrder(a.day, b.day, 2);
    LexLeConcat(ya, "-" + (ma + ("-" + da)), yb, "-" + (mb + ("-" + db)));
    LexLeConcat("-", ma + ("-" + da), "-", mb + ("-" + db));
    LexLeConcat(ma, "-" + da, mb, "-" + db);
    LexLeConcat("-", da, "-", db);
  }

  lemma ConcatRightNested(a: string, b: string, c: string, d: string, e: string)
    ensures a + b + c + d + e == a + (b + (c + (d + e)))
  {
  }

  /** The four-digit spelling of 2025, a year the holiday table and the examples use. */
  lemma YearDigits2025()
    ensures Digits(2025, 4) == "2025"
  {
    assert Digits(2, 1) == "2";
    assert Digits(20, 2) == "20";
    assert Digits(202, 3) == "202";
  }
}
