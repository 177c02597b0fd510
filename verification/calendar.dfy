/** The proleptic Gregorian calendar and the ISO 8601 date formats the application reads and
    writes: extended calendar dates `YYYY-MM-DD` (section 4.1.2.2 of ISO 8601:2004), the basic
    form `YYYYMMDD`, and the reduced-accuracy month `YYYY-MM` (section 4.1.2.3). */
module Calendar {
  import opened Wrappers
  import opened Numbers

  datatype Date = Date(year: int, month: int, day: int)

  predicate IsLeapYear(y: int) {
    y % 4 == 0 && (y % 100 != 0 || y % 400 == 0)
  }

  function DaysInMonth(y: int, m: int): (n: int)
    requires 1 <= m <= 12
    ensures 28 <= n <= 31
    ensures m == 2 ==> (n == 29 <==> IsLeapYear(y))
  {
    if m == 2 then (if IsLeapYear(y) then 29 else 28)
    else if m == 4 || m == 6 || m == 9 || m == 11 then 30
    else 31
  }

  predicate ValidDate(d: Date) {
    1 <= d.month <= 12 && 1 <= d.day <= DaysInMonth(d.year, d.month)
  }

  function YearLength(y: int): int {
    if IsLeapYear(y) then 366 else 365
  }

  /** Days of the year before the first of month `m`. */
  function DaysBeforeMonth(y: int, m: int): int
    requires 1 <= m <= 12
  {
    [0, 31, 59, 90, 120, 151, 181, 212, 243, 273, 304, 334][m - 1]
    + (if m > 2 && IsLeapYear(y) then 1 else 0)
  }

  /** Days from 0001-01-01 to the first of January of `y` (negative before year 1). */
  function DaysBeforeYear(y: int): int {
    var p := y - 1;
    365 * p + p / 4 - p / 100 + p / 400
  }

  /** The day number: consecutive days have consecutive numbers, and 0001-01-01 is day 0. */
  function DayNumber(d: Date): int
    requires ValidDate(d)
  {
    DaysBeforeYear(d.year) + DaysBeforeMonth(d.year, d.month) + d.day - 1
  }

  lemma DaysBeforeYearStep(y: int)
    ensures DaysBeforeYear(y + 1) == DaysBeforeYear(y) + YearLength(y)
  {
    QuotientStep4(y);
    QuotientStep100(y);
    QuotientStep400(y);
  }

  lemma QuotientStep4(y: int)
    ensures y / 4 - (y - 1) / 4 == if y % 4 == 0 then 1 else 0
  {
  }

  lemma QuotientStep100(y: int)
    ensures y / 100 - (y - 1) / 100 == if y % 100 == 0 then 1 else 0
  {
  }

  lemma QuotientStep400(y: int)
    ensures y / 400 - (y - 1) / 400 == if y % 400 == 0 then 1 else 0
  {
  }

  lemma MonthStep(y: int, m: int)
    requires 1 <= m < 12
    ensures DaysBeforeMonth(y, m + 1) == DaysBeforeMonth(y, m) + DaysInMonth(y, m)
  {
  }

  /** The day after `d`, one day number later. */
  function NextDay(d: Date): (r: Date)
    requires ValidDate(d)
    ensures ValidDate(r)
    ensures DayNumber(r) == DayNumber(d) + 1
  {
    if d.day < DaysInMonth(d.year, d.month) then Date(d.year, d.month, d.day + 1)
    else if d.month < 12 then
      MonthStep(d.year, d.month);
      Date(d.year, d.month + 1, 1)
    else
      DaysBeforeYearStep(d.year);
      Date(d.year + 1, 1, 1)
  }

  /** 0 for Monday through 6 for Sunday; 0001-01-01 was a Monday. */
  function Weekday(d: Date): (w: int)
    requires ValidDate(d)
    ensures 0 <= w < 7
  {
    DayNumber(d) % 7
  }

  /** `Date.prototype.getDay`: 0 for Sunday through 6 for Saturday. */
  function JsDay(d: Date): (w: int)
    requires ValidDate(d)
    ensures 0 <= w < 7
  {
    (Weekday(d) + 1) % 7
  }

  /** The weekday advances by one from each day to the next. */
  lemma NextDayWeekday(d: Date)
    requires ValidDate(d)
    ensures Weekday(NextDay(d)) == (Weekday(d) + 1) % 7
  {
    var n := DayNumber(d);
    assert DayNumber(NextDay(d)) == n + 1;
    ModSeven(n, 1);
  }

  lemma ModSeven(n: int, k: int)
    ensures (n + k) % 7 == (n % 7 + k) % 7
  {
  }

  /** `getDay()` is 1 to 5 exactly on Monday to Friday. */
  lemma JsDayWorkday(d: Date)
    requires ValidDate(d)
    ensures (1 <= JsDay(d) <= 5) == (Weekday(d) < 5)
  {
    var w := Weekday(d);
    assert JsDay(d) == (w + 1) % 7;
  }

  /** Anchor: 1 January 2024 was a Monday. */
  lemma FirstOf2024IsMonday()
    ensures Weekday(Date(2024, 1, 1)) == 0 && JsDay(Date(2024, 1, 1)) == 1
  {
  }

  /** Month arithmetic as `new Date(y, m - 1 + k, 1)` and `subMonths` perform it. */
  function AddMonths(y: int, m: int, k: int): (r: (int, int))
    requires 1 <= m <= 12
    ensures 1 <= r.1 <= 12
    ensures r.0 * 12 + r.1 == y * 12 + m + k
  {
    var t := y * 12 + (m - 1) + k;
    (t / 12, t % 12 + 1)
  }

  // ----- Formatting -----

  function Pad2(n: nat): (s: string)
    requires n < 100
    ensures |s| == 2 && AllDigits(s)
  {
    [DigitChar(n / 10), DigitChar(n % 10)]
  }

  function Pad4(n: nat): (s: string)
    requires n < 10000
    ensures |s| == 4 && AllDigits(s)
  {
    Pad2(n / 100) + Pad2(n % 100)
  }

  /** The year date-fns prints for `yyyy`: the era year (1 - y for y <= 0), at least four digits. */
  function FormatYear(y: int): (s: string)
    ensures AllDigits(s)
    ensures 1 <= y <= 9999 ==> s == Pad4(y)
  {
    var t: nat := if y > 0 then y else 1 - y;
    if t < 10000 then Pad4(t) else NatToDecimal(t)
  }

  /** `format(d, 'yyyy-MM-dd')`. */
  function FormatIso(d: Date): string
    requires ValidDate(d)
  {
    FormatYear(d.year) + "-" + Pad2(d.month) + "-" + Pad2(d.day)
  }

  /** `format(d, 'yyyyMMdd')`. */
  function FormatBasic(d: Date): string
    requires ValidDate(d)
  {
    FormatYear(d.year) + Pad2(d.month) + Pad2(d.day)
  }

  /** `format(d, 'yyyy-MM')`. */
  function FormatMonth(year: int, month: int): string
    requires 1 <= month <= 12
  {
    FormatYear(year) + "-" + Pad2(month)
  }

  // ----- Parsing -----

  /** `parseISO` on an extended calendar date: four-digit year, two-digit month and day,
      hyphens between, and a day that exists in that month. The model reads every other text
      as an invalid date, including forms `parseISO` does accept (basic, reduced, week and
      ordinal dates, and dates with a time). */
  function ParseIso(s: string): (r: Option<Date>)
    ensures r.Some? ==> ValidDate(r.value) && 0 <= r.value.year <= 9999
  {
    if |s| == 10 && s[4] == '-' && s[7] == '-'
       && AllDigits(s[..4]) && AllDigits(s[5..7]) && AllDigits(s[8..])
    then
      var d := Date(DigitsValue(s[..4]), DigitsValue(s[5..7]), DigitsValue(s[8..]));
      if ValidDate(d) && d.year <= 9999 then Some(d) else None
    else None
  }

  lemma TwoDigitsValue(s: string)
    requires |s| == 2 && AllDigits(s)
    ensures DigitsValue(s) == 10 * DigitValue(s[0]) + DigitValue(s[1])
  {
    var first := s[..1];
    assert first[..0] == [] && first[0] == s[0];
    assert DigitsValue(first) == DigitValue(s[0]);
  }

  lemma AppendTwoDigits(a: string, b: string)
    requires AllDigits(a) && |b| == 2 && AllDigits(b)
    ensures AllDigits(a + b)
    ensures DigitsValue(a + b) == 100 * DigitsValue(a) + DigitsValue(b)
  {
    var ab := a + b;
    assert ab[..|ab| - 1] == a + [b[0]];
    assert (a + [b[0]])[..|a|] == a;
    TwoDigitsValue(b);
  }

  lemma Pad2Value(n: nat)
    requires n < 100
    ensures DigitsValue(Pad2(n)) == n
  {
    TwoDigitsValue(Pad2(n));
  }

  lemma Pad4Value(n: nat)
    requires n < 10000
    ensures DigitsValue(Pad4(n)) == n
  {
    Pad2Value(n / 100);
    Pad2Value(n % 100);
    AppendTwoDigits(Pad2(n / 100), Pad2(n % 100));
  }

  lemma ValuePad2(s: string)
    requires |s| == 2 && AllDigits(s)
    ensures DigitsValue(s) < 100 && Pad2(DigitsValue(s)) == s
  {
    TwoDigitsValue(s);
    var a, b := DigitValue(s[0]), DigitValue(s[1]);
    var n := DigitsValue(s);
    assert n / 10 == a && n % 10 == b;
    assert DigitChar(a) == s[0] && DigitChar(b) == s[1];
  }

  lemma ValuePad4(s: string)
    requires |s| == 4 && AllDigits(s)
    ensures DigitsValue(s) < 10000 && Pad4(DigitsValue(s)) == s
  {
    var hi, lo := s[..2], s[2..];
    assert s == hi + lo;
    AppendTwoDigits(hi, lo);
    ValuePad2(hi);
    ValuePad2(lo);
    var n := DigitsValue(s);
    assert n / 100 == DigitsValue(hi) && n % 100 == DigitsValue(lo);
  }

  /** Writing a date of years 1 to 9999 and reading it back gives the same date. */
  lemma ParseFormatIso(d: Date)
    requires ValidDate(d) && 1 <= d.year <= 9999
    ensures ParseIso(FormatIso(d)) == Some(d)
  {
    var s := FormatIso(d);
    assert s[..4] == Pad4(d.year);
    assert s[5..7] == Pad2(d.month);
    assert s[8..] == Pad2(d.day);
    Pad4Value(d.year);
    Pad2Value(d.month);
    Pad2Value(d.day);
  }

  /** A string that reads as a date of years 1 to 9999 is exactly how that date is written. */
  lemma FormatParseIso(s: string)
    requires ParseIso(s).Some? && ParseIso(s).value.year >= 1
    ensures FormatIso(ParseIso(s).value) == s
  {
    var d := ParseIso(s).value;
    ValuePad4(s[..4]);
    ValuePad2(s[5..7]);
    ValuePad2(s[8..]);
    assert s == s[..4] + "-" + s[5..7] + "-" + s[8..];
  }

  /** A month is identified by its month index `12 * year + month`. */
  lemma MonthIndexUnique(a: int, b: int, c: int, d: int)
    requires 1 <= b <= 12 && 1 <= d <= 12
    requires a * 12 + b == c * 12 + d
    ensures a == c && b == d
  {
  }

  /** The day after the last of a month is the first of the next month. */
  lemma NextMonthFirst(y: int, m: int)
    requires 1 <= m <= 12
    ensures var next := AddMonths(y, m, 1);
      NextDay(Date(y, m, DaysInMonth(y, m))) == Date(next.0, next.1, 1)
  {
    var next := AddMonths(y, m, 1);
    if m < 12 {
      MonthIndexUnique(next.0, next.1, y, m + 1);
    } else {
      MonthIndexUnique(next.0, next.1, y + 1, 1);
    }
  }

  /** Stepping a month back and then forward returns to the same month. */
  lemma PrevNextMonth(y: int, m: int)
    requires 1 <= m <= 12
    ensures var prev := AddMonths(y, m, -1);
      AddMonths(prev.0, prev.1, 1) == (y, m) && prev.1 != m
  {
    var prev := AddMonths(y, m, -1);
    var back := AddMonths(prev.0, prev.1, 1);
    MonthIndexUnique(back.0, back.1, y, m);
  }

  /** The printed year of a year from 1 on reads back as that year. */
  lemma FormatYearValue(y: int)
    requires y >= 1
    ensures DigitsValue(FormatYear(y)) == y
  {
    if y < 10000 {
      Pad4Value(y);
    } else {
      DigitsValueOfNatToDecimal(y);
    }
  }

  /** Different dates from year 1 on are written differently. */
  lemma FormatIsoInjective(d: Date, e: Date)
    requires ValidDate(d) && ValidDate(e) && d.year >= 1 && e.year >= 1
    requires FormatIso(d) == FormatIso(e)
    ensures d == e
  {
    var s := FormatIso(d);
    var n := |s| - 6;
    assert s == FormatYear(d.year) + "-" + Pad2(d.month) + "-" + Pad2(d.day);
    assert s == FormatYear(e.year) + "-" + Pad2(e.month) + "-" + Pad2(e.day);
    assert FormatYear(d.year) == s[..n] == FormatYear(e.year);
    assert Pad2(d.month) == s[n + 1..n + 3] == Pad2(e.month);
    assert Pad2(d.day) == s[n + 4..] == Pad2(e.day);
    FormatYearValue(d.year);
    FormatYearValue(e.year);
    Pad2Value(d.month);
    Pad2Value(e.month);
    Pad2Value(d.day);
    Pad2Value(e.day);
  }
}
