/** `src/utils/date.ts`: month keys, Dutch month labels and display dates. */
module DateUtils {
  import opened Wrappers
  import opened Text
  import opened Numbers
  import opened Calendar

  /** `makeMonthKey(iso)`: the `YYYY-MM` month of a parsed date; `None` where `parseISO` gives an
      invalid date, on which `format` throws. */
  function MakeMonthKey(iso: string): Option<string>
  {
    match ParseIso(iso)
    case None => None
    case Some(d) => Some(FormatMonth(d.year, d.month))
  }

  /** `makeMonthKey(date)` for a date value. */
  function MakeMonthKeyOfDate(d: Date): string
    requires ValidDate(d)
  {
    FormatMonth(d.year, d.month)
  }

  /** The month key of a date string is its seven-character `YYYY-MM` prefix (years 1 to 9999;
      date-fns prints year 0 as 0001). */
  lemma MonthKeyIsPrefix(iso: string)
    requires ParseIso(iso).Some? && ParseIso(iso).value.year >= 1
    ensures MakeMonthKey(iso) == Some(iso[..7])
  {
    var d := ParseIso(iso).value;
    FormatParseIso(iso);
    assert FormatIso(d) == FormatMonth(d.year, d.month) + "-" + Pad2(d.day);
    assert iso[..7] == FormatMonth(d.year, d.month);
  }

  /** The month key of a date value is its zero-padded year and month joined by `-`. */
  lemma MonthKeyOfDateShape(d: Date)
    requires ValidDate(d) && 1 <= d.year <= 9999
    ensures var k := MakeMonthKeyOfDate(d);
      |k| == 7 && k[4] == '-' && DigitsValue(k[..4]) == d.year && DigitsValue(k[5..]) == d.month
  {
    var k := MakeMonthKeyOfDate(d);
    assert k[..4] == Pad4(d.year) && k[5..] == Pad2(d.month);
    Pad4Value(d.year);
    Pad2Value(d.month);
  }

  /** `Number(part)` for a month-key part: a string of digits is its value (the empty string
      is 0), anything else is NaN. */
  function KeyNumber(part: string): Option<nat>
  {
    if AllDigits(part) then Some(DigitsValue(part)) else None
  }

  /** `const [year, month] = key.split('-').map(Number)` followed by `new Date(year, month - 1, 1)`:
      `None` when either part is missing, non-numeric or zero; otherwise the calendar month
      that Date constructs, with years 0 to 99 read as 1900 to 1999 and months past 12
      carried into later years. */
  function MonthOfKey(key: string): (r: Option<(int, int)>)
    ensures r.Some? ==> 1 <= r.value.1 <= 12 && r.value.0 >= 100
  {
    var parts := Split(key, '-');
    if |parts| < 2 then None
    else
      match (KeyNumber(parts[0]), KeyNumber(parts[1]))
      case (Some(y), Some(m)) =>
        if y == 0 || m == 0 then None
        else
          var fullYear := if y <= 99 then 1900 + y else y;
          Some(AddMonths(fullYear, 1, m - 1))
      case _ => None
  }

  /** Dutch month names, as `LLLL` prints them in the `nl` locale. */
  function DutchMonthName(m: int): string
    requires 1 <= m <= 12
  {
    ["januari", "februari", "maart", "april", "mei", "juni", "juli", "augustus",
     "september", "oktober", "november", "december"][m - 1]
  }

  /** `formatMonthLabel(key)`: `LLLL yyyy` of the key's month, or the key itself. */
  function FormatMonthLabel(key: string): string
  {
    match MonthOfKey(key)
    case None => key
    case Some((y, m)) => DutchMonthName(m) + " " + FormatYear(y)
  }

  /** A well-formed key of years 100 to 9999 names its own month. */
  lemma MonthOfCanonicalKey(y: int, m: int)
    requires 100 <= y <= 9999 && 1 <= m <= 12
    ensures MonthOfKey(FormatMonth(y, m)) == Some((y, m))
  {
    var key := FormatMonth(y, m);
    assert '-' !in Pad4(y) && '-' !in Pad2(m);
    assert key == Pad4(y) + ['-'] + Pad2(m);
    SplitAfterPiece(Pad4(y), '-', Pad2(m));
    SplitWithoutSeparator(Pad2(m), '-');
    Pad4Value(y);
    Pad2Value(m);
  }

  /** For a valid key the label is the Dutch month name, a space and the four-digit year. */
  lemma LabelOfCanonicalKey(y: int, m: int)
    requires 100 <= y <= 9999 && 1 <= m <= 12
    ensures FormatMonthLabel(FormatMonth(y, m)) == DutchMonthName(m) + " " + Pad4(y)
  {
    MonthOfCanonicalKey(y, m);
  }

  /** A key with no `-` has no month part, and a key whose year or month part is zero or not a
      number: both are returned unchanged. */
  lemma LabelFallback(key: string)
    ensures '-' !in key ==> FormatMonthLabel(key) == key
    ensures (var parts := Split(key, '-');
             |parts| >= 2 && (KeyNumber(parts[0]) in {None, Some(0)} || KeyNumber(parts[1]) in {None, Some(0)}))
            ==> FormatMonthLabel(key) == key
  {
    if '-' !in key {
      SplitWithoutSeparator(key, '-');
    }
  }

  /** `formatDisplayDate(iso)`: `dd-MM-yyyy`; `None` where `format` throws on an invalid date. */
  function FormatDisplayDate(iso: string): Option<string>
  {
    match ParseIso(iso)
    case None => None
    case Some(d) => Some(Pad2(d.day) + "-" + Pad2(d.month) + "-" + FormatYear(d.year))
  }

  /** `YYYY-MM-DD` is displayed as `DD-MM-YYYY`. */
  lemma DisplayDateRearranges(iso: string)
    requires ParseIso(iso).Some? && ParseIso(iso).value.year >= 1
    ensures FormatDisplayDate(iso) == Some(iso[8..10] + "-" + iso[5..7] + "-" + iso[..4])
  {
    var d := ParseIso(iso).value;
    FormatParseIso(iso);
    assert iso[..4] == FormatYear(d.year);
    assert iso[5..7] == Pad2(d.month);
    assert iso[8..10] == Pad2(d.day);
  }
}
