/** `src/utils/invoice.ts`: the invoice number printed on a monthly report. */
module Invoice {
  import opened Wrappers
  import opened Text
  import opened Numbers
  import opened Calendar
  import opened Types
  import opened DateUtils

  /** The date the number is derived from: the invoice date when one is set, else the first
      of the report month. */
  function InvoiceDateSource(settings: InvoiceSettings, monthKey: string): string
  {
    if settings.invoiceDate != "" then settings.invoiceDate else monthKey + "-01"
  }

  /** `resolveInvoiceNumber(settings, monthKey)`: a non-blank custom number, trimmed; else the
      source date as `yyyyMMdd`; else, when that date does not parse, the month label. */
  function ResolveInvoiceNumber(settings: InvoiceSettings, monthKey: string): string
  {
    match TrimmedOrAbsent(settings.invoiceNumber)
    case Some(custom) => custom
    case None =>
      match ParseIso(InvoiceDateSource(settings, monthKey))
      case Some(d) => FormatBasic(d)
      case None => FormatMonthLabel(monthKey)
  }

  /** A custom number with any non-whitespace character is used, without its surrounding
      whitespace, whatever the dates say. */
  lemma CustomNumberWins(settings: InvoiceSettings, monthKey: string)
    requires !AllWhitespace(settings.invoiceNumber)
    ensures ResolveInvoiceNumber(settings, monthKey) == Trim(settings.invoiceNumber)
    ensures ResolveInvoiceNumber(settings, monthKey) != ""
  {
  }

  /** Without a custom number, a set invoice date `YYYY-MM-DD` becomes `YYYYMMDD`. */
  lemma NumberFromInvoiceDate(settings: InvoiceSettings, monthKey: string)
    requires AllWhitespace(settings.invoiceNumber)
    requires ParseIso(settings.invoiceDate).Some? && ParseIso(settings.invoiceDate).value.year >= 1
    ensures var s := settings.invoiceDate;
      ResolveInvoiceNumber(settings, monthKey) == s[..4] + s[5..7] + s[8..]
  {
    var s := settings.invoiceDate;
    var d := ParseIso(s).value;
    FormatParseIso(s);
    assert s[..4] == FormatYear(d.year);
    assert s[5..7] == Pad2(d.month);
    assert s[8..] == Pad2(d.day);
  }

  /** Without a custom number or invoice date, the month `YYYY-MM` gives `YYYYMM01`. */
  lemma NumberFromMonth(settings: InvoiceSettings, y: int, m: int)
    requires AllWhitespace(settings.invoiceNumber) && settings.invoiceDate == ""
    requires 1 <= y <= 9999 && 1 <= m <= 12
    ensures ResolveInvoiceNumber(settings, FormatMonth(y, m)) == Pad4(y) + Pad2(m) + "01"
  {
    var d := Date(y, m, 1);
    var src := FormatMonth(y, m) + "-01";
    assert src == FormatIso(d);
    ParseFormatIso(d);
  }

  /** Without a custom number, a source date that does not parse falls back to the month label;
      in particular a set but malformed invoice date never falls back to the month's first. */
  lemma NumberFallsBackToLabel(settings: InvoiceSettings, monthKey: string)
    requires AllWhitespace(settings.invoiceNumber)
    requires ParseIso(InvoiceDateSource(settings, monthKey)).None?
    ensures ResolveInvoiceNumber(settings, monthKey) == FormatMonthLabel(monthKey)
  {
  }

  /** Every number derived from a date of years 1 to 9999 is eight digits. */
  lemma DerivedNumberIsEightDigits(settings: InvoiceSettings, monthKey: string)
    requires AllWhitespace(settings.invoiceNumber)
    requires var p := ParseIso(InvoiceDateSource(settings, monthKey)); p.Some? && p.value.year >= 1
    ensures var r := ResolveInvoiceNumber(settings, monthKey); |r| == 8 && AllDigits(r)
  {
    var d := ParseIso(InvoiceDateSource(settings, monthKey)).value;
    var r := FormatBasic(d);
    assert r == Pad4(d.year) + Pad2(d.month) + Pad2(d.day);
    AppendTwoDigits(Pad4(d.year), Pad2(d.month));
    AppendTwoDigits(Pad4(d.year) + Pad2(d.month), Pad2(d.day));
  }
}
