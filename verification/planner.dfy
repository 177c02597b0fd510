/** The state and handlers of `src/components/BulkEntryPlanner.tsx`: a month, a trip template
    and a selection of days, expanded on submit into one entry per selected day. */
module Planner {
  import opened Wrappers
  import opened Seqs
  import opened Text
  import opened Numbers
  import opened Sorting
  import opened Calendar
  import opened Types
  import opened DateUtils
  import opened MonthGrid

  // ----- The selection helpers -----

  /** The `selectWorkdays` test: an in-month cell whose iso date parses to a Monday through
      Friday (`getDay()` 1 to 5). */
  predicate IsWorkdayCell(c: DayOption) {
    c.inMonth && match ParseIso(c.iso) {
      case None => false
      case Some(d) => 1 <= JsDay(d) <= 5
    }
  }

  /** The dates `selectWorkdays` picks from grid cells. */
  function WorkdaysOf(days: seq<DayOption>): seq<string> {
    Isos(Filter(days, IsWorkdayCell))
  }

  /** The dates `selectEveryOtherDay` picks from grid cells. */
  function EveryOtherOf(days: seq<DayOption>): seq<string> {
    Isos(EvenPositions(Filter(days, InMonth)))
  }

  /** The dates `selectWorkdays` selects in the month of `key`. */
  function WorkdayIsos(key: string): seq<string> {
    WorkdaysOf(Grid(key))
  }

  /** The dates `selectEveryOtherDay` selects in the month of `key`. */
  function EveryOtherIsos(key: string): seq<string> {
    EveryOtherOf(Grid(key))
  }

  /** Monday through Friday, by the calendar. */
  function IsWeekday(): Date -> bool {
    (d: Date) => ValidDate(d) && Weekday(d) < 5
  }

  /** The workday test on grid dates: of the month and Monday through Friday by `getDay()`. */
  function WorkdayTest(m: int): Date -> bool {
    (d: Date) => d.month == m && ValidDate(d) && 1 <= JsDay(d) <= 5
  }

  /** On a date whose iso text reads back, the cell test and the date test agree. */
  lemma WorkdayCellOfDate(d: Date, m: int)
    requires ValidDate(d) && 1 <= d.year <= 9999
    ensures IsWorkdayCell(Cell(d, m)) == WorkdayTest(m)(d)
  {
    ParseFormatIso(d);
  }

  /** Of a month's grid (years 100 to 9999), the workday cells are the cells of the dates
      that pass the workday test. */
  lemma WorkdayCellsOfGrid(y: int, m: int)
    requires 100 <= y <= 9999 && 1 <= m <= 12
    ensures AllValid(Filter(GridDates(y, m), WorkdayTest(m)))
    ensures Filter(Cells(GridDates(y, m), m), IsWorkdayCell) == Cells(Filter(GridDates(y, m), WorkdayTest(m)), m)
  {
    var g := GridDates(y, m);
    GridCoversMonth(y, m);
    forall i | 0 <= i < |g| ensures IsWorkdayCell(Cell(g[i], m)) == WorkdayTest(m)(g[i]) {
      if g[i].month == m {
        WorkdayCellOfDate(g[i], m);
      }
    }
    FilterCells(g, m, IsWorkdayCell, WorkdayTest(m));
  }

  /** Of a month's grid, the dates passing the workday test are the month's Mondays to
      Fridays. */
  lemma WorkdayDatesOfGrid(y: int, m: int)
    requires 1 <= m <= 12
    ensures Filter(GridDates(y, m), WorkdayTest(m)) == Filter(MonthDates(y, m), IsWeekday())
  {
    forall d | d in MonthDates(y, m) ensures WorkdayTest(m)(d) == IsWeekday()(d) {
      JsDayWorkday(d);
    }
    FilterGridDates(y, m, WorkdayTest(m), IsWeekday());
  }

  /** The workday cells of a month's grid (years 100 to 9999) are the cells of its Mondays to
      Fridays. */
  lemma WorkdaysOfMonth(y: int, m: int)
    requires 100 <= y <= 9999 && 1 <= m <= 12
    ensures Isos(Filter(Cells(GridDates(y, m), m), IsWorkdayCell)) == IsoList(Filter(MonthDates(y, m), IsWeekday()))
  {
    WorkdayCellsOfGrid(y, m);
    WorkdayDatesOfGrid(y, m);
    IsosOfCells(Filter(MonthDates(y, m), IsWeekday()), m);
  }

  /** For months of years up to 9999, `selectWorkdays` picks the month's Mondays to Fridays,
      in calendar order. */
  lemma WorkdaysOfKey(key: string, y: int, m: int)
    requires MonthOfKey(key) == Some((y, m)) && y <= 9999
    ensures WorkdayIsos(key) == IsoList(Filter(MonthDates(y, m), IsWeekday()))
  {
    GridOfKey(key, y, m);
    WorkdaysOfMonth(y, m);
  }

  /** A number of at least `10^k` is written with more than `k` digits. */
  lemma {:induction false} NumeralLength(n: nat, k: nat)
    requires n >= Pow10(k)
    ensures |NatToDecimal(n)| >= k + 1
  {
    if k > 0 {
      assert n / 10 >= Pow10(k - 1);
      NumeralLength(n / 10, k - 1);
    }
  }

  lemma LongNumeral(n: nat)
    requires n >= 10000
    ensures |NatToDecimal(n)| >= 5
  {
    assert Pow10(4) == 10000;
    NumeralLength(n, 4);
  }

  /** A date past year 9999 is written with a five-digit year, too long for `parseISO`. */
  lemma NoParsePast9999(d: Date)
    requires ValidDate(d) && d.year > 9999
    ensures ParseIso(FormatIso(d)).None?
  {
    LongNumeral(d.year);
    assert |FormatIso(d)| == |FormatYear(d.year)| + 6;
  }

  /** Past year 9999 no cell of a month's grid is a workday cell. */
  lemma NoWorkdayCellsPast9999(y: int, m: int)
    requires y > 9999 && 1 <= m <= 12
    ensures Filter(Cells(GridDates(y, m), m), IsWorkdayCell) == []
  {
    var g := GridDates(y, m);
    var cells := Cells(g, m);
    GridCoversMonth(y, m);
    forall c | c in cells ensures !IsWorkdayCell(c) {
      var i :| 0 <= i < |cells| && cells[i] == c;
      if g[i].month == m {
        NoParsePast9999(g[i]);
      }
    }
    FilterNone(cells, IsWorkdayCell);
  }

  /** Past year 9999 the iso dates have five-digit years, which `parseISO` rejects, so no day
      counts as a workday. */
  lemma NoWorkdaysPast9999(key: string, y: int, m: int)
    requires MonthOfKey(key) == Some((y, m)) && y > 9999
    ensures WorkdayIsos(key) == []
  {
    GridOfKey(key, y, m);
    NoWorkdayCellsPast9999(y, m);
  }

  /** The every-other dates of a month's own cells: the odd days, in order. */
  lemma EveryOtherOfMonth(y: int, m: int)
    requires 1 <= m <= 12
    ensures var r := Isos(EvenPositions(Cells(MonthDates(y, m), m)));
      |r| == (DaysInMonth(y, m) + 1) / 2
      && forall i | 0 <= i < |r| :: r[i] == FormatIso(Date(y, m, 2 * i + 1))
  {
    var days := MonthDates(y, m);
    var cells := Cells(days, m);
    var even := EvenPositions(cells);
    var r := Isos(even);
    forall i | 0 <= i < |r| ensures r[i] == FormatIso(Date(y, m, 2 * i + 1)) {
      assert even[i] == cells[2 * i] == Cell(days[2 * i], m);
    }
  }

  /** `selectEveryOtherDay` picks the 1st, 3rd, 5th ... day of the month: ceil(days / 2) dates
      in calendar order. */
  lemma EveryOtherOfKey(key: string, y: int, m: int)
    requires MonthOfKey(key) == Some((y, m))
    ensures var r := EveryOtherIsos(key);
      |r| == (DaysInMonth(y, m) + 1) / 2
      && forall i | 0 <= i < |r| :: r[i] == FormatIso(Date(y, m, 2 * i + 1))
  {
    InMonthCells(key, y, m);
    EveryOtherOfMonth(y, m);
  }

  /** The Mondays to Fridays of a month, written out, are distinct days of that month. */
  lemma WeekdaysWithinMonth(y: int, m: int)
    requires 100 <= y && 1 <= m <= 12
    ensures NoDuplicates(IsoList(Filter(MonthDates(y, m), IsWeekday())))
    ensures forall d | d in IsoList(Filter(MonthDates(y, m), IsWeekday())) :: d in IsoList(MonthDates(y, m))
  {
    var days := MonthDates(y, m);
    var picked := Filter(days, IsWeekday());
    MonthDatesNoDuplicates(y, m);
    FilterNoDuplicates(days, IsWeekday());
    IsoListNoDuplicates(picked);
    IsoListWithin(picked, days);
  }

  lemma WorkdaysWithinMonth(key: string)
    ensures NoDuplicates(WorkdayIsos(key))
    ensures forall d | d in WorkdayIsos(key) :: d in OfferedIsos(Grid(key))
  {
    match MonthOfKey(key)
    case None =>
      GridOfUnusableKey(key);
    case Some((y, m)) =>
      if y > 9999 {
        NoWorkdaysPast9999(key, y, m);
      } else {
        WorkdaysOfKey(key, y, m);
        MonthIsosOfKey(key, y, m);
        WeekdaysWithinMonth(y, m);
      }
  }

  /** The odd days of a month from year 100 on, written out, are distinct days of it. */
  lemma OddDaysWithinMonth(y: int, m: int, r: seq<string>)
    requires 100 <= y && 1 <= m <= 12
    requires |r| == (DaysInMonth(y, m) + 1) / 2
    requires forall i | 0 <= i < |r| :: r[i] == FormatIso(Date(y, m, 2 * i + 1))
    ensures NoDuplicates(r)
    ensures forall d | d in r :: d in IsoList(MonthDates(y, m))
  {
    var dates := MonthDates(y, m);
    var all := IsoList(dates);
    forall i | 0 <= i < |r| ensures 2 * i < |dates| && r[i] == all[2 * i] {
      assert 2 * i + 1 <= DaysInMonth(y, m);
      assert dates[2 * i] == Date(y, m, 2 * i + 1);
    }
    forall i, j | 0 <= i < j < |r| ensures r[i] != r[j] {
      if r[i] == r[j] {
        FormatIsoInjective(dates[2 * i], dates[2 * j]);
      }
    }
    forall d | d in r ensures d in all {
      var i :| 0 <= i < |r| && r[i] == d;
      assert all[2 * i] == d;
    }
  }

  lemma EveryOtherWithinMonth(key: string)
    ensures NoDuplicates(EveryOtherIsos(key))
    ensures forall d | d in EveryOtherIsos(key) :: d in OfferedIsos(Grid(key))
  {
    match MonthOfKey(key)
    case None =>
      GridOfUnusableKey(key);
    case Some((y, m)) =>
      EveryOtherOfKey(key, y, m);
      MonthIsosOfKey(key, y, m);
      OddDaysWithinMonth(y, m, EveryOtherIsos(key));
  }

  // ----- Submitting -----

  /** The comparator `(a, b) => (a.date > b.date ? 1 : -1)`: ascending by date. */
  predicate DateAscending(a: EntryValues, b: EntryValues) {
    !StrLess(b.date, a.date)
  }

  /** One entry per selected date, in selection order, with the shared trip data. */
  function Expanded(days: seq<string>, title: string, distance: real, notes: string): (r: seq<EntryValues>)
    ensures |r| == |days|
  {
    seq(|days|, i requires 0 <= i < |days| => EntryValues(days[i], Trim(title), distance, TrimmedOrAbsent(notes)))
  }

  /** The entries `handleSubmit` creates: one per selected date with the shared trip data,
      sorted by date. */
  function ExpandSelection(days: seq<string>, title: string, distance: real, notes: string): seq<EntryValues>
  {
    SortBy(Expanded(days, title, distance, notes), DateAscending)
  }

  lemma DateAscendingIsTotalPreorder(s: seq<EntryValues>)
    ensures TotalOn(s, DateAscending) && TransitiveOn(s, DateAscending)
  {
    forall a, b | a in s && b in s ensures DateAscending(a, b) || DateAscending(b, a) {
      StrLessAsymmetric(a.date, b.date);
    }
    forall a, b, c | a in s && b in s && c in s && DateAscending(a, b) && DateAscending(b, c)
      ensures DateAscending(a, c)
    {
      StrNotLess(b.date, a.date);
      StrNotLess(c.date, b.date);
      StrNotLess(c.date, a.date);
      if a.date != b.date && b.date != c.date {
        StrLessTransitive(a.date, b.date, c.date);
      }
    }
  }

  /** An entry is made exactly for a selected date with the shared trip data. */
  lemma ExpandedMembers(days: seq<string>, title: string, distance: real, notes: string)
    ensures forall e :: e in Expanded(days, title, distance, notes) <==>
      e.date in days && e.title == Trim(title) && e.distance == distance && e.notes == TrimmedOrAbsent(notes)
  {
    var made := Expanded(days, title, distance, notes);
    forall e: EntryValues | e.date in days && e.title == Trim(title) && e.distance == distance && e.notes == TrimmedOrAbsent(notes)
      ensures e in made
    {
      var i :| 0 <= i < |days| && days[i] == e.date;
      assert made[i] == e;
    }
  }

  lemma ExpandedNoDuplicates(days: seq<string>, title: string, distance: real, notes: string)
    requires NoDuplicates(days)
    ensures NoDuplicates(Expanded(days, title, distance, notes))
  {
    var made := Expanded(days, title, distance, notes);
    forall i, j | 0 <= i < j < |made| ensures made[i] != made[j] {
      assert made[i].date == days[i] && made[j].date == days[j];
    }
  }

  /** For a duplicate-free selection: one entry per selected date, each carrying the trimmed
      title, the distance and the trimmed notes (absent when blank), in strictly ascending
      date order. */
  lemma ExpandSelectionProperties(days: seq<string>, title: string, distance: real, notes: string)
    requires NoDuplicates(days)
    ensures var r := ExpandSelection(days, title, distance, notes);
      |r| == |days|
      && (forall e :: e in r <==>
            e.date in days && e.title == Trim(title) && e.distance == distance && e.notes == TrimmedOrAbsent(notes))
      && (forall i, j | 0 <= i < j < |r| :: StrLess(r[i].date, r[j].date))
  {
    var made := Expanded(days, title, distance, notes);
    var r := ExpandSelection(days, title, distance, notes);
    ExpandedMembers(days, title, distance, notes);
    SortByMembers(made, DateAscending);
    ExpandedNoDuplicates(days, title, distance, notes);
    PermutationNoDuplicates(made, r);
    DateAscendingIsTotalPreorder(made);
    SortBySorted(made, DateAscending);
    forall i, j | 0 <= i < j < |r| ensures StrLess(r[i].date, r[j].date) {
      assert DateAscending(r[i], r[j]);
      assert r[i] in r && r[j] in r;
      assert r[i].date != r[j].date;
      StrNotLess(r[j].date, r[i].date);
    }
  }

  /** Toggling a permitted value keeps a repeat-free selection of permitted values, and
      changes the membership of that value only. */
  lemma ToggleWithin(sel: seq<string>, x: string, allowed: seq<string>)
    requires NoDuplicates(sel) && x in allowed && forall d | d in sel :: d in allowed
    ensures NoDuplicates(Toggle(sel, x)) && forall d | d in Toggle(sel, x) :: d in allowed
  {
    ToggleMembership(sel, x);
  }

  // ----- The component state -----

  class Planner {
    var monthKey: string
    /** `daysInMonth`, memoised on `monthKey`. */
    var days: seq<DayOption>
    var title: string
    var distance: string
    var notes: string
    var selectedDays: seq<string>

    /** The memoised grid is the grid of the current month. */
    predicate Synced()
      reads this
    {
      days == Grid(monthKey)
    }

    /** The selection holds distinct dates, each of an in-month cell of the grid. */
    predicate Valid()
      reads this
    {
      NoDuplicates(selectedDays) && forall d | d in selectedDays :: d in OfferedIsos(days)
    }

    /** The initial state: title `Kantoor`, no notes, no days; `initialDistance` is the text
        of `(suggestedDistance ?? 0).toString()`. */
    constructor(key: string, initialDistance: string)
      ensures Valid() && Synced()
      ensures monthKey == key && title == "Kantoor" && distance == initialDistance
      ensures notes == "" && selectedDays == []
    {
      monthKey := key;
      days := Grid(key);
      title := "Kantoor";
      distance := initialDistance;
      notes := "";
      selectedDays := [];
    }

    /** A new `monthKey` prop: the grid is recomputed, and the effect on `[monthKey]` empties
        the selection when the key differs from the old one. */
    method ChangeMonth(key: string)
      requires Valid() && Synced()
      modifies this
      ensures Valid() && Synced()
      ensures monthKey == key
      ensures selectedDays == if key == old(monthKey) then old(selectedDays) else []
      ensures title == old(title) && distance == old(distance) && notes == old(notes)
    {
      if key != monthKey {
        selectedDays := [];
      }
      monthKey := key;
      days := Grid(key);
    }

    /** The suggested-distance effect: a non-zero suggestion replaces a distance that reads as
        0. `suggestedText` is `suggestedDistance.toString()`, which reads back as the number. */
    method SyncSuggestedDistance(suggested: Option<real>, suggestedText: string)
      requires suggested.Some? ==> ParseNumber(suggestedText) == Finite(suggested.value)
      modifies this
      ensures var replace := suggested.Some? && suggested.value != 0.0
                             && ParseNumber(old(distance)) == Finite(0.0);
        distance == (if replace then suggestedText else old(distance))
        && (replace ==> ParseNumber(distance) == Finite(suggested.value))
      ensures monthKey == old(monthKey) && days == old(days) && title == old(title) && notes == old(notes)
      ensures selectedDays == old(selectedDays)
    {
      if suggested.Some? && suggested.value != 0.0 && ParseNumber(distance) == Finite(0.0) {
        distance := suggestedText;
      }
    }

    /** `toggleDay(day)` for a cell of the grid: an out-of-month cell changes nothing; an
        in-month cell's date is removed when selected and appended when not. */
    method ToggleDay(day: DayOption)
      requires Valid() && day in days
      modifies this
      ensures Valid()
      ensures selectedDays == if day.inMonth then Toggle(old(selectedDays), day.iso) else old(selectedDays)
      ensures monthKey == old(monthKey) && days == old(days)
      ensures title == old(title) && distance == old(distance) && notes == old(notes)
    {
      if !day.inMonth {
        return;
      }
      InMonthCellIso(days, day);
      ToggleWithin(selectedDays, day.iso, OfferedIsos(days));
      selectedDays := Toggle(selectedDays, day.iso);
    }

    /** `selectWorkdays`. */
    method SelectWorkdays()
      requires Synced()
      modifies this
      ensures Valid()
      ensures selectedDays == WorkdayIsos(monthKey)
      ensures monthKey == old(monthKey) && days == old(days)
      ensures title == old(title) && distance == old(distance) && notes == old(notes)
    {
      WorkdaysWithinMonth(monthKey);
      selectedDays := WorkdaysOf(days);
    }

    /** `selectEveryOtherDay`. */
    method SelectEveryOtherDay()
      requires Synced()
      modifies this
      ensures Valid()
      ensures selectedDays == EveryOtherIsos(monthKey)
      ensures monthKey == old(monthKey) && days == old(days)
      ensures title == old(title) && distance == old(distance) && notes == old(notes)
    {
      EveryOtherWithinMonth(monthKey);
      var monthDays := Filter(days, InMonth);
      selectedDays := Isos(EvenPositions(monthDays));
    }

    /** `clearSelection`. */
    method ClearSelection()
      modifies this
      ensures Valid()
      ensures selectedDays == []
      ensures monthKey == old(monthKey) && days == old(days)
      ensures title == old(title) && distance == old(distance) && notes == old(notes)
    {
      selectedDays := [];
    }

    /** `isSubmitDisabled`. */
    predicate SubmitDisabled()
      reads this
    {
      AllWhitespace(title) || |selectedDays| == 0 || !IsPositiveFinite(ParseNumber(distance))
    }

    /** `handleSubmit`: rejected, with nothing changed, exactly when the button is disabled;
        otherwise the expanded entries are handed on and the selection is emptied. */
    method HandleSubmit() returns (created: Option<seq<EntryValues>>)
      requires Valid()
      modifies this
      ensures Valid()
      ensures created.None? <==> old(SubmitDisabled())
      ensures created.None? ==> selectedDays == old(selectedDays)
      ensures created.Some? ==>
        created.value == ExpandSelection(old(selectedDays), old(title), ParseNumber(old(distance)).value, old(notes))
        && selectedDays == []
      ensures monthKey == old(monthKey) && days == old(days)
      ensures title == old(title) && distance == old(distance) && notes == old(notes)
    {
      var distanceValue := ParseNumber(distance);
      if Trim(title) == "" || !distanceValue.Finite? || distanceValue.value <= 0.0 || |selectedDays| == 0 {
        return None;
      }
      var entries := ExpandSelection(selectedDays, title, distanceValue.value, notes);
      ClearSelection();
      return Some(entries);
    }
  }

  /** A successful submit creates exactly one entry per selected day, in ascending date order,
      each with the trimmed title, the parsed distance and the trimmed notes. */
  lemma SubmitCreatesOnePerDay(days: seq<string>, title: string, distance: string, notes: string)
    requires NoDuplicates(days) && |days| > 0
    requires !AllWhitespace(title) && IsPositiveFinite(ParseNumber(distance))
    ensures var r := ExpandSelection(days, title, ParseNumber(distance).value, notes);
      |r| == |days|
      && (forall i | 0 <= i < |r| :: r[i].date in days && r[i].title == Trim(title) && r[i].title != ""
            && r[i].distance > 0.0 && r[i].notes == TrimmedOrAbsent(notes))
      && (forall d | d in days :: exists i | 0 <= i < |r| :: r[i].date == d)
      && (forall i, j | 0 <= i < j < |r| :: StrLess(r[i].date, r[j].date))
  {
    var v := ParseNumber(distance).value;
    var t := Trim(title);
    assert t != "" && v > 0.0;
    var r := ExpandSelection(days, title, v, notes);
    ExpandSelectionProperties(days, title, v, notes);
    forall i | 0 <= i < |r| ensures r[i].date in days && r[i].title == t && r[i].distance == v
      && r[i].notes == TrimmedOrAbsent(notes)
    {
      assert r[i] in r;
    }
    forall d | d in days ensures exists i | 0 <= i < |r| :: r[i].date == d {
      var e := EntryValues(d, Trim(title), v, TrimmedOrAbsent(notes));
      assert e in r;
    }
  }
}
