/** The calendar grid of `src/components/BulkEntryPlanner.tsx` (`daysInMonth`): the days from
    the Monday on or before the first of the month to the Sunday on or after its last day. */
module MonthGrid {
  import opened Wrappers
  import opened Seqs
  import opened Calendar
  import opened DateUtils
  import opened Text

  /** One grid cell. `date` stands for the localised `label` and `weekday` texts, which are
      formatted from it. */
  datatype DayOption = DayOption(iso: string, date: Date, inMonth: bool)

  /** Every date of the sequence exists in the calendar. */
  predicate AllValid(ds: seq<Date>) {
    forall d | d in ds :: ValidDate(d)
  }

  /** The days of the previous month shown before the first: as many as the first's weekday
      counts from Monday. */
  function LeadDates(y: int, m: int): (r: seq<Date>)
    requires 1 <= m <= 12
    ensures |r| == Weekday(Date(y, m, 1))
    ensures forall i | 0 <= i < |r| :: ValidDate(r[i])
    ensures AllValid(r)
  {
    var lead := Weekday(Date(y, m, 1));
    var prev := AddMonths(y, m, -1);
    var last := DaysInMonth(prev.0, prev.1);
    seq(lead, i requires 0 <= i < lead => Date(prev.0, prev.1, last - lead + 1 + i))
  }

  /** The days of the month itself. */
  function MonthDates(y: int, m: int): (r: seq<Date>)
    requires 1 <= m <= 12
    ensures |r| == DaysInMonth(y, m)
    ensures forall i | 0 <= i < |r| :: ValidDate(r[i])
    ensures AllValid(r)
  {
    seq(DaysInMonth(y, m), i requires 0 <= i < DaysInMonth(y, m) => Date(y, m, i + 1))
  }

  /** The days of the next month that complete the last week. */
  function TrailDates(y: int, m: int): (r: seq<Date>)
    requires 1 <= m <= 12
    ensures |r| < 7
    ensures (Weekday(Date(y, m, 1)) + DaysInMonth(y, m) + |r|) % 7 == 0
    ensures forall i | 0 <= i < |r| :: ValidDate(r[i])
    ensures AllValid(r)
  {
    var used := Weekday(Date(y, m, 1)) + DaysInMonth(y, m);
    var count := (7 - used % 7) % 7;
    var next := AddMonths(y, m, 1);
    assert used == 7 * (used / 7) + used % 7;
    seq(count, i requires 0 <= i < count => Date(next.0, next.1, i + 1))
  }

  /** `eachDayOfInterval({ start: startOfWeek(first), end: endOfWeek(last) })` with weeks
      starting on Monday. */
  function GridDates(y: int, m: int): (r: seq<Date>)
    requires 1 <= m <= 12
    ensures forall i | 0 <= i < |r| :: ValidDate(r[i])
    ensures AllValid(r)
  {
    LeadDates(y, m) + MonthDates(y, m) + TrailDates(y, m)
  }

  /** Each date of a run is the day after the one before it. */
  predicate Consecutive(ds: seq<Date>) {
    AllValid(ds) && forall j | 0 <= j < |ds| - 1 :: ds[j + 1] == NextDay(ds[j])
  }

  /** Days `first`, `first + 1`, ... of one month follow each other. */
  lemma RunConsecutive(ds: seq<Date>, y: int, m: int, first: int)
    requires AllValid(ds)
    requires forall i | 0 <= i < |ds| :: ds[i] == Date(y, m, first + i)
    ensures Consecutive(ds)
  {
    forall j | 0 <= j < |ds| - 1 ensures ds[j + 1] == NextDay(ds[j]) {
      assert ds[j] == Date(y, m, first + j) && ValidDate(ds[j + 1]);
    }
  }

  /** Two runs joined where the second starts the day after the first ends make one run. */
  lemma JoinConsecutive(a: seq<Date>, b: seq<Date>)
    requires Consecutive(a) && Consecutive(b)
    requires |a| > 0 && |b| > 0 ==> b[0] == NextDay(a[|a| - 1])
    ensures Consecutive(a + b)
  {
    var ab := a + b;
    forall j | 0 <= j < |ab| - 1 ensures ab[j + 1] == NextDay(ab[j]) {
      if j + 1 < |a| {
        assert ab[j] == a[j] && ab[j + 1] == a[j + 1];
      } else if j + 1 == |a| {
        assert ab[j] == a[|a| - 1] && ab[j + 1] == b[0];
      } else {
        assert ab[j] == b[j - |a|] && ab[j + 1] == b[j + 1 - |a|];
      }
    }
  }

  /** The shown days of the previous month run on into the month's own days. */
  lemma LeadThenMonth(y: int, m: int)
    requires 1 <= m <= 12
    ensures var run := LeadDates(y, m) + MonthDates(y, m);
      Consecutive(run) && run[|run| - 1] == Date(y, m, DaysInMonth(y, m))
  {
    var lead, days := LeadDates(y, m), MonthDates(y, m);
    var prev := AddMonths(y, m, -1);
    var last := DaysInMonth(prev.0, prev.1);
    RunConsecutive(lead, prev.0, prev.1, last - |lead| + 1);
    RunConsecutive(days, y, m, 1);
    if |lead| > 0 {
      PrevNextMonth(y, m);
      NextMonthFirst(prev.0, prev.1);
      assert lead[|lead| - 1] == Date(prev.0, prev.1, last);
    }
    JoinConsecutive(lead, days);
    assert (lead + days)[|lead + days| - 1] == days[|days| - 1];
  }

  /** Each cell holds the day after the one before it. */
  lemma GridConsecutive(y: int, m: int)
    requires 1 <= m <= 12
    ensures Consecutive(GridDates(y, m))
  {
    var run, trail := LeadDates(y, m) + MonthDates(y, m), TrailDates(y, m);
    var next := AddMonths(y, m, 1);
    LeadThenMonth(y, m);
    RunConsecutive(trail, next.0, next.1, 1);
    NextMonthFirst(y, m);
    JoinConsecutive(run, trail);
    assert GridDates(y, m) == run + trail;
  }

  /** The first cell lies as many days before the first of the month as that day's weekday. */
  lemma GridStart(y: int, m: int)
    requires 1 <= m <= 12
    ensures var g := GridDates(y, m);
      |g| > 0 && DayNumber(g[0]) == DayNumber(Date(y, m, 1)) - Weekday(Date(y, m, 1))
  {
    var g := GridDates(y, m);
    var lead := LeadDates(y, m);
    if |lead| > 0 {
      var prev := AddMonths(y, m, -1);
      var last := Date(prev.0, prev.1, DaysInMonth(prev.0, prev.1));
      PrevNextMonth(y, m);
      NextMonthFirst(prev.0, prev.1);
      assert NextDay(last) == Date(y, m, 1);
      assert DayNumber(last) == DayNumber(g[0]) + |lead| - 1;
    }
  }

  /** In a run of consecutive days, date `i` lies `i` days after the first. */
  lemma ConsecutiveDayNumbers(ds: seq<Date>)
    requires Consecutive(ds)
    ensures forall i | 0 <= i < |ds| :: ValidDate(ds[i]) && DayNumber(ds[i]) == DayNumber(ds[0]) + i
  {
    forall i | 0 <= i < |ds| ensures ValidDate(ds[i]) && DayNumber(ds[i]) == DayNumber(ds[0]) + i {
      assert ds[i] in ds;
      var k := 0;
      while k < i
        invariant 0 <= k <= i
        invariant ValidDate(ds[k]) && DayNumber(ds[k]) == DayNumber(ds[0]) + k
      {
        assert ds[k + 1] == NextDay(ds[k]);
        k := k + 1;
      }
    }
  }

  /** Cell `i` lies `i` days after the first cell. */
  lemma GridDayNumbers(y: int, m: int)
    requires 1 <= m <= 12
    ensures var g := GridDates(y, m);
      forall i | 0 <= i < |g| :: DayNumber(g[i]) == DayNumber(g[0]) + i
  {
    GridConsecutive(y, m);
    ConsecutiveDayNumbers(GridDates(y, m));
  }

  /** The first cell is a Monday. */
  lemma GridStartsOnMonday(y: int, m: int)
    requires 1 <= m <= 12
    ensures var g := GridDates(y, m); |g| > 0 && Weekday(g[0]) == 0
  {
    var g := GridDates(y, m);
    GridStart(y, m);
    WeekStart(DayNumber(g[0]), DayNumber(Date(y, m, 1)));
  }

  lemma WeekStart(n: int, first: int)
    requires n == first - first % 7
    ensures n % 7 == 0
  {
    assert first == 7 * (first / 7) + first % 7;
  }

  /** The grid is a whole number of weeks, and at least four. */
  lemma GridLength(y: int, m: int)
    requires 1 <= m <= 12
    ensures var g := GridDates(y, m); |g| % 7 == 0 && |g| >= 28
  {
  }

  /** A run of consecutive days that starts on a Monday and lasts whole weeks puts cell `i`
      on weekday `i % 7` and ends on a Sunday. */
  lemma ConsecutiveWeeks(g: seq<Date>)
    requires |g| > 0 && |g| % 7 == 0 && AllValid(g)
    requires forall i | 0 <= i < |g| :: ValidDate(g[i]) && DayNumber(g[i]) == DayNumber(g[0]) + i
    requires Weekday(g[0]) == 0
    ensures forall i | 0 <= i < |g| :: Weekday(g[i]) == i % 7
    ensures Weekday(g[|g| - 1]) == 6
  {
    var n0 := DayNumber(g[0]);
    forall i | 0 <= i < |g| ensures Weekday(g[i]) == i % 7 {
      ModSeven(n0, i);
    }
    assert (|g| - 1) % 7 == 6;
  }

  /** The grid in weeks: cell `i` falls on weekday `i % 7` counted from Monday, so the grid
      starts on a Monday, ends on a Sunday and is a whole number of weeks. */
  lemma GridWeeks(y: int, m: int)
    requires 1 <= m <= 12
    ensures var g := GridDates(y, m);
      |g| % 7 == 0 && |g| >= 28
      && (forall i | 0 <= i < |g| :: Weekday(g[i]) == i % 7)
      && Weekday(g[0]) == 0 && Weekday(g[|g| - 1]) == 6
  {
    GridDayNumbers(y, m);
    GridStartsOnMonday(y, m);
    GridLength(y, m);
    ConsecutiveWeeks(GridDates(y, m));
  }

  /** Exactly the cells from position `Weekday(first)` on hold the month's days, in order; the
      cells before and after belong to other months. */
  lemma GridCoversMonth(y: int, m: int)
    requires 1 <= m <= 12
    ensures var g := GridDates(y, m);
      var l := Weekday(Date(y, m, 1));
      l < 7 && g[l..l + DaysInMonth(y, m)] == MonthDates(y, m)
      && (forall i | 0 <= i < |g| && (i < l || i >= l + DaysInMonth(y, m)) :: g[i].month != m)
      && (forall i | 0 <= i < |g| && g[i].month == m :: g[i] == Date(y, m, i - l + 1))
  {
    var g := GridDates(y, m);
    var lead, days, trail := LeadDates(y, m), MonthDates(y, m), TrailDates(y, m);
    PrevNextMonth(y, m);
    var next := AddMonths(y, m, 1);
    assert next.1 != m by {
      if next.1 == m {
        MonthIndexUnique(next.0, next.1, y, m);
      }
    }
    assert g[|lead|..|lead| + |days|] == days;
    forall i | 0 <= i < |g| && (i < |lead| || i >= |lead| + |days|) ensures g[i].month != m {
      if i < |lead| {
        assert g[i] == lead[i];
      } else {
        assert g[i] == trail[i - |lead| - |days|];
      }
    }
    forall i | 0 <= i < |g| && g[i].month == m ensures g[i] == Date(y, m, i - |lead| + 1) {
      assert |lead| <= i < |lead| + |days|;
      assert g[i] == days[i - |lead|];
    }
  }

  function Cell(d: Date, m: int): DayOption
    requires ValidDate(d)
  {
    DayOption(FormatIso(d), d, d.month == m)
  }

  /** The cells of a run of dates; `inMonth` compares the month number only, as
      `date.getMonth() === firstDay.getMonth()` does. */
  function Cells(ds: seq<Date>, m: int): (r: seq<DayOption>)
    requires AllValid(ds)
    ensures |r| == |ds| && forall i | 0 <= i < |ds| :: r[i] == Cell(ds[i], m)
  {
    if ds == [] then [] else [Cell(ds[0], m)] + Cells(ds[1..], m)
  }

  /** `daysInMonth`: no cells when the key has no usable year and month. */
  function Grid(key: string): seq<DayOption>
  {
    match MonthOfKey(key)
    case None => []
    case Some((y, m)) => Cells(GridDates(y, m), m)
  }

  predicate InMonth(c: DayOption) {
    c.inMonth
  }

  /** `.map((day) => day.iso)`. */
  function Isos(cs: seq<DayOption>): seq<string>
  {
    seq(|cs|, i requires 0 <= i < |cs| => cs[i].iso)
  }

  /** The `YYYY-MM-DD` texts of a run of dates. */
  function IsoList(ds: seq<Date>): seq<string>
    requires AllValid(ds)
  {
    seq(|ds|, i requires 0 <= i < |ds| => FormatIso(ds[i]))
  }

  /** The iso dates of the in-month cells of a grid; the dates a selection may hold. */
  function OfferedIsos(days: seq<DayOption>): seq<string>
  {
    Isos(Filter(days, InMonth))
  }

  /** The dates a selection may hold in the month of `key`. */
  function MonthIsos(key: string): seq<string>
  {
    OfferedIsos(Grid(key))
  }

  /** Filtering cells is filtering their dates, when the two tests agree on every date. */
  lemma {:induction false} FilterCells(ds: seq<Date>, m: int, p: DayOption -> bool, q: Date -> bool)
    requires AllValid(ds)
    requires forall i | 0 <= i < |ds| :: p(Cell(ds[i], m)) == q(ds[i])
    ensures AllValid(Filter(ds, q))
    ensures Filter(Cells(ds, m), p) == Cells(Filter(ds, q), m)
  {
    if ds != [] {
      var tail := ds[1..];
      FilterCells(tail, m, p, q);
    }
  }

  /** Filtering the grid's dates by a test that only days of month `m` can pass: the days of
      the month that pass. */
  lemma FilterGridDates(y: int, m: int, q: Date -> bool, r: Date -> bool)
    requires 1 <= m <= 12
    requires forall d: Date | ValidDate(d) && d.month != m :: !q(d)
    requires forall d | d in MonthDates(y, m) :: q(d) == r(d)
    ensures Filter(GridDates(y, m), q) == Filter(MonthDates(y, m), r)
  {
    var lead, days, trail := LeadDates(y, m), MonthDates(y, m), TrailDates(y, m);
    GridCoversMonth(y, m);
    var g := GridDates(y, m);
    var l := |lead|;
    forall x | x in lead ensures !q(x) {
      var i :| 0 <= i < |lead| && lead[i] == x;
      assert g[i] == x;
    }
    forall x | x in trail ensures !q(x) {
      var i :| 0 <= i < |trail| && trail[i] == x;
      assert g[l + |days| + i] == x;
    }
    FilterAppend(lead + days, trail, q);
    FilterAppend(lead, days, q);
    FilterNone(lead, q);
    FilterNone(trail, q);
    FilterCongruent(days, q, r);
  }

  /** `date.getMonth() === firstDay.getMonth()` as a test on dates. */
  function OfMonth(m: int): Date -> bool {
    (d: Date) => d.month == m
  }

  /** Of a month's grid, the dates of that month number are the month's own days, in order. */
  lemma GridDatesOfMonth(y: int, m: int)
    requires 1 <= m <= 12
    ensures Filter(GridDates(y, m), OfMonth(m)) == MonthDates(y, m)
  {
    FilterGridDates(y, m, OfMonth(m), OfMonth(m));
    FilterAll(MonthDates(y, m), OfMonth(m));
  }

  /** Of a month's grid, the in-month cells are the cells of the month's own days, in order. */
  lemma InMonthCellsOfMonth(y: int, m: int)
    requires 1 <= m <= 12
    ensures Filter(Cells(GridDates(y, m), m), InMonth) == Cells(MonthDates(y, m), m)
  {
    FilterCells(GridDates(y, m), m, InMonth, OfMonth(m));
    GridDatesOfMonth(y, m);
  }

  /** The in-month cells of a key's grid: one per day of its month, in order. */
  lemma InMonthCells(key: string, y: int, m: int)
    requires MonthOfKey(key) == Some((y, m))
    ensures Filter(Grid(key), InMonth) == Cells(MonthDates(y, m), m)
    ensures |Filter(Grid(key), InMonth)| == DaysInMonth(y, m)
  {
    GridOfKey(key, y, m);
    InMonthCellsOfMonth(y, m);
  }

  lemma GridOfKey(key: string, y: int, m: int)
    requires MonthOfKey(key) == Some((y, m))
    ensures Grid(key) == Cells(GridDates(y, m), m)
  {
  }

  /** The cells of a run of dates carry the dates' iso texts, in order. */
  lemma IsosOfCells(ds: seq<Date>, m: int)
    requires AllValid(ds)
    ensures Isos(Cells(ds, m)) == IsoList(ds)
  {
  }

  /** The dates a selection may hold are the month's days written `YYYY-MM-DD`, in order. */
  lemma MonthIsosOfKey(key: string, y: int, m: int)
    requires MonthOfKey(key) == Some((y, m))
    ensures MonthIsos(key) == IsoList(MonthDates(y, m))
  {
    InMonthCells(key, y, m);
    IsosOfCells(MonthDates(y, m), m);
  }

  /** A key whose year or month part is missing, zero or not a number gives no cells at all. */
  lemma GridOfUnusableKey(key: string)
    requires var parts := Split(key, '-');
      |parts| < 2 || KeyNumber(parts[0]) in {None, Some(0)} || KeyNumber(parts[1]) in {None, Some(0)}
    ensures Grid(key) == [] && MonthIsos(key) == []
  {
  }

  /** The iso texts of dates drawn from a run are among the run's iso texts. */
  lemma IsoListWithin(sub: seq<Date>, ds: seq<Date>)
    requires AllValid(ds) && forall d | d in sub :: d in ds
    ensures AllValid(sub)
    ensures forall x | x in IsoList(sub) :: x in IsoList(ds)
  {
    var isos := IsoList(sub);
    forall x | x in isos ensures x in IsoList(ds) {
      var i :| 0 <= i < |isos| && isos[i] == x;
      assert sub[i] in ds;
      var j :| 0 <= j < |ds| && ds[j] == sub[i];
      assert IsoList(ds)[j] == x;
    }
  }

  /** The iso texts of distinct dates from year 1 on are distinct. */
  lemma IsoListNoDuplicates(ds: seq<Date>)
    requires AllValid(ds) && forall d | d in ds :: d.year >= 1
    requires NoDuplicates(ds)
    ensures NoDuplicates(IsoList(ds))
  {
    forall i, j | 0 <= i < j < |ds| ensures IsoList(ds)[i] != IsoList(ds)[j] {
      if FormatIso(ds[i]) == FormatIso(ds[j]) {
        FormatIsoInjective(ds[i], ds[j]);
      }
    }
  }

  lemma MonthDatesNoDuplicates(y: int, m: int)
    requires 1 <= m <= 12
    ensures NoDuplicates(MonthDates(y, m))
  {
  }

  /** The date of an in-month cell of the grid is one a selection may hold. */
  lemma InMonthCellIso(days: seq<DayOption>, c: DayOption)
    requires c in days && c.inMonth
    ensures c.iso in OfferedIsos(days)
  {
    var cells := Filter(days, InMonth);
    assert c in cells;
    var i :| 0 <= i < |cells| && cells[i] == c;
    assert Isos(cells)[i] == c.iso;
  }
}
