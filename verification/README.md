# Kilometerregistratie — a verified model of the mileage log's rules

The application is a single-user mileage log. The user records trips: a date, a title, a
distance and optional notes. Trips are grouped by `YYYY-MM` month. Days are planned in bulk
on a calendar grid, and each month's report carries an invoice number. This project models
the rules behind those screens in Dafny and proves what they promise:

- `App` models the entry store of `src/App.tsx`. It covers adding one or many entries,
  deleting by id, the newest-first order, the month filter, the last distance and the
  offered months.
- `Planner` and `MonthGrid` model the bulk planner of `src/components/BulkEntryPlanner.tsx`.
  The grid runs Monday to Sunday. The planner keeps a selection of days, picks workdays or
  every other day, validates the form and expands it into one entry per selected day.
- `Report` models the selection state of `src/components/MonthlyReport.tsx`: row selection,
  select all or none, pruning, bulk delete, the sort toggle, and the kilometre total.
- `EntryForm` models validation, normalisation and reset in `src/components/EntryForm.tsx`.
- `Invoice` models `resolveInvoiceNumber` from `src/utils/invoice.ts`.
- `DateUtils` and `MonthSelector` model the month keys, month labels and display dates of
  `src/utils/date.ts`, and the descending month list.
- `SettingsForm` models the one-field record update of
  `src/components/InvoiceSettingsForm.tsx`.

Shared modules stand for the JavaScript and date-fns behaviour the code relies on:

- `Seqs`: filter, `[...new Set(xs)]`, and the remove-or-append toggle.
- `Sorting`: `Array.prototype.sort`, as an insertion sort.
- `Text`: `trim`, ASCII `toUpperCase`, `split`, and string comparison by code unit.
- `Numbers`: the `Number(text)` conversion.
- `Calendar`: a proleptic Gregorian calendar with ISO 8601 extended `YYYY-MM-DD` and basic
  `YYYYMMDD` dates.

The state that the components update in place is modelled as classes:

- `App.EntryStore`: the entries and the selected month.
- `Planner.Planner`: the month, the memoised grid, the trip template and the selected days.
- `Report.Report`: the rows, the selected ids and the sort order.
- `EntryForm.EntryForm`: the four inputs and the error record.

Each method states its whole new state. Each class has a `Valid()` invariant, which every
method keeps:

- The store keeps ids unique.
- A planner selection is repeat-free and holds only dates of in-month cells.
- A report selection is repeat-free and holds only ids of rows.

The derived values (`sortedEntries`, `entriesForSelectedMonth`, `daysInMonth` and so on) are
functions. Lemmas relate them to independent descriptions: membership, order, counts and
round trips.

Inputs the code takes from the environment are parameters:

- the current date (`today`);
- the fresh ids that `createId` would draw;
- the text `suggestedDistance.toString()` produces.

Some failures make the code throw from date-fns on an unparsable date. The model returns
them as a `None` result or an `ok == false` flag.

The system is sometimes described as an append-only log. The code is not: `handleDelete`
removes entries, and the model follows the code.

## Model

| member | source | states |
|---|---|---|
| Text.Trim | src/components/EntryForm.tsx:27 | `trim()` is empty exactly when the text is all whitespace; otherwise it starts and ends with a non-whitespace character |
| Text.TrimIsSlice | src/components/EntryForm.tsx:27 | `trim()` is a slice of the text with only whitespace cut from either end |
| Text.TrimIdempotent | src/utils/invoice.ts:6 | trimming a trimmed text changes nothing |
| Text.TrimmedOrAbsent | src/components/EntryForm.tsx:60 | `notes.trim() \|\| undefined` is absent exactly for blank notes, else the non-empty trimmed text |
| Text.ToUpperProperties | src/components/InvoiceSettingsForm.tsx:72 | upper-casing leaves no lower-case ASCII letter, keeps every other character, and is idempotent |
| Text.StrLessIrreflexive | src/App.tsx:45 | no string sorts before itself |
| Text.StrLessAsymmetric | src/App.tsx:45 | two strings never sort before each other |
| Text.StrLessTransitive | src/App.tsx:45 | the code-unit order on strings is transitive |
| Text.StrLessConnected | src/App.tsx:45 | of two different strings one sorts before the other |
| Text.StrNotLess | src/App.tsx:45 | `!(a < b)` holds exactly when `a == b` or `b < a` |
| Text.Split | src/utils/date.ts:10 | `split('-')` gives at least one part, and no part contains the separator |
| Text.JoinSplit | src/utils/date.ts:10 | joining the parts of `split` with the separator gives back the text |
| Numbers.DigitsValueOfNatToDecimal | src/components/BulkEntryPlanner.tsx:27 | the decimal numeral of a whole number reads back as that number |
| Numbers.NumberOfNumeral | src/components/BulkEntryPlanner.tsx:36-37 | `Number` of a whole number's numeral is that number |
| Numbers.BlankIsZero | src/components/BulkEntryPlanner.tsx:36 | `Number` of a blank text is 0, which is not a positive distance |
| Calendar.DaysInMonth | src/components/BulkEntryPlanner.tsx:48 | a month has 28 to 31 days, and February has 29 exactly in leap years |
| Calendar.NextDay | src/components/BulkEntryPlanner.tsx:52 | the next day is a valid date one day number later |
| Calendar.DaysBeforeYearStep | src/components/BulkEntryPlanner.tsx:52 | the day count at the start of a year grows by the year's length |
| Calendar.NextDayWeekday | src/components/BulkEntryPlanner.tsx:49-50 | the weekday advances by one, modulo 7, from one day to the next |
| Calendar.JsDayWorkday | src/components/BulkEntryPlanner.tsx:73-74 | `getDay()` is 1 to 5 exactly on Monday to Friday |
| Calendar.FirstOf2024IsMonday | src/components/BulkEntryPlanner.tsx:49 | the weekday numbering agrees with the calendar: 1 January 2024 is a Monday |
| Calendar.AddMonths | src/App.tsx:54 | moving `k` months gives a month 1 to 12 whose month index is `k` further on |
| Calendar.NextMonthFirst | src/components/BulkEntryPlanner.tsx:48-52 | the day after a month's last day is the first of the next month |
| Calendar.PrevNextMonth | src/components/BulkEntryPlanner.tsx:49 | one month forward from the previous month is the month itself, and a different month number |
| Calendar.ParseFormatIso | src/components/BulkEntryPlanner.tsx:72 | `parseISO` of a date written `yyyy-MM-dd` (years 1 to 9999) gives the date back |
| Calendar.FormatParseIso | src/utils/date.ts:5-6 | writing a parsed `YYYY-MM-DD` date gives the original text |
| Calendar.FormatIsoInjective | src/components/BulkEntryPlanner.tsx:53 | different dates from year 1 on have different `yyyy-MM-dd` texts |
| Calendar.FormatYearValue | src/utils/date.ts:6 | the printed year reads back as the year |
| Calendar.FormatYear | src/utils/date.ts:15 | the printed year is all digits, four of them zero-padded for years 1 to 9999 |
| Calendar.ParseIso | src/utils/date.ts:20 | a parsed date is a valid calendar date of years 0 to 9999 |
| DateUtils.MonthKeyIsPrefix | src/utils/date.ts:4-7 | the month key of a `YYYY-MM-DD` text is its seven-character prefix |
| DateUtils.MonthKeyOfDateShape | src/utils/date.ts:4-6 | the month key of a date value is the four-digit year, `-` and the two-digit month |
| DateUtils.MonthOfKey | src/utils/date.ts:10-15 | a usable key names a month 1 to 12 of a year from 100 on |
| DateUtils.MonthOfCanonicalKey | src/utils/date.ts:10-15 | a well-formed key of years 100 to 9999 reads back as its own year and month |
| DateUtils.LabelOfCanonicalKey | src/utils/date.ts:15-16 | a valid key's label is the Dutch month name, a space and the four-digit year |
| DateUtils.LabelFallback | src/utils/date.ts:10-13 | a key with no month part, or a zero or non-numeric part, is its own label |
| DateUtils.DisplayDateRearranges | src/utils/date.ts:19-22 | `YYYY-MM-DD` is displayed as `DD-MM-YYYY` |
| Invoice.CustomNumberWins | src/utils/invoice.ts:6-9 | a custom number with a visible character is used, trimmed and non-empty, whatever the dates |
| Invoice.NumberFromInvoiceDate | src/utils/invoice.ts:11-16 | without a custom number, a set invoice date `YYYY-MM-DD` becomes `YYYYMMDD` |
| Invoice.NumberFromMonth | src/utils/invoice.ts:11-16 | without a custom number or invoice date, month `YYYY-MM` gives `YYYYMM01` |
| Invoice.NumberFallsBackToLabel | src/utils/invoice.ts:13-22 | an unparsable date source falls back to the month label |
| Invoice.DerivedNumberIsEightDigits | src/utils/invoice.ts:14-16 | every number derived from a date of years 1 to 9999 is eight digits |
| Seqs.Filter | src/App.tsx:93 | a filter keeps exactly the elements that pass, in a sub-multiset of the input |
| Seqs.FilterAppend | src/App.tsx:93 | filtering a concatenation concatenates the filtered parts |
| Seqs.FilterNoDuplicates | src/components/BulkEntryPlanner.tsx:69-76 | filtering a repeat-free sequence keeps it repeat-free |
| Seqs.FilterAll | src/App.tsx:93 | a filter that everything passes changes nothing |
| Seqs.FilterFilter | src/App.tsx:61 | two filters in a row are one filter by both tests |
| Seqs.Dedup | src/App.tsx:51-57 | `Array.from(new Set(...))` has no repeats and the same members as its input |
| Seqs.DedupFirstOccurrence | src/App.tsx:51-57 | the distinct elements come in the order of their first occurrence in the input |
| Seqs.DedupOfDistinct | src/components/MonthSelector.tsx:10 | a repeat-free list is its own deduplication |
| Seqs.Remove | src/components/MonthlyReport.tsx:50 | `filter(item => item !== x)` keeps every element except `x` |
| Seqs.ToggleMembership | src/components/MonthlyReport.tsx:50 | the toggle flips the membership of its element only, and keeps the list repeat-free |
| Seqs.ToggleTwice | src/components/BulkEntryPlanner.tsx:65 | toggling twice restores a selection that lacked the element, and restores the members of one that held it |
| Seqs.PermutationNoDuplicates | src/App.tsx:40 | a reordering of a repeat-free list is repeat-free |
| Seqs.EvenPositions | src/components/BulkEntryPlanner.tsx:82 | the elements at even indexes: ceil(n / 2) of them, the first, third, fifth and so on |
| Sorting.SortBy | src/App.tsx:40 | the sort is a permutation of its input |
| Sorting.SortBySorted | src/App.tsx:40-46 | with a total, transitive comparator every pair of positions is in order |
| Sorting.SortByMembers | src/App.tsx:40 | the sort keeps exactly the elements it was given |
| Sorting.InsertSorted | src/App.tsx:40 | inserting into an ordered list keeps it ordered |
| Sorting.FilterSorted | src/App.tsx:61 | filtering an ordered list keeps it ordered |
| App.UniqueIdsAsIds | src/App.tsx:70 | ids are unique exactly when the id list has no repeats |
| App.PermutationUniqueIds | src/App.tsx:40 | reordering the entries keeps their ids unique |
| App.AppendFreshUniqueIds | src/App.tsx:83-88 | appending entries under distinct fresh ids keeps all ids unique |
| App.NewestFirstIsTotalPreorder | src/App.tsx:40-46 | the `sortedEntries` comparator orders any two entries and is transitive |
| App.SortedEntriesProperties | src/App.tsx:38-48 | the sorted list is a permutation, descending by date, and by id among equal dates |
| App.SortedEntriesMembers | src/App.tsx:38-48 | sorting keeps exactly the entries and their unique ids |
| App.EntriesForMonthProperties | src/App.tsx:60-63 | the month's list holds exactly the entries of that month, in the sorted order, with unique ids |
| App.LastDistanceIsNewest | src/App.tsx:65 | the last distance is absent exactly without entries, and is otherwise the distance of an entry no other entry precedes |
| App.MonthKeys | src/App.tsx:51 | one month key per entry |
| App.MonthKeysMembers | src/App.tsx:51 | the keys are exactly the months of the entries' dates |
| App.MonthsBackFrom | src/App.tsx:53-55 | the first `n` loop rounds add the keys of 0 to `n - 1` months back, in that order |
| App.MonthsBackKey | src/App.tsx:54 | each recent key names the month that many months back |
| App.RecentMonthsProperties | src/App.tsx:53-55 | the 18 recent keys start with this month, step back one month each, and are all different |
| App.RecentMonthsDistinct | src/App.tsx:53-55 | the 18 recent keys are all different |
| App.AvailableMonthsMembers | src/App.tsx:50-58 | the offered months have no repeats and are exactly the entries' months, the 18 recent months and the selected month |
| App.EntryStore.constructor | src/App.tsx:22-23 | the store starts with no entries and this month selected |
| App.EntryStore.HandleAdd | src/App.tsx:67-76 | one entry is appended under the fresh id and its month selected; an unparsable date changes nothing |
| App.EntryStore.HandleBulkAdd | src/App.tsx:78-90 | an empty list changes nothing; otherwise all values are appended in order and the last one's month selected |
| App.EntryStore.HandleDelete | src/App.tsx:92-94 | the entries become those without the id, in order; ids stay unique |
| App.EntryStore.AvailableMonths | src/App.tsx:50-58 | the loop computes the deduplicated list of entry months, recent months and the selected month; `None` exactly when a date does not parse |
| App.RemoveIdProperties | src/App.tsx:93 | deleting keeps exactly the entries with another id, and an unknown id changes nothing |
| App.RemoveKnownId | src/App.tsx:93 | with unique ids, deleting a stored id removes exactly one entry |
| MonthSelector.RenderedOptions | src/components/MonthSelector.tsx:10-26 | nothing is rendered for an empty list; otherwise one option per month with its label |
| MonthSelector.DescendingIsTotalPreorder | src/components/MonthSelector.tsx:10 | the comparator `a > b ? -1 : 1` orders any two keys and is transitive |
| MonthSelector.MonthOptionsProperties | src/components/MonthSelector.tsx:10 | each input month appears once, in strictly descending order |
| SettingsForm.Get | src/types.ts:9-17 | each field's value has the field's type |
| SettingsForm.SettingsExtensionality | src/types.ts:9-17 | two records agreeing on every field are equal |
| SettingsForm.UpdateField | src/components/InvoiceSettingsForm.tsx:11-13 | the field gets the new value and every other field is kept |
| SettingsForm.UpdateFieldLaws | src/components/InvoiceSettingsForm.tsx:11-13 | writing back a field's own value changes nothing, and the second of two writes wins |
| SettingsForm.NumberInput | src/components/InvoiceSettingsForm.tsx:16-22 | the stored number is never NaN: NaN becomes 0, any other value is kept |
| SettingsForm.OnInputChangesOnlyItsField | src/components/InvoiceSettingsForm.tsx:39-108 | each input changes only its own field: text as typed, the plate upper-cased, numbers parsed or 0 |
| SettingsForm.LicensePlateIsUpperCase | src/components/InvoiceSettingsForm.tsx:72 | the stored plate has no lower-case ASCII letter, and re-entering it changes nothing |
| SettingsForm.NumberChangeStoresParsedOrZero | src/components/InvoiceSettingsForm.tsx:15-23 | an unreadable number stores 0, and a readable one is stored unchanged |
| EntryForm.ValidationErrors | src/components/EntryForm.tsx:36-50 | a message exactly for each failing check, and none exactly when the form is valid |
| EntryForm.EntryForm.constructor | src/components/EntryForm.tsx:20-24 | the form opens on today with empty inputs and no errors |
| EntryForm.EntryForm.Reset | src/components/EntryForm.tsx:63-67 | after success: today's date, empty inputs, no errors |
| EntryForm.EntryForm.HandleSubmit | src/components/EntryForm.tsx:33-68 | values are handed on exactly when `isValid`; otherwise the errors are set and the inputs stay; on success the values are normalised and the form resets |
| EntryForm.SubmittedValuesAreClean | src/components/EntryForm.tsx:56-61 | a submitted title is non-empty and trimmed, the distance positive, and notes absent or non-blank and trimmed |
| MonthGrid.LeadDates | src/components/BulkEntryPlanner.tsx:49 | as many days of the previous month as the first's weekday counted from Monday |
| MonthGrid.MonthDates | src/components/BulkEntryPlanner.tsx:47-48 | one valid date per day of the month |
| MonthGrid.TrailDates | src/components/BulkEntryPlanner.tsx:50 | fewer than 7 days of the next month, completing the last week |
| MonthGrid.RunConsecutive | src/components/BulkEntryPlanner.tsx:52 | days `first`, `first + 1` and so on of one month follow each other |
| MonthGrid.JoinConsecutive | src/components/BulkEntryPlanner.tsx:52 | two runs joined at a day boundary are one run |
| MonthGrid.GridConsecutive | src/components/BulkEntryPlanner.tsx:47-52 | each grid cell is the day after the one before it |
| MonthGrid.GridStart | src/components/BulkEntryPlanner.tsx:49 | the first cell lies the first's weekday, counted from Monday, before the first of the month |
| MonthGrid.ConsecutiveDayNumbers | src/components/BulkEntryPlanner.tsx:52 | in a run, date `i` lies `i` days after the first |
| MonthGrid.GridDayNumbers | src/components/BulkEntryPlanner.tsx:49-52 | grid cell `i` lies `i` days after the first cell |
| MonthGrid.GridStartsOnMonday | src/components/BulkEntryPlanner.tsx:49 | the grid starts on a Monday |
| MonthGrid.GridLength | src/components/BulkEntryPlanner.tsx:49-52 | the grid is a whole number of weeks, at least four |
| MonthGrid.ConsecutiveWeeks | src/components/BulkEntryPlanner.tsx:49-52 | a run of whole weeks from a Monday puts cell `i` on weekday `i % 7` and ends on a Sunday |
| MonthGrid.GridWeeks | src/components/BulkEntryPlanner.tsx:47-52 | the grid starts on a Monday, ends on a Sunday, and has cell `i` on weekday `i % 7` |
| MonthGrid.GridCoversMonth | src/components/BulkEntryPlanner.tsx:47-56 | the month's days sit in order from the first's weekday on; the cells around them are of other months |
| MonthGrid.Cells | src/components/BulkEntryPlanner.tsx:52-57 | one cell per date, carrying its iso text and its month test |
| MonthGrid.FilterCells | src/components/BulkEntryPlanner.tsx:69-76 | filtering cells is filtering their dates when the tests agree |
| MonthGrid.FilterGridDates | src/components/BulkEntryPlanner.tsx:56 | a test only days of the month can pass picks the same dates from the grid as from the month |
| MonthGrid.GridDatesOfMonth | src/components/BulkEntryPlanner.tsx:56 | the grid dates with the month's number are the month's own days, in order |
| MonthGrid.InMonthCellsOfMonth | src/components/BulkEntryPlanner.tsx:56 | the in-month cells are the cells of the month's days, in order |
| MonthGrid.InMonthCells | src/components/BulkEntryPlanner.tsx:41-58 | a key's grid has one in-month cell per day of its month, in order |
| MonthGrid.IsosOfCells | src/components/BulkEntryPlanner.tsx:53 | the cells carry their dates' `yyyy-MM-dd` texts, in order |
| MonthGrid.MonthIsosOfKey | src/components/BulkEntryPlanner.tsx:41-58 | the selectable dates are the month's days written `YYYY-MM-DD`, in order |
| MonthGrid.GridOfUnusableKey | src/components/BulkEntryPlanner.tsx:42-45 | a key whose year or month is missing, zero or non-numeric gives no cells |
| MonthGrid.IsoListWithin | src/components/BulkEntryPlanner.tsx:76 | the iso texts of some of the days are among the iso texts of all of them |
| MonthGrid.IsoListNoDuplicates | src/components/BulkEntryPlanner.tsx:53 | distinct dates from year 1 on give distinct iso texts |
| MonthGrid.MonthDatesNoDuplicates | src/components/BulkEntryPlanner.tsx:52 | the month's days are all different |
| MonthGrid.InMonthCellIso | src/components/BulkEntryPlanner.tsx:60-65 | an in-month cell's date is a selectable date |
| Planner.WorkdayCellOfDate | src/components/BulkEntryPlanner.tsx:70-74 | the cell test (in month, parsed, `getDay()` 1 to 5) agrees with the date test |
| Planner.WorkdayCellsOfGrid | src/components/BulkEntryPlanner.tsx:69-75 | the workday cells are the cells of the grid dates passing the workday test |
| Planner.WorkdayDatesOfGrid | src/components/BulkEntryPlanner.tsx:69-75 | the grid dates passing the workday test are the month's Mondays to Fridays |
| Planner.WorkdaysOfMonth | src/components/BulkEntryPlanner.tsx:68-78 | for years 100 to 9999 the workday cells carry the month's Mondays to Fridays |
| Planner.WorkdaysOfKey | src/components/BulkEntryPlanner.tsx:68-78 | `selectWorkdays` picks exactly the month's Mondays to Fridays, in calendar order |
| Planner.NumeralLength | src/components/BulkEntryPlanner.tsx:53 | a number of at least `10^k` has more than `k` digits |
| Planner.LongNumeral | src/components/BulkEntryPlanner.tsx:53 | a year from 10000 on is printed with five or more digits |
| Planner.NoParsePast9999 | src/components/BulkEntryPlanner.tsx:72 | a date past year 9999 written out does not parse back |
| Planner.NoWorkdayCellsPast9999 | src/components/BulkEntryPlanner.tsx:69-75 | past year 9999 no cell passes the workday test |
| Planner.NoWorkdaysPast9999 | src/components/BulkEntryPlanner.tsx:68-78 | past year 9999 `selectWorkdays` selects nothing |
| Planner.EveryOtherOfMonth | src/components/BulkEntryPlanner.tsx:82 | the even positions of a month's cells are its odd days, ceil(days / 2) of them |
| Planner.EveryOtherOfKey | src/components/BulkEntryPlanner.tsx:80-84 | `selectEveryOtherDay` picks days 1, 3, 5 and so on of the month, ceil(days / 2) dates in order |
| Planner.WeekdaysWithinMonth | src/components/BulkEntryPlanner.tsx:68-78 | the month's Mondays to Fridays, written out, are distinct days of the month |
| Planner.WorkdaysWithinMonth | src/components/BulkEntryPlanner.tsx:68-78 | the workday selection is repeat-free and holds only selectable dates |
| Planner.OddDaysWithinMonth | src/components/BulkEntryPlanner.tsx:80-84 | the odd days of a month, written out, are distinct days of it |
| Planner.EveryOtherWithinMonth | src/components/BulkEntryPlanner.tsx:80-84 | the every-other selection is repeat-free and holds only selectable dates |
| Planner.Expanded | src/components/BulkEntryPlanner.tsx:99-105 | one entry per selected date |
| Planner.DateAscendingIsTotalPreorder | src/components/BulkEntryPlanner.tsx:106 | the comparator `a.date > b.date ? 1 : -1` orders any two entries and is transitive |
| Planner.ExpandedMembers | src/components/BulkEntryPlanner.tsx:99-105 | an entry is made exactly for each selected date, with the trimmed title, the distance and the trimmed notes |
| Planner.ExpandedNoDuplicates | src/components/BulkEntryPlanner.tsx:99-105 | a repeat-free selection gives repeat-free entries |
| Planner.ExpandSelectionProperties | src/components/BulkEntryPlanner.tsx:99-106 | the entries are exactly one per selected date with the shared data, in strictly ascending date order |
| Planner.ToggleWithin | src/components/BulkEntryPlanner.tsx:65 | toggling a selectable date keeps the selection repeat-free and selectable |
| Planner.Planner.constructor | src/components/BulkEntryPlanner.tsx:26-29 | title `Kantoor`, the initial distance text, no notes, no days |
| Planner.Planner.ChangeMonth | src/components/BulkEntryPlanner.tsx:31-33 | a new month key recomputes the grid, and empties the selection when the key changed |
| Planner.Planner.SyncSuggestedDistance | src/components/BulkEntryPlanner.tsx:35-39 | a non-zero suggestion replaces a distance reading as 0, and the new text reads as the suggestion |
| Planner.Planner.ToggleDay | src/components/BulkEntryPlanner.tsx:60-66 | an out-of-month day changes nothing; an in-month date is removed if selected, appended if not |
| Planner.Planner.SelectWorkdays | src/components/BulkEntryPlanner.tsx:68-78 | the selection becomes the month's workdays |
| Planner.Planner.SelectEveryOtherDay | src/components/BulkEntryPlanner.tsx:80-84 | the selection becomes the every-other days |
| Planner.Planner.ClearSelection | src/components/BulkEntryPlanner.tsx:86 | the selection becomes empty |
| Planner.Planner.HandleSubmit | src/components/BulkEntryPlanner.tsx:93-116 | it creates nothing, changing nothing, exactly when `isSubmitDisabled`; otherwise it hands on the expanded entries and clears the selection |
| Planner.SubmitCreatesOnePerDay | src/components/BulkEntryPlanner.tsx:93-110 | a successful submit makes one entry per selected day, ascending by date, with a non-empty trimmed title and a positive distance |
| Report.Flip | src/components/MonthlyReport.tsx:66-68 | the toggle always changes the order |
| Report.FlipTwice | src/components/MonthlyReport.tsx:66-68 | two toggles restore the order |
| Report.DateOrdersAreTotalPreorders | src/components/MonthlyReport.tsx:40-44 | both date comparators order any two entries and are transitive |
| Report.SortedByDateProperties | src/components/MonthlyReport.tsx:40-44 | the rows are a permutation of the entries, ascending by date for `asc`, descending for `desc` |
| Report.TotalAppend | src/components/MonthlyReport.tsx:24 | the total of two lists is the sum of their totals |
| Report.TotalWithout | src/components/MonthlyReport.tsx:24 | taking one entry out takes its distance off the total |
| Report.TotalPermutation | src/components/MonthlyReport.tsx:24 | any reordering has the same total |
| Report.SortedTotal | src/components/MonthlyReport.tsx:24-44 | the sorted rows add up to the entries' total in either order |
| Report.KeepPresentProperties | src/components/MonthlyReport.tsx:36-38 | pruning keeps exactly the selected ids some entry still has, and changes nothing when all are present |
| Report.AllSelectedMeansEveryId | src/components/MonthlyReport.tsx:46 | with a repeat-free selection of row ids, equal lengths mean every row is selected |
| Report.RemoveIdsProperties | src/components/MonthlyReport.tsx:61-62 | deleting the ids one by one leaves exactly the entries whose id is none of them, in order |
| Report.Report.constructor | src/components/MonthlyReport.tsx:33-34 | nothing selected, newest first |
| Report.Report.ReceiveEntries | src/components/MonthlyReport.tsx:36-38 | new rows arrive and the selection is pruned to ids still present |
| Report.Report.ToggleId | src/components/MonthlyReport.tsx:49-51 | a selected id is removed and another appended |
| Report.Report.ToggleAll | src/components/MonthlyReport.tsx:53-59 | a full selection is cleared, otherwise every row id is selected in row order |
| Report.Report.HandleDeleteSelected | src/components/MonthlyReport.tsx:61-64 | each selected id is deleted from the store in selection order, then the selection empties |
| Report.Report.HandleToggleSort | src/components/MonthlyReport.tsx:66-68 | the sort order flips and nothing else changes |

## Left out

- PDF export (`src/utils/pdf.ts`) is not part of this model. It is calls into a document library.
- Browser storage (`src/hooks/useLocalStorage.ts`) is not part of this model. It is I/O. A
  store starts empty rather than from saved entries. Invoice settings have no starting value.
- The money figures (`subtotal`, VAT, the total including VAT) and their `toFixed` and
  currency formatting are not modelled. They are floating-point arithmetic.
- Report.Total: sums the distances as exact reals, not as IEEE doubles, so rounding is not
  modelled.
- `createId` is random, so the add methods take the fresh ids as parameters and require them
  to be new.
- `new Date()` and `today()` are not modelled. The current date is a parameter.
- The localised cell `label`, the `weekday` texts and the month-label locale are not
  modelled. A cell carries its date instead. Only the Dutch month-name table is written out.
- `formatInvoiceDate` (`src/components/MonthlyReport.tsx:15-21`) is not modelled. It parses
  with `new Date(value)`, which reads a date-only text as UTC, and prints in local time. Its
  result depends on the time zone.
- Numbers.ParseNumber: covers blanks, signs, `Infinity` and decimals with a fraction. It
  does not cover `Number`'s exponents, hexadecimal, binary or octal forms; those read as NaN
  in the model.
- Numbers.ParseNumber: values are exact reals, not IEEE doubles. There is no overflow to
  `Infinity` (a numeral of 309 or more digits stays finite and positive), no underflow to 0
  (a tiny positive decimal stays positive), and no rounding. So `NumberOfNumeral` holds for
  every whole number, while in JavaScript `Number(String(n)) === n` fails beyond 2^53, and
  `String` writes exponent form from 10^21.
- DateUtils.KeyNumber: treats only plain digit strings as numbers in month-key parts.
  Signs, decimals, exponents and whitespace in a key part are not modelled.
- Calendar.ParseIso: accepts only the `YYYY-MM-DD` form with a valid day of a year 0000 to
  9999, and reads every other text as an invalid date. The other forms `parseISO` accepts
  are not modelled: the basic `YYYYMMDD`, the reduced `YYYY-MM` and `YYYYMM`, the year alone
  `YYYY`, the two-digit century, expanded `±YYYYYY` years, week and ordinal dates, and a
  time part. So a month key `2024` makes the invoice source `2024-01`, which `parseISO`
  reads as 1 January 2024 (invoice number `20240101`), while the model falls back to the
  label `2024`.
- The JavaScript date range (±100,000,000 days) is not modelled. Dates are unbounded.
- Text.ToUpper: upper-cases only ASCII letters. `toUpperCase` on other scripts is not
  modelled.
- Text.StrLess: reads `localeCompare` on dates and ids as code-unit order. This is exact for
  `YYYY-MM-DD` texts. For ids it assumes the collation agrees with code units, which holds
  for lower-case hexadecimal and base-36 ids.
- `(suggestedDistance ?? 0).toString()` and `suggestedDistance.toString()` are not modelled.
  They enter as texts, and the suggestion's text must read back as the number.
- React effect timing is not modelled. The effects on `[monthKey]`, `[suggestedDistance,
  distance]` and `[entries]` are methods (`ChangeMonth`, `SyncSuggestedDistance`,
  `ReceiveEntries`) that the caller invokes after the prop change.
- `settings.invoiceNumber?.trim()` on an undefined number is not modelled, because the
  record type always holds a string.
- The `maxLength` of the currency input is not modelled. It is an attribute of the rendered
  element.
- App.EntriesForMonth: drops entries whose date does not parse. In the code,
  `makeMonthKey` throws while the page renders. `HandleAdd` never stores such a date, but
  `HandleBulkAdd` appends whatever dates it is given, so such entries can reach this
  function; only the bulk planner, whose dates all come from the grid, never sends one.
- App.EntryStore.HandleBulkAdd: when the last date does not parse, `makeMonthKey` throws
  after the append was queued. The model keeps the append, returns `ok == false` and leaves
  the month.
- Sorting.SortBy: stability is not proved. The lemmas give a sorted permutation, so the
  order among elements the comparator ties is not stated; in the report that is the order
  of entries with the same date.
- Report.Report.ToggleId: requires the id to be one of the rows, as the row checkboxes
  guarantee. The code's `toggleId` would also add an unknown id.
- Planner.Planner.ToggleDay: requires the day to be a cell of the current grid, as the
  rendered buttons guarantee.
- Planner.Planner.SelectWorkdays, Planner.Planner.SelectEveryOtherDay: require the
  memoised grid to match the month key, which `useMemo` on `[monthKey]` guarantees.
- Report.Report.HandleDeleteSelected: the rows themselves change only when the store's new
  month list arrives through `ReceiveEntries`, as the props do in the code.
