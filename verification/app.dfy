/** `src/App.tsx`: the entry list, the selected month and what the page derives from them
    (entries newest first, the month choices, the month's entries, the last distance). */
module App {
  import opened Wrappers
  import opened Text
  import opened Seqs
  import opened Sorting
  import opened Calendar
  import opened Types
  import opened DateUtils

  // ----- Entry identities -----

  /** `entries.map(entry => entry.id)`. */
  function Ids(es: seq<Entry>): seq<string> {
    seq(|es|, i requires 0 <= i < |es| => es[i].id)
  }

  /** No entry is stored twice and no two stored entries share an id. */
  predicate UniqueIds(es: seq<Entry>) {
    NoDuplicates(es) && forall a, b | a in es && b in es && a.id == b.id :: a == b
  }

  /** `id` is not the id of any stored entry, as `createId` is taken to guarantee. */
  predicate FreshId(es: seq<Entry>, id: string) {
    forall e | e in es :: e.id != id
  }

  /** Unique ids are exactly a repeat-free id list. */
  lemma UniqueIdsAsIds(es: seq<Entry>)
    ensures UniqueIds(es) <==> NoDuplicates(Ids(es))
  {
    var ids := Ids(es);
    if UniqueIds(es) {
      forall i, j | 0 <= i < j < |ids| ensures ids[i] != ids[j] {
        assert es[i] in es && es[j] in es;
      }
    }
    if NoDuplicates(ids) {
      forall a, b | a in es && b in es && a.id == b.id ensures a == b {
        var i :| 0 <= i < |es| && es[i] == a;
        var j :| 0 <= j < |es| && es[j] == b;
        assert ids[i] == ids[j];
      }
      forall i, j | 0 <= i < j < |es| ensures es[i] != es[j] {
        assert ids[i] != ids[j];
      }
    }
  }

  /** A reordering of the entries keeps their ids unique. */
  lemma PermutationUniqueIds(a: seq<Entry>, b: seq<Entry>)
    requires UniqueIds(a) && multiset(a) == multiset(b)
    ensures UniqueIds(b)
  {
    PermutationNoDuplicates(a, b);
    forall x ensures x in b ==> x in a {
      assert x in b <==> x in multiset(b);
      assert x in a <==> x in multiset(a);
    }
  }

  /** `{ id: createId(), ...value }` for each value, with the fresh ids passed in. */
  function WithIds(ids: seq<string>, values: seq<EntryValues>): (r: seq<Entry>)
    requires |ids| == |values|
  {
    seq(|values|, i requires 0 <= i < |values| => WithId(ids[i], values[i]))
  }

  /** Appending entries under distinct fresh ids keeps all ids unique. */
  lemma AppendFreshUniqueIds(es: seq<Entry>, ids: seq<string>, values: seq<EntryValues>)
    requires UniqueIds(es) && |ids| == |values| && NoDuplicates(ids)
    requires forall id | id in ids :: FreshId(es, id)
    ensures UniqueIds(es + WithIds(ids, values))
  {
    var added := WithIds(ids, values);
    var all := es + added;
    assert Ids(all) == Ids(es) + ids;
    UniqueIdsAsIds(es);
    assert forall x | x in Ids(es) :: x !in ids by {
      forall x | x in Ids(es) ensures x !in ids {
        var k :| 0 <= k < |es| && Ids(es)[k] == x;
        assert es[k] in es;
      }
    }
    NoDuplicatesAppend(Ids(es), ids);
    UniqueIdsAsIds(all);
  }

  // ----- sortedEntries -----

  /** The comparator of `sortedEntries`: a later date first, and on the same date the greater
      id first (`b.id.localeCompare(a.id)`, read as code-unit order). */
  predicate NewestFirst(a: Entry, b: Entry) {
    if a.date == b.date then !StrLess(a.id, b.id) else StrLess(b.date, a.date)
  }

  /** `[...entries].sort(...)`. */
  function SortedEntries(es: seq<Entry>): seq<Entry> {
    SortBy(es, NewestFirst)
  }

  lemma NewestFirstIsTotalPreorder(s: seq<Entry>)
    ensures TotalOn(s, NewestFirst) && TransitiveOn(s, NewestFirst)
  {
    forall a, b | a in s && b in s ensures NewestFirst(a, b) || NewestFirst(b, a) {
      if a.date == b.date {
        StrLessAsymmetric(a.id, b.id);
      } else {
        StrLessConnected(a.date, b.date);
      }
    }
    forall a, b, c | a in s && b in s && c in s && NewestFirst(a, b) && NewestFirst(b, c)
      ensures NewestFirst(a, c)
    {
      if a.date == b.date && b.date == c.date {
        StrNotLess(a.id, b.id);
        StrNotLess(b.id, c.id);
        StrNotLess(a.id, c.id);
        if a.id != b.id && b.id != c.id {
          StrLessTransitive(c.id, b.id, a.id);
        }
      } else if a.date == b.date || b.date == c.date {
      } else {
        StrLessTransitive(c.date, b.date, a.date);
        if a.date == c.date {
          StrLessAsymmetric(c.date, b.date);
        }
      }
    }
  }

  /** The sorted list is a reordering of the entries in which no entry has an earlier date
      than a later one, and entries of one date run from the greatest id down. */
  lemma SortedEntriesProperties(es: seq<Entry>)
    ensures var r := SortedEntries(es);
      multiset(r) == multiset(es) &&
      forall i, j | 0 <= i < j < |r| ::
        !StrLess(r[i].date, r[j].date) && (r[i].date == r[j].date ==> !StrLess(r[i].id, r[j].id))
  {
    var r := SortedEntries(es);
    NewestFirstIsTotalPreorder(es);
    SortBySorted(es, NewestFirst);
    forall i, j | 0 <= i < j < |r|
      ensures !StrLess(r[i].date, r[j].date) && (r[i].date == r[j].date ==> !StrLess(r[i].id, r[j].id))
    {
      assert NewestFirst(r[i], r[j]);
      StrLessIrreflexive(r[i].date);
      if r[i].date != r[j].date {
        StrLessAsymmetric(r[j].date, r[i].date);
      }
    }
  }

  /** Sorting keeps exactly the stored entries and their unique ids. */
  lemma SortedEntriesMembers(es: seq<Entry>)
    ensures forall e :: e in SortedEntries(es) <==> e in es
    ensures UniqueIds(es) ==> UniqueIds(SortedEntries(es))
  {
    SortByMembers(es, NewestFirst);
    if UniqueIds(es) {
      PermutationUniqueIds(es, SortedEntries(es));
    }
  }

  // ----- entriesForSelectedMonth and lastDistance -----

  /** `entry => makeMonthKey(entry.date) === month`. */
  function InMonth(month: string): Entry -> bool {
    (e: Entry) => MakeMonthKey(e.date) == Some(month)
  }

  /** `entriesForSelectedMonth`: the sorted entries whose date falls in the month. */
  function EntriesForMonth(es: seq<Entry>, month: string): seq<Entry> {
    Filter(SortedEntries(es), InMonth(month))
  }

  /** The month's list holds exactly the stored entries of that month, newest first, with
      unique ids when the store has them. */
  lemma EntriesForMonthProperties(es: seq<Entry>, month: string)
    ensures var r := EntriesForMonth(es, month);
      (forall e :: e in r <==> e in es && MakeMonthKey(e.date) == Some(month)) &&
      (forall i, j | 0 <= i < j < |r| :: NewestFirst(r[i], r[j])) &&
      (UniqueIds(es) ==> UniqueIds(r))
  {
    var s := SortedEntries(es);
    var r := EntriesForMonth(es, month);
    SortedEntriesMembers(es);
    NewestFirstIsTotalPreorder(es);
    SortBySorted(es, NewestFirst);
    FilterSorted(s, NewestFirst, InMonth(month));
    assert Sorted(r, NewestFirst);
    if UniqueIds(es) {
      FilterNoDuplicates(s, InMonth(month));
    }
  }

  /** `sortedEntries[0]?.distance`. */
  function LastDistance(es: seq<Entry>): Option<real> {
    var s := SortedEntries(es);
    if s == [] then None else Some(s[0].distance)
  }

  /** The suggested distance is absent only without entries, and is otherwise the distance of
      an entry that comes first by the sort: no stored entry is newer. */
  lemma LastDistanceIsNewest(es: seq<Entry>)
    ensures LastDistance(es).None? <==> es == []
    ensures LastDistance(es).Some? ==>
      exists e | e in es :: e.distance == LastDistance(es).value && forall f | f in es :: NewestFirst(e, f)
  {
    var s := SortedEntries(es);
    SortedEntriesMembers(es);
    if s != [] {
      NewestFirstIsTotalPreorder(es);
      SortBySorted(es, NewestFirst);
      var e := s[0];
      assert e in es;
      forall f | f in es ensures NewestFirst(e, f) {
        assert f in s;
        var j :| 0 <= j < |s| && s[j] == f;
        if j == 0 {
          StrLessIrreflexive(e.id);
        }
      }
    }
  }

  // ----- availableMonths -----

  /** Every stored date parses; otherwise `makeMonthKey` throws while the page renders. */
  predicate DatesParse(es: seq<Entry>) {
    forall e | e in es :: ParseIso(e.date).Some?
  }

  /** `entries.map(entry => makeMonthKey(entry.date))`. */
  function MonthKeys(es: seq<Entry>): (r: seq<string>)
    requires DatesParse(es)
    ensures |r| == |es|
  {
    seq(|es|, i requires 0 <= i < |es| => assert es[i] in es; MakeMonthKey(es[i].date).value)
  }

  /** The month `offset` months before `today` as a key (`subMonths` only moves the month). */
  function MonthsBack(today: Date, offset: int): string
    requires ValidDate(today)
  {
    var (y, m) := AddMonths(today.year, today.month, -offset);
    FormatMonth(y, m)
  }

  /** The keys the first `n` rounds of the `for (offset = 0; ...)` loop add, in order. */
  function MonthsBackFrom(today: Date, n: nat): (r: seq<string>)
    requires ValidDate(today)
    ensures |r| == n && forall i | 0 <= i < n :: r[i] == MonthsBack(today, i)
  {
    if n == 0 then []
    else
      var earlier := MonthsBackFrom(today, n - 1);
      var r := earlier + [MonthsBack(today, n - 1)];
      assert forall i | 0 <= i < n - 1 :: r[i] == earlier[i];
      r
  }

  /** The eighteen keys the loop adds. */
  function RecentMonths(today: Date): seq<string>
    requires ValidDate(today)
  {
    MonthsBackFrom(today, 18)
  }

  /** Each recent key names the month `offset` months back, for years 100 to 9999. */
  lemma MonthsBackKey(today: Date, offset: int)
    requires ValidDate(today) && 102 <= today.year <= 9999 && 0 <= offset < 18
    ensures MonthOfKey(MonthsBack(today, offset)) == Some(AddMonths(today.year, today.month, -offset))
  {
    var (y, m) := AddMonths(today.year, today.month, -offset);
    MonthOfCanonicalKey(y, m);
  }

  /** The recent months are this month and the seventeen before it, newest first and all
      different (for years that keep them within 100 to 9999). */
  lemma RecentMonthsProperties(today: Date)
    requires ValidDate(today) && 102 <= today.year <= 9999
    ensures var r := RecentMonths(today);
      r[0] == MakeMonthKeyOfDate(today) &&
      (forall i | 0 <= i < 18 :: MonthOfKey(r[i]) == Some(AddMonths(today.year, today.month, -i))) &&
      NoDuplicates(r)
  {
    var r := RecentMonths(today);
    var (y, m) := AddMonths(today.year, today.month, 0);
    MonthIndexUnique(y, m, today.year, today.month);
    assert r[0] == FormatMonth(y, m);
    forall i | 0 <= i < 18 ensures MonthOfKey(r[i]) == Some(AddMonths(today.year, today.month, -i)) {
      MonthsBackKey(today, i);
    }
    RecentMonthsDistinct(today);
  }

  lemma RecentMonthsDistinct(today: Date)
    requires ValidDate(today) && 102 <= today.year <= 9999
    ensures NoDuplicates(RecentMonths(today))
  {
    var r := RecentMonths(today);
    forall i, j | 0 <= i < j < 18 ensures r[i] != r[j] {
      MonthsBackKey(today, i);
      MonthsBackKey(today, j);
      var a := AddMonths(today.year, today.month, -i);
      var b := AddMonths(today.year, today.month, -j);
      assert a.0 * 12 + a.1 != b.0 * 12 + b.1;
    }
  }

  /** One more round of the loop adds its key to the deduplicated list when it is new. */
  lemma DedupRecentStep(keys: seq<string>, today: Date, offset: nat)
    requires ValidDate(today)
    ensures var d := Dedup(keys + MonthsBackFrom(today, offset));
      var k := MonthsBack(today, offset);
      Dedup(keys + MonthsBackFrom(today, offset + 1)) == if k in d then d else d + [k]
  {
    var k := MonthsBack(today, offset);
    assert keys + MonthsBackFrom(today, offset + 1) == (keys + MonthsBackFrom(today, offset)) + [k];
    DedupSnoc(keys + MonthsBackFrom(today, offset), k);
  }

  /** The month keys of parsed entries are exactly the months of their dates. */
  lemma MonthKeysMembers(es: seq<Entry>)
    requires DatesParse(es)
    ensures forall k :: k in MonthKeys(es) <==> exists e | e in es :: MakeMonthKey(e.date) == Some(k)
  {
    var keys := MonthKeys(es);
    forall k ensures k in keys <==> exists e | e in es :: MakeMonthKey(e.date) == Some(k) {
      if k in keys {
        var i :| 0 <= i < |keys| && keys[i] == k;
        assert es[i] in es;
      }
      if exists e | e in es :: MakeMonthKey(e.date) == Some(k) {
        var e :| e in es && MakeMonthKey(e.date) == Some(k);
        var i :| 0 <= i < |es| && es[i] == e;
        assert keys[i] == k;
      }
    }
  }

  /** The months offered: those of the entries, the recent ones and the selected one, each
      once and nothing else. */
  lemma AvailableMonthsMembers(es: seq<Entry>, today: Date, selected: string)
    requires DatesParse(es) && ValidDate(today)
    ensures DatesParse(SortedEntries(es))
    ensures var r := Dedup(MonthKeys(SortedEntries(es)) + RecentMonths(today) + [selected]);
      NoDuplicates(r) &&
      forall k :: k in r <==>
        (exists e | e in es :: MakeMonthKey(e.date) == Some(k)) || k in RecentMonths(today) || k == selected
  {
    var s := SortedEntries(es);
    SortedEntriesMembers(es);
    MonthKeysMembers(s);
    var keys := MonthKeys(s);
    var recent := RecentMonths(today);
    var all := keys + recent + [selected];
    var r := Dedup(all);
    forall k ensures k in r <==>
      (exists e | e in es :: MakeMonthKey(e.date) == Some(k)) || k in recent || k == selected
    {
      assert k in r <==> k in all;
      assert k in all <==> k in keys || k in recent || k == selected;
      assert k in keys <==> exists e | e in s :: MakeMonthKey(e.date) == Some(k);
    }
  }

  // ----- The page state -----

  class EntryStore {
    var entries: seq<Entry>
    var selectedMonth: string

    /** Stored ids are unique. */
    predicate Valid()
      reads this
    {
      UniqueIds(entries)
    }

    /** A first visit: no stored entries, and the current month selected. */
    constructor(today: Date)
      requires ValidDate(today)
      ensures Valid()
      ensures entries == [] && selectedMonth == MakeMonthKeyOfDate(today)
    {
      entries := [];
      selectedMonth := MakeMonthKeyOfDate(today);
    }

    /** `handleAdd(values)` with `id` the fresh `createId()`: the entry is appended and its
        month selected; `ok` is false where `makeMonthKey` throws on an unparsable date,
        before anything has changed. */
    method HandleAdd(values: EntryValues, id: string) returns (ok: bool)
      requires Valid() && FreshId(entries, id)
      modifies this
      ensures Valid()
      ensures ok <==> ParseIso(values.date).Some?
      ensures ok ==> entries == old(entries) + [WithId(id, values)] &&
                     selectedMonth == MakeMonthKey(values.date).value
      ensures !ok ==> entries == old(entries) && selectedMonth == old(selectedMonth)
    {
      var month := MakeMonthKey(values.date);
      if month.None? {
        return false;
      }
      AppendFreshUniqueIds(entries, [id], [values]);
      assert WithIds([id], [values]) == [WithId(id, values)];
      entries := entries + [WithId(id, values)];
      selectedMonth := month.value;
      ok := true;
    }

    /** `handleBulkAdd(values)` with `ids` the fresh ids: nothing for an empty list; otherwise
        the entries are appended in order and the month of the last one selected. Where that
        last date does not parse, `makeMonthKey` throws after the append was issued: `ok` is
        false and the month stays. */
    method HandleBulkAdd(values: seq<EntryValues>, ids: seq<string>) returns (ok: bool)
      requires Valid() && |ids| == |values| && NoDuplicates(ids)
      requires forall id | id in ids :: FreshId(entries, id)
      modifies this
      ensures Valid()
      ensures values == [] ==> ok && entries == old(entries) && selectedMonth == old(selectedMonth)
      ensures values != [] ==> entries == old(entries) + WithIds(ids, values)
      ensures values != [] ==> (ok <==> ParseIso(values[|values| - 1].date).Some?)
      ensures values != [] ==>
        selectedMonth == if ok then MakeMonthKey(values[|values| - 1].date).value else old(selectedMonth)
    {
      if |values| == 0 {
        return true;
      }
      AppendFreshUniqueIds(entries, ids, values);
      entries := entries + WithIds(ids, values);
      var month := MakeMonthKey(values[|values| - 1].date);
      if month.None? {
        return false;
      }
      selectedMonth := month.value;
      ok := true;
    }

    /** `handleDelete(id)`: every entry with that id goes, the rest stay in order. */
    method HandleDelete(id: string)
      requires Valid()
      modifies this
      ensures Valid()
      ensures entries == RemoveId(old(entries), id)
      ensures selectedMonth == old(selectedMonth)
    {
      FilterNoDuplicates(entries, IdIsNot(id));
      entries := RemoveId(entries, id);
    }

    /** `availableMonths`: the months of the sorted entries, then this month and the
        seventeen before it, then the selected month, each kept at its first occurrence
        (`Array.from` of a `Set`); `None` where an entry date does not parse. */
    method AvailableMonths(today: Date) returns (months: Option<seq<string>>)
      requires ValidDate(today)
      ensures months.None? <==> !DatesParse(entries)
      ensures months.Some? ==> (DatesParse(SortedEntries(entries)) &&
        months.value == Dedup(MonthKeys(SortedEntries(entries)) + RecentMonths(today) + [selectedMonth]))
    {
      if !DatesParse(entries) {
        return None;
      }
      var sorted := SortedEntries(entries);
      SortedEntriesMembers(entries);
      var keys := MonthKeys(sorted);
      var seen := Dedup(keys);
      assert keys + MonthsBackFrom(today, 0) == keys;
      for offset := 0 to 18
        invariant seen == Dedup(keys + MonthsBackFrom(today, offset))
      {
        var key := MonthsBack(today, offset);
        DedupRecentStep(keys, today, offset);
        if key !in seen {
          seen := seen + [key];
        }
      }
      DedupSnoc(keys + RecentMonths(today), selectedMonth);
      if selectedMonth !in seen {
        seen := seen + [selectedMonth];
      }
      months := Some(seen);
    }
  }

  /** `entry => entry.id !== id`. */
  function IdIsNot(id: string): Entry -> bool {
    (e: Entry) => e.id != id
  }

  /** `entries.filter(entry => entry.id !== id)`. */
  function RemoveId(es: seq<Entry>, id: string): seq<Entry> {
    Filter(es, IdIsNot(id))
  }

  /** Deleting keeps exactly the entries with another id, and an unknown id changes nothing. */
  lemma RemoveIdProperties(es: seq<Entry>, id: string)
    ensures forall e :: e in RemoveId(es, id) <==> e in es && e.id != id
    ensures FreshId(es, id) ==> RemoveId(es, id) == es
  {
    if FreshId(es, id) {
      FilterAll(es, IdIsNot(id));
    }
  }

  /** With unique ids, deleting a stored id removes exactly one entry. */
  lemma {:induction false} RemoveKnownId(es: seq<Entry>, id: string)
    requires UniqueIds(es) && !FreshId(es, id)
    ensures |RemoveId(es, id)| == |es| - 1
  {
    var tail := es[1..];
    UniqueIdsTail(es);
    if es[0].id == id {
      assert FreshId(tail, id) by {
        forall e | e in tail ensures e.id != id {
          var k :| 0 <= k < |tail| && tail[k] == e;
          assert es[k + 1] == e;
          assert e != es[0];
        }
      }
      FilterAll(tail, IdIsNot(id));
    } else {
      var e :| e in es && e.id == id;
      assert e in tail;
      RemoveKnownId(tail, id);
    }
  }

  lemma UniqueIdsTail(es: seq<Entry>)
    requires UniqueIds(es) && |es| > 0
    ensures UniqueIds(es[1..])
  {
    var tail := es[1..];
    assert forall e | e in tail :: e in es;
    forall i, j | 0 <= i < j < |tail| ensures tail[i] != tail[j] {
      assert tail[i] == es[i + 1] && tail[j] == es[j + 1];
    }
  }
}
