/** `src/components/MonthlyReport.tsx`: the month's table with its row selection, the
    date-order toggle, bulk delete and the kilometre total. */
module Report {
  import opened Text
  import opened Seqs
  import opened Sorting
  import opened Types
  import opened App

  /** `'asc' | 'desc'`. */
  datatype SortOrder = Asc | Desc

  /** `prev === 'asc' ? 'desc' : 'asc'`. */
  function Flip(order: SortOrder): (r: SortOrder)
    ensures r != order
  {
    if order == Asc then Desc else Asc
  }

  /** Flipping twice restores the order. */
  lemma FlipTwice(order: SortOrder)
    ensures Flip(Flip(order)) == order
  {
  }

  // ----- sortedEntries -----

  /** `a.date.localeCompare(b.date)`: an earlier or equal date may come first. */
  predicate EarlierFirst(a: Entry, b: Entry) {
    !StrLess(b.date, a.date)
  }

  /** `b.date.localeCompare(a.date)`: a later or equal date may come first. */
  predicate LaterFirst(a: Entry, b: Entry) {
    !StrLess(a.date, b.date)
  }

  /** The table's rows: the entries stably sorted by date in the chosen direction. */
  function SortedByDate(es: seq<Entry>, order: SortOrder): seq<Entry> {
    if order == Asc then SortBy(es, EarlierFirst) else SortBy(es, LaterFirst)
  }

  lemma DateOrdersAreTotalPreorders(s: seq<Entry>)
    ensures TotalOn(s, EarlierFirst) && TransitiveOn(s, EarlierFirst)
    ensures TotalOn(s, LaterFirst) && TransitiveOn(s, LaterFirst)
  {
    forall a, b | a in s && b in s ensures EarlierFirst(a, b) || EarlierFirst(b, a) {
      StrLessAsymmetric(a.date, b.date);
    }
    forall a, b, c | a in s && b in s && c in s && EarlierFirst(a, b) && EarlierFirst(b, c)
      ensures EarlierFirst(a, c)
    {
      StrNotLess(b.date, a.date);
      StrNotLess(c.date, b.date);
      StrNotLess(c.date, a.date);
      if a.date != b.date && b.date != c.date {
        StrLessTransitive(a.date, b.date, c.date);
      }
    }
    forall a, b | a in s && b in s ensures LaterFirst(a, b) || LaterFirst(b, a) {
      StrLessAsymmetric(a.date, b.date);
    }
    forall a, b, c | a in s && b in s && c in s && LaterFirst(a, b) && LaterFirst(b, c)
      ensures LaterFirst(a, c)
    {
      StrNotLess(a.date, b.date);
      StrNotLess(b.date, c.date);
      StrNotLess(a.date, c.date);
      if a.date != b.date && b.date != c.date {
        StrLessTransitive(c.date, b.date, a.date);
      }
    }
  }

  /** The rows are a reordering of the entries, ascending by date for `Asc` and descending
      for `Desc`. */
  lemma SortedByDateProperties(es: seq<Entry>, order: SortOrder)
    ensures var r := SortedByDate(es, order);
      multiset(r) == multiset(es) &&
      (order == Asc ==> forall i, j | 0 <= i < j < |r| :: !StrLess(r[j].date, r[i].date)) &&
      (order == Desc ==> forall i, j | 0 <= i < j < |r| :: !StrLess(r[i].date, r[j].date))
  {
    DateOrdersAreTotalPreorders(es);
    if order == Asc {
      SortBySorted(es, EarlierFirst);
    } else {
      SortBySorted(es, LaterFirst);
    }
  }

  // ----- The kilometre total -----

  /** `entries.reduce((acc, entry) => acc + entry.distance, 0)`, over exact reals. */
  function Total(es: seq<Entry>): real {
    if es == [] then 0.0 else Total(es[..|es| - 1]) + es[|es| - 1].distance
  }

  lemma {:induction false} TotalAppend(a: seq<Entry>, b: seq<Entry>)
    ensures Total(a + b) == Total(a) + Total(b)
  {
    if b != [] {
      var ab := a + b;
      assert ab[..|ab| - 1] == a + b[..|b| - 1];
      TotalAppend(a, b[..|b| - 1]);
    } else {
      assert a + b == a;
    }
  }

  /** Taking one entry out of the middle takes its distance off the total. */
  lemma TotalWithout(before: seq<Entry>, x: Entry, after: seq<Entry>)
    ensures Total(before + [x] + after) == Total(before + after) + x.distance
  {
    TotalAppend(before + [x], after);
    TotalAppend(before, [x]);
    TotalAppend(before, after);
    assert Total([x]) == x.distance by {
      assert [x][..0] == [];
    }
  }

  /** Any reordering of the entries has the same total, so the footer total is the sum of the
      rows however they are sorted. */
  lemma {:induction false} TotalPermutation(a: seq<Entry>, b: seq<Entry>)
    requires multiset(a) == multiset(b)
    ensures Total(a) == Total(b)
  {
    if a == [] {
      assert |b| == |multiset(b)| == 0;
    } else {
      var init, x := a[..|a| - 1], a[|a| - 1];
      assert a == init + [x];
      assert x in multiset(b);
      var k :| 0 <= k < |b| && b[k] == x;
      var before, after := b[..k], b[k + 1..];
      assert b == before + [x] + after;
      RemoveFromMultiset(init, x, before, after);
      TotalPermutation(init, before + after);
      TotalWithout(before, x, after);
    }
  }

  /** The table's rows add up to the month's total in either order. */
  lemma SortedTotal(es: seq<Entry>, order: SortOrder)
    ensures Total(SortedByDate(es, order)) == Total(es)
  {
    SortedByDateProperties(es, order);
    TotalPermutation(SortedByDate(es, order), es);
  }

  // ----- Selection -----

  /** `entries.some(entry => entry.id === id)`. */
  function PresentIn(es: seq<Entry>): string -> bool {
    (id: string) => id in Ids(es)
  }

  /** The pruning effect: the selected ids still present among the entries. */
  function KeepPresent(selected: seq<string>, es: seq<Entry>): seq<string> {
    Filter(selected, PresentIn(es))
  }

  /** Pruning keeps exactly the selected ids that some entry still has, and changes nothing
      when every selected id is still present. */
  lemma KeepPresentProperties(selected: seq<string>, es: seq<Entry>)
    ensures forall id :: id in KeepPresent(selected, es) <==>
      id in selected && exists e | e in es :: e.id == id
    ensures (forall id | id in selected :: id in Ids(es)) ==> KeepPresent(selected, es) == selected
  {
    forall id ensures id in Ids(es) <==> exists e | e in es :: e.id == id {
      if id in Ids(es) {
        var k :| 0 <= k < |es| && Ids(es)[k] == id;
        assert es[k] in es;
      }
      if exists e | e in es :: e.id == id {
        var e :| e in es && e.id == id;
        var k :| 0 <= k < |es| && es[k] == e;
        assert Ids(es)[k] == id;
      }
    }
    if forall id | id in selected :: id in Ids(es) {
      FilterAll(selected, PresentIn(es));
    }
  }

  /** `allSelected`: at least one entry and as many selected ids as entries. */
  predicate AllSelected(es: seq<Entry>, selected: seq<string>) {
    |es| > 0 && |selected| == |es|
  }

  /** With a repeat-free selection of present ids, comparing lengths is the same as every
      entry being selected. */
  lemma AllSelectedMeansEveryId(es: seq<Entry>, selected: seq<string>)
    requires UniqueIds(es) && NoDuplicates(selected)
    requires forall id | id in selected :: id in Ids(es)
    ensures AllSelected(es, selected) <==> es != [] && forall e | e in es :: e.id in selected
  {
    var ids := Ids(es);
    UniqueIdsAsIds(es);
    if AllSelected(es, selected) {
      SameLengthSubsetIsSameSet(selected, ids);
      forall e | e in es ensures e.id in selected {
        var k :| 0 <= k < |es| && es[k] == e;
        assert ids[k] == e.id;
      }
    }
    if es != [] && forall e | e in es :: e.id in selected {
      assert forall id | id in ids :: id in selected by {
        forall id | id in ids ensures id in selected {
          var k :| 0 <= k < |ids| && ids[k] == id;
          assert es[k] in es;
        }
      }
      DistinctCardinality(selected);
      DistinctCardinality(ids);
      assert (set x | x in selected) == (set x | x in ids);
    }
  }

  /** `onDelete` applied once per id, in order. */
  function RemoveIds(es: seq<Entry>, ids: seq<string>): seq<Entry> {
    if ids == [] then es else RemoveId(RemoveIds(es, ids[..|ids| - 1]), ids[|ids| - 1])
  }

  /** `entry => !ids.includes(entry.id)`. */
  function IdNotIn(ids: seq<string>): Entry -> bool {
    (e: Entry) => e.id !in ids
  }

  /** Deleting the ids one by one leaves exactly the entries whose id is none of them, in
      their order. */
  lemma {:induction false} RemoveIdsProperties(es: seq<Entry>, ids: seq<string>)
    ensures RemoveIds(es, ids) == Filter(es, IdNotIn(ids))
    ensures forall e :: e in RemoveIds(es, ids) <==> e in es && e.id !in ids
  {
    if ids == [] {
      FilterAll(es, IdNotIn(ids));
    } else {
      var init, last := ids[..|ids| - 1], ids[|ids| - 1];
      RemoveIdsProperties(es, init);
      assert ids == init + [last];
      FilterFilter(es, IdNotIn(init), IdIsNot(last), IdNotIn(ids));
    }
  }

  // ----- The component state -----

  class Report {
    var entries: seq<Entry>
    var selectedIds: seq<string>
    var sortOrder: SortOrder

    /** The rows have unique ids; the selection holds distinct ids of rows. */
    predicate Valid()
      reads this
    {
      UniqueIds(entries) && NoDuplicates(selectedIds) && forall id | id in selectedIds :: id in Ids(entries)
    }

    /** First render: nothing selected, newest first. */
    constructor(es: seq<Entry>)
      requires UniqueIds(es)
      ensures Valid()
      ensures entries == es && selectedIds == [] && sortOrder == Desc
    {
      entries := es;
      selectedIds := [];
      sortOrder := Desc;
    }

    /** New `entries` props followed by the pruning effect. */
    method ReceiveEntries(next: seq<Entry>)
      requires Valid() && UniqueIds(next)
      modifies this
      ensures Valid()
      ensures entries == next && selectedIds == KeepPresent(old(selectedIds), next)
      ensures sortOrder == old(sortOrder)
    {
      FilterNoDuplicates(selectedIds, PresentIn(next));
      entries := next;
      selectedIds := KeepPresent(selectedIds, next);
    }

    /** `toggleId(id)` from a row's checkbox: removes a selected id, appends another. */
    method ToggleId(id: string)
      requires Valid() && id in Ids(entries)
      modifies this
      ensures Valid()
      ensures selectedIds == Toggle(old(selectedIds), id)
      ensures entries == old(entries) && sortOrder == old(sortOrder)
    {
      if id in selectedIds {
        RemoveNoDuplicates(selectedIds, id);
        selectedIds := Remove(selectedIds, id);
      } else {
        NoDuplicatesAppend(selectedIds, [id]);
        selectedIds := selectedIds + [id];
      }
    }

    /** `toggleAll()`: clears a full selection, otherwise selects every row in entry order. */
    method ToggleAll()
      requires Valid()
      modifies this
      ensures Valid()
      ensures selectedIds == if old(AllSelected(entries, selectedIds)) then [] else Ids(entries)
      ensures entries == old(entries) && sortOrder == old(sortOrder)
    {
      if AllSelected(entries, selectedIds) {
        selectedIds := [];
      } else {
        UniqueIdsAsIds(entries);
        selectedIds := Ids(entries);
      }
    }

    /** `handleDeleteSelected()`: `onDelete` (the store's `handleDelete`) for each selected id
        in selection order, then an empty selection. The rows themselves change only when
        the store's new month list arrives through `ReceiveEntries`. */
    method HandleDeleteSelected(store: EntryStore)
      requires Valid() && store.Valid()
      modifies this, store
      ensures Valid() && store.Valid()
      ensures store.entries == RemoveIds(old(store.entries), old(selectedIds))
      ensures store.selectedMonth == old(store.selectedMonth)
      ensures selectedIds == [] && entries == old(entries) && sortOrder == old(sortOrder)
    {
      var ids := selectedIds;
      var i := 0;
      while i < |ids|
        invariant 0 <= i <= |ids|
        invariant store.Valid()
        invariant store.entries == RemoveIds(old(store.entries), ids[..i])
        invariant store.selectedMonth == old(store.selectedMonth)
        invariant entries == old(entries) && selectedIds == ids && sortOrder == old(sortOrder)
      {
        assert ids[..i + 1][..i] == ids[..i];
        store.HandleDelete(ids[i]);
        i := i + 1;
      }
      assert ids[..|ids|] == ids;
      selectedIds := [];
    }

    /** `handleToggleSort()`. */
    method HandleToggleSort()
      modifies this
      ensures sortOrder == Flip(old(sortOrder))
      ensures entries == old(entries) && selectedIds == old(selectedIds)
    {
      sortOrder := Flip(sortOrder);
    }
  }
}
