/** `src/components/MonthSelector.tsx`: the month drop-down, and the same option list the bulk
    planner shows (`monthOptions` in `src/components/BulkEntryPlanner.tsx`). */
module MonthSelector {
  import opened Wrappers
  import opened Seqs
  import opened Text
  import opened Sorting
  import opened DateUtils

  /** The comparator `(a, b) => (a > b ? -1 : 1)`: `a` may stand before `b` unless `a < b`. */
  predicate Descending(a: string, b: string) {
    !StrLess(a, b)
  }

  /** `[...new Set(months)].sort(Descending)`. */
  function MonthOptions(months: seq<string>): seq<string>
  {
    SortBy(Dedup(months), Descending)
  }

  /** One `<option>`: the month key as value, its Dutch label as text. */
  datatype MonthOption = MonthOption(value: string, caption: string)

  /** What the selector renders: nothing for an empty list, else one option per month. */
  function RenderedOptions(months: seq<string>): (r: Option<seq<MonthOption>>)
    ensures r.None? <==> months == []
    ensures r.Some? ==>
      (|r.value| == |MonthOptions(months)|
       && forall i | 0 <= i < |r.value| ::
            r.value[i].value == MonthOptions(months)[i]
            && r.value[i].caption == FormatMonthLabel(MonthOptions(months)[i]))
  {
    var sorted := MonthOptions(months);
    if |sorted| == 0 then None
    else
      Some(seq(|sorted|, i requires 0 <= i < |sorted| => MonthOption(sorted[i], FormatMonthLabel(sorted[i]))))
  }

  lemma DescendingIsTotalPreorder(s: seq<string>)
    ensures TotalOn(s, Descending) && TransitiveOn(s, Descending)
  {
    forall a, b | a in s && b in s ensures Descending(a, b) || Descending(b, a) {
      StrLessAsymmetric(a, b);
    }
    forall a, b, c | a in s && b in s && c in s && Descending(a, b) && Descending(b, c)
      ensures Descending(a, c)
    {
      StrNotLess(a, b);
      StrNotLess(b, c);
      StrNotLess(a, c);
      if b != c && a != b {
        StrLessTransitive(c, b, a);
      }
    }
  }

  /** The options hold each month of the input exactly once, in strictly descending string
      order. */
  lemma MonthOptionsProperties(months: seq<string>)
    ensures var r := MonthOptions(months);
      NoDuplicates(r)
      && (forall x :: x in r <==> x in months)
      && (forall i, j | 0 <= i < j < |r| :: StrLess(r[j], r[i]))
  {
    var unique := Dedup(months);
    var r := MonthOptions(months);
    PermutationNoDuplicates(unique, r);
    forall x ensures x in r <==> x in months {
      assert x in r <==> x in multiset(r);
      assert x in unique <==> x in multiset(unique);
    }
    DescendingIsTotalPreorder(unique);
    SortBySorted(unique, Descending);
    forall i, j | 0 <= i < j < |r| ensures StrLess(r[j], r[i]) {
      assert Descending(r[i], r[j]);
      StrNotLess(r[i], r[j]);
    }
  }
}
