/** `src/components/EntryForm.tsx`: the single-trip form with its per-field validation. */
module EntryForm {
  import opened Wrappers
  import opened Text
  import opened Numbers
  import opened Types

  const TitleMessage := "Voeg een korte beschrijving toe"
  const DateMessage := "Kies een datum"
  const DistanceMessage := "Afstand moet een positief getal zijn"

  /** `Errors`: a message per field, each key present or absent. */
  datatype Errors = Errors(date: Option<string>, title: Option<string>, distance: Option<string>)

  const NoErrors := Errors(None, None, None)

  /** `Object.keys(errors).length > 0`. */
  predicate HasErrors(e: Errors) {
    e.date.Some? || e.title.Some? || e.distance.Some?
  }

  /** The `isValid` condition on the three inputs: a title with a visible character, a
      positive finite distance and a date. */
  predicate Acceptable(date: string, title: string, distance: string) {
    !AllWhitespace(title) && IsPositiveFinite(ParseNumber(distance)) && date != ""
  }

  /** `nextErrors` as `handleSubmit` fills it: a message exactly for each failing check, and
      none at all exactly when all three checks pass. */
  function ValidationErrors(date: string, title: string, distance: string): (r: Errors)
    ensures r.title == (if AllWhitespace(title) then Some(TitleMessage) else None)
    ensures r.date == (if date == "" then Some(DateMessage) else None)
    ensures r.distance == (if IsPositiveFinite(ParseNumber(distance)) then None else Some(DistanceMessage))
    ensures !HasErrors(r) <==> Acceptable(date, title, distance)
  {
    var withTitle := if Trim(title) == "" then NoErrors.(title := Some(TitleMessage)) else NoErrors;
    var withDate := if date == "" then withTitle.(date := Some(DateMessage)) else withTitle;
    if !IsPositiveFinite(ParseNumber(distance)) then withDate.(distance := Some(DistanceMessage)) else withDate
  }

  class EntryForm {
    var date: string
    var title: string
    var distance: string
    var notes: string
    var errors: Errors

    /** The form opens on today's date with every other field empty; `today` is
        `format(new Date(), 'yyyy-MM-dd')`. */
    constructor(today: string)
      ensures date == today && title == "" && distance == "" && notes == "" && errors == NoErrors
    {
      date := today;
      title := "";
      distance := "";
      notes := "";
      errors := NoErrors;
    }

    /** `isValid`. */
    predicate IsValid()
      reads this
    {
      Acceptable(date, title, distance)
    }

    /** The resets after a successful submit: today's date, every other input empty. */
    method Reset(today: string)
      modifies this
      ensures date == today && title == "" && distance == "" && notes == "" && errors == NoErrors
    {
      date := today;
      title := "";
      distance := "";
      notes := "";
      errors := NoErrors;
    }

    /** `handleSubmit`: the values are handed on exactly when the form is valid. Otherwise the
        error map is replaced by the validation errors and the inputs stay as they were; on
        success the inputs reset and the date becomes `today`. */
    method HandleSubmit(today: string) returns (added: Option<EntryValues>)
      modifies this
      ensures added.Some? <==> old(IsValid())
      ensures added.None? ==>
        date == old(date) && title == old(title) && distance == old(distance) && notes == old(notes)
        && errors == ValidationErrors(old(date), old(title), old(distance))
      ensures added.Some? ==>
        added.value == EntryValues(old(date), Trim(old(title)), ParseNumber(old(distance)).value,
                                   TrimmedOrAbsent(old(notes)))
        && date == today && title == "" && distance == "" && notes == "" && errors == NoErrors
    {
      var nextErrors := ValidationErrors(date, title, distance);
      var distanceValue := ParseNumber(distance);
      if HasErrors(nextErrors) {
        errors := nextErrors;
        return None;
      }
      added := Some(EntryValues(date, Trim(title), distanceValue.value, TrimmedOrAbsent(notes)));
      Reset(today);
    }
  }

  /** What a successful submit hands on always passes the checks the store relies on: a
      non-blank title without surrounding whitespace, a positive distance, and notes that are
      absent or non-blank. */
  lemma SubmittedValuesAreClean(date: string, title: string, distance: string, notes: string)
    requires !AllWhitespace(title) && IsPositiveFinite(ParseNumber(distance)) && date != ""
    ensures var v := EntryValues(date, Trim(title), ParseNumber(distance).value, TrimmedOrAbsent(notes));
      v.title != "" && Trim(v.title) == v.title && v.distance > 0.0
      && (v.notes.Some? ==> v.notes.value != "" && Trim(v.notes.value) == v.notes.value)
  {
    TrimIdempotent(title);
    TrimIdempotent(notes);
  }
}
