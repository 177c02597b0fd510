/** `src/components/InvoiceSettingsForm.tsx`: each input replaces one field of the settings
    record and hands the new record up. */
module SettingsForm {
  import opened Text
  import opened Numbers
  import opened Types

  datatype SettingsKey =
    InvoiceDate | InvoiceNumber | CompanyName | LicensePlate | RatePerKm | CurrencySymbol | VatPercentage

  /** A field's value: text for the string fields, a number for the two numeric ones. */
  datatype FieldValue = TextValue(text: string) | NumberValue(number: JsNum)

  predicate IsNumericKey(k: SettingsKey) {
    k == RatePerKm || k == VatPercentage
  }

  /** `value: InvoiceSettings[K]`: the value has the field's type. */
  predicate Fits(k: SettingsKey, v: FieldValue) {
    IsNumericKey(k) <==> v.NumberValue?
  }

  /** `settings[key]`. */
  function Get(s: InvoiceSettings, k: SettingsKey): (v: FieldValue)
    ensures Fits(k, v)
  {
    match k
    case InvoiceDate => TextValue(s.invoiceDate)
    case InvoiceNumber => TextValue(s.invoiceNumber)
    case CompanyName => TextValue(s.companyName)
    case LicensePlate => TextValue(s.licensePlate)
    case RatePerKm => NumberValue(s.ratePerKm)
    case CurrencySymbol => TextValue(s.currencySymbol)
    case VatPercentage => NumberValue(s.vatPercentage)
  }

  /** Two settings records that agree on every field are the same record. */
  lemma SettingsExtensionality(a: InvoiceSettings, b: InvoiceSettings)
    requires forall k :: Get(a, k) == Get(b, k)
    ensures a == b
  {
    assert Get(a, InvoiceDate) == Get(b, InvoiceDate);
    assert Get(a, InvoiceNumber) == Get(b, InvoiceNumber);
    assert Get(a, CompanyName) == Get(b, CompanyName);
    assert Get(a, LicensePlate) == Get(b, LicensePlate);
    assert Get(a, RatePerKm) == Get(b, RatePerKm);
    assert Get(a, CurrencySymbol) == Get(b, CurrencySymbol);
    assert Get(a, VatPercentage) == Get(b, VatPercentage);
  }

  /** `updateField(key, value)`: `{ ...settings, [key]: value }`, field `k` replaced and every
      other field kept. */
  function UpdateField(s: InvoiceSettings, k: SettingsKey, v: FieldValue): (r: InvoiceSettings)
    requires Fits(k, v)
    ensures Get(r, k) == v
    ensures forall k' | k' != k :: Get(r, k') == Get(s, k')
  {
    match k
    case InvoiceDate => s.(invoiceDate := v.text)
    case InvoiceNumber => s.(invoiceNumber := v.text)
    case CompanyName => s.(companyName := v.text)
    case LicensePlate => s.(licensePlate := v.text)
    case RatePerKm => s.(ratePerKm := v.number)
    case CurrencySymbol => s.(currencySymbol := v.text)
    case VatPercentage => s.(vatPercentage := v.number)
  }

  /** Writing back a field's own value changes nothing, and a second write to the same field
      overrides the first. */
  lemma UpdateFieldLaws(s: InvoiceSettings, k: SettingsKey, v: FieldValue, w: FieldValue)
    requires Fits(k, v) && Fits(k, w)
    ensures UpdateField(s, k, Get(s, k)) == s
    ensures UpdateField(UpdateField(s, k, v), k, w) == UpdateField(s, k, w)
  {
    SettingsExtensionality(UpdateField(s, k, Get(s, k)), s);
    SettingsExtensionality(UpdateField(UpdateField(s, k, v), k, w), UpdateField(s, k, w));
  }

  /** The number a numeric input stores: `Number(text)`, with NaN replaced by 0. */
  function NumberInput(text: string): (n: JsNum)
    ensures !n.NaN?
    ensures ParseNumber(text).NaN? ==> n == Finite(0.0)
    ensures !ParseNumber(text).NaN? ==> n == ParseNumber(text)
  {
    var parsed := ParseNumber(text);
    if parsed.NaN? then Finite(0.0) else parsed
  }

  /** `handleNumberChange(event, key)`. */
  function HandleNumberChange(s: InvoiceSettings, k: SettingsKey, text: string): InvoiceSettings
    requires IsNumericKey(k)
  {
    UpdateField(s, k, NumberValue(NumberInput(text)))
  }

  /** The `onChange` handler of the input for field `k`, given the input's new text. */
  function OnInput(s: InvoiceSettings, k: SettingsKey, text: string): InvoiceSettings
  {
    match k
    case LicensePlate => UpdateField(s, k, TextValue(ToUpper(text)))
    case RatePerKm => HandleNumberChange(s, k, text)
    case VatPercentage => HandleNumberChange(s, k, text)
    case _ => UpdateField(s, k, TextValue(text))
  }

  /** Each input changes only its own field: text fields take the text as typed, the licence
      plate its upper-case form, and the numeric fields the parsed number or 0 for NaN. */
  lemma OnInputChangesOnlyItsField(s: InvoiceSettings, k: SettingsKey, text: string)
    ensures forall k' | k' != k :: Get(OnInput(s, k, text), k') == Get(s, k')
    ensures k == LicensePlate ==> OnInput(s, k, text).licensePlate == ToUpper(text)
    ensures IsNumericKey(k) ==> Get(OnInput(s, k, text), k) == NumberValue(NumberInput(text))
    ensures !IsNumericKey(k) && k != LicensePlate ==> Get(OnInput(s, k, text), k) == TextValue(text)
  {
  }

  /** The stored licence plate holds no lower-case ASCII letter, and typing it again in
      upper case changes nothing. */
  lemma LicensePlateIsUpperCase(s: InvoiceSettings, text: string)
    ensures var p := OnInput(s, LicensePlate, text).licensePlate;
      (forall i | 0 <= i < |p| :: !IsLowerAscii(p[i]))
      && OnInput(s, LicensePlate, p).licensePlate == p
  {
    ToUpperProperties(text);
  }

  /** A numeric input the parser cannot read stores 0; one it can read stores that number. */
  lemma NumberChangeStoresParsedOrZero(s: InvoiceSettings, k: SettingsKey, text: string)
    requires IsNumericKey(k)
    ensures ParseNumber(text).NaN? ==> Get(HandleNumberChange(s, k, text), k) == NumberValue(Finite(0.0))
    ensures !ParseNumber(text).NaN? ==> Get(HandleNumberChange(s, k, text), k) == NumberValue(ParseNumber(text))
  {
  }
}
