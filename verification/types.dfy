/** The records of `src/types.ts` and the form values of `src/components/EntryForm.tsx`. */
module Types {
  import opened Wrappers
  import opened Numbers

  /** `EntryFormValues`: what a form hands over for one trip; the distance has passed the
      positive-finite check, so it is a real. */
  datatype EntryValues = EntryValues(date: string, title: string, distance: real, notes: Option<string>)

  /** `KilometerEntry`: a stored trip, the form values plus a generated id. */
  datatype Entry = Entry(id: string, date: string, title: string, distance: real, notes: Option<string>)

  /** `{ id, ...values }`. */
  function WithId(id: string, v: EntryValues): Entry {
    Entry(id, v.date, v.title, v.distance, v.notes)
  }

  /** `InvoiceSettings`; the two numeric fields hold whatever `Number` produced. */
  datatype InvoiceSettings = InvoiceSettings(
    invoiceDate: string,
    invoiceNumber: string,
    companyName: string,
    licensePlate: string,
    ratePerKm: JsNum,
    currencySymbol: string,
    vatPercentage: JsNum)
}
