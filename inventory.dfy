/**
  The records the matcher reads. The source reads them as dictionaries
  (`ex["name"]`, `act["reference product"]`); here each is a typed value with
  the fields the matcher uses.
*/
module Inventory {

  /** An activity of the reference (ecoinvent) database. */
  datatype Activity = Activity(name: string, refProduct: string, location: string, unit: string)

  /** An unlinked exchange of the SimaPro import; `kind` is its `"type"` field. */
  datatype Exchange = Exchange(name: string, unit: string, kind: string)

  const Technosphere: string := "technosphere"

  /** The dictionary stored per matched exchange name. */
  datatype Entry = Entry(name: string, refProduct: string, location: string, unit: string)

  /** Copies name, reference product, location and unit of the matched activity. */
  function EntryOf(a: Activity): Entry
  {
    Entry(a.name, a.refProduct, a.location, a.unit)
  }
}
