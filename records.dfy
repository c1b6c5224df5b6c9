/**
 * The record schema shared by the store, the sort and the export. The three
 * product lines differ only in which text fields a record carries.
 */
module Records {

  datatype ProductLine = Imou | Hik | Dahua

  /** One saved scan, as one object of the store's JSON array: the sequence
      number `stt` and the text fields by name. */
  datatype Record = Record(stt: int, fields: map<string, string>)

  /** `item.get(name, '')` for a text field. */
  function Field(r: Record, name: string): string
  {
    if name in r.fields then r.fields[name] else ""
  }

  /** The keys of a stored record, in the order the save handler writes
      them. */
  function Columns(line: ProductLine): seq<string>
  {
    match line
    case Imou => ["stt", "sn", "sc", "pid", "note"]
    case _ => ["stt", "sn", "note"]
  }

  /** The form fields a save refuses to go without. */
  function RequiredFields(line: ProductLine): seq<string>
  {
    match line
    case Imou => ["sn", "sc", "pid"]
    case _ => ["sn"]
  }
}
