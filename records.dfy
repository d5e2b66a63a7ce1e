/**
 * Column values and rows as the Python code sees them: `sqlite3.Row` objects
 * copied into dicts, whose values are `None`, text, integers or, after
 * `convert_date_fields`, `datetime` objects.
 */
module Records {
  import opened Options
  import opened Numerals
  import opened Dates

  datatype Value = Null | Text(s: string) | Int(i: int) | Date(t: Timestamp)

  /** A row as a dict from column name to value. */
  type Record = map<string, Value>

  /** Python's `str(v)`, as an f-string renders a column value. */
  function PyStr(v: Value): (s: string)
    ensures v.Text? ==> s == v.s
    ensures v.Null? ==> s == "None"
    ensures v.Int? ==> ParseInt(s) == Some(v.i)
  {
    match v
    case Null => "None"
    case Text(s) => s
    case Int(i) => ParseIntOfIntToString(i); IntToString(i)
    case Date(t) => FormatDateTime(t)
  }

  /** `str(x)` for an optional text column: `None` renders as `"None"`. */
  function OptStr(o: Option<string>): (s: string)
    ensures o.Some? ==> s == o.value
  {
    match o
    case None => "None"
    case Some(s) => s
  }
}
