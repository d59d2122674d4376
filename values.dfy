/** The Python values a caller may hand to the scorer as a predicted or a
    ground-truth table, and how Python's `str()` prints them. */
module PyValues {
  import opened Text

  /** A Python value as the table normaliser distinguishes it: `None`, a `str`,
      a `list`, a `dict` (its entries in insertion order) or any other object,
      which is carried with the text `str()` gives for it. */
  datatype Value =
    | None
    | Str(s: string)
    | List(items: seq<Value>)
    | Dict(entries: seq<Entry>)
    | Scalar(shown: string)

  /** One `key: value` pair of a dict. */
  datatype Entry = Entry(key: Value, value: Value)

  /** `str(v)`; also what an f-string placeholder `{v}` prints. Lists and
      dicts print their elements with `Repr`. */
  function Show(v: Value): string
    decreases v, 1
  {
    match v
    case None => "None"
    case Str(s) => s
    case Scalar(t) => t
    case List(items) => "[" + ReprList(items) + "]"
    case Dict(entries) => "{" + ReprEntries(entries) + "}"
  }

  /** `repr(v)` of a list or dict element: a string in single quotes, any other
      value as `str()` prints it. */
  function Repr(v: Value): string
    decreases v, 2
  {
    if v.Str? then "'" + v.s + "'" else Show(v)
  }

  /** The elements of a list as `repr` prints them, separated by ", ". */
  function ReprList(items: seq<Value>): string
    decreases items, 0
  {
    if items == [] then ""
    else if |items| == 1 then Repr(items[0])
    else Repr(items[0]) + ", " + ReprList(items[1..])
  }

  /** The entries of a dict in `repr` form, separated by ", ". */
  function ReprEntries(entries: seq<Entry>): string
    decreases entries, 0
  {
    if entries == [] then ""
    else if |entries| == 1 then ReprEntry(entries[0])
    else ReprEntry(entries[0]) + ", " + ReprEntries(entries[1..])
  }

  /** One dict entry as `repr(key): repr(value)`. */
  function ReprEntry(e: Entry): string
    decreases e, 0
  {
    Repr(e.key) + ": " + Repr(e.value)
  }
}
