/** The handful of Python values that flow through the reshaping code: records are
    dictionaries from column names to these values, as the database driver returns them. */
module PyValues {
  import opened Wrappers

  /** A cell of a record. Numbers are exact reals (IEEE rounding is not modelled). */
  datatype PyValue =
    | PyNone
    | PyStr(s: string)
    | PyNum(x: real)
    | PyList(items: seq<PyValue>)

  /** The exceptions the modelled code lets escape. */
  datatype PyException = TypeError | ValueError | KeyError

  type Record = map<string, PyValue>

  /** `record.get(key, default)`. */
  function Get(record: Record, key: string, default: PyValue): (v: PyValue)
    ensures key in record ==> v == record[key]
    ensures key !in record ==> v == default
  {
    if key in record then record[key] else default
  }

  /** Python truthiness: `None`, `""`, `0` and `[]` are false, everything else is true. */
  predicate Truthy(v: PyValue)
  {
    match v
    case PyNone => false
    case PyStr(s) => s != ""
    case PyNum(x) => x != 0.0
    case PyList(items) => items != []
  }

  /** `ensure_list(item)`: a list is returned as it is, anything else is wrapped into a
      one-element list. */
  function EnsureList(item: PyValue): (r: seq<PyValue>)
    ensures item.PyList? ==> r == item.items
    ensures !item.PyList? ==> r == [item]
  {
    if item.PyList? then item.items else [item]
  }

  /** Applying `ensure_list` to its own result (seen as a list) changes nothing, so a
      value is never wrapped twice. */
  lemma EnsureListIdempotent(item: PyValue)
    ensures EnsureList(PyList(EnsureList(item))) == EnsureList(item)
  {
  }

  /** `ensure_list` is the inverse of taking the single element of a one-element list, and
      only a list value can come back with a length other than one. */
  lemma EnsureListWraps(item: PyValue)
    ensures |EnsureList(item)| != 1 ==> item.PyList?
    ensures !item.PyList? ==> EnsureList(item)[0] == item
  {
  }
}
