/**
 Values that can sit in a session's metadata store, with PHP's notion of
 truthiness, and the `_VALID` registry that maps a validator name to its data.
 */
module PhpValues {

  /** Scalar PHP values a validator may keep as its data. */
  datatype Value = Null | Bool(b: bool) | Int(i: int) | Str(s: string)

  /** One `name => data` pair of the validator registry. */
  datatype Entry = Entry(name: string, data: Value)

  /**
   A metadata value: a scalar, or a PHP array of `name => data` pairs kept in
   insertion order (the order a `foreach` visits them).
   */
  datatype MetaValue = Scalar(v: Value) | Registry(entries: seq<Entry>)

  /** PHP's boolean conversion: `null`, `false`, `0`, `""`, `"0"` and `[]` are falsy. */
  predicate Truthy(m: MetaValue) {
    match m
    case Scalar(Null) => false
    case Scalar(Bool(b)) => b
    case Scalar(Int(i)) => i != 0
    case Scalar(Str(s)) => s != "" && s != "0"
    case Registry(entries) => |entries| > 0
  }

  /** A PHP array never holds two entries under one key. */
  predicate DistinctNames(entries: seq<Entry>) {
    forall i, j :: 0 <= i < j < |entries| ==> entries[i].name != entries[j].name
  }
}
