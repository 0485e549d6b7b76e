/**
 The decoded value graph: the dynamically typed results of `readvalue`.
 */
module Values {
  import opened ByteOrder

  /**
   A decoded value. `Double` keeps the eight raw bytes of the IEEE-754 field;
   `Str` is an opaque byte string; `Map` is an associative array as an ordered
   sequence of entries whose keys are pairwise distinct.
   */
  datatype Value =
    | Null
    | Bool(b: bool)
    | Int(i: int)
    | Double(raw: seq<byte>)
    | Str(s: seq<byte>)
    | List(items: seq<Value>)
    | Map(entries: seq<Pair>)

  /** A key with its value: an array element as read, or an entry of a `Map`. */
  datatype Pair = Pair(key: Value, val: Value)

  /** Values that may be dictionary keys; decoded lists and maps may not. */
  predicate Hashable(v: Value) {
    !v.List? && !v.Map?
  }

  /** Every key of `pairs` was decoded as an integer. */
  predicate AllIntKeys(pairs: seq<Pair>) {
    forall j :: 0 <= j < |pairs| ==> pairs[j].key.Int?
  }
}
