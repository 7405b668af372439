/** The JSON-like Python values that request records carry (bodies, query
    parameters, header values, payloads) and their `str()` / `repr()`
    rendering. A scalar carries its own `str()` and `repr()` texts, rendered
    beforehand (numbers, booleans and strings differ in how Python quotes
    them); lists and dicts are rendered here, the way Python renders them. */
module JsonValue {
  import opened Text
  import opened Wrappers

  datatype Json =
    | Null
    | Scalar(str: string, repr: string)
    | List(items: seq<Json>)
    /** A dict, entries in insertion order. */
    | Object(entries: seq<(string, Json)>)

  /** Python's `repr()`: `None`, the scalar's own text, `[a, b]`,
      `{'k': v, 'l': w}`. */
  function Repr(j: Json): string
    decreases j, 1
  {
    match j
    case Null => "None"
    case Scalar(_, r) => r
    case List(items) => "[" + ReprItems(j, |items|) + "]"
    case Object(entries) => "{" + ReprEntries(j, |entries|) + "}"
  }

  /** The first `n` items of a list, rendered and joined by ", ". */
  function ReprItems(j: Json, n: nat): string
    requires j.List? && n <= |j.items|
    decreases j, 0, n
  {
    if n == 0 then ""
    else if n == 1 then Repr(j.items[0])
    else ReprItems(j, n - 1) + ", " + Repr(j.items[n - 1])
  }

  /** The first `n` entries of a dict, rendered as `'key': value` and joined
      by ", ". */
  function ReprEntries(j: Json, n: nat): string
    requires j.Object? && n <= |j.entries|
    decreases j, 0, n
  {
    if n == 0 then ""
    else if n == 1 then ReprEntry(j.entries[0].0, j.entries[0].1)
    else ReprEntries(j, n - 1) + ", " + ReprEntry(j.entries[n - 1].0, j.entries[n - 1].1)
  }

  function ReprEntry(key: string, value: Json): string
    decreases value, 2
  {
    "'" + key + "': " + Repr(value)
  }

  /** Python's `str()`: a scalar's own text; `repr()` for everything else. */
  function Str(j: Json): string {
    if j.Scalar? then j.str else Repr(j)
  }

  /** Python's `d.get(key)` on a dict given as its entries. */
  function Get(entries: seq<(string, Json)>, key: string): Option<Json> {
    if |entries| == 0 then None
    else if entries[|entries| - 1].0 == key then Some(entries[|entries| - 1].1)
    else Get(entries[..|entries| - 1], key)
  }

  /** The `str()` of every value of a dict, in order. */
  function ValueStrs(entries: seq<(string, Json)>): (r: seq<string>)
    ensures |r| == |entries|
    ensures forall i :: 0 <= i < |entries| ==> r[i] == Str(entries[i].1)
  {
    seq(|entries|, i requires 0 <= i < |entries| => Str(entries[i].1))
  }
}
