/**
 * The JSON-shaped values the handlers build and serialise: Python dicts of
 * strings, integers, lists and further dicts.
 */
module Json {
  import opened Wrappers

  datatype Json =
    | JInt(i: int)
    | JStr(s: string)
    | JList(items: seq<Json>)
    | JDict(fields: map<string, Json>)

  /**
   * Follows a chain of dict keys from `v` (`v[q[0]][q[1]]...`); `None` when
   * a key is missing or a value on the way is not a dict.
   */
  function Get(v: Json, q: seq<string>): Option<Json>
    decreases |q|
  {
    if q == [] then Some(v)
    else if v.JDict? && q[0] in v.fields then Get(v.fields[q[0]], q[1..])
    else None
  }
}
