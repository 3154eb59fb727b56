/**
  The values `json.loads` produces, and the few Python operations the
  reconciler applies to them: truthiness, `in`, `.get`, hashing as a dict key.
  Numbers are integers; floating point is not part of this model. An object's
  fields are a Python dict, so the decoder is expected to hand them over with
  unique keys.
 */
module Json {
  import opened Wrappers
  import opened Text
  import opened Dicts

  datatype Json =
    | JNull
    | JBool(b: bool)
    | JNum(n: int)
    | JStr(s: string)
    | JArr(items: seq<Json>)
    | JObj(fields: Dict<string, Json>)

  /** Python `bool(v)`: `None`, `False`, `0`, and empty strings, lists and dicts are false. */
  predicate Truthy(v: Json) {
    match v
    case JNull => false
    case JBool(b) => b
    case JNum(n) => n != 0
    case JStr(s) => |s| > 0
    case JArr(items) => |items| > 0
    case JObj(fields) => |fields| > 0
  }

  /** Lists and dicts cannot be dict keys: using one raises `TypeError`. */
  predicate Hashable(v: Json) {
    !v.JArr? && !v.JObj?
  }

  /**
    Python `name in v`: key membership for a dict, element membership for a
    list, substring test for a string; `None` (a `TypeError`) for the rest.
   */
  function PyIn(v: Json, name: string): (r: Option<bool>)
    ensures r.Some? <==> v.JObj? || v.JArr? || v.JStr?
    ensures v.JObj? ==> r == Some(HasKey(v.fields, name))
  {
    match v
    case JObj(fields) => Some(HasKey(fields, name))
    case JArr(items) => Some(JStr(name) in items)
    case JStr(s) => Some(Contains(s, name))
    case _ => None
  }

  /** Python `obj.get(name)` on a dict: the field, or `None`. */
  function Field(fields: Dict<string, Json>, name: string): (r: Json)
    ensures !HasKey(fields, name) ==> r == JNull
    ensures UniqueKeys(fields) && HasKey(fields, name) ==> r == ToMap(fields)[name]
  {
    Get(fields, name).GetOr(JNull)
  }
}
