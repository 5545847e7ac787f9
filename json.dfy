/**
 * Decoded JSON values as Python holds them after `json.loads`, and the
 * Python operations the scripts apply to them: `key in v`, `v[key]` and
 * hashability (whether a value can go into a `set`).
 */
module Json {
  import opened Wrappers
  import opened Text

  datatype Value =
    | Null
    | Bool(b: bool)
    | Number(n: int)
    | String(s: string)
    | Array(items: seq<Value>)
    | Object(fields: map<string, Value>)

  /**
   * Python's `key in v` for a string `key`: a key test on a dict, a substring
   * test on a str, an element test on a list; any other value raises
   * `TypeError`, written `None` here.
   */
  function In(key: string, v: Value): Option<bool> {
    match v
    case Object(fields) => Some(key in fields)
    case String(s) => Some(Contains(s, key))
    case Array(items) => Some(String(key) in items)
    case _ => None
  }

  /** `v[key]` on a dict that has `key`; anything else raises (`KeyError` or `TypeError`). */
  function Get(v: Value, key: string): Option<Value> {
    if v.Object? && key in v.fields then Some(v.fields[key]) else None
  }

  /** Lists and dicts cannot be hashed; every other JSON value can. */
  predicate Hashable(v: Value) {
    !v.Array? && !v.Object?
  }

  /** `json.loads`, kept abstract: the decoded value, or `None` where it raises. */
  type Decoder = string -> Option<Value>

  /** Python truthiness: `null`, `false`, `0` and empty strings, lists and dicts are falsy. */
  predicate Truthy(v: Value) {
    match v
    case Null => false
    case Bool(b) => b
    case Number(n) => n != 0
    case String(s) => s != []
    case Array(items) => items != []
    case Object(fields) => fields != map[]
  }

  /** `len(v)`: defined on strings, lists and dicts; anything else raises `TypeError`. */
  function Len(v: Value): Option<nat> {
    match v
    case String(s) => Some(|s|)
    case Array(items) => Some(|items|)
    case Object(fields) => Some(|fields|)
    case _ => None
  }
}
