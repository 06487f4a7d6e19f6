/** JSON values as Python's json module hands them to the agents, and the
    handful of Python operations the agents apply to them: truthiness,
    dict.get, subscription with a string key and hashability.

    Python's None and JSON null are the same object once decoded, so a key
    read with dict.get that is missing yields JNull, exactly as a key whose
    value is null does. */
module Json {
  import opened Wrappers

  datatype Value =
    | JNull
    | JBool(b: bool)
    | JNum(n: real)
    | JStr(s: string)
    | JArr(items: seq<Value>)
    | JObject(fields: map<string, Value>)

  /** The exceptions the agents' dict handling can raise. */
  datatype PyError =
    | JsonDecodeError   // json.loads rejected the text
    | AttributeError    // .get called on something that is not a dict
    | KeyError          // d[key] with key missing
    | TypeError         // d[key] on a non-dict, or an unhashable dict key
    | HandlerError      // an action handler raised

  /** bool(v) in Python. */
  predicate Truthy(v: Value) {
    match v
    case JNull => false
    case JBool(b) => b
    case JNum(n) => n != 0.0
    case JStr(s) => |s| > 0
    case JArr(items) => |items| > 0
    case JObject(fields) => |fields| > 0
  }

  /** `d.get(key, default)` on a dict. */
  function GetOr(fields: map<string, Value>, key: string, default: Value): Value {
    if key in fields then fields[key] else default
  }

  /** `v.get(key)`: only a dict has a `get` method. */
  function Get(v: Value, key: string): Result<Value, PyError> {
    if v.JObject? then Ok(GetOr(v.fields, key, JNull)) else Err(AttributeError)
  }

  /** `v[key]` with a string key: a dict may lack the key, every other value
      rejects a string index. */
  function Subscript(v: Value, key: string): Result<Value, PyError> {
    match v
    case JObject(fields) => if key in fields then Ok(fields[key]) else Err(KeyError)
    case _ => Err(TypeError)
  }

  /** Lists and dicts cannot be hashed, so `v in some_dict` raises for them. */
  predicate Hashable(v: Value) {
    !v.JArr? && !v.JObject?
  }
}
