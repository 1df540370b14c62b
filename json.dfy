// JSON values, as `json.load` produces them (numbers are the integers the program stores).
module Json {
  import opened Common

  datatype Json =
    | JNull
    | JBool(b: bool)
    | JInt(i: int)
    | JStr(s: string)
    | JArr(items: seq<Json>)
    | JObj(fields: map<string, Json>)

  /** Python truthiness of the value `json.load` returned. */
  predicate Truthy(j: Json)
  {
    match j
    case JNull => false
    case JBool(b) => b
    case JInt(i) => i != 0
    case JStr(s) => s != []
    case JArr(items) => items != []
    case JObj(fields) => fields != map[]
  }

  /** The name of the Python type of the value `json.load` returned. */
  function TypeName(j: Json): string
  {
    match j
    case JNull => "NoneType"
    case JBool(_) => "bool"
    case JInt(_) => "int"
    case JStr(_) => "str"
    case JArr(_) => "list"
    case JObj(_) => "dict"
  }

  /** The `AttributeError` text of calling `.get` on a value that is not a JSON object. */
  function NoGet(j: Json): string
  {
    "'" + TypeName(j) + "' object has no attribute 'get'"
  }

  /** `d.get(key, default)`. */
  function Get(d: map<string, Json>, key: string, default: Json): (v: Json)
    ensures key in d ==> v == d[key]
    ensures key !in d ==> v == default
  {
    if key in d then d[key] else default
  }

  /** `d.get(key)` read as a string: `None` unless the stored value is a JSON string. */
  function GetStr(d: map<string, Json>, key: string): (s: Option<string>)
    ensures s.Some? <==> key in d && d[key].JStr?
  {
    if key in d && d[key].JStr? then Some(d[key].s) else None
  }
}
