/**
 * The values `json.loads` produces, and the Python truth and string tests the
 * extractor applies to them. The JSON grammar itself is not modelled: parsing
 * is a function parameter of type `string -> Option<Json>` wherever it is
 * needed, `None` standing for `json.JSONDecodeError`.
 */
module JsonValues {

  import opened Strings

  datatype Json =
    | JNull
    | JBool(b: bool)
    | JNum(n: real)
    | JStr(s: string)
    | JArr(items: seq<Json>)
    | JObj(fields: map<string, Json>)

  /** Python truthiness: `None`, `False`, zero, "", `[]` and `{}` are false. */
  predicate Truthy(v: Json) {
    match v
    case JNull => false
    case JBool(b) => b
    case JNum(n) => n != 0.0
    case JStr(s) => s != []
    case JArr(items) => items != []
    case JObj(fields) => fields != map[]
  }

  /**
   * `not str(v).strip()`. Only a string can be blank: `str()` of `None`, a
   * boolean, a number, a list or a dict always prints a visible character.
   */
  predicate IsBlank(v: Json) {
    v.JStr? && Strip(v.s) == []
  }

  /** `d.get(key)`, with `None` for a missing key. */
  function Get(fields: map<string, Json>, key: string): (v: Json)
    ensures key !in fields ==> v == JNull
    ensures key in fields ==> v == fields[key]
  {
    if key in fields then fields[key] else JNull
  }
}
