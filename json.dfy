/** The JSON values a decoded response body can hold, with the Python
    truth test the extraction code applies to them. */
module Json {

  /** A decoded JSON document. Numbers are kept as integers. */
  datatype Value =
    | JNull
    | JBool(b: bool)
    | JNum(n: int)
    | JStr(s: string)
    | JArr(items: seq<Value>)
    | JObj(fields: map<string, Value>)

  /** Python's `bool(v)` on the decoded value: None, False, 0 and empty
      strings, lists and dicts are false. */
  predicate Truthy(v: Value) {
    match v
    case JNull => false
    case JBool(b) => b
    case JNum(n) => n != 0
    case JStr(s) => s != []
    case JArr(items) => items != []
    case JObj(fields) => fields != map[]
  }
}
