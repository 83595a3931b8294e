/** A JSON or YAML document behind its parser. */
module Documents {
  datatype Value =
    | Null | Bool(b: bool) | Int(n: int) | Float(x: real) | Text(s: string)
    | List(items: seq<Value>) | Mapping(fields: map<string, Value>)

  /** `value.get(key)` of a mapping. */
  function Get(value: Value, key: string): Value
    requires value.Mapping?
  {
    if key in value.fields then value.fields[key] else Null
  }
}
