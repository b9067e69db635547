/** A decoded JSON document, as `json_decode($r, true)` gives it (numbers limited to integers). */
module Json {
  datatype Value =
    | Null
    | Bool(b: bool)
    | Int(i: int)
    | Str(s: string)
    | List(items: seq<Value>)
    | Object(fields: map<string, Value>)
}
