/** A parsed JSON document. */
module Json {
  datatype Value =
    | Null
    | Bool(truth: bool)
    | Number(number: real)
    | String(text: string)
    | List(items: seq<Value>)
    | Object(members: map<string, Value>)

  /** `dict.get`: a missing member reads as null. */
  function Get(members: map<string, Value>, key: string): Value {
    if key in members then members[key] else Null
  }

  function StringsIn(items: seq<Value>): set<string> {
    set item | item in items && item.String? :: item.text
  }
}
