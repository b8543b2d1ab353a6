/** JSON values, as Ruby holds them after parsing and as jsonb columns store them.
    Objects are maps: jsonb keeps neither key order nor repeated keys. */
module Json {
  datatype Value =
    | Null
    | Bool(b: bool)
    | Num(n: int)
    | Str(s: string)
    | Arr(items: seq<Value>)
    | Obj(fields: map<string, Value>)

  /** A Ruby Hash with string keys. */
  type Hash = map<string, Value>

  const EMPTY: Value := Obj(map[])
}
