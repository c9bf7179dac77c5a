/** The JSON values the crawler reads from and writes to its data files. */
module Json {

  /** A JSON value; numbers are exact, objects are maps from keys. */
  datatype Value =
    | Null
    | Bool(b: bool)
    | Num(n: real)
    | Str(s: string)
    | Arr(items: seq<Value>)
    | Obj(fields: map<string, Value>)
}
