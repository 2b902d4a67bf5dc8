/** The dynamically typed values that reach the request transforms and the
    free-form `features` / `payment_details` columns. `undefined` is not a
    value here: an absent field is `Outcomes.None`. */
module Json {

  datatype Value =
    | Null
    | Bool(b: bool)
    | Num(n: real)
    | Str(s: string)
    | Arr(items: seq<Value>)
    | Obj(entries: seq<(string, Value)>)
}
