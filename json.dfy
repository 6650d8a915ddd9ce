/** The JSON value tree of `serde_json::Value`. */
module Json {

  /** Numbers are kept as integers: the form path never creates one, and the
      JSON grammar that would read a fraction is not part of this model. */
  datatype Value =
    | Null
    | Bool(b: bool)
    | Number(n: int)
    | String(s: string)
    | Array(elems: seq<Value>)
    | Object(fields: map<string, Value>)
}
