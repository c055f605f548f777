/** The JSON values `jsonify` produces. Objects are maps: key order and the
    byte-level encoding are not part of the model. */
module Json {

  datatype Value =
    | Null
    | Bool(b: bool)
    | Number(n: int)
    | String(str: string)
    | Array(items: seq<Value>)
    | Object(fields: map<string, Value>)
}
