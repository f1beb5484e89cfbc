/** The values an event can hold: what encoding/json produces when it decodes
    into `interface{}`, plus the Go values the metricset stores beside them. */
module Values {

  datatype Value =
    | Null
    | Bool(b: bool)
      /** A JSON number, decoded by Go into a float64; kept as its IEEE-754 bit
          pattern and never computed with. */
    | Float(bits: bv64)
      /** A Go `int`, such as the HTTP status code. */
    | Int(i: int)
    | Str(s: string)
    | Array(items: seq<Value>)
      /** A JSON object, or a common.MapStr built by the metricset. */
    | Object(fields: map<string, Value>)
      /** A Go map[string]string, as returned by the header flattening. */
    | StringMap(entries: map<string, string>)

  /** The error returned by json.Unmarshal. */
  datatype Error = DecodeError(message: string)

  datatype Result<T> = Ok(value: T) | Err(error: Error)
}
