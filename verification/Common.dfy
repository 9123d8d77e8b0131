/** Small wrappers shared by every module of the model. */
module Common {
  datatype Option<+T> = None | Some(value: T)

  /** A Python call that either returns or raises. */
  datatype Result<+T, +E> = Ok(value: T) | Err(error: E)

  /** A JSON-native value. */
  datatype Json =
    | Null
    | Bool(b: bool)
    | Int(n: int)
    | Float(x: real)
    | Str(s: string)
    | Arr(items: seq<Json>)
    | Obj(fields: map<string, Json>)
}
