/** Values shared by every component: decoded JSON, the Python exceptions the
    toolkit raises or lets through, and Option/Result wrappers. */
module Base {

  datatype Option<T> = None | Some(value: T)

  /** The exception kinds that matter to the toolkit's control flow. */
  datatype Error =
    | HttpError                  // httpx.HTTPError: transport failure or non-2xx status
    | ValueError(message: string)
    | AttributeError             // `.get`, `.strip`, `.lower` on a value of the wrong kind
    | TypeError                  // `", ".join` over a non-string, iterating a number

  datatype Result<T> = Ok(value: T) | Err(error: Error) {
    predicate IsFailure() { Err? }
    function PropagateFailure<U>(): Result<U>
      requires Err?
    {
      Err(error)
    }
    function Extract(): T
      requires Ok?
    {
      value
    }
  }

  /** A decoded JSON value (integers only; floats are not modelled). */
  datatype Json =
    | JNull
    | JBool(b: bool)
    | JNum(n: int)
    | JStr(s: string)
    | JArr(elems: seq<Json>)
    | JObj(fields: map<string, Json>)

  /** A JSON object, as Python sees a decoded dict. */
  type Object = map<string, Json>

  /** Python truthiness of a decoded JSON value. */
  predicate Truthy(j: Json)
  {
    match j
    case JNull => false
    case JBool(b) => b
    case JNum(n) => n != 0
    case JStr(s) => s != ""
    case JArr(elems) => elems != []
    case JObj(fields) => fields != map[]
  }

  /** `o.get(key, default)` */
  function Get(o: Object, key: string, default: Json): Json
  {
    if key in o then o[key] else default
  }
}
