/** Python values and exceptions as the modelled code sees them.

- `Json` is the shape of everything json.loads, r.json() and the record
  dictionaries hold: None, booleans, numbers, strings, lists and dicts.
- `PyError` names the exceptions the modelled code can raise; a raised
  exception is an `Err` of `Result`.
 */
module PyValues {

  /** The exceptions raised along the modelled paths. `MalformedLiteral`
      stands for the ValueError or SyntaxError that ast.literal_eval raises
      on text that is not a literal; `UnsupportedFormat` marks a path this
      model does not follow: a str.format field other than `{}`, or a dict
      where a list of toponyms is expected (its key order is not kept). */
  datatype PyError =
    | ValueError
    | TypeError
    | IndexError
    | KeyError
    | AttributeError
    | UnboundLocalError
    | NotImplementedError
    | MalformedLiteral
    | UnsupportedFormat

  /** A Python call that either returns a value or raises. */
  datatype Result<+T> = Ok(value: T) | Err(error: PyError) {

    predicate IsFailure() {
      Err?
    }

    function PropagateFailure<U>(): Result<U>
      requires Err?
    {
      Err(error)
    }

    function Extract(): T
      requires Ok?
    {
      value
    }
  }

  /** Optional arguments and attributes (`None` or a value). */
  datatype Option<+T> = None | Some(value: T)

  /** JSON-shaped Python values. Integers and floats are both `JNum`. */
  datatype Json =
    | JNull
    | JBool(b: bool)
    | JNum(n: real)
    | JStr(s: string)
    | JArr(items: seq<Json>)
    | JObj(fields: map<string, Json>)

  /** Python truthiness: None, False, 0, '' and empty containers are false. */
  predicate Truthy(v: Json) {
    match v
    case JNull => false
    case JBool(b) => b
    case JNum(n) => n != 0.0
    case JStr(s) => |s| > 0
    case JArr(items) => |items| > 0
    case JObj(fields) => |fields| > 0
  }

  /** Truthiness of an optional string argument (`not x` is true for None and ''). */
  predicate Given(x: Option<string>) {
    x.Some? && |x.value| > 0
  }

  /** v[key] for a string key: a dict yields its entry or raises KeyError;
      any other value raises TypeError (lists and strings need integer
      indices; None, booleans and numbers are not subscriptable). */
  function Get(v: Json, key: string): (r: Result<Json>)
    ensures r.Ok? <==> v.JObj? && key in v.fields
    ensures r.Ok? ==> r.value == v.fields[key]
    ensures r.Err? ==> r.error == (if v.JObj? then KeyError else TypeError)
  {
    match v
    case JObj(fields) => if key in fields then Ok(fields[key]) else Err(KeyError)
    case _ => Err(TypeError)
  }
}
