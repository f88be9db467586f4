/** JavaScript values as the store actions see them: what comes back from the
    key-value persistence layer, what is committed to the UI state, and the
    plain objects that carry book records and session details. */
module JsValues {

  datatype Option<+T> = None | Some(value: T)

  /** A JavaScript value. Numbers are modelled as reals (NaN is not modelled);
      an object is a map from property names to values. */
  datatype Value =
    | Undefined
    | Null
    | Bool(b: bool)
    | Num(n: real)
    | Str(s: string)
    | Arr(elems: seq<Value>)
    | Obj(fields: map<string, Value>)

  /** JavaScript truthiness, the test behind `if (x)` and `!x`. */
  predicate Truthy(v: Value)
  {
    match v
    case Undefined => false
    case Null => false
    case Bool(b) => b
    case Num(n) => n != 0.0
    case Str(s) => s != ""
    case Arr(_) => true
    case Obj(_) => true
  }

  /** Property read `obj.key` on a plain object: undefined when absent. */
  function Prop(obj: map<string, Value>, key: string): (v: Value)
  {
    if key in obj then obj[key] else Undefined
  }

  /** The own properties that object spread `{...v}` copies. Only objects
      contribute; null, undefined, booleans and numbers contribute nothing. */
  function Spread(v: Value): (fields: map<string, Value>)
  {
    if v.Obj? then v.fields else map[]
  }
}
