/** The slice of JavaScript values that the admin movie form handles. */
module JsValues {

  datatype Option<T> = None | Some(value: T)

  /** A JavaScript value as it appears in a movie record or in the form.
      Numbers are integers here (NaN and fractions are not modelled), and an
      array is an array of strings, which is what a genre list holds. */
  datatype JsValue =
    | Undefined
    | Null
    | Bool(b: bool)
    | Num(n: int)
    | Str(s: string)
    | Arr(items: seq<string>)

  /** A plain JavaScript object: property name to value. */
  type JsObject = map<string, JsValue>

  /** JavaScript truthiness: `undefined`, `null`, `false`, `0` and `''` are
      falsy; every other value, every array included, is truthy. */
  predicate Truthy(v: JsValue)
  {
    match v
    case Undefined => false
    case Null => false
    case Bool(b) => b
    case Num(n) => n != 0
    case Str(s) => s != []
    case Arr(_) => true
  }

  /** `a || b`: the first operand when it is truthy, the second otherwise. */
  function Or(a: JsValue, b: JsValue): JsValue
  {
    if Truthy(a) then a else b
  }

  /** Property access `obj.key`: a missing property reads as `undefined`. */
  function Get(obj: JsObject, key: string): JsValue
  {
    if key in obj then obj[key] else Undefined
  }
}
