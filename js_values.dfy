/** JavaScript values as chrome.storage.local holds them (JSON-like data),
    with the language operations the extension applies to them: truthiness,
    `||`, `typeof`, Array.isArray and the ToNumber coercion of `*`. */
module JsValues {
  import opened JsNumbers

  datatype JsValue =
    | Undefined
    | Null
    | Bool(b: bool)
    | Num(n: NumVal)
    | Str(s: string)
    | Arr(elems: seq<JsValue>)
    | Obj(fields: map<string, JsValue>)

  const EmptyObject: JsValue := Obj(map[])

  /** ToBoolean: undefined, null, false, 0, NaN and "" are falsy */
  predicate Truthy(v: JsValue)
    ensures v.Arr? || v.Obj? ==> Truthy(v)
    ensures v.Undefined? || v.Null? ==> !Truthy(v)
  {
    match v
    case Undefined => false
    case Null => false
    case Bool(b) => b
    case Num(n) => !n.NaN? && !IsZero(n)
    case Str(s) => |s| > 0
    case Arr(_) => true
    case Obj(_) => true
  }

  /** a || b */
  function Or(a: JsValue, b: JsValue): JsValue {
    if Truthy(a) then a else b
  }

  /** typeof v (null and arrays are "object") */
  function TypeOf(v: JsValue): string {
    match v
    case Undefined => "undefined"
    case Null => "object"
    case Bool(_) => "boolean"
    case Num(_) => "number"
    case Str(_) => "string"
    case Arr(_) => "object"
    case Obj(_) => "object"
  }

  /** Array.isArray(v) */
  predicate IsArray(v: JsValue) {
    v.Arr?
  }

  /** ToNumber(v), the coercion an arithmetic operator applies: a number
      is itself, and every falsy value other than undefined and NaN (null,
      false, 0, "") is 0. An array
      becomes the string its elements join to: "" for [], a comma (hence
      NaN) for two or more elements, the one element's string otherwise. */
  function ToNumber(v: JsValue): (n: NumVal)
    ensures v.Num? ==> n == v.n
    ensures !Truthy(v) && !v.Undefined? && v != Num(NaN) ==> n == Finite(0.0)
    decreases v
  {
    match v
    case Undefined => NaN
    case Null => Finite(0.0)
    case Bool(b) => if b then Finite(1.0) else Finite(0.0)
    case Num(n) => n
    case Str(s) => StringToNumber(s)
    case Obj(_) => NaN
    case Arr(elems) =>
      if |elems| == 0 then Finite(0.0)
      else if |elems| > 1 then NaN
      else match elems[0]
        case Undefined => Finite(0.0)
        case Null => Finite(0.0)
        case Bool(_) => NaN
        case Obj(_) => NaN
        case _ => ToNumber(elems[0])
  }
}
