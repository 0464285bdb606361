/** JavaScript values as the UI and server code sees them: the few rules of
    truthiness, property reads and object spread that the modelled code relies on. */
module Js {
  import opened Text

  datatype Option<+T> = None | Some(value: T)

  /** Errors the modelled code can raise at run time. */
  datatype Error = TypeError(message: string)

  datatype Result<+T> = Ok(value: T) | Err(error: Error)

  /** A JSON-like JavaScript value. Numbers are integers; objects are finite maps
      (their key order is not modelled where a `Value` is used). */
  datatype Value =
    | Undefined
    | Null
    | Bool(b: bool)
    | Num(n: int)
    | Str(s: string)
    | Arr(items: seq<Value>)
    | Obj(fields: map<string, Value>)

  type Object = map<string, Value>

  /** JavaScript truthiness: `undefined`, `null`, `false`, `0` and `""` are falsy. */
  predicate Truthy(v: Value)
  {
    match v
    case Undefined => false
    case Null => false
    case Bool(b) => b
    case Num(n) => n != 0
    case Str(s) => s != ""
    case Arr(_) => true
    case Obj(_) => true
  }

  predicate Nullish(v: Value)
  {
    v.Undefined? || v.Null?
  }

  /** `o[k]` on a plain object: a missing key reads as `undefined`. */
  function Prop(o: Object, k: string): (r: Value)
    ensures k !in o ==> r == Undefined
    ensures k in o ==> r == o[k]
  {
    if k in o then o[k] else Undefined
  }

  /** `v[k]` on any value: reading a property of `undefined` or `null` throws;
      an object yields its own property. Every other read, including `length`
      and indices of strings and arrays, and every inherited property, yields
      `undefined` here. */
  function Get(v: Value, k: string): (r: Result<Value>)
    ensures r.Err? <==> Nullish(v)
    ensures v.Obj? ==> r == Ok(Prop(v.fields, k))
  {
    match v
    case Undefined => Err(TypeError("Cannot read properties of undefined"))
    case Null => Err(TypeError("Cannot read properties of null"))
    case Obj(m) => Ok(Prop(m, k))
    case _ => Ok(Undefined)
  }

  /** `{...v}` for the values the modelled code spreads: the own enumerable
      properties of an object; `undefined`, `null`, booleans and numbers add
      nothing. Strings and arrays, whose indices JavaScript spreads as keys,
      also add nothing here. */
  function Spread(v: Value): (r: Object)
    ensures v.Obj? ==> r == v.fields
    ensures !v.Obj? ==> r == map[]
  {
    if v.Obj? then v.fields else map[]
  }

  /** A value or a default, as in `x || d` when `x` is known to be a string. */
  function OrElse(s: Option<string>, d: string): (r: string)
    ensures s.Some? && s.value != "" ==> r == s.value
    ensures s.None? || s.value == "" ==> r == d
  {
    if s.Some? && s.value != "" then s.value else d
  }

  /** `String(v)` as a template literal or string concatenation renders it.
      Negative numbers get a leading minus sign; every object renders as
      `[object Object]`; arrays render their elements joined by commas, with
      `undefined` and `null` elements rendered as empty text. */
  function ToText(v: Value): string
  {
    match v
    case Undefined => "undefined"
    case Null => "null"
    case Bool(b) => if b then "true" else "false"
    case Num(n) => if n < 0 then "-" + NatToString(-n) else NatToString(n)
    case Str(s) => s
    case Arr(items) => Join(seq(|items|, i requires 0 <= i < |items| => if Nullish(items[i]) then "" else ToText(items[i])), ",")
    case Obj(_) => "[object Object]"
  }
}
