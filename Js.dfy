/**
 * The JavaScript values the core inspects: request bodies, upstream JSON records
 * and the opaque `verified` field. Objects are finite maps from property names to
 * values; arrays carry no named properties.
 */
module Js {

  datatype JsValue =
    | Undefined
    | Null
    | Bool(b: bool)
    | Num(n: real)      // NaN and the infinities are not represented
    | Str(s: string)
    | Arr(items: seq<JsValue>)
    | Obj(fields: map<string, JsValue>)

  /** Optional-chaining property read `v?.key`: a missing property, or any receiver
      other than an object, reads as `undefined`. */
  function Get(v: JsValue, key: string): JsValue
  {
    if v.Obj? && key in v.fields then v.fields[key] else Undefined
  }

  /** `v?.[0]`: the first element of an array, the property "0" of an object,
      the first character of a string. */
  function First(v: JsValue): (r: JsValue)
    ensures v.Arr? && |v.items| > 0 ==> r == v.items[0]
    ensures v.Null? || v.Undefined? || v.Bool? || v.Num? ==> r == Undefined
  {
    match v
    case Arr(items) => if |items| > 0 then items[0] else Undefined
    case Obj(_) => Get(v, "0")
    case Str(s) => if |s| > 0 then Str([s[0]]) else Undefined
    case _ => Undefined
  }

  /** JavaScript truthiness (NaN, which would be falsy, is not modelled). */
  predicate Truthy(v: JsValue) {
    match v
    case Undefined => false
    case Null => false
    case Bool(b) => b
    case Num(n) => n != 0.0
    case Str(s) => s != ""
    case Arr(_) => true
    case Obj(_) => true
  }

  /** `String(v)`: a string converts to itself; every other conversion (number
      formatting, `toString` of objects and errors) is the parameter `stringOf`. */
  function ToJsString(v: JsValue, stringOf: JsValue -> string): (r: string)
    ensures v.Str? ==> r == v.s
  {
    if v.Str? then v.s else stringOf(v)
  }
}
