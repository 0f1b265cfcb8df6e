/** The part of JavaScript's value domain that the modelled code inspects:
    `undefined`, `null`, booleans, numbers, strings and objects. Objects and
    arrays are opaque: the code only ever tests them for truthiness or passes
    them on, so they are identified by a reference number. */
module JsValues {

  datatype JsValue =
    | Undefined
    | Null
    | Bool(b: bool)
    | Num(n: int)
    | Str(s: string)
    | Ref(id: nat)

  /** JavaScript truthiness: `undefined`, `null`, `false`, `0` and `""` are falsy. */
  predicate Truthy(v: JsValue) {
    match v
    case Undefined => false
    case Null => false
    case Bool(b) => b
    case Num(n) => n != 0
    case Str(s) => s != ""
    case Ref(_) => true
  }

  /** A plain object: its own enumerable keys and their values. A key may be
      present with the value `undefined`; `Object.keys` still lists it. */
  type JsObject = map<string, JsValue>

  /** Property read `obj.key`: `undefined` for a key the object does not have. */
  function Get(obj: JsObject, key: string): JsValue {
    if key in obj then obj[key] else Undefined
  }
}
