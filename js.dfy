/**
 The small part of JavaScript's value semantics that the two form widgets rely on:
 truthiness (`!!v`) and the logical OR operator (`a || b`).
 */
module Js {

  /** An optional value (used for optional record fields and "no such entry"). */
  datatype Option<+T> = None | Some(value: T)

  /** A JavaScript value, as far as the widgets can tell values apart.
      Functions, arrays and plain objects are all `Object`, told apart by an identity. */
  datatype JsValue =
    | Undefined
    | Null
    | Bool(b: bool)
    | Number(x: real)   // a finite number other than NaN; +0 and -0 are both 0.0
    | NaN
    | BigInt(n: int)
    | Str(s: string)
    | Symbol(id: nat)
    | Object(id: nat)

  /** ECMAScript's ToBoolean (section 7.1.2 of ECMA-262): exactly seven primitive values are
      falsy. (Host objects with an `[[IsHTMLDDA]]` slot, also falsy there, are not modelled.) */
  function ToBoolean(v: JsValue): (r: bool)
    ensures !r <==> v in {Undefined, Null, Bool(false), Number(0.0), NaN, BigInt(0), Str("")}
  {
    match v
    case Undefined => false
    case Null => false
    case Bool(b) => b
    case Number(x) => x != 0.0
    case NaN => false
    case BigInt(n) => n != 0
    case Str(s) => s != ""
    case Symbol(_) => true
    case Object(_) => true
  }

  /** The unary `!` operator: always a boolean. */
  function LogicalNot(v: JsValue): (r: JsValue)
  {
    Bool(!ToBoolean(v))
  }

  /** The binary `||` operator: the left operand when it is truthy, otherwise the right one. */
  function LogicalOr(a: JsValue, b: JsValue): (r: JsValue)
  {
    if ToBoolean(a) then a else b
  }
}
