/**
 * Property lookup `o[key]` on a plain object literal. Besides its own
 * properties such an object inherits the members of `Object.prototype`,
 * so a lookup by one of their names is not `undefined`.
 */
module JsObject {

  /** The value of `o[key]`: undefined, an own string property, or an inherited member. */
  datatype JsValue = Undefined | Str(text: string) | Inherited(name: string)

  /** The names of the members of `Object.prototype`. */
  const PrototypeNames: set<string> := {
    "constructor", "__proto__", "hasOwnProperty", "isPrototypeOf",
    "propertyIsEnumerable", "toLocaleString", "toString", "valueOf",
    "__defineGetter__", "__defineSetter__", "__lookupGetter__", "__lookupSetter__"
  }

  /** `o[key]` for an object literal whose own string properties are `own`. */
  function Get(own: map<string, string>, key: string): JsValue
  {
    if key in own then Str(own[key])
    else if key in PrototypeNames then Inherited(key)
    else Undefined
  }

  /** ECMAScript truthiness: `undefined` and `''` are falsy, functions and objects are truthy. */
  predicate Truthy(v: JsValue) {
    match v
    case Undefined => false
    case Str(t) => t != ""
    case Inherited(_) => true
  }

  /**
   * `String(v)`. `__proto__` is `Object.prototype`, printed as an object;
   * every other inherited member is a built-in function, printed in the
   * `function name() { [native code] }` form (`constructor` is `Object`).
   */
  function ToText(v: JsValue): (r: string)
    ensures v.Inherited? ==> r != ""
  {
    match v
    case Undefined => "undefined"
    case Str(t) => t
    case Inherited(n) =>
      if n == "__proto__" then "[object Object]"
      else "function " + (if n == "constructor" then "Object" else n) + "() { [native code] }"
  }
}
