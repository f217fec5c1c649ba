/** The slice of JavaScript's value model the pipeline relies on: string or
    missing (`undefined`, stored by SQLite as NULL), truthiness, `||`
    defaults, template-literal rendering, and plain objects as key maps. */
module Js {
  datatype Value = Undefined | Str(s: string)

  /** A plain object: its own keys and their values. */
  type Object = map<string, Value>

  /** Property read: a missing key reads as `undefined`. */
  function Get(o: Object, key: string): Value {
    if key in o then o[key] else Undefined
  }

  /** `undefined` and "" are the falsy values a field can hold. */
  predicate Truthy(v: Value) {
    v.Str? && v.s != ""
  }

  /** `v || d` with a string default. */
  function Or(v: Value, d: string): (r: string)
    ensures Truthy(v) ==> r == v.s
    ensures !Truthy(v) ==> r == d
  {
    if Truthy(v) then v.s else d
  }

  /** `${v}` in a template literal. */
  function Render(v: Value): string {
    match v
    case Undefined => "undefined"
    case Str(s) => s
  }
}
