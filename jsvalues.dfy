/** The JavaScript values that flow through option objects and messages. */
module JsValues {

  /** A JavaScript value. Numbers are modelled as integers; a function value
      (such as a compiled template's render function) is an opaque tag. */
  datatype Value =
    | Undefined
    | Null
    | Bool(b: bool)
    | Num(n: int)
    | Str(s: string)
    | Fn(tag: string)
    | Arr(items: seq<Value>)
    | Obj(fields: map<string, Value>)

  /** A plain object, as the map from its keys to their values. */
  type Object = map<string, Value>

  /** JavaScript truthiness: `undefined`, `null`, `false`, `0` and `""` are falsy. */
  predicate Truthy(v: Value)
  {
    match v
    case Undefined => false
    case Null => false
    case Bool(b) => b
    case Num(n) => n != 0
    case Str(s) => s != ""
    case _ => true
  }

  /** Property access `o[key]`: `undefined` when the key is absent. */
  function Get(o: Object, key: string): Value
  {
    if key in o then o[key] else Undefined
  }

  /** The mixin helper `merge(target, source)`, taken to be a shallow
      key-by-key overwrite of `target` by every key of `source`. */
  function Merge(target: Object, source: Object): Object
  {
    target + source
  }
}
