/** The part of JavaScript's value model that the route loader relies on:
    values, truthiness, optional-chaining property reads, the `||` and `&&`
    operators, and the errors a call can reject with. */
module JsValue {

  /** A JavaScript value. Numbers are integers (there is no NaN and no -0);
      a function is known only by an opaque identity; an object is the map
      of its own enumerable properties. */
  datatype Value =
    | Undefined
    | Null
    | Bool(b: bool)
    | Int(n: int)
    | Str(s: string)
    | Func(id: nat)
    | Arr(elems: seq<Value>)
    | Obj(props: map<string, Value>)

  /** The reasons a call can reject. The first three come from the host
      (the directory listing and the dynamic import) and are passed on
      unchanged; TypeError is raised by the loader's own expressions. */
  datatype Error =
    | FsError(code: string)
    | SyntaxError(message: string)
    | EvaluationError(message: string)
    | TypeError(message: string)

  /** A settled promise: fulfilled with a value or rejected with an error. */
  datatype Result<+T> = Ok(value: T) | Err(error: Error)

  /** JavaScript's ToBoolean: undefined, null, false, 0 and "" are falsy,
      every function, array and object is truthy. */
  predicate Truthy(v: Value)
    ensures Truthy(v) <==> v !in {Undefined, Null, Bool(false), Int(0), Str("")}
  {
    match v
    case Undefined => false
    case Null => false
    case Bool(b) => b
    case Int(n) => n != 0
    case Str(s) => s != ""
    case _ => true
  }

  /** `v?.key` for a property name that no built-in prototype defines
      (the loader reads only `handler`, `config`, `path`, `routes`,
      `default` and `url`): an own property of an object, otherwise
      undefined, also when `v` is null or undefined. */
  function Get(v: Value, key: string): (r: Value)
    ensures !v.Obj? ==> r == Undefined
    ensures v.Obj? && key !in v.props ==> r == Undefined
    ensures v.Obj? && key in v.props ==> r == v.props[key]
  {
    if v.Obj? && key in v.props then v.props[key] else Undefined
  }

  /** `a || b`: evaluates to one of its operands, not to a boolean. */
  function Or(a: Value, b: Value): (r: Value)
    ensures r == a || r == b
    ensures Truthy(a) ==> r == a
    ensures Truthy(r) <==> Truthy(a) || Truthy(b)
  {
    if Truthy(a) then a else b
  }

  /** `a && b`: evaluates to one of its operands, not to a boolean. */
  function And(a: Value, b: Value): (r: Value)
    ensures r == a || r == b
    ensures Truthy(r) <==> Truthy(a) && Truthy(b)
  {
    if Truthy(a) then b else a
  }
}
