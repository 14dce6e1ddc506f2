/** The dynamically typed values that JSON decoding produces in Python. */
module Json {
  import opened Dicts

  /**
    `None`, `bool`, `int`, `float`, `str`, `list` and `dict` with string keys.
    `Bool` is its own case: the modelled code tests `isinstance(v, bool)`
    before `isinstance(v, int)` because Python's bool is a subclass of int.
  */
  datatype Value =
    | Null
    | Bool(b: bool)
    | Int(i: int)
    | Float(r: real)
    | Str(s: string)
    | List(items: seq<Value>)
    | Object(members: Dict<string, Value>)

  /** Python's truth value of `v` (`bool(v)`). */
  predicate Truthy(v: Value)
  {
    match v
    case Null => false
    case Bool(b) => b
    case Int(i) => i != 0
    case Float(r) => r != 0.0
    case Str(s) => s != ""
    case List(items) => items != []
    case Object(members) => members != []
  }

  /** `v is not None and v != ""`: the "has a value" test of the scoring API. */
  predicate Present(v: Value)
  {
    v != Null && v != Str("")
  }
}
