/** Python values, exceptions and the two Python built-ins whose exact
    behaviour the simulator relies on: list indexing and the truth test. */
module Values {

  /** The values that reach the simulator: what application code passes to
      `set_brightness`, and what `json.loads` produces for a viewer's message
      (JSON numbers are modelled as integers only). */
  datatype Value =
    | None
    | Bool(b: bool)
    | Int(i: int)
    | Str(s: string)
    | List(items: seq<Value>)
    | Dict(entries: map<string, Value>)

  /** The Python exceptions the core can raise. */
  datatype Error =
    | TypeError
    | ValueError
    | IndexError
    | KeyError
    | AttributeError
    | ZeroDivisionError

  /** A Python call that returns nothing or raises. */
  datatype Outcome = Done | Raised(error: Error)

  /** A Python call that returns a value or raises. */
  datatype Result<T> = Ok(value: T) | Err(error: Error)

  /** `bool(v)`: None, False, 0, "", [] and {} are false, everything else true. */
  predicate Truthy(v: Value) {
    match v
    case None => false
    case Bool(b) => b
    case Int(i) => i != 0
    case Str(s) => s != ""
    case List(items) => items != []
    case Dict(entries) => entries != map[]
  }

  /** `d.get(key, default)` */
  function Get(d: map<string, Value>, key: string, default: Value): Value {
    if key in d then d[key] else default
  }

  /** `xs[i]` on a Python list of length `n`: a negative index counts from the
      end, anything outside `-n .. n-1` raises IndexError. The result is the
      position actually read. */
  function ListIndex(i: int, n: nat): (r: Result<nat>)
    ensures r.Ok? <==> 0 <= i + n && i < n
    ensures r.Ok? ==> r.value < n && r.value % n == i % n
    ensures r.Err? ==> r.error == IndexError
  {
    if 0 <= i < n then Ok(i)
    else if 0 <= i + n && i < 0 then Ok(i + n)
    else Err(IndexError)
  }
}
