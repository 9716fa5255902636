/**
 The JSON values that the incremental GeoJSON reader hands to the parsers, and
 the handful of Python operations the parsers apply to them: truthiness,
 indexing, `dict.get` and `float()`. An operation that would raise a Python
 exception yields `Raised`; the exception always propagates out of the
 pipeline, so its kind is not recorded.
 */
module PyJson {

  /** A decoded JSON value. Numbers are exact reals. */
  datatype J = Num(n: real) | Arr(items: seq<J>) | Obj(fields: map<string, J>) | Str(s: string) | Null

  /** The outcome of evaluating a Python expression: a value, or an exception. */
  datatype Result<+T> = Ok(value: T) | Raised {
    predicate IsFailure() {
      Raised?
    }

    function PropagateFailure<U>(): Result<U>
      requires Raised?
    {
      Raised
    }

    function Extract(): T
      requires Ok?
    {
      value
    }
  }

  /** Python's `Optional`: `None` or a value. */
  datatype Option<+T> = None | Some(value: T)

  /** Python's truth value: None, 0, and empty strings, lists and dicts are false. */
  predicate Truthy(j: J): (b: bool)
    ensures !b <==> j == Null || j == Num(0.0) || j == Str("") || j == Arr([]) || j == Obj(map[])
  {
    match j
    case Num(n) => n != 0.0
    case Arr(items) => |items| > 0
    case Obj(fields) => |fields| > 0
    case Str(s) => |s| > 0
    case Null => false
  }

  /** A value that `j[0]` rejects whatever its length: a number, a dict (no integer keys) or None. */
  predicate Unindexable(j: J) {
    j.Num? || j.Obj? || j.Null?
  }

  /** `j[i]` for a non-negative integer `i`. */
  function Index(j: J, i: nat): (r: Result<J>)
    ensures r.Ok? <==> (j.Arr? && i < |j.items|) || (j.Str? && i < |j.s|)
    ensures r.Ok? && j.Arr? ==> r.value == j.items[i]
    ensures r.Ok? && j.Str? ==> r.value == Str([j.s[i]])
  {
    match j
    case Arr(items) => if i < |items| then Ok(items[i]) else Raised
    // indexing a string gives the one-character string at that position
    case Str(s) => if i < |s| then Ok(Str([s[i]])) else Raised
    // KeyError: the keys of a decoded JSON object are strings, never integers
    case Obj(_) => Raised
    // TypeError: numbers and None are not subscriptable
    case Num(_) => Raised
    case Null => Raised
  }

  /** `j.get(key, default)`: only dicts have a `get` method. */
  function Get(j: J, key: string, default: J): (r: Result<J>)
    ensures r.Ok? <==> j.Obj?
    ensures r.Ok? && key in j.fields ==> r.value == j.fields[key]
    ensures r.Ok? && key !in j.fields ==> r.value == default
  {
    match j
    case Obj(fields) => Ok(if key in fields then fields[key] else default)
    case _ => Raised
  }

  /** `float(j)` for a decoded number; any other value raises. */
  function ToFloat(j: J): (r: Result<real>)
    ensures r.Ok? <==> j.Num?
    ensures r.Ok? ==> r.value == j.n
  {
    match j
    case Num(n) => Ok(n)
    case _ => Raised
  }
}
