/** JSON values as Python's `json.loads` produces them, and the few Python
    operations the service applies to them (`dict.get`, `len`, `x[0]`,
    truthiness), each failing exactly where Python raises. */
module JsonValues {
  import opened Wrappers

  /** A decoded JSON value. Floats are carried as `real` and never computed on. */
  datatype Json =
    | Null
    | Bool(b: bool)
    | Int(i: int)
    | Float(f: real)
    | Str(s: string)
    | Arr(items: seq<Json>)
    | Obj(fields: map<string, Json>)

  /** Python truthiness of the decoded value (`if x:`). */
  predicate Truthy(j: Json) {
    match j
    case Null => false
    case Bool(b) => b
    case Int(i) => i != 0
    case Float(f) => f != 0.0
    case Str(s) => |s| > 0
    case Arr(items) => |items| > 0
    case Obj(fields) => |fields| > 0
  }

  /** The value stored under `key`, or `default` when the key is absent. */
  function FieldOr(fields: map<string, Json>, key: string, default: Json): Json {
    if key in fields then fields[key] else default
  }

  /** `j.get(key, default)`: only a dict has `get`; anything else raises
      AttributeError. */
  function Get(j: Json, key: string, default: Json): (r: Result<Json, string>)
    ensures r.Success? <==> j.Obj?
    ensures r.Success? ==> r.value == FieldOr(j.fields, key, default)
  {
    match j
    case Obj(fields) => Success(FieldOr(fields, key, default))
    case _ => Failure("AttributeError: object has no attribute 'get'")
  }

  /** `len(j)`: defined on strings, lists and dicts; TypeError otherwise. */
  function Len(j: Json): (r: Result<nat, string>)
    ensures r.Success? <==> (j.Str? || j.Arr? || j.Obj?)
    ensures r.Success? ==> (r.value > 0 <==> Truthy(j))
  {
    match j
    case Str(s) => Success(|s|)
    case Arr(items) => Success(|items|)
    case Obj(fields) => Success(|fields|)
    case _ => Failure("TypeError: object has no len()")
  }

  /** `j[0]`: the first character of a string, the first element of a list;
      a dict raises KeyError because decoded JSON keys are never the integer 0. */
  function First(j: Json): (r: Result<Json, string>)
    ensures r.Success? <==> ((j.Str? && |j.s| > 0) || (j.Arr? && |j.items| > 0))
    ensures r.Success? && j.Arr? ==> r.value == j.items[0]
  {
    match j
    case Str(s) => if |s| > 0 then Success(Str(s[..1])) else Failure("IndexError: string index out of range")
    case Arr(items) => if |items| > 0 then Success(items[0]) else Failure("IndexError: list index out of range")
    case Obj(_) => Failure("KeyError: 0")
    case _ => Failure("TypeError: object is not subscriptable")
  }
}
