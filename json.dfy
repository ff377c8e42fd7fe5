/** JSON values as the adapter's payload dictionaries and the Python scripts see
    them, the optional and error-carrying wrappers used throughout, and the typed
    dictionary lookups whose failures correspond to Python's KeyError and
    TypeError. */
module Json {

  /** A decoded JSON value. `Null` is JSON null (Python None, Objective-C NSNull).
      Floats, arrays and objects are carried as `Other`: nothing modelled here
      looks inside them. */
  datatype Value = Null | Bool(b: bool) | Int(i: int) | Str(s: string) | Other

  /** A dictionary as decoded from one JSON object. */
  type Dict = map<string, Value>

  datatype Option<+T> = None | Some(value: T)

  /** Why a lookup in a decoded dictionary failed: the key is absent (Python
      raises KeyError) or its value has a type the expression cannot use
      (Python raises TypeError). */
  datatype Failure = KeyError(key: string) | TypeError(key: string)

  datatype Result<+T> = Ok(value: T) | Err(error: Failure) {
    predicate IsFailure() { Err? }

    function PropagateFailure<U>(): Result<U>
      requires Err?
    {
      Err(error)
    }

    function Extract(): T
      requires Ok?
    {
      value
    }
  }

  /** `d[key]`: the value, or the `KeyError` Python raises for a missing key. */
  function Lookup(d: Dict, key: string): (r: Result<Value>)
    ensures r.Ok? <==> key in d
    ensures r.Ok? ==> r.value == d[key]
    ensures r.Err? ==> r.error == KeyError(key)
  {
    if key in d then Ok(d[key]) else Err(KeyError(key))
  }

  /** A looked-up value used as an integer; `key` names it in the error. */
  function AsInt(v: Value, key: string): (r: Result<int>)
    ensures r.Ok? <==> v.Int?
    ensures r.Ok? ==> v == Int(r.value)
    ensures r.Err? ==> r.error == TypeError(key)
  {
    if v.Int? then Ok(v.i) else Err(TypeError(key))
  }

  /** A looked-up value used as a boolean. */
  function AsBool(v: Value, key: string): (r: Result<bool>)
    ensures r.Ok? <==> v.Bool?
    ensures r.Ok? ==> v == Bool(r.value)
    ensures r.Err? ==> r.error == TypeError(key)
  {
    if v.Bool? then Ok(v.b) else Err(TypeError(key))
  }

  /** A looked-up value used as a string. */
  function AsStr(v: Value, key: string): (r: Result<string>)
    ensures r.Ok? <==> v.Str?
    ensures r.Ok? ==> v == Str(r.value)
    ensures r.Err? ==> r.error == TypeError(key)
  {
    if v.Str? then Ok(v.s) else Err(TypeError(key))
  }

  /** `d[key]` used as an integer at once: a missing key raises `KeyError`,
      any other failure is a type error. */
  function GetInt(d: Dict, key: string): (r: Result<int>)
    ensures r.Ok? <==> key in d && d[key].Int?
    ensures r.Ok? ==> d[key] == Int(r.value)
    ensures key !in d ==> r == Err(KeyError(key))
    ensures key in d && !d[key].Int? ==> r == Err(TypeError(key))
  {
    var v :- Lookup(d, key);
    AsInt(v, key)
  }

  /** `d[key]` used as a boolean at once. */
  function GetBool(d: Dict, key: string): (r: Result<bool>)
    ensures r.Ok? <==> key in d && d[key].Bool?
    ensures r.Ok? ==> d[key] == Bool(r.value)
    ensures key !in d ==> r == Err(KeyError(key))
    ensures key in d && !d[key].Bool? ==> r == Err(TypeError(key))
  {
    var v :- Lookup(d, key);
    AsBool(v, key)
  }

  /** `d[key]` used as a string at once. */
  function GetStr(d: Dict, key: string): (r: Result<string>)
    ensures r.Ok? <==> key in d && d[key].Str?
    ensures r.Ok? ==> d[key] == Str(r.value)
    ensures key !in d ==> r == Err(KeyError(key))
    ensures key in d && !d[key].Str? ==> r == Err(TypeError(key))
  {
    var v :- Lookup(d, key);
    AsStr(v, key)
  }
}
