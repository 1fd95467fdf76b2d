/**
 * The JSON values that org.json's JSONObject and JSONArray hold, as data.
 * Serialising to text and parsing back is not modelled: a value is its own wire form.
 */
module Json {
  import opened Options

  /** `Null` is org.json's JSONObject.NULL: a key that is present with the JSON null value. */
  datatype Value =
    | Null
    | Bool(b: bool)
    | Num(n: int)
    | Str(s: string)
    | Arr(items: seq<Value>)
    | Obj(fields: map<string, Value>)

  /** A JSONObject. */
  type Object = map<string, Value>

  /**
   * JSONObject.put(key, value): a null value removes the key,
   * any other value replaces whatever the key held.
   */
  function Put(o: Object, key: string, v: Option<Value>): (r: Object)
    ensures r.Keys == if v.Some? then o.Keys + {key} else o.Keys - {key}
    ensures v.Some? ==> r[key] == v.value
    ensures forall k | k in o && k != key :: r[k] == o[k]
  {
    match v
    case Some(x) => o[key := x]
    case None => o - {key}
  }

  /** The JSON text value of a nullable Java string. */
  function StrOrNull(s: Option<string>): (r: Option<Value>)
    ensures r.Some? <==> s.Some?
    ensures s.Some? ==> r.value == Str(s.value)
  {
    match s
    case Some(x) => Some(Str(x))
    case None => None
  }
}
