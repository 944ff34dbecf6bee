/** The Python values the auth code inspects: strings, dictionaries (token
    results, claims, the stored user), None, and everything else reduced to
    its truth value. */
module PyValues {
  import opened Wrappers

  datatype Value =
    | Str(s: string)
    | Dict(entries: map<string, Value>)
    | PyNone
    | Other(truthy: bool)   // numbers, lists and other objects: only their truth value matters

  /** Python truthiness: empty strings and dicts and None are false. */
  predicate Truthy(v: Value) {
    match v
    case Str(s) => s != []
    case Dict(m) => m != map[]
    case PyNone => false
    case Other(t) => t
  }

  /** `d.get(key)`: the value, or None when the key is absent. */
  function Get(d: map<string, Value>, key: string): (v: Value)
    ensures key !in d ==> v == PyNone
    ensures key in d ==> v == d[key]
  {
    if key in d then d[key] else PyNone
  }

  /** `a or b`. */
  function Or(a: Value, b: Value): (v: Value)
    ensures Truthy(a) ==> v == a
    ensures !Truthy(a) ==> v == b
  {
    if Truthy(a) then a else b
  }
}

/** Flask's `session`, the per-user mapping the auth routes and gates read
    and update in place. */
module FlaskSession {
  import opened PyValues

  class Session {
    var data: map<string, Value>

    constructor (data: map<string, Value>)
      ensures this.data == data
    {
      this.data := data;
    }

    /** `session.clear()`. */
    method Clear()
      modifies this
      ensures data == map[]
    {
      data := map[];
    }

    /** `session[key] = v`. */
    method Set(key: string, v: Value)
      modifies this
      ensures data == old(data)[key := v]
    {
      data := data[key := v];
    }

    /** `session.pop(key, None)`: the value (None when absent), now removed. */
    method Pop(key: string) returns (v: Value)
      modifies this
      ensures v == Get(old(data), key)
      ensures data == old(data) - {key}
    {
      v := Get(data, key);
      data := data - {key};
    }
  }
}
