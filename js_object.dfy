/** Plain JavaScript objects built up in place (`const o = {}; o.k = v;`)
    and the sparse setter `addIfNotEmpty`. */
module JsObjects {
  import opened JsValues

  /** An object literal whose properties are assigned one by one. */
  class JsObject {
    var props: map<string, JsValue>

    /** `{}` */
    constructor ()
      ensures props == map[]
    {
      props := map[];
    }

    /** `obj[key] = val` */
    method Set(key: string, val: JsValue)
      modifies this
      ensures props == old(props)[key := val]
    {
      props := props[key := val];
    }
  }

  /** What `addIfNotEmpty(obj, key, val)` leaves in `obj`: `key` is written
      only when `val` passes the setter's test, and every other key keeps its
      value. An object whose values all pass the test keeps that property. */
  function SetIfNotEmpty(m: map<string, JsValue>, key: string, val: JsValue): (r: map<string, JsValue>)
    ensures forall k :: k != key ==> (k in r <==> k in m)
    ensures forall k :: k != key && k in m ==> r[k] == m[k]
    ensures key in r <==> key in m || Settable(val)
    ensures Settable(val) ==> r[key] == val
    ensures !Settable(val) ==> r == m
  {
    if Settable(val) then m[key := val] else m
  }

  /** Setting a key on top of a union only touches the right-hand side. */
  lemma SetIfNotEmptyOverUnion(base: map<string, JsValue>, m: map<string, JsValue>, key: string, val: JsValue)
    ensures SetIfNotEmpty(base + m, key, val) == base + SetIfNotEmpty(m, key, val)
  {
  }

  /** `addIfNotEmpty(obj, key, val)`: mutates `obj` in place. */
  method AddIfNotEmpty(obj: JsObject, key: string, val: JsValue)
    modifies obj
    ensures obj.props == SetIfNotEmpty(old(obj.props), key, val)
  {
    if !(val.Null? || val == Str("") || val == Arr([])) {
      obj.props := obj.props[key := val];
    }
  }
}
