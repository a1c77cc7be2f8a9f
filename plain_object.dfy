/** A plain JavaScript object used as a dictionary (`const modules = {}`):
    its own string keys in insertion order, and the value of each. */
module PlainObject {
  import opened JsValue

  datatype Dict = Dict(keys: seq<string>, vals: map<string, Value>) {

    /** Every key is listed exactly once, and the listed keys are the keys
        that have a value. */
    ghost predicate Valid() {
      && (forall i, j :: 0 <= i < j < |keys| ==> keys[i] != keys[j])
      && (forall k :: k in vals <==> k in keys)
    }

    /** `Object.entries(this)`: the key/value pairs in key order. */
    function Entries(): (es: seq<(string, Value)>)
      requires Valid()
      ensures |es| == |keys|
      ensures forall i :: 0 <= i < |es| ==> es[i].0 == keys[i] && es[i].1 == vals[keys[i]]
    {
      seq(|keys|, i requires 0 <= i < |keys| => (keys[i], vals[keys[i]]))
    }

    /** `this[k] = v`: a new key goes to the end of the key order, an
        existing key keeps its place and only its value changes. */
    function Put(k: string, v: Value): (d: Dict)
      requires Valid()
      ensures d.Valid()
      ensures d.vals == vals[k := v]
      ensures d.keys == if k in vals then keys else keys + [k]
    {
      if k in vals then Dict(keys, vals[k := v]) else Dict(keys + [k], vals[k := v])
    }
  }

  /** `{}` */
  const Empty: Dict := Dict([], map[])
}
