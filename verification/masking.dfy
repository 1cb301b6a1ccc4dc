/** The masking filter: hidden fields are redacted in audit payloads. */
module Masking {
  import opened Wrappers
  import opened Objects

  /** The redaction marker written over every hidden field. */
  const MASK: string := "******"

  /** What masking stores for key `k` whose value was `v`. */
  function MaskedValue(hidden: set<string>, k: string, v: Value): Value {
    if k in hidden then Str(MASK) else v
  }

  /** The masking loop: every hidden key among `ks` is overwritten with the
      marker, in the order of `ks`. */
  function MaskKeys(hidden: set<string>, clone: ModelObject, ks: seq<string>): (r: ModelObject)
    requires forall k | k in ks :: k in clone.vals
    ensures r.keys == clone.keys
    ensures r.vals.Keys == clone.vals.Keys
    ensures forall k | k in clone.vals ::
              r.vals[k] == (if k in ks then MaskedValue(hidden, k, clone.vals[k]) else clone.vals[k])
    decreases |ks|
  {
    if |ks| == 0 then clone
    else
      var k := ks[|ks| - 1];
      var prefix := MaskKeys(hidden, clone, ks[..|ks| - 1]);
      assert forall x | x in ks :: x in ks[..|ks| - 1] || x == k;
      if k in hidden then Put(prefix, k, Str(MASK)) else prefix
  }

  /** `maskObject` on an object: a copy with the same keys in the same order,
      every hidden key holding the marker whatever it held before, every other
      key holding its original value. */
  function MaskObject(hidden: set<string>, o: ModelObject): (r: ModelObject)
    ensures r.keys == o.keys
    ensures r.vals.Keys == o.vals.Keys
    ensures forall k | k in o.vals && k in hidden :: r.vals[k] == Str(MASK)
    ensures forall k | k in o.vals && k !in hidden :: r.vals[k] == o.vals[k]
  {
    MaskKeys(hidden, o, o.keys)
  }

  /** `maskObject` on an object or `null`: `null` passes through unchanged. */
  function Mask(hidden: set<string>, o: Option<ModelObject>): (r: Option<ModelObject>)
    ensures r.None? <==> o.None?
    ensures o.Some? ==> r == Some(MaskObject(hidden, o.value))
  {
    match o
    case None => None
    case Some(obj) => Some(MaskObject(hidden, obj))
  }

  /** Masking a masked payload changes nothing. */
  lemma MaskIdempotent(hidden: set<string>, o: ModelObject)
    ensures MaskObject(hidden, MaskObject(hidden, o)) == MaskObject(hidden, o)
  {
    var once := MaskObject(hidden, o);
    var twice := MaskObject(hidden, once);
    assert twice.vals == once.vals;
  }

  /** With no hidden fields, masking returns the object itself. */
  lemma MaskNothing(o: ModelObject)
    ensures MaskObject({}, o) == o
  {
    assert MaskObject({}, o).vals == o.vals;
  }
}
