/** JavaScript plain objects as the auditing engine sees them: string keys in
    insertion order, each bound to a value. `Object.keys` reports this order
    for keys that are not array indices; integer-like keys are not ordered
    first here. */
module Objects {

  /** A JavaScript value, as far as the engine tells values apart. Strict
      equality `===` is `==` here; objects and arrays are compared by
      reference, so a composite value is only its address. */
  datatype Value =
    | Undefined
    | Null
    | Bool(b: bool)
    | Num(n: int)
    | Str(s: string)
    | Ref(address: nat)

  /** No key occurs twice. */
  predicate Distinct(ks: seq<string>) {
    forall i, j | 0 <= i < j < |ks| :: ks[i] != ks[j]
  }

  datatype RawObject = RawObject(keys: seq<string>, vals: map<string, Value>)

  /** `keys` lists every key of `vals` exactly once, in insertion order. */
  predicate WellFormed(o: RawObject) {
    && Distinct(o.keys)
    && (forall k | k in o.keys :: k in o.vals)
    && (forall k | k in o.vals :: k in o.keys)
  }

  /** A plain object (`ModelObject` in the ORM's terms). */
  type ModelObject = o: RawObject | WellFormed(o) witness RawObject([], map[])

  /** The object literal `{}`. */
  function Empty(): ModelObject {
    RawObject([], map[])
  }

  /** Property read `o[k]`; a missing key reads as `undefined`. */
  function Get(o: ModelObject, k: string): Value {
    if k in o.vals then o.vals[k] else Undefined
  }

  /** Property write `o[k] = v`: an existing key keeps its position, a new
      key is appended after all existing ones. */
  function Put(o: ModelObject, k: string, v: Value): (r: ModelObject)
    ensures r.vals == o.vals[k := v]
    ensures k in o.vals ==> r.keys == o.keys
    ensures k !in o.vals ==> r.keys == o.keys + [k]
  {
    if k in o.vals then RawObject(o.keys, o.vals[k := v])
    else RawObject(o.keys + [k], o.vals[k := v])
  }

  /** The values `source` holds (or `undefined`) for the keys `ks`. */
  function Pick(source: ModelObject, ks: seq<string>): map<string, Value> {
    map k | k in ks :: Get(source, k)
  }

  lemma PickSnoc(source: ModelObject, ks: seq<string>)
    requires |ks| > 0
    ensures Pick(source, ks) == Pick(source, ks[..|ks| - 1])[ks[|ks| - 1] := Get(source, ks[|ks| - 1])]
  {
    assert forall x | x in ks :: x in ks[..|ks| - 1] || x == ks[|ks| - 1];
  }

  /** Reading every own key of an object gives back its contents. */
  lemma PickOwnKeys(o: ModelObject)
    ensures Pick(o, o.keys) == o.vals
  {
  }

  /** A map with the single key `k` is the display `map[k := m[k]]`. */
  lemma SingletonMap(m: map<string, Value>, k: string)
    requires m.Keys == {k}
    ensures m == map[k := m[k]]
  {
  }

  /** Overriding every key of `a` leaves only `b`. */
  lemma UnionOfCovered(a: map<string, Value>, b: map<string, Value>)
    requires a.Keys <= b.Keys
    ensures a + b == b
  {
  }

  /** Updating one key is a union with the singleton map. */
  lemma UpdateAsUnion(m: map<string, Value>, k: string, v: Value)
    ensures m + map[k := v] == m[k := v]
  {
  }

  /** Updating a union updates its right-hand side. */
  lemma UpdateOfUnion(a: map<string, Value>, b: map<string, Value>, k: string, v: Value)
    ensures (a + b)[k := v] == a + b[k := v]
  {
  }

  /** Dropping the last element keeps a sequence repetition-free, and the
      last element does not occur before it. */
  lemma DistinctSnoc(ks: seq<string>)
    requires |ks| > 0 && Distinct(ks)
    ensures Distinct(ks[..|ks| - 1]) && ks[|ks| - 1] !in ks[..|ks| - 1]
  {
  }

  /** The keys of `ks` that belong to `keep`, in the order of `ks`. */
  function InOrder(ks: seq<string>, keep: set<string>): (r: seq<string>)
    ensures forall k :: k in r <==> k in ks && k in keep
    decreases |ks|
  {
    if |ks| == 0 then []
    else
      var k := ks[|ks| - 1];
      assert forall x | x in ks :: x in ks[..|ks| - 1] || x == k;
      InOrder(ks[..|ks| - 1], keep) + (if k in keep then [k] else [])
  }

  lemma ConcatAssoc(a: seq<string>, b: seq<string>, c: seq<string>)
    ensures a + b + c == a + (b + c)
  {
  }

  /** One step of the assignment loop: `prefix` has assigned all keys of
      `ks` but the last, each appended once if the target lacked it. */
  lemma PutInOrder(target: ModelObject, source: ModelObject, ks: seq<string>,
                   prefix: ModelObject, added: set<string>)
    requires |ks| > 0 && ks[|ks| - 1] !in ks[..|ks| - 1]
    requires forall x | x in ks :: x in added <==> x !in target.vals
    requires prefix.vals == target.vals + Pick(source, ks[..|ks| - 1])
    requires prefix.keys == target.keys + InOrder(ks[..|ks| - 1], added)
    ensures Put(prefix, ks[|ks| - 1], Get(source, ks[|ks| - 1])).keys == target.keys + InOrder(ks, added)
  {
    var k := ks[|ks| - 1];
    var init := ks[..|ks| - 1];
    var tail := InOrder(init, added);
    assert k in prefix.vals <==> k in target.vals by {
      assert k !in Pick(source, init);
    }
    var last := if k in added then [k] else [];
    assert Put(prefix, k, Get(source, k)).keys == prefix.keys + last;
    assert InOrder(ks, added) == tail + last;
    ConcatAssoc(target.keys, tail, last);
  }

  /** `for (const k of ks) target[k] = source[k]`, run left to right. */
  function AssignKeys(target: ModelObject, source: ModelObject, ks: seq<string>): (r: ModelObject)
    ensures r.vals == target.vals + Pick(source, ks)
    ensures |target.keys| <= |r.keys| && r.keys[..|target.keys|] == target.keys
    ensures (forall k | k in ks :: k in target.vals) ==> r.keys == target.keys
    ensures Distinct(ks) && (forall k | k in ks :: k in source.vals) ==>
              r.keys == target.keys + InOrder(ks, source.vals.Keys - target.vals.Keys)
    decreases |ks|
  {
    if |ks| == 0 then target
    else
      var k := ks[|ks| - 1];
      var init := ks[..|ks| - 1];
      var prefix := AssignKeys(target, source, init);
      PickSnoc(source, ks);
      UpdateOfUnion(target.vals, Pick(source, init), k, Get(source, k));
      assert (prefix.keys + [k])[..|target.keys|] == prefix.keys[..|target.keys|];
      assert Distinct(ks) && (forall x | x in ks :: x in source.vals) ==>
               Put(prefix, k, Get(source, k)).keys == target.keys + InOrder(ks, source.vals.Keys - target.vals.Keys) by {
        if Distinct(ks) && (forall x | x in ks :: x in source.vals) {
          DistinctSnoc(ks);
          assert forall x | x in init :: x in ks;
          PutInOrder(target, source, ks, prefix, source.vals.Keys - target.vals.Keys);
        }
      }
      Put(prefix, k, Get(source, k))
  }

  /** Iteration order of `new Set(s)`: each key once. That a key already
      present keeps its place is `UniqueInOrderOfCovered`. */
  function UniqueInOrder(s: seq<string>): (r: seq<string>)
    ensures Distinct(r)
    ensures forall k :: k in r <==> k in s
    decreases |s|
  {
    if |s| == 0 then []
    else
      var prefix := UniqueInOrder(s[..|s| - 1]);
      assert forall x | x in s :: x in s[..|s| - 1] || x == s[|s| - 1];
      if s[|s| - 1] in prefix then prefix else prefix + [s[|s| - 1]]
  }

  /** A sequence without repetitions is its own set iteration order. */
  lemma {:induction false} UniqueInOrderOfDistinct(s: seq<string>)
    requires Distinct(s)
    ensures UniqueInOrder(s) == s
    decreases |s|
  {
    if |s| > 0 {
      var init := s[..|s| - 1];
      UniqueInOrderOfDistinct(init);
      assert s[|s| - 1] !in init by {
        forall i | 0 <= i < |init| ensures init[i] != s[|s| - 1] {
          assert s[i] != s[|s| - 1];
        }
      }
      assert init + [s[|s| - 1]] == s;
    }
  }

  /** Appending keys that already occur does not change the set order. */
  lemma {:induction false} UniqueInOrderOfCovered(a: seq<string>, b: seq<string>)
    requires Distinct(a)
    requires forall k | k in b :: k in a
    ensures UniqueInOrder(a + b) == a
    decreases |b|
  {
    if |b| == 0 {
      assert a + b == a;
      UniqueInOrderOfDistinct(a);
    } else {
      var init := b[..|b| - 1];
      assert (a + b)[..|a + b| - 1] == a + init;
      assert (a + b)[|a + b| - 1] == b[|b| - 1];
      UniqueInOrderOfCovered(a, init);
    }
  }
}
