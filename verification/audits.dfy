/** Audit records and the in-memory audit store they are appended to. */
module Audits {
  import opened Wrappers
  import opened Objects
  import opened ChangeSet

  /** One captured transition of one entity instance. */
  datatype AuditRecord = AuditRecord(
    id: nat,
    userType: Option<string>,
    userId: Option<string>,
    event: Event,
    auditableType: string,
    auditableId: Value,
    oldValues: Option<ModelObject>,
    newValues: Option<ModelObject>,
    metadata: ModelObject,
    tenantId: Option<Value>)

  /** The `audits` table, in insertion order. */
  type Store = seq<AuditRecord>

  /** Ids are assigned by an auto-incrementing key: strictly increasing in
      insertion order. */
  predicate IdsIncreasing(s: Store) {
    forall i, j | 0 <= i < j < |s| :: s[i].id < s[j].id
  }

  /** The id the store assigns to the next row. */
  function NextId(s: Store): (r: nat)
    ensures IdsIncreasing(s) ==> forall a | a in s :: a.id < r
  {
    if |s| == 0 then 1 else s[|s| - 1].id + 1
  }

  /** `audit.save()`: the record is stored last, under a fresh id. */
  function Append(s: Store, rec: AuditRecord): (r: Store)
    ensures |r| == |s| + 1 && r[..|s|] == s
    ensures r[|s|] == rec.(id := r[|s|].id)
    ensures IdsIncreasing(s) ==> IdsIncreasing(r)
  {
    s + [rec.(id := NextId(s))]
  }

  /** The record belongs to the instance `(auditableType, auditableId)`. */
  predicate Matches(a: AuditRecord, auditableType: string, auditableId: Value) {
    a.auditableType == auditableType && a.auditableId == auditableId
  }

  /** Under increasing ids, the last record outranks every record of a
      sub-collection of the ones before it, so it can follow them. */
  lemma IncreasingSnoc(s: Store, p: seq<AuditRecord>)
    requires |s| > 0
    requires forall x | x in p :: x in s[..|s| - 1]
    ensures IdsIncreasing(s) && IdsIncreasing(p) ==> IdsIncreasing(p + [s[|s| - 1]])
  {
    if IdsIncreasing(s) && IdsIncreasing(p) {
      var a := s[|s| - 1];
      forall x | x in p ensures x.id < a.id {
        var i :| 0 <= i < |s| - 1 && s[..|s| - 1][i] == x;
        assert s[i] == x;
      }
      forall i, j | 0 <= i < j < |p| + 1 ensures (p + [a])[i].id < (p + [a])[j].id {
        assert (p + [a])[i] == p[i];
        if j == |p| {
          assert p[i] in p;
        }
      }
    }
  }

  /** `audits()`: the instance's records, in store order. */
  function Query(s: Store, auditableType: string, auditableId: Value): (r: seq<AuditRecord>)
    ensures forall a :: a in r <==> a in s && Matches(a, auditableType, auditableId)
    ensures |r| <= |s|
    ensures IdsIncreasing(s) ==> IdsIncreasing(r)
    decreases |s|
  {
    if |s| == 0 then []
    else
      var a := s[|s| - 1];
      var prefix := Query(s[..|s| - 1], auditableType, auditableId);
      assert forall x | x in s :: x in s[..|s| - 1] || x == a;
      IncreasingSnoc(s, prefix);
      if Matches(a, auditableType, auditableId) then prefix + [a] else prefix
  }

  /** `audits().first()`: the instance's earliest stored record, which under
      increasing ids is the one with the smallest id. */
  function First(s: Store, auditableType: string, auditableId: Value): (r: Option<AuditRecord>)
    ensures r.None? <==> Query(s, auditableType, auditableId) == []
    ensures r.Some? ==> r.value in Query(s, auditableType, auditableId)
    ensures r.Some? && IdsIncreasing(s) ==>
              forall a | a in Query(s, auditableType, auditableId) :: r.value.id <= a.id
  {
    var q := Query(s, auditableType, auditableId);
    if |q| == 0 then None else Some(q[0])
  }

  /** Extending the store by one record extends the query by that record
      when it matches. */
  lemma QueryPrefixStep(s: Store, i: nat, auditableType: string, auditableId: Value)
    requires i < |s|
    ensures Query(s[..i + 1], auditableType, auditableId)
              == Query(s[..i], auditableType, auditableId)
                 + (if Matches(s[i], auditableType, auditableId) then [s[i]] else [])
  {
    assert s[..i + 1][..i] == s[..i];
  }

  /** `x` is a record of `q` whose id no record of `q` exceeds. */
  predicate IsNewest(q: seq<AuditRecord>, x: AuditRecord) {
    x in q && forall a | a in q :: a.id <= x.id
  }

  /** In an id-ordered sequence, the element with the largest id is the last. */
  lemma MaxIdIsLast(q: seq<AuditRecord>, x: AuditRecord)
    requires IdsIncreasing(q)
    requires IsNewest(q, x)
    ensures x == q[|q| - 1]
  {
    var j :| 0 <= j < |q| && q[j] == x;
    assert q[|q| - 1] in q;
    assert j == |q| - 1;
  }

  /** `audits().last()`, the query ordered by descending id: a matching
      record whose id no other matching record exceeds. Under increasing ids
      that is the most recently stored one. */
  method Last(s: Store, auditableType: string, auditableId: Value) returns (r: Option<AuditRecord>)
    ensures r.None? <==> Query(s, auditableType, auditableId) == []
    ensures r.Some? ==> IsNewest(Query(s, auditableType, auditableId), r.value)
    ensures r.Some? && IdsIncreasing(s) ==>
              var q := Query(s, auditableType, auditableId); r.value == q[|q| - 1]
  {
    r := None;
    var i := 0;
    while i < |s|
      invariant 0 <= i <= |s|
      invariant r.None? <==> Query(s[..i], auditableType, auditableId) == []
      invariant r.Some? ==> r.value in Query(s[..i], auditableType, auditableId)
      invariant r.Some? ==> forall a | a in Query(s[..i], auditableType, auditableId) :: a.id <= r.value.id
    {
      QueryPrefixStep(s, i, auditableType, auditableId);
      var a := s[i];
      if Matches(a, auditableType, auditableId) && (r.None? || r.value.id < a.id) {
        r := Some(a);
      }
      i := i + 1;
    }
    assert s[..i] == s;
    var q := Query(s, auditableType, auditableId);
    assert q == Query(s[..i], auditableType, auditableId);
    if r.Some? && IdsIncreasing(s) {
      MaxIdIsLast(q, r.value);
    }
  }
}
