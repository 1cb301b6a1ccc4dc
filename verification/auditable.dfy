/** The auditable mixin: recording an instance's lifecycle events, and moving
    an instance to the values one of its audit records holds. */
module Auditable {
  import opened Wrappers
  import opened Objects
  import opened Masking
  import opened ChangeSet
  import opened Audits

  /** An audited model instance: its class name, its attributes, and its own
      `tenantId` property (`Undefined` when the property is absent or holds
      `undefined`). The tenant is a plain property, not a column, so writing
      the attributes leaves it as it is. */
  datatype Instance = Instance(typeName: string, attributes: ModelObject, tenantId: Value)
  {
    /** `this.id` is the column getter: it reads the `id` attribute, so
        whatever overwrites that attribute changes the id too. */
    const id: Value := Get(attributes, "id")
  }

  /** Which side of an audit record a transition loads. */
  datatype ValuesType = Old | New

  /** The errors `transitionTo` and `revert` throw. */
  datatype AuditError =
    | WrongType(modelType: string, auditType: string)
    | WrongInstance(modelId: Value, auditId: Value)
    | LoadNull(valuesType: ValuesType)
    | IncompatibleAttributes(key: string, auditableType: string)
    | CannotRevert

  /** The user resolved for the current request. */
  datatype Actor = Actor(id: string, kind: string)

  /** A tenant the resolver can return: a number or a string. Its `null`
      is `None`. */
  type TenantKey = v: Value | v.Num? || v.Str? witness Num(0)

  /** What the context resolvers supplied for this mutation. */
  datatype Context = Context(user: Option<Actor>, metadata: ModelObject, tenantId: Option<TenantKey>)

  /** The side of `a` that `which` selects. */
  function Selected(a: AuditRecord, which: ValuesType): Option<ModelObject> {
    match which
    case Old => a.oldValues
    case New => a.newValues
  }

  /** `ks[i]` is the first key of `ks` the attributes lack. */
  ghost predicate IsFirstMissing(ks: seq<string>, attributes: ModelObject, i: int) {
    && 0 <= i < |ks|
    && ks[i] !in attributes.vals
    && forall j | 0 <= j < i :: ks[j] in attributes.vals
  }

  /** The keys of `ks` that are not attributes, in the order of `ks`. */
  function Incompatibilities(ks: seq<string>, attributes: ModelObject): (r: seq<string>)
    ensures forall k :: k in r <==> k in ks && k !in attributes.vals
    ensures |r| > 0 ==> exists i :: IsFirstMissing(ks, attributes, i) && ks[i] == r[0]
    decreases |ks|
  {
    if |ks| == 0 then []
    else
      var k := ks[|ks| - 1];
      var init := ks[..|ks| - 1];
      var prefix := Incompatibilities(init, attributes);
      assert forall x | x in ks :: x in init || x == k;
      assert |prefix| > 0 ==> exists i :: IsFirstMissing(ks, attributes, i) && ks[i] == prefix[0] by {
        if |prefix| > 0 {
          var i :| IsFirstMissing(init, attributes, i) && init[i] == prefix[0];
          assert IsFirstMissing(ks, attributes, i);
        }
      }
      assert |prefix| == 0 && k !in attributes.vals ==> IsFirstMissing(ks, attributes, |ks| - 1) by {
        if |prefix| == 0 {
          forall j | 0 <= j < |ks| - 1 ensures ks[j] in attributes.vals {
            assert init[j] in init;
          }
        }
      }
      if k !in attributes.vals then prefix + [k] else prefix
  }

  /** `transitionTo`: checks, in order, the class, the id, that the selected
      side exists and that each of its keys is an attribute; the first check
      that fails decides the error. On success the selected values overwrite
      the attributes: the key order stays and keys outside the selected side
      keep their values. The class and the own `tenantId` stay; the id follows
      the `id` attribute. */
  function TransitionTo(inst: Instance, audit: AuditRecord, which: ValuesType): (r: Result<Instance, AuditError>)
    ensures audit.auditableType != inst.typeName ==>
              r == Failure(WrongType(inst.typeName, audit.auditableType))
    ensures audit.auditableType == inst.typeName && audit.auditableId != inst.id ==>
              r == Failure(WrongInstance(inst.id, audit.auditableId))
    ensures Matches(audit, inst.typeName, inst.id) && Selected(audit, which).None? ==>
              r == Failure(LoadNull(which))
    ensures Matches(audit, inst.typeName, inst.id) && Selected(audit, which).Some?
            && !(Selected(audit, which).value.vals.Keys <= inst.attributes.vals.Keys) ==>
              && r.Failure? && r.error.IncompatibleAttributes?
              && r.error.auditableType == audit.auditableType
              && exists i :: IsFirstMissing(Selected(audit, which).value.keys, inst.attributes, i)
                             && Selected(audit, which).value.keys[i] == r.error.key
    ensures r.Success? <==>
              && Matches(audit, inst.typeName, inst.id)
              && Selected(audit, which).Some?
              && Selected(audit, which).value.vals.Keys <= inst.attributes.vals.Keys
    ensures r.Success? ==>
              && r.value == inst.(attributes := r.value.attributes)
              && r.value.id == Get(r.value.attributes, "id")
              && r.value.attributes.keys == inst.attributes.keys
              && r.value.attributes.vals == inst.attributes.vals + Selected(audit, which).value.vals
  {
    if audit.auditableType != inst.typeName then Failure(WrongType(inst.typeName, audit.auditableType))
    else if audit.auditableId != inst.id then Failure(WrongInstance(inst.id, audit.auditableId))
    else match Selected(audit, which)
      case None => Failure(LoadNull(which))
      case Some(values) =>
        var incompatible := Incompatibilities(values.keys, inst.attributes);
        if |incompatible| > 0 then
          Failure(IncompatibleAttributes(incompatible[0], audit.auditableType))
        else
          PickOwnKeys(values);
          Success(inst.(attributes := AssignKeys(inst.attributes, values, values.keys)))
  }

  /** `revert`: with no record for the instance it throws `CannotRevert`;
      otherwise it transitions to the old values of the record with the
      largest id, which under increasing ids is the newest one. It never
      fails on class or id, since it only reads the instance's own records. */
  method Revert(s: Store, inst: Instance) returns (r: Result<Instance, AuditError>)
    ensures Query(s, inst.typeName, inst.id) == [] ==> r == Failure(CannotRevert)
    ensures Query(s, inst.typeName, inst.id) != [] ==>
              exists a :: IsNewest(Query(s, inst.typeName, inst.id), a) && r == TransitionTo(inst, a, Old)
    ensures IdsIncreasing(s) && Query(s, inst.typeName, inst.id) != [] ==>
              var q := Query(s, inst.typeName, inst.id); r == TransitionTo(inst, q[|q| - 1], Old)
    ensures r.Failure? ==> r.error.CannotRevert? || r.error.LoadNull? || r.error.IncompatibleAttributes?
  {
    var last := Last(s, inst.typeName, inst.id);
    match last
    case None =>
      r := Failure(CannotRevert);
    case Some(a) =>
      r := TransitionTo(inst, a, Old);
  }

  /** The tenant stored on a record: the resolver's tenant when it supplied
      one, else the instance's own `tenantId` when that is defined. */
  function RecordTenant(resolved: Option<TenantKey>, inst: Instance): Option<Value> {
    if resolved.Some? then Some(resolved.value)
    else if inst.tenantId != Undefined then Some(inst.tenantId)
    else None
  }

  /** `$audit`: computes the payload of the event and, unless the update
      changed nothing, appends one record describing it. */
  function AuditMutation(cfg: Config, ctx: Context, event: Event, inst: Instance,
                         backup: ModelObject, s: Store): (r: Store)
    ensures event == Update && ChangedKeys(cfg, inst.attributes, backup) == {} ==> r == s
    ensures event != Update || ChangedKeys(cfg, inst.attributes, backup) != {} ==>
              |r| == |s| + 1 && r[..|s|] == s
    ensures |r| == |s| + 1 ==>
              var a := r[|s|];
              && a.event == event
              && a.auditableType == inst.typeName
              && a.auditableId == inst.id
              && Some(Payload(a.oldValues, a.newValues)) == ComputePayload(cfg, event, inst.attributes, backup)
              && a.metadata == ctx.metadata
              && a.userType == (if ctx.user.Some? then Some(ctx.user.value.kind) else None)
              && a.userId == (if ctx.user.Some? then Some(ctx.user.value.id) else None)
              && (ctx.tenantId.Some? ==> a.tenantId == Some(ctx.tenantId.value))
              && (ctx.tenantId.None? && inst.tenantId != Undefined ==> a.tenantId == Some(inst.tenantId))
              && (ctx.tenantId.None? && inst.tenantId == Undefined ==> a.tenantId == None)
    ensures |r| == |s| || |r| == |s| + 1
    ensures IdsIncreasing(s) ==> IdsIncreasing(r)
  {
    match ComputePayload(cfg, event, inst.attributes, backup)
    case None => s
    case Some(p) =>
      var rec := AuditRecord(
        0,
        if ctx.user.Some? then Some(ctx.user.value.kind) else None,
        if ctx.user.Some? then Some(ctx.user.value.id) else None,
        event,
        inst.typeName,
        inst.id,
        p.oldValues,
        p.newValues,
        ctx.metadata,
        RecordTenant(ctx.tenantId, inst));
      Append(s, rec)
  }

  /** The after-create/update/delete hooks: the audit runs only once the
      mutation itself has succeeded, so a failed operation leaves the store
      as it was. `backup` is what the before-hook captured. */
  function OnMutation(cfg: Config, ctx: Context, event: Event, inst: Instance,
                      backup: ModelObject, succeeded: bool, s: Store): (r: Store)
    ensures !succeeded ==> r == s
    ensures succeeded && event == Update && ChangedKeys(cfg, inst.attributes, backup) == {} ==> r == s
    ensures succeeded && (event != Update || ChangedKeys(cfg, inst.attributes, backup) != {}) ==>
              && |r| == |s| + 1
              && r[|s|].event == event
              && Some(Payload(r[|s|].oldValues, r[|s|].newValues)) == ComputePayload(cfg, event, inst.attributes, backup)
    ensures |s| <= |r| <= |s| + 1 && r[..|s|] == s
    ensures |r| == |s| + 1 ==> succeeded && r[|s|].event == event
  {
    if succeeded then AuditMutation(cfg, ctx, event, inst, backup, s) else s
  }
}
