/** Properties relating the recording of an update to moving an instance
    back along its audit history. */
module History {
  import opened Wrappers
  import opened Objects
  import opened Masking
  import opened ChangeSet
  import opened Audits
  import opened Auditable

  /** Only dirty keys can change: a key the dirty map does not hold has the
      same value before and after. */
  lemma ChangedKeysAreDirty(cfg: Config, after: ModelObject, dirty: ModelObject)
    ensures ChangedKeys(cfg, after, dirty) <= dirty.vals.Keys
    ensures forall k | k in ChangedKeys(cfg, after, dirty) :: k !in cfg.ignoredFieldsOnUpdate
  {
  }

  /** A record appended for an instance is the newest of that instance's
      records, so it is the one `revert` picks. */
  lemma {:induction false} AppendedRecordIsNewest(s: Store, s2: Store, inst: Instance)
    requires |s2| == |s| + 1 && s2[..|s|] == s
    requires Matches(s2[|s|], inst.typeName, inst.id)
    ensures var q := Query(s2, inst.typeName, inst.id); |q| > 0 && q[|q| - 1] == s2[|s|]
  {
    assert s2[..|s2| - 1] == s;
  }

  /** Transitioning an instance to the old side of a diff-mode record of its
      update undoes the update: every changed key gets back its value before
      (redacted when hidden) and every other attribute keeps its value. It
      fails only when a changed key is no longer an attribute. */
  lemma {:induction false} DiffRecordUndoesUpdate(cfg: Config, inst: Instance, dirty: ModelObject, a: AuditRecord)
    requires !cfg.fullSnapshotOnUpdate
    requires Matches(a, inst.typeName, inst.id)
    requires Some(Payload(a.oldValues, a.newValues)) == ComputePayload(cfg, Update, inst.attributes, dirty)
    requires ChangedKeys(cfg, inst.attributes, dirty) <= inst.attributes.vals.Keys
    ensures var t := TransitionTo(inst, a, Old);
            && t.Success?
            && t.value.attributes.keys == inst.attributes.keys
            && forall k | k in inst.attributes.vals ::
                 t.value.attributes.vals[k]
                   == if k in ChangedKeys(cfg, inst.attributes, dirty)
                      then MaskedValue(cfg.hiddenFields, k, ValueBefore(inst.attributes, dirty, k))
                      else inst.attributes.vals[k]
  {
    assert IsDiffPayload(cfg, inst.attributes, dirty, Payload(a.oldValues, a.newValues));
  }

  /** A record of the instance whose old side holds one key the instance has
      can be applied to it. */
  lemma SingleKeyRecordSucceeds(inst: Instance, a: AuditRecord, k: string, v: Value)
    requires Matches(a, inst.typeName, inst.id)
    requires a.oldValues.Some? && a.oldValues.value.vals == map[k := v]
    requires k in inst.attributes.vals
    ensures TransitionTo(inst, a, Old).Success?
  {
  }

  /** Applying it sets that key to its old value. */
  lemma SingleKeyRecordApplies(inst: Instance, a: AuditRecord, k: string, v: Value)
    requires Matches(a, inst.typeName, inst.id)
    requires a.oldValues.Some? && a.oldValues.value.vals == map[k := v]
    requires k in inst.attributes.vals
    ensures TransitionTo(inst, a, Old).Success?
    ensures TransitionTo(inst, a, Old).value.attributes.vals == inst.attributes.vals[k := v]
  {
    SingleKeyRecordSucceeds(inst, a, k, v);
    UpdateAsUnion(inst.attributes.vals, k, v);
  }

  /** Applying such a record changes that one key and nothing else. */
  lemma TransitionToSingleKey(inst: Instance, a: AuditRecord, k: string, v: Value)
    requires Matches(a, inst.typeName, inst.id)
    requires a.oldValues.Some? && a.oldValues.value.vals == map[k := v]
    requires k in inst.attributes.vals
    ensures TransitionTo(inst, a, Old) == Success(inst.(attributes := Put(inst.attributes, k, v)))
  {
    SingleKeyRecordApplies(inst, a, k, v);
  }

  /** The masked before image holds, on every key of either image, the
      masked value that key had before. */
  lemma MaskedBeforeImage(hidden: set<string>, after: ModelObject, dirty: ModelObject)
    ensures MaskObject(hidden, BeforeFull(after, dirty)).vals.Keys == after.vals.Keys + dirty.vals.Keys
    ensures forall k | k in MaskObject(hidden, BeforeFull(after, dirty)).vals ::
              MaskObject(hidden, BeforeFull(after, dirty)).vals[k] == MaskedValue(hidden, k, ValueBefore(after, dirty, k))
  {
  }

  /** Transitioning an instance to the old side of a full-snapshot record of
      its update restores the whole before image (hidden keys redacted),
      provided every dirty key is still an attribute. */
  lemma {:induction false} SnapshotRecordRestoresBeforeImage(cfg: Config, inst: Instance,
                                                            dirty: ModelObject, a: AuditRecord)
    requires cfg.fullSnapshotOnUpdate
    requires Matches(a, inst.typeName, inst.id)
    requires Some(Payload(a.oldValues, a.newValues)) == ComputePayload(cfg, Update, inst.attributes, dirty)
    requires dirty.vals.Keys <= inst.attributes.vals.Keys
    ensures var t := TransitionTo(inst, a, Old);
            && t.Success?
            && t.value.attributes.keys == inst.attributes.keys
            && forall k | k in inst.attributes.vals ::
                 t.value.attributes.vals[k]
                   == MaskedValue(cfg.hiddenFields, k, ValueBefore(inst.attributes, dirty, k))
  {
    var restored := MaskObject(cfg.hiddenFields, BeforeFull(inst.attributes, dirty));
    assert a.oldValues == Some(restored);
    MaskedBeforeImage(cfg.hiddenFields, inst.attributes, dirty);
  }

  /** Transitioning an instance to the new side of a create record puts back
      the attributes it was created with (hidden keys redacted). */
  lemma {:induction false} CreateRecordReplaysCreation(cfg: Config, ctx: Context, inst: Instance,
                                                      backup: ModelObject, s: Store)
    ensures var s2 := AuditMutation(cfg, ctx, Create, inst, backup, s);
            var t := TransitionTo(inst, s2[|s|], New);
            && t.Success?
            && forall k | k in inst.attributes.vals ::
                 t.value.attributes.vals[k] == MaskedValue(cfg.hiddenFields, k, inst.attributes.vals[k])
  {
    var s2 := AuditMutation(cfg, ctx, Create, inst, backup, s);
    assert s2[|s|].newValues == Some(MaskObject(cfg.hiddenFields, inst.attributes));
  }

  /** After a diff-mode update is audited, the record `revert` picks is the
      one just appended, and applying it undoes the update. */
  lemma {:induction false} RevertUndoesAuditedUpdate(cfg: Config, ctx: Context, inst: Instance,
                                                    dirty: ModelObject, s: Store)
    requires IdsIncreasing(s)
    requires !cfg.fullSnapshotOnUpdate
    requires ChangedKeys(cfg, inst.attributes, dirty) != {}
    requires ChangedKeys(cfg, inst.attributes, dirty) <= inst.attributes.vals.Keys
    ensures var s2 := AuditMutation(cfg, ctx, Update, inst, dirty, s);
            var q := Query(s2, inst.typeName, inst.id);
            && IdsIncreasing(s2)
            && |q| > 0
            && TransitionTo(inst, q[|q| - 1], Old).Success?
            && TransitionTo(inst, q[|q| - 1], Old).value
                 == inst.(attributes := TransitionTo(inst, q[|q| - 1], Old).value.attributes)
            && TransitionTo(inst, q[|q| - 1], Old).value.attributes.keys == inst.attributes.keys
            && forall k | k in inst.attributes.vals ::
                 TransitionTo(inst, q[|q| - 1], Old).value.attributes.vals[k]
                   == if k in ChangedKeys(cfg, inst.attributes, dirty)
                      then MaskedValue(cfg.hiddenFields, k, ValueBefore(inst.attributes, dirty, k))
                      else inst.attributes.vals[k]
  {
    var s2 := AuditMutation(cfg, ctx, Update, inst, dirty, s);
    var a := s2[|s|];
    assert Matches(a, inst.typeName, inst.id)
           && Some(Payload(a.oldValues, a.newValues)) == ComputePayload(cfg, Update, inst.attributes, dirty);
    AppendedRecordIsNewest(s, s2, inst);
    DiffRecordUndoesUpdate(cfg, inst, dirty, a);
  }
}
