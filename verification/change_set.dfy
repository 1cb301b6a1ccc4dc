/** The change-set computer: from the attributes after a mutation and the
    values captured before it, the old/new payloads an audit record stores. */
module ChangeSet {
  import opened Wrappers
  import opened Objects
  import opened Masking

  /** The lifecycle event being audited. */
  datatype Event = Create | Update | Delete

  /** The resolved auditing configuration, read-only once the process runs. */
  datatype Config = Config(
    fullSnapshotOnUpdate: bool,
    ignoredFieldsOnUpdate: set<string>,
    hiddenFields: set<string>)

  /** The defaults applied to options the application leaves unset. */
  const DefaultConfig: Config := Config(false, {}, {})

  /** The `oldValues`/`newValues` pair an audit record will carry. */
  datatype Payload = Payload(oldValues: Option<ModelObject>, newValues: Option<ModelObject>)

  /** The value key `k` held before an update: its dirty original when the
      key is dirty, its current value otherwise. */
  function ValueBefore(after: ModelObject, dirty: ModelObject, k: string): Value {
    if k in dirty.vals then dirty.vals[k] else Get(after, k)
  }

  /** Reference definition of an update's change set: the keys of either
      image, not ignored, whose value before differs from the value after. */
  ghost function ChangedKeys(cfg: Config, after: ModelObject, dirty: ModelObject): set<string> {
    set k | k in after.vals.Keys + dirty.vals.Keys
      && k !in cfg.ignoredFieldsOnUpdate
      && ValueBefore(after, dirty, k) != Get(after, k)
  }

  /** The full "before" image: the current attributes with every dirty key
      restored to its original value. Keys of `after` keep their order; keys
      only the dirty map knows follow them (`BeforeFullKeyOrder`). */
  function BeforeFull(after: ModelObject, dirty: ModelObject): (r: ModelObject)
    ensures r.vals == after.vals + dirty.vals
    ensures |after.keys| <= |r.keys| && r.keys[..|after.keys|] == after.keys
  {
    PickOwnKeys(dirty);
    AssignKeys(after, dirty, dirty.keys)
  }

  /** The full "before" image lists the keys of `after`, then the keys only
      the dirty map knows, in the dirty map's order. */
  lemma BeforeFullKeyOrder(after: ModelObject, dirty: ModelObject)
    ensures BeforeFull(after, dirty).keys == after.keys + InOrder(dirty.keys, dirty.vals.Keys - after.vals.Keys)
  {
  }

  /** The keys the update compares: the union of the keys of the three
      images, each once, in first-seen order. */
  function CandidateKeys(beforeFull: ModelObject, after: ModelObject, dirty: ModelObject): (r: seq<string>)
    ensures Distinct(r)
    ensures forall k :: k in r <==> k in beforeFull.vals || k in after.vals || k in dirty.vals
  {
    UniqueInOrder(beforeFull.keys + (after.keys + dirty.keys))
  }

  /** The full "before" image lists every key of either image. */
  lemma KeysOfBeforeFull(after: ModelObject, dirty: ModelObject)
    ensures forall k | k in after.keys + dirty.keys :: k in BeforeFull(after, dirty).keys
  {
    var bf := BeforeFull(after, dirty);
    forall k | k in after.keys + dirty.keys ensures k in bf.keys {
      assert k in bf.vals;
    }
  }

  /** Since the full "before" image already holds every key, the union of
      keys is that image's own key order. */
  lemma CandidateKeysOfBeforeFull(after: ModelObject, dirty: ModelObject)
    ensures CandidateKeys(BeforeFull(after, dirty), after, dirty) == BeforeFull(after, dirty).keys
  {
    var bf := BeforeFull(after, dirty);
    var rest := after.keys + dirty.keys;
    assert UniqueInOrder(bf.keys + rest) == bf.keys by {
      KeysOfBeforeFull(after, dirty);
      UniqueInOrderOfCovered(bf.keys, rest);
    }
  }

  /** Key `k` counts as changed: it is not ignored and `===` tells its two
      values apart. */
  predicate IsChanged(ignored: set<string>, before: ModelObject, after: ModelObject, k: string) {
    k !in ignored && Get(before, k) != Get(after, k)
  }

  /** The values `side` holds for the changed keys among `ks`. */
  function ChangedPick(ignored: set<string>, before: ModelObject, after: ModelObject,
                       ks: seq<string>, side: ModelObject): map<string, Value>
  {
    map k | k in ks && IsChanged(ignored, before, after, k) :: Get(side, k)
  }

  lemma ChangedPickSnoc(ignored: set<string>, before: ModelObject, after: ModelObject,
                        ks: seq<string>, side: ModelObject)
    requires |ks| > 0
    ensures var k := ks[|ks| - 1];
            var init := ChangedPick(ignored, before, after, ks[..|ks| - 1], side);
            ChangedPick(ignored, before, after, ks, side)
              == if IsChanged(ignored, before, after, k) then init[k := Get(side, k)] else init
  {
    assert forall x | x in ks :: x in ks[..|ks| - 1] || x == ks[|ks| - 1];
  }

  /** The comparison loop: `changedOld`/`changedNew` receive, in the order of
      `ks`, the before and after values of every changed key. */
  function CollectChanges(ignored: set<string>, before: ModelObject, after: ModelObject,
                          ks: seq<string>): (r: (ModelObject, ModelObject))
    ensures r.0.keys == r.1.keys
    ensures r.0.vals == ChangedPick(ignored, before, after, ks, before)
    ensures r.1.vals == ChangedPick(ignored, before, after, ks, after)
    decreases |ks|
  {
    if |ks| == 0 then (Empty(), Empty())
    else
      var k := ks[|ks| - 1];
      var (changedOld, changedNew) := CollectChanges(ignored, before, after, ks[..|ks| - 1]);
      ChangedPickSnoc(ignored, before, after, ks, before);
      ChangedPickSnoc(ignored, before, after, ks, after);
      if IsChanged(ignored, before, after, k)
      then (Put(changedOld, k, Get(before, k)), Put(changedNew, k, Get(after, k)))
      else (changedOld, changedNew)
  }

  /** Over keys without repetitions, the comparison loop lists the changed
      keys in the order it visits them. */
  lemma {:induction false} CollectedKeysInOrder(ignored: set<string>, before: ModelObject, after: ModelObject,
                                                ks: seq<string>, keep: set<string>)
    requires Distinct(ks)
    requires forall k | k in ks :: IsChanged(ignored, before, after, k) <==> k in keep
    ensures CollectChanges(ignored, before, after, ks).0.keys == InOrder(ks, keep)
    decreases |ks|
  {
    if |ks| > 0 {
      var k := ks[|ks| - 1];
      var init := ks[..|ks| - 1];
      assert forall x | x in init :: x in ks;
      assert k !in init;
      CollectedKeysInOrder(ignored, before, after, init, keep);
    }
  }

  /** Over the union of keys, the changed keys of the comparison loop are
      exactly the reference change set, each valued as in `side`. */
  lemma ChangedPickOverUnion(cfg: Config, after: ModelObject, dirty: ModelObject,
                             bf: ModelObject, ks: seq<string>, side: ModelObject)
    requires bf.vals == after.vals + dirty.vals
    requires forall k :: k in ks <==> k in bf.vals
    ensures ChangedPick(cfg.ignoredFieldsOnUpdate, bf, after, ks, side).Keys == ChangedKeys(cfg, after, dirty)
  {
    forall k ensures k in ChangedPick(cfg.ignoredFieldsOnUpdate, bf, after, ks, side)
                     <==> k in ChangedKeys(cfg, after, dirty) {
      if k in bf.vals {
        assert Get(bf, k) == ValueBefore(after, dirty, k);
      }
    }
  }

  /** The comparison loop over the union of keys finds exactly the reference
      change set, pairing each changed key with its value before and after. */
  lemma CollectedChangesAreChangedKeys(cfg: Config, after: ModelObject, dirty: ModelObject)
    ensures var bf := BeforeFull(after, dirty);
            var r := CollectChanges(cfg.ignoredFieldsOnUpdate, bf, after, CandidateKeys(bf, after, dirty));
            && r.0.vals.Keys == ChangedKeys(cfg, after, dirty)
            && r.1.vals.Keys == ChangedKeys(cfg, after, dirty)
            && (forall k | k in r.0.vals :: r.0.vals[k] == ValueBefore(after, dirty, k))
            && (forall k | k in r.1.vals :: r.1.vals[k] == Get(after, k))
  {
    var bf := BeforeFull(after, dirty);
    var ks := CandidateKeys(bf, after, dirty);
    var r := CollectChanges(cfg.ignoredFieldsOnUpdate, bf, after, ks);
    assert forall k :: k in ks <==> k in bf.vals;
    ChangedPickOverUnion(cfg, after, dirty, bf, ks, bf);
    ChangedPickOverUnion(cfg, after, dirty, bf, ks, after);
    forall k | k in r.0.vals ensures r.0.vals[k] == ValueBefore(after, dirty, k) {
      assert k in bf.vals;
    }
  }

  /** Comparing a full before image with `after` marks exactly the keys of
      the reference change set. */
  lemma ChangedOverBeforeFull(cfg: Config, after: ModelObject, dirty: ModelObject, bf: ModelObject)
    requires bf.vals == after.vals + dirty.vals
    ensures forall k :: IsChanged(cfg.ignoredFieldsOnUpdate, bf, after, k) <==> k in ChangedKeys(cfg, after, dirty)
  {
    forall k
      ensures IsChanged(cfg.ignoredFieldsOnUpdate, bf, after, k) <==> k in ChangedKeys(cfg, after, dirty)
    {
      assert Get(bf, k) == ValueBefore(after, dirty, k);
    }
  }

  /** The comparison loop lists the changed keys in the order of the full
      before image. */
  lemma DiffKeysInOrder(cfg: Config, after: ModelObject, dirty: ModelObject)
    ensures var bf := BeforeFull(after, dirty);
            CollectChanges(cfg.ignoredFieldsOnUpdate, bf, after, CandidateKeys(bf, after, dirty)).0.keys
              == InOrder(bf.keys, ChangedKeys(cfg, after, dirty))
  {
    var bf := BeforeFull(after, dirty);
    CandidateKeysOfBeforeFull(after, dirty);
    ChangedOverBeforeFull(cfg, after, dirty, bf);
    CollectedKeysInOrder(cfg.ignoredFieldsOnUpdate, bf, after, bf.keys, ChangedKeys(cfg, after, dirty));
  }

  /** An object with no keys is the empty object. */
  lemma NoKeysIsEmpty(o: ModelObject)
    ensures |o.keys| == 0 <==> o.vals == map[]
  {
    if |o.keys| > 0 {
      assert o.keys[0] in o.vals;
    }
  }

  /** A diff-mode payload: both sides list exactly the changed keys, in the
      same order, holding the masked before and after values. */
  ghost predicate IsDiffPayload(cfg: Config, after: ModelObject, dirty: ModelObject, p: Payload) {
    && p.oldValues.Some?
    && p.newValues.Some?
    && p.oldValues.value.keys == p.newValues.value.keys
    && p.oldValues.value.vals.Keys == ChangedKeys(cfg, after, dirty)
    && p.newValues.value.vals.Keys == ChangedKeys(cfg, after, dirty)
    && (forall k | k in p.oldValues.value.vals ::
          p.oldValues.value.vals[k] == MaskedValue(cfg.hiddenFields, k, ValueBefore(after, dirty, k)))
    && (forall k | k in p.newValues.value.vals ::
          p.newValues.value.vals[k] == MaskedValue(cfg.hiddenFields, k, Get(after, k)))
  }

  /** Masking the two sides the comparison loop collects gives a diff-mode
      payload. */
  lemma CollectedChangesAreDiff(cfg: Config, after: ModelObject, dirty: ModelObject)
    ensures var bf := BeforeFull(after, dirty);
            var c := CollectChanges(cfg.ignoredFieldsOnUpdate, bf, after, CandidateKeys(bf, after, dirty));
            IsDiffPayload(cfg, after, dirty, Payload(Some(MaskObject(cfg.hiddenFields, c.0)),
                                                     Some(MaskObject(cfg.hiddenFields, c.1))))
  {
    CollectedChangesAreChangedKeys(cfg, after, dirty);
  }

  /** The update branch. No record when no non-ignored key changed, in either
      mode; otherwise the masked full images, or the masked minimal diff. */
  function UpdatePayload(cfg: Config, after: ModelObject, dirty: ModelObject): (r: Option<Payload>)
    ensures r.None? <==> ChangedKeys(cfg, after, dirty) == {}
    ensures r.Some? && cfg.fullSnapshotOnUpdate ==>
              r.value == Payload(Some(MaskObject(cfg.hiddenFields, BeforeFull(after, dirty))),
                                 Some(MaskObject(cfg.hiddenFields, after)))
    ensures r.Some? && !cfg.fullSnapshotOnUpdate ==> IsDiffPayload(cfg, after, dirty, r.value)
  {
    var beforeFull := BeforeFull(after, dirty);
    var changed := CollectChanges(cfg.ignoredFieldsOnUpdate, beforeFull, after, CandidateKeys(beforeFull, after, dirty));
    CollectedChangesAreChangedKeys(cfg, after, dirty);
    CollectedChangesAreDiff(cfg, after, dirty);
    NoKeysIsEmpty(changed.1);
    if |changed.1.keys| == 0 then None
    else if cfg.fullSnapshotOnUpdate then
      Some(Payload(Some(MaskObject(cfg.hiddenFields, beforeFull)), Some(MaskObject(cfg.hiddenFields, after))))
    else
      Some(Payload(Some(MaskObject(cfg.hiddenFields, changed.0)), Some(MaskObject(cfg.hiddenFields, changed.1))))
  }

  /** A diff-mode record lists the changed keys in the order of the full
      before image: the current attributes' keys first, then the keys only
      the dirty map knows. */
  lemma DiffPayloadKeyOrder(cfg: Config, after: ModelObject, dirty: ModelObject)
    requires !cfg.fullSnapshotOnUpdate
    ensures var p := UpdatePayload(cfg, after, dirty);
            p.Some? ==> && p.value.oldValues.Some?
                        && p.value.oldValues.value.keys == InOrder(BeforeFull(after, dirty).keys, ChangedKeys(cfg, after, dirty))
  {
    DiffKeysInOrder(cfg, after, dirty);
  }

  /** The payload for any event, `None` meaning "record nothing". Only an
      update can be a no-op; `oldValues` is absent exactly for a create and
      `newValues` exactly for a delete. A create stores every attribute in
      order and a delete every backed-up value, hidden keys redacted; the
      ignored fields play no part in either. */
  function ComputePayload(cfg: Config, event: Event, attributes: ModelObject, backup: ModelObject): (r: Option<Payload>)
    ensures r.None? ==> event == Update
    ensures r.Some? ==> (r.value.oldValues.None? <==> event == Create)
    ensures r.Some? ==> (r.value.newValues.None? <==> event == Delete)
    ensures event == Create ==> r.Some? && r.value.newValues.value.keys == attributes.keys
    ensures event == Create ==> forall k | k in attributes.vals ::
              r.value.newValues.value.vals[k] == MaskedValue(cfg.hiddenFields, k, attributes.vals[k])
    ensures event == Delete ==> r.Some? && r.value.oldValues.value.keys == backup.keys
    ensures event == Delete ==> forall k | k in backup.vals ::
              r.value.oldValues.value.vals[k] == MaskedValue(cfg.hiddenFields, k, backup.vals[k])
    ensures event == Update ==> r == UpdatePayload(cfg, attributes, backup)
  {
    match event
    case Create => Some(Payload(None, Mask(cfg.hiddenFields, Some(attributes))))
    case Delete => Some(Payload(Mask(cfg.hiddenFields, Some(backup)), None))
    case Update => UpdatePayload(cfg, attributes, backup)
  }

  /** A diff-mode update that changes the single key `k` records just `k`,
      with its masked value before and after. */
  lemma DiffPayloadOfSingleChange(cfg: Config, after: ModelObject, dirty: ModelObject, k: string)
    requires !cfg.fullSnapshotOnUpdate
    requires ChangedKeys(cfg, after, dirty) == {k}
    ensures var p := UpdatePayload(cfg, after, dirty);
            && p.Some? && p.value.oldValues.Some? && p.value.newValues.Some?
            && p.value.oldValues.value.vals == map[k := MaskedValue(cfg.hiddenFields, k, ValueBefore(after, dirty, k))]
            && p.value.newValues.value.vals == map[k := MaskedValue(cfg.hiddenFields, k, Get(after, k))]
  {
    var p := UpdatePayload(cfg, after, dirty);
    assert IsDiffPayload(cfg, after, dirty, p.value);
    SingletonMap(p.value.oldValues.value.vals, k);
    SingletonMap(p.value.newValues.value.vals, k);
  }
}
