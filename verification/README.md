# adonis-auditing: the change-auditing engine, in Dafny

This project models the core of the `withAuditable()` mixin of
adonis-auditing (`src/auditable/factory.ts`): what an audit record holds
after a model instance is created, updated or deleted, and how an instance
is moved back to the values one of its records holds.

- **Attribute maps** (`Objects`). A JavaScript plain object is a
  `ModelObject`: its keys in insertion order plus a finite map from key to
  `Value`. For keys that are not array indices this is the order
  `Object.keys` reports. The order matters to the source in two places:
  the union of keys built with `new Set([...])`, and the first incompatible
  key that `transitionTo` reports. A key that is missing reads as `Undefined`, as a
  property access does in JavaScript for a key the object does not inherit
  either. `===` is Dafny's `==` on `Value`, and
  objects and arrays are compared by reference (`Ref(address)`).
- **Masking** (`Masking`). `maskObject` copies an object and replaces the
  value of every hidden key with the string `"******"`. A null input stays
  null.
- **Change sets** (`ChangeSet`). A create records the masked attributes as
  the new side. A delete records the masked backup, which is the state the
  before-delete hook captured, as the old side. An update first rebuilds the
  full before image: the current attributes, overridden by the dirty
  originals. It then takes the union of the keys of the three objects and
  keeps the non-ignored keys whose before and after values differ under
  `===`. If there are none, nothing is recorded. Otherwise it records either
  the masked minimal diff or the two masked full images, as
  `fullSnapshotOnUpdate` says.
- **The audit store** (`Audits`). The `audits` table is a sequence of
  records in insertion order. Ids come from an auto-incrementing key.
  `audits()` filters the table by class name and id. `first()` is the
  earliest stored match, and `last()` is the match with the largest id.
- **The mixin** (`Auditable`). `$audit` builds the record: the user, the
  metadata, the payload, and the tenant. The resolver's tenant wins, and
  the instance's own defined `tenantId` is the fallback. The after-hooks run
  `$audit` only when the mutation itself succeeded. `transitionTo` checks,
  in order, the class, the id, that the selected side is present and that
  each of its keys is an attribute; on success it writes that side onto the
  attributes. `revert` transitions to the old side of the record `last()`
  returns, or throws `CannotRevert` when there is none.
- **History** and **Scenarios** relate these operations to each other: a
  revert after an audited update undoes it. They also restate the library's
  usage scenarios, on a `Book` model with columns `id` and `name`, for
  every id and every pair of names.

The configuration (`fullSnapshotOnUpdate`, `ignoredFieldsOnUpdate`,
`hiddenFields`, defaults `false`, `[]`, `[]`) is a `Config` value. The
request context (user, metadata, tenant) is a `Context` value. The
dirty-original map the before-hook captures is an input, and so is the
audit store.

Four behaviours of the source are worth noting:

- The delete record's old side is the backup the before-delete hook took
  (`src/auditable/factory.ts:127`), that is the instance's original values.
- A missing side raises `E_AUDITABLE_LOAD_NULL`
  (`src/auditable/factory.ts:64-66`), here `LoadNull`.
- A revert writes back the old side exactly as stored
  (`src/auditable/factory.ts:81-83`), so a hidden key comes back as
  `"******"`, not as its original value.
  `History.DiffRecordUndoesUpdate` and
  `History.SnapshotRecordRestoresBeforeImage` state this.
- The instance's id is its `id` attribute, read through the column getter.
  A side that holds `id` therefore changes the id as well
  (`Scenarios.MaskedIdReplacesId`).

## Model

| member | source | states |
|---|---|---|
| Objects.AssignKeys | src/auditable/factory.ts:139-141 | Assigning `source[k]` for each `k` of a key list leaves the target's values overridden on exactly those keys. The target's keys keep their order at the front, and no key is added when all assigned keys already exist. When the listed keys are distinct keys of the source, the new ones follow in the order they are assigned. |
| Objects.UniqueInOrder | src/auditable/factory.ts:143-147 | Iterating `new Set(s)` yields every element of `s` exactly once. |
| Objects.UniqueInOrderOfCovered | src/auditable/factory.ts:143-147 | Appending keys that already occur in a repetition-free list does not change its set iteration order. |
| Masking.MaskObject | src/auditable/factory.ts:111-117 | The masked copy has the same keys in the same order. Every hidden key holds `"******"` and every other key keeps its value. |
| Masking.Mask | src/auditable/factory.ts:109-118 | Masking a null object gives null; masking an object gives its masked copy. |
| Masking.MaskIdempotent | src/auditable/factory.ts:107-118 | Masking twice with the same hidden fields is masking once. |
| Masking.MaskNothing | src/auditable/factory.ts:107-118 | With no hidden fields (the default) the masked copy equals the original. |
| ChangeSet.BeforeFull | src/auditable/factory.ts:136-141 | The before image holds the dirty original on every dirty key and the current value on every other key. Its keys are those of either object, with the current attributes' keys first. |
| ChangeSet.BeforeFullKeyOrder | src/auditable/factory.ts:138-141 | The before image lists the current attributes' keys, then the keys only the dirty map holds, in the dirty map's order. |
| ChangeSet.CandidateKeys | src/auditable/factory.ts:143-147 | The union of keys lists each key of the three objects exactly once. |
| ChangeSet.CandidateKeysOfBeforeFull | src/auditable/factory.ts:143-147 | Because the before image already holds every key, the union of keys is the before image's own key order. |
| ChangeSet.CollectChanges | src/auditable/factory.ts:148-161 | Both collected sides list the same keys. They hold the before and after values on exactly the non-ignored keys whose values differ. |
| ChangeSet.CollectedChangesAreChangedKeys | src/auditable/factory.ts:148-161 | The collected keys are exactly the keys of either object that are not ignored and whose value before differs from the value after. The old side holds the value before. |
| ChangeSet.CollectedKeysInOrder | src/auditable/factory.ts:151-160 | Over keys without repetitions, the loop lists the changed keys in the order it visits them, as assigning fresh keys to `changedOld` does. |
| ChangeSet.ChangedOverBeforeFull | src/auditable/factory.ts:151-157 | Comparing the full before image with the current attributes marks exactly the keys of the reference change set. |
| ChangeSet.DiffKeysInOrder | src/auditable/factory.ts:143-160 | The loop over the key union lists the changed keys in the full before image's key order. |
| ChangeSet.UpdatePayload | src/auditable/factory.ts:163-174 | An update records nothing exactly when no non-ignored key changed, in either mode. In full mode it records both masked images. In diff mode both sides list exactly the changed keys, holding the masked before and after values. |
| ChangeSet.DiffPayloadKeyOrder | src/auditable/factory.ts:148-173 | A diff-mode record's old side lists the changed keys in the full before image's key order, which decides which key `IncompatibleAttributes` names when the side is applied. |
| ChangeSet.ComputePayload | src/auditable/factory.ts:120-175 | Only an update can record nothing. The old side is absent exactly for a create, and the new side exactly for a delete. A create stores each attribute masked, in order, and a delete each backed-up value masked. Ignored fields play no part in either. |
| ChangeSet.DiffPayloadOfSingleChange | src/auditable/factory.ts:171-173 | In diff mode, when one key changed, each side holds only that key, with its masked value before or after. |
| Audits.Append | src/auditable/factory.ts:194 | Saving a record keeps the store as a prefix and adds the record last with a fresh id. Ids stay strictly increasing. |
| Audits.Query | src/auditable/factory.ts:35-39 | `audits()` returns exactly the stored records of the instance's class and id, and keeps ids increasing. |
| Audits.First | src/auditable/factory.ts:40-44 | `first()` is null exactly when there is no record. Otherwise it is one of the instance's records, and under increasing ids the one with the smallest id. |
| Audits.Last | src/auditable/factory.ts:46-50 | `last()` is null exactly when there is no record. Otherwise it is the instance's record with the largest id, which under increasing ids is the newest. |
| Audits.MaxIdIsLast | src/auditable/factory.ts:46-50 | Under increasing ids, the record with the largest id is the last one stored. |
| Auditable.Incompatibilities | src/auditable/factory.ts:69-72 | The incompatibilities are exactly the keys of the side that are not attributes. The first of them is the first such key in the side's order. |
| Auditable.TransitionTo | src/auditable/factory.ts:55-84 | The checks run in order and the first failure decides the error: `WrongType`, then `WrongInstance`, then `LoadNull`, then `IncompatibleAttributes` naming the first key that is not an attribute. The call succeeds exactly when all four pass. On success the attributes are overwritten by the side and the key order stays. The class and the own `tenantId` property are unchanged, and the id is the new `id` attribute. |
| Auditable.Revert | src/auditable/factory.ts:86-92 | With no record for the instance the result is `CannotRevert`. Otherwise it is the transition to the old side of the record with the largest id, which under increasing ids is the newest. It never fails on class or id. |
| Auditable.AuditMutation | src/auditable/factory.ts:177-194 | An update that changed no non-ignored key leaves the store unchanged. Otherwise one record is appended, carrying the event, the class, the id, the user, the metadata and the computed payload. Its tenant is the resolver's tenant when it returned a number or a string, else the instance's defined `tenantId`, else none. Ids stay increasing. |
| Auditable.OnMutation | src/auditable/factory.ts:210-238 | A mutation that failed leaves the store unchanged. A successful create or delete, or a successful update that changed a non-ignored key, appends one record for its event, carrying the computed payload. A successful update that changed nothing appends nothing. |
| History.ChangedKeysAreDirty | src/auditable/factory.ts:148-161 | Only dirty keys can change, and no ignored key counts as changed. |
| History.AppendedRecordIsNewest | src/auditable/factory.ts:46-50 | The record just appended for an instance is the newest of its records. |
| History.DiffRecordUndoesUpdate | src/auditable/factory.ts:55-84 | Transitioning to the old side of a diff-mode update record succeeds while the changed keys are still attributes. Each changed key gets back its value before, masked when hidden, and every other attribute keeps its value. |
| History.TransitionToSingleKey | src/auditable/factory.ts:81-83 | A side holding one attribute key sets that key and changes nothing else. |
| History.MaskedBeforeImage | src/auditable/factory.ts:168-169 | The masked before image holds, on every key of either object, the masked value that key had before. |
| History.SnapshotRecordRestoresBeforeImage | src/auditable/factory.ts:168-170 | Transitioning to the old side of a full-snapshot update record restores the whole before image, with hidden keys masked, while every dirty key is still an attribute. |
| History.CreateRecordReplaysCreation | src/auditable/factory.ts:123-125 | Transitioning to the new side of a create record puts back the created attributes, with hidden keys masked. |
| History.RevertUndoesAuditedUpdate | src/auditable/factory.ts:86-92 | After a diff-mode update is audited, the record `revert` picks is the one just appended, and applying it undoes the update key by key. |
| Scenarios.CreateRecordsAttributes | tests/model.spec.ts:8-35 | Creating a book records `{ id, name }` as the new side and no old side. |
| Scenarios.InstanceTenantPropagates | tests/model.spec.ts:38-67 | An instance's own `tenantId` reaches the record when no resolver supplies one. |
| Scenarios.RenameChangesName | src/auditable/factory.ts:151-161 | Renaming a book changes exactly `name`, or nothing when `name` is ignored. |
| Scenarios.UpdateRecordsDiff | tests/model.spec.ts:70-101 | By default a rename records `{ name }` before and after. |
| Scenarios.DeleteRecordsBackup | tests/model.spec.ts:104-135 | Deleting a book records `{ id, name }` as the old side and no new side. |
| Scenarios.TransitionRejections | tests/model.spec.ts:191-274 | A record of another class, of another instance, or without the selected side is refused with the matching error. |
| Scenarios.MaskedIdReplacesId | src/auditable/factory.ts:81-83 | Applying the new side of a create record made with `id` and `name` hidden succeeds and sets the book's id to `"******"`. |
| Scenarios.TransitionRejectsExtraKey | tests/model.spec.ts:277-299 | A side holding a key the book lacks is refused, naming that key. |
| Scenarios.RevertRestoresName | tests/model.spec.ts:302-323 | Applying the old side of a rename's record gives back the book under its old name. |
| Scenarios.IgnoredRenameRecordsNothing | tests/model.spec.ts:326-351 | With `name` ignored, a rename records nothing. |
| Scenarios.SnapshotRenameRecordsBothImages | tests/model.spec.ts:354-378 | With full snapshots on, a rename records both whole images. |
| Scenarios.UnchangedSaveRecordsNothing | tests/model.spec.ts:380-404 | Saving a book again without changes records nothing. |
| Scenarios.HiddenFieldsMaskedOnCreate | tests/model.spec.ts:407-426 | With `id` and `name` hidden, a create stores only markers. |
| Scenarios.HiddenFieldsMaskedOnDelete | tests/model.spec.ts:428-435 | With `id` and `name` hidden, a delete stores only markers. |
| Scenarios.HiddenFieldMaskedOnDiff | tests/model.spec.ts:438-463 | With `name` hidden, a rename stores the marker on both sides of the diff. |
| Scenarios.HiddenFieldMaskedOnSnapshot | tests/model.spec.ts:466-495 | With full snapshots on and `name` hidden, both images keep `id` and mask `name`. |

## Left out

- The notification `audit:<event>` sent after saving (src/auditable/factory.ts:196) is left out because it is output only and does not change the record.
- The lazy service lookup `#init` (src/auditable/factory.ts:199-208) is left out because it is container wiring.
- The lifecycle hook decorators (src/auditable/factory.ts:210-238) are left out as dispatch. Their effect is `Auditable.OnMutation`: the backup is an argument, and the audit runs only after a successful mutation.
- Resolving the user, metadata and tenant (`src/manager.ts`) is left out because it reads framework request state. The resolved values are the `Context` argument.
- Configuration loading (`src/define_config.ts`, `src/types.ts`) is left out as wiring. The resolved values are the `Config` argument, and `ChangeSet.DefaultConfig` holds the defaults.
- Lucid's persistence is left out: the query builder, `save()`, JSON columns and `$original` dirty tracking. The store is a sequence and the dirty originals are an argument. So the model does not capture that JSON storage drops `undefined` values and copies objects on reload.
- Audits.First: it takes "first" as the earliest stored row. The source calls `first()` without `orderBy`, so the actual order is whatever the database returns.
- Auditable.TransitionTo: the instance's `tenantId` is modelled as a plain property, as the test model declares it (`tests/model.spec.ts:53-54`), so writing the attributes never changes it. A model that declares `tenantId` as a column reads it from its attributes, and there a side holding `tenantId` would change the tenant that later audits record; that case is not modelled.
- Auditable.TransitionTo: the `WrongInstance` error carries the record's id as a value, where the source converts it to a string for the message. Error messages are left out.
- Auditable.AuditMutation: the tenant is stored without the `as number` cast, which has no runtime effect.
- Objects.Put: a new key is always appended. JavaScript lists integer-like keys ("0", "1", ...) before all other keys, in ascending numeric order. For objects with such keys, the model's key order can differ from the source's. This affects which key `IncompatibleAttributes` names and the key order of stored payloads.
- JavaScript numbers are modelled as integers. `NaN`, negative zero and other floating-point values are left out, and so is the special `__proto__` key of object literals. A missing key reads as `Undefined`, which holds for own keys only: keys inherited from `Object.prototype`, such as `constructor`, read as functions in the source.
- The asynchronous ordering of `$audit` is left out. Each mutation is audited as one step against the store.
