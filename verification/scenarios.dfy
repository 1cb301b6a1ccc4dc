/** The library's own usage scenarios, on a `Book` model with columns `id`
    and `name`, stated over the model for any id and any pair of names. */
module Scenarios {
  import opened Wrappers
  import opened Objects
  import opened Masking
  import opened ChangeSet
  import opened Audits
  import opened Auditable
  import History

  /** The attributes `{ id, name }` of a stored book. */
  function Book(id: int, name: string): ModelObject {
    RawObject(["id", "name"], map["id" := Num(id), "name" := Str(name)])
  }

  /** Book `id` named `name`. */
  function BookNamed(id: int, name: string): Instance {
    Instance("Book", Book(id, name), Undefined)
  }

  /** No request context: no user, no metadata, no tenant. */
  function NoContext(): Context {
    Context(None, Empty(), None)
  }

  /** Creating a book records its full attributes; there is no old side. */
  lemma CreateRecordsAttributes(id: int, name: string)
    ensures var s := AuditMutation(DefaultConfig, NoContext(), Create, BookNamed(id, name), Empty(), []);
            && |s| == 1
            && s[0].event == Create
            && s[0].auditableType == "Book"
            && s[0].auditableId == Num(id)
            && s[0].oldValues == None
            && s[0].newValues == Some(Book(id, name))
  {
    var s := AuditMutation(DefaultConfig, NoContext(), Create, BookNamed(id, name), Empty(), []);
    assert s[0].newValues.value.vals == Book(id, name).vals;
  }

  /** Renaming a book changes exactly its name, unless the name is ignored. */
  lemma RenameChangesName(cfg: Config, id: int, before: string, after: string)
    requires before != after
    ensures "name" !in cfg.ignoredFieldsOnUpdate ==> ChangedKeys(cfg, Book(id, after), Book(id, before)) == {"name"}
    ensures "name" in cfg.ignoredFieldsOnUpdate ==> ChangedKeys(cfg, Book(id, after), Book(id, before)) == {}
  {
    var a := Book(id, after);
    var d := Book(id, before);
    assert ValueBefore(a, d, "id") == Get(a, "id");
    assert ValueBefore(a, d, "name") != Get(a, "name");
  }

  /** Renaming a book records only the name, before and after. */
  lemma UpdateRecordsDiff(id: int, before: string, after: string)
    requires before != after
    ensures var p := ComputePayload(DefaultConfig, Update, Book(id, after), Book(id, before));
            && p.Some?
            && p.value.oldValues.Some? && p.value.oldValues.value.vals == map["name" := Str(before)]
            && p.value.newValues.Some? && p.value.newValues.value.vals == map["name" := Str(after)]
  {
    RenameChangesName(DefaultConfig, id, before, after);
    DiffPayloadOfSingleChange(DefaultConfig, Book(id, after), Book(id, before), "name");
  }

  /** Deleting a book records what it held last; there is no new side. */
  lemma DeleteRecordsBackup(id: int, name: string, s: Store)
    ensures var s2 := AuditMutation(DefaultConfig, NoContext(), Delete, BookNamed(id, name), Book(id, name), s);
            && |s2| == |s| + 1
            && s2[|s|].event == Delete
            && s2[|s|].oldValues == Some(Book(id, name))
            && s2[|s|].newValues == None
  {
    var s2 := AuditMutation(DefaultConfig, NoContext(), Delete, BookNamed(id, name), Book(id, name), s);
    assert s2[|s|].oldValues.value.vals == Book(id, name).vals;
  }

  /** Saving a book again without changes records nothing. */
  lemma UnchangedSaveRecordsNothing(id: int, name: string, s: Store)
    ensures AuditMutation(DefaultConfig, NoContext(), Update, BookNamed(id, name), Book(id, name), s) == s
  {
    var b := Book(id, name);
    assert ChangedKeys(DefaultConfig, b, b) == {} by {
      forall k | k in b.vals ensures ValueBefore(b, b, k) == Get(b, k) { }
    }
  }

  /** With `name` ignored, renaming a book records nothing. */
  lemma IgnoredRenameRecordsNothing(id: int, before: string, after: string, s: Store)
    requires before != after
    ensures AuditMutation(Config(false, {"name"}, {}), NoContext(), Update,
                          BookNamed(id, after), Book(id, before), s) == s
  {
    RenameChangesName(Config(false, {"name"}, {}), id, before, after);
  }

  /** The before image of a rename is the book under its old name. */
  lemma RenameBeforeImage(id: int, before: string, after: string)
    ensures BeforeFull(Book(id, after), Book(id, before)).vals == Book(id, before).vals
  {
    UnionOfCovered(Book(id, after).vals, Book(id, before).vals);
  }

  /** With full snapshots on, a rename's payload holds the masked before
      image and the masked book as it now is. */
  lemma SnapshotRenamePayload(hidden: set<string>, id: int, before: string, after: string)
    requires before != after
    ensures ComputePayload(Config(true, {}, hidden), Update, Book(id, after), Book(id, before))
              == Some(Payload(Some(MaskObject(hidden, BeforeFull(Book(id, after), Book(id, before)))),
                              Some(MaskObject(hidden, Book(id, after)))))
  {
    RenameChangesName(Config(true, {}, hidden), id, before, after);
  }

  /** An image holding a book's columns, with `name` hidden. */
  lemma MaskedBookName(o: ModelObject, id: int, name: string)
    requires o.vals == Book(id, name).vals
    ensures MaskObject({"name"}, o).vals == map["id" := Num(id), "name" := Str(MASK)]
  {
    var m := MaskObject({"name"}, o);
    assert m.vals.Keys == {"id", "name"};
    assert m.vals["id"] == Num(id);
  }

  /** With full snapshots on, renaming a book records both whole images. */
  lemma SnapshotRenameRecordsBothImages(id: int, before: string, after: string)
    requires before != after
    ensures var p := ComputePayload(Config(true, {}, {}), Update, Book(id, after), Book(id, before));
            && p.Some?
            && p.value.oldValues.Some? && p.value.oldValues.value.vals == Book(id, before).vals
            && p.value.newValues.Some? && p.value.newValues.value.vals == Book(id, after).vals
  {
    SnapshotRenamePayload({}, id, before, after);
    RenameBeforeImage(id, before, after);
    MaskNothing(BeforeFull(Book(id, after), Book(id, before)));
    MaskNothing(Book(id, after));
  }

  /** With full snapshots on and `name` hidden, a rename records both whole
      images with the name redacted on each side. */
  lemma HiddenFieldMaskedOnSnapshot(id: int, before: string, after: string)
    requires before != after
    ensures var p := ComputePayload(Config(true, {}, {"name"}), Update, Book(id, after), Book(id, before));
            && p.Some?
            && p.value.oldValues.Some? && p.value.oldValues.value.vals == map["id" := Num(id), "name" := Str(MASK)]
            && p.value.newValues.Some? && p.value.newValues.value.vals == map["id" := Num(id), "name" := Str(MASK)]
  {
    SnapshotRenamePayload({"name"}, id, before, after);
    RenameBeforeImage(id, before, after);
    MaskedBookName(BeforeFull(Book(id, after), Book(id, before)), id, before);
    MaskedBookName(Book(id, after), id, after);
  }

  /** With `id` and `name` hidden, a create stores only markers. */
  lemma HiddenFieldsMaskedOnCreate(id: int, name: string)
    ensures var s := AuditMutation(Config(false, {}, {"id", "name"}), NoContext(), Create,
                                   BookNamed(id, name), Empty(), []);
            s[0].newValues.Some? && s[0].newValues.value.vals == map["id" := Str(MASK), "name" := Str(MASK)]
  {
  }

  /** A book image whose every column holds the marker. */
  lemma AllMarkers(o: ModelObject)
    requires o.keys == ["id", "name"]
    requires forall k | k in o.vals :: o.vals[k] == Str(MASK)
    ensures o.vals == map["id" := Str(MASK), "name" := Str(MASK)]
  {
    assert o.vals.Keys == {"id", "name"};
  }

  /** With `id` and `name` hidden, a delete stores only markers. */
  lemma HiddenFieldsMaskedOnDelete(id: int, name: string)
    ensures var p := ComputePayload(Config(false, {}, {"id", "name"}), Delete, Book(id, name), Book(id, name));
            && p.Some? && p.value.newValues.None?
            && p.value.oldValues.Some? && p.value.oldValues.value.vals == map["id" := Str(MASK), "name" := Str(MASK)]
  {
    var p := ComputePayload(Config(false, {}, {"id", "name"}), Delete, Book(id, name), Book(id, name));
    AllMarkers(p.value.oldValues.value);
  }

  /** With `name` hidden, a rename stores the marker on both sides. */
  lemma HiddenFieldMaskedOnDiff(id: int, before: string, after: string)
    requires before != after
    ensures var p := ComputePayload(Config(false, {}, {"name"}), Update, Book(id, after), Book(id, before));
            && p.Some?
            && p.value.oldValues.Some? && p.value.oldValues.value.vals == map["name" := Str(MASK)]
            && p.value.newValues.Some? && p.value.newValues.value.vals == map["name" := Str(MASK)]
  {
    RenameChangesName(Config(false, {}, {"name"}), id, before, after);
    DiffPayloadOfSingleChange(Config(false, {}, {"name"}), Book(id, after), Book(id, before), "name");
  }

  /** An instance's own `tenantId` reaches the record when no resolver
      supplies one. */
  lemma InstanceTenantPropagates(id: int, name: string, tenant: int)
    ensures var inst := Instance("TenantScopedBook", Book(id, name), Num(tenant));
            var s := AuditMutation(DefaultConfig, NoContext(), Create, inst, Empty(), []);
            s[0].tenantId == Some(Num(tenant))
  {
  }

  /** Any record of the rename holds the old name as its old side. */
  lemma RenameRecordOldSide(id: int, before: string, after: string, a: AuditRecord)
    requires before != after
    requires Some(Payload(a.oldValues, a.newValues))
               == ComputePayload(DefaultConfig, Update, Book(id, after), Book(id, before))
    ensures a.oldValues.Some? && a.oldValues.value.vals == map["name" := Str(before)]
  {
    UpdateRecordsDiff(id, before, after);
  }

  /** Putting the old name back on the renamed book gives the original book. */
  lemma RenameUndone(id: int, before: string, after: string)
    ensures Put(Book(id, after), "name", Str(before)) == Book(id, before)
  {
    assert Put(Book(id, after), "name", Str(before)).vals == Book(id, before).vals;
  }

  /** Transitioning the renamed book to the old side of the rename's record,
      which is what reverting it does, brings the old name back. */
  lemma RevertRestoresName(id: int, before: string, after: string, a: AuditRecord)
    requires before != after
    requires Matches(a, "Book", Num(id))
    requires Some(Payload(a.oldValues, a.newValues))
               == ComputePayload(DefaultConfig, Update, Book(id, after), Book(id, before))
    ensures TransitionTo(BookNamed(id, after), a, Old) == Success(BookNamed(id, before))
  {
    RenameRecordOldSide(id, before, after, a);
    History.TransitionToSingleKey(BookNamed(id, after), a, "name", Str(before));
    RenameUndone(id, before, after);
  }

  /** A movie's record cannot be applied to a book, nor one book's record to
      another book, and a create record has no old side to load. */
  lemma TransitionRejections(a: AuditRecord, id: int, other: int, name: string)
    requires a.auditableType == "Book" && a.auditableId == Num(id) && a.oldValues == None
    requires other != id
    ensures TransitionTo(BookNamed(id, name), a.(auditableType := "Movie"), Old) == Failure(WrongType("Book", "Movie"))
    ensures TransitionTo(BookNamed(other, name), a, Old) == Failure(WrongInstance(Num(other), Num(id)))
    ensures TransitionTo(BookNamed(id, name), a, Old) == Failure(LoadNull(Old))
  {
  }

  /** Applying the new side of a create record made with `id` and `name`
      hidden overwrites the id attribute, and with it the book's id, with the
      marker. */
  lemma MaskedIdReplacesId(id: int, name: string, a: AuditRecord)
    requires a.auditableType == "Book" && a.auditableId == Num(id)
    requires a.newValues == Some(RawObject(["id", "name"], map["id" := Str(MASK), "name" := Str(MASK)]))
    ensures TransitionTo(BookNamed(id, name), a, New).Success?
    ensures TransitionTo(BookNamed(id, name), a, New).value.id == Str(MASK)
  {
    var t := TransitionTo(BookNamed(id, name), a, New);
    assert t.Success?;
    assert t.value.attributes.vals["id"] == Str(MASK);
  }

  /** A record side naming a key the book lacks is refused, naming that key. */
  lemma TransitionRejectsExtraKey(a: AuditRecord, id: int, name: string, extra: Value)
    requires a.auditableType == "Book" && a.auditableId == Num(id)
    requires a.newValues == Some(RawObject(["id", "name", "extra"],
                                           map["id" := Num(id), "name" := Str(name), "extra" := extra]))
    ensures TransitionTo(BookNamed(id, name), a, New) == Failure(IncompatibleAttributes("extra", "Book"))
  {
    var t := TransitionTo(BookNamed(id, name), a, New);
    var i :| IsFirstMissing(a.newValues.value.keys, Book(id, name), i) && a.newValues.value.keys[i] == t.error.key;
    assert i == 2;
  }
}
