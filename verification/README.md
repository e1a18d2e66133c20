# Model history: the revision recorder, diff engine and history context

This project models the core of the CakePHP `model_history` plugin in Dafny.
The plugin keeps an audit trail of changes to tracked entities. Every
create, update, delete or comment on an entity becomes an audit record: a
row of the `model_history` table. Each row holds:

- the entity's model and id (foreign key);
- the action;
- the converted field values (`data`);
- where the change came from (context, context type, context slug);
- the user;
- a per-entity revision number.

The model covers:

- **Recording a change** (`ModelHistoryTable::add`, `addComment`):
  - which configured fields are collected;
  - how save parsers, type transformers and obfuscation convert them;
  - the comment, delete and no-op cases;
  - narrowing to dirty fields;
  - the extra "fan-out" records written for the related row of an
    association field;
  - revision numbering (`getNextRevisionNumberForEntity`,
    `getEntityModel`).
- **The diff of a record** (`buildDiff`, `_translateFieldname`): three
  buckets built against the earlier revisions of the same entity, newest
  first:
  - `changed`: fields this entry records that an earlier revision also
    recorded;
  - `changedBefore`: other configured fields that once held a value
    different from the live one;
  - `unchanged`: fields that never differed from the live value.
  Every bucket key is then translated to its localised name.
- **The display form of stored records** (`_transformDataFields`).
- **The history context of an entity** (`HistoryContextTrait`): a context
  of type shell, controller or slug, set in one validated step and read
  back through three getters.

How the model is built:

- The table is a class whose `records` field stands for the table rows, in
  insertion order.
- Its methods (`Add`, `AddComment`, `BuildDiff`) are proved against pure
  specification functions: `Recorder.AddSpec` and `Diff.RawDiff`.
- Separate lemmas state what those functions promise.
- The collaborators the engine calls through narrow interfaces are
  uninterpreted functions in `FieldConfig.Env`: the transformer registry,
  the inflector and the translation catalogue.

Modules:

| file | module | contents |
|---|---|---|
| wrappers.dfy | Wrappers | `Option`, `Result` |
| values.dfy | Values | PHP values, `isset`, `empty`, text substitution, `strtolower` |
| records.dfy | Records | actions, tracked entities, audit records, the comment validation rule |
| field_config.dfy | FieldConfig | field configuration, collaborators, display dispatch |
| revisions.dfy | Revisions | next revision, entity model name, the numbering invariants |
| recorder.dfy | Recorder | specification of `add` and its properties |
| diff.dfy | Diff | specification of `buildDiff`, translation, display of stored records |
| history_table.dfy | HistoryTable | the table class and its imperative operations |
| history_context.dfy | HistoryContext | the history-context trait as a class |

## Model

| member | source | states |
|---|---|---|
| Values.Get | src/Model/Table/ModelHistoryTable.php:113 | reading a key yields its value, or null when absent; the result is non-null exactly when `isset` holds |
| Values.Lower | src/Model/Table/ModelHistoryTable.php:586 | `strtolower`: same length; ASCII upper-case letters become lower case and every other character is kept |
| Values.Text | src/Model/Entity/HistoryContextTrait.php:86-90 | a string is substituted as itself; null and arrays give ""; false gives "" and true "1"; a number gives decimal digits, led by "-" exactly when negative |
| Records.CommentRule | src/Model/Table/ModelHistoryTable.php:52-66 | a record fails validation exactly when it is a comment whose text is empty in PHP's sense (missing, null, "" or "0"); any other text passes |
| Records.PassesValidation | src/Model/Table/ModelHistoryTable.php:52-66 | every action but comment passes; a comment with the text missing or null fails; a comment with a string text passes exactly when the text is neither "" nor "0" |
| FieldConfig.IndexOf | src/Model/Table/ModelHistoryTable.php:470 | a name is configured exactly when its lookup succeeds; the entry found carries that name and, with distinct names, is the only one |
| FieldConfig.Saveable | src/Model/Table/ModelHistoryTable.php:104-112 | every kept entry carries the saveable flag, and there are no more of them than configured entries |
| FieldConfig.SaveableMembers | src/Model/Table/ModelHistoryTable.php:104-112 | an entry is kept exactly when it is in the configuration and carries the saveable flag |
| FieldConfig.SaveableConcat | src/Model/Table/ModelHistoryTable.php:104-112 | filtering distributes over concatenation, so the saveable entries keep their configured order |
| FieldConfig.SaveableNames | src/Model/Table/ModelHistoryTable.php:104-112 | a name is among the saveable entries exactly when some saveable configured entry declares it |
| FieldConfig.SaveableDistinct | src/Model/Table/ModelHistoryTable.php:104-112 | filtering the saveable entries keeps names distinct |
| FieldConfig.Display | src/Model/Table/ModelHistoryTable.php:233-239 | a display parser, when present, takes priority over the type transformer's display conversion |
| Revisions.MaxRevision | src/Model/Table/ModelHistoryTable.php:275-284 | the highest revision of (model, fk) is absent exactly when no record exists, bounds every record's revision and is reached by one of them |
| Revisions.NextRevision | src/Model/Table/ModelHistoryTable.php:273-291 | the next revision exceeds every stored revision of the entity, is 1 when the entity has no record, and is otherwise one more than a stored revision |
| Revisions.EntityModel | src/Model/Table/ModelHistoryTable.php:299-307 | exactly one trailing "Table" is removed when present; otherwise the source name is kept; the result is always a prefix |
| Revisions.NextRevisionCounts | src/Model/Table/ModelHistoryTable.php:273-291 | under sequential numbering the next revision is the entity's record count plus one |
| Revisions.NoRecordCountsZero | src/Model/Table/ModelHistoryTable.php:286-288 | an entity without records has count zero |
| Revisions.AppendNumbered | src/Model/Table/ModelHistoryTable.php:194-208 | appending a record at its entity's next revision keeps the numbering sequential |
| Revisions.AppendMonotone | src/Model/Table/ModelHistoryTable.php:194-208 | appending a record no older than its entity's stored ones keeps revisions monotone |
| Revisions.AppendPositive | src/Model/Table/ModelHistoryTable.php:194-208 | appending a record with a positive revision keeps every revision positive |
| Revisions.NextRevisionAbove | src/Model/Table/ModelHistoryTable.php:273-291 | a record at its next revision is newer than every stored record of its entity and has a revision of at least 1 |
| Revisions.CountPrefixes | src/Model/Table/ModelHistoryTable.php:273-291 | an entity's record count never decreases along the store, and grows past each of its records |
| Revisions.NumberedIncreasing | src/Model/Table/ModelHistoryTable.php:273-291 | under sequential numbering an entity's revisions strictly increase in storage order |
| Recorder.SourceData | src/Model/Table/ModelHistoryTable.php:79-91 | the working data is the explicit data, or the visible properties when none is given, with every hidden property's value merged over it |
| Recorder.StoredValue | src/Model/Table/ModelHistoryTable.php:113-141 | a collected value is the save parser's result, the raw value (untyped field, or association field with a key), or the type's save conversion; an obfuscated field holds the marker instead |
| Recorder.FanOutRecord | src/Model/Table/ModelHistoryTable.php:121-131 | a fan-out record carries the action, the association field's value as foreign key, only the association key in its data, no context, user or save hash, and a revision above every stored revision of the related row |
| Recorder.CollectStepShape | src/Model/Table/ModelHistoryTable.php:113-141 | one turn fails exactly on a present field whose type the registry lacks; otherwise it adds the field, when set, to the collected keys, leaves the other values alone, and appends one fan-out record exactly for an association field with a key |
| Recorder.CollectFailure | src/Model/Table/ModelHistoryTable.php:112-143 | collection fails exactly when some present field with no save parser has a type the registry does not know |
| Recorder.CollectFailurePrefix | src/Model/Table/ModelHistoryTable.php:112-143 | an unknown type met partway through aborts the whole collection |
| Recorder.CollectSaved | src/Model/Table/ModelHistoryTable.php:112-143 | exactly the listed fields that are set are collected, each holding its stored value |
| Recorder.CollectEntries | src/Model/Table/ModelHistoryTable.php:121-132 | every fan-out record comes from a present association field with a key, and each such field yields one |
| Recorder.CollectFanOuts | src/Model/Table/ModelHistoryTable.php:121-132 | a successful loop collects exactly the fan-out records of the present association fields with a key, in configuration order |
| Recorder.EntriesFromFields | src/Model/Table/ModelHistoryTable.php:121-132 | every collected fan-out record comes from such a field, and there are no more of them than fields |
| Recorder.EntriesCoverFields | src/Model/Table/ModelHistoryTable.php:121-132 | every such field's fan-out record is collected |
| Recorder.FanOutsFromFields | src/Model/Table/ModelHistoryTable.php:121-132 | each fan-out record of the fields comes from a present association field with a key |
| Recorder.FanOutsCoverFields | src/Model/Table/ModelHistoryTable.php:121-132 | each present association field with a key contributes its fan-out record |
| Recorder.FromFanOutFieldGrows | src/Model/Table/ModelHistoryTable.php:112-132 | a fan-out record of some of the fields is a fan-out record of all of them |
| Recorder.CollectedFields | src/Model/Table/ModelHistoryTable.php:112-143 | for every action except comment, the collected keys are exactly the saveable configured fields that are set, and obfuscated ones hold the marker |
| Recorder.Collect | src/Model/Table/ModelHistoryTable.php:107-143 | a comment collects exactly `{comment: text}` and no fan-out record; any other action fails exactly when some saveable configured field that is set has a type the registry lacks |
| Recorder.SaveableEntry | src/Model/Table/ModelHistoryTable.php:104-112 | every saveable entry is an entry of the configuration |
| Recorder.DirtyData | src/Model/Table/ModelHistoryTable.php:155-166 | narrowing keeps exactly the set entries named by a plain dirty-list entry, with their values; nested paths are skipped |
| Recorder.PatchAll | src/Model/Table/ModelHistoryTable.php:181-192 | every fan-out record is patched with the entity's context, type, slug and user, and the list keeps its length |
| Recorder.OwnerRecord | src/Model/Table/ModelHistoryTable.php:194-207 | the owning record carries the entity's id, the action, the data, the user and the entity's context, type and slug, at a revision above every stored revision of the entity |
| Recorder.FinishShape | src/Model/Table/ModelHistoryTable.php:145-210 | nothing collected (and not a delete) is a no-op; otherwise the patched fan-out records are written; without an id the last of them is returned; with an id the owning record, numbered after everything stored including the fan-out, is returned and stored exactly when it passes validation |
| Recorder.AddSpec | src/Model/Table/ModelHistoryTable.php:77-211 | `add` fails exactly when the action is not comment and a saveable field that is set has a type the registry lacks; otherwise its outcome is `Finish` of what was collected |
| Recorder.AddComment | src/Model/Table/ModelHistoryTable.php:107-110 | a comment collects only `{comment: text}` and fans nothing out; it is written only when the entity has an id and the text is not empty |
| Recorder.CommentOutcome | src/Model/Table/ModelHistoryTable.php:256-265 | `addComment` always succeeds; its record carries the text, the entity's model and id and its next revision; it is written exactly when the entity has an id and the text is not empty |
| Recorder.AddNoOp | src/Model/Table/ModelHistoryTable.php:145-153 | with nothing collected and an action other than delete, nothing is written or returned; a delete stores empty data; a configuration error writes nothing |
| Recorder.AddDirty | src/Model/Table/ModelHistoryTable.php:155-166 | an update with a non-empty dirty list stores exactly the collected fields that are set and named by a plain dirty entry, with their collected values |
| Recorder.FanOutFieldShaped | src/Model/Table/ModelHistoryTable.php:124-130 | a fan-out record carries the call's action, no save hash, one data entry and its row's next revision |
| Recorder.CollectShaped | src/Model/Table/ModelHistoryTable.php:107-143 | a comment collects no fan-out records; every other collected fan-out record has that shape |
| Recorder.AddFanOut | src/Model/Table/ModelHistoryTable.php:181-192 | fan-out records have that shape, carry the entity's context and the user, are never comments, and pass validation |
| Recorder.AddOwner | src/Model/Table/ModelHistoryTable.php:194-210 | the owning record is written only for an entity with an id, and then it is what is returned: the entity's model, id, action, user, context and save hash, at the revision that follows the fan-out records; without an id, the last fan-out record is returned |
| Recorder.AddKeepsMonotone | src/Model/Table/ModelHistoryTable.php:181-208 | every call keeps revisions positive and never decreasing along each entity's history |
| Recorder.FanOutKeepsMonotone | src/Model/Table/ModelHistoryTable.php:181-192 | saving the fan-out records keeps revisions positive and monotone |
| Recorder.OutcomeMonotone | src/Model/Table/ModelHistoryTable.php:181-208 | fan-out records followed by the owning record keep revisions positive and monotone |
| Recorder.AddKeepsNumbering | src/Model/Table/ModelHistoryTable.php:181-208 | when the fan-out targets distinct rows, each entity's revisions stay 1, 2, 3, ... in storage order |
| Recorder.OutcomeNumbered | src/Model/Table/ModelHistoryTable.php:181-208 | fan-out records followed by the owning record keep the numbering sequential |
| Recorder.FanOutKeepsNumbering | src/Model/Table/ModelHistoryTable.php:181-192 | fan-out records for distinct rows keep the numbering sequential |
| Recorder.FanOutStep | src/Model/Table/ModelHistoryTable.php:181-192 | a fan-out record behind records of other rows still gets its row's count plus one |
| Recorder.SkipOthers | src/Model/Table/ModelHistoryTable.php:273-291 | records of other entities do not change an entity's count |
| Diff.PreviousRevisions | src/Model/Table/ModelHistoryTable.php:446-453 | the earlier revisions are exactly the stored records of the same model and key with a smaller revision |
| Diff.PreviousRevisionsNewestFirst | src/Model/Table/ModelHistoryTable.php:446-453 | while revisions are monotone, the earlier revisions come newest first |
| Diff.MonotonePrefix | src/Model/Table/ModelHistoryTable.php:446-453 | a prefix of a monotone store is monotone |
| Diff.LastIsNewest | src/Model/Table/ModelHistoryTable.php:446-453 | the entity's last stored record is at least as new as every earlier one |
| Diff.ConsNewestFirst | src/Model/Table/ModelHistoryTable.php:446-453 | putting a record in front of older ones keeps the list newest first |
| Diff.FirstSet | src/Model/Table/ModelHistoryTable.php:467-470 | finds the newest earlier revision that records the field, or reports that none does |
| Diff.FirstDiffering | src/Model/Table/ModelHistoryTable.php:499-510 | finds the newest earlier revision whose recorded value differs from the live one, or reports that none does |
| Diff.ChangedPhaseFails | src/Model/Table/ModelHistoryTable.php:466-494 | phase 1 fails when a field landing in `changed` has no display conversion |
| Diff.ChangedPhaseIs | src/Model/Table/ModelHistoryTable.php:466-494 | a map that agrees key by key with the `changed` entries is phase 1's result |
| Diff.ChangedPhase | src/Model/Table/ModelHistoryTable.php:466-494 | phase 1 fails exactly when one of its fields has no display conversion; otherwise its keys are exactly the entry's configured fields some earlier revision recorded |
| Diff.BeforePhaseFails | src/Model/Table/ModelHistoryTable.php:498-530 | phase 2 fails when a field landing in `changedBefore` has no display conversion |
| Diff.BeforePhaseIs | src/Model/Table/ModelHistoryTable.php:498-530 | a map that agrees key by key with the `changedBefore` entries is phase 2's result |
| Diff.BeforePhase | src/Model/Table/ModelHistoryTable.php:498-530 | phase 2 fails exactly when one of its fields has no display conversion; otherwise its keys are exactly the remaining configured fields some earlier revision recorded with a value other than the live one |
| Diff.UnchangedPhaseFails | src/Model/Table/ModelHistoryTable.php:532-557 | phase 3 fails when a field landing in `unchanged` has no display conversion |
| Diff.UnchangedPhaseIs | src/Model/Table/ModelHistoryTable.php:532-557 | a map that agrees key by key with the `unchanged` entries is phase 3's result |
| Diff.UnchangedPhase | src/Model/Table/ModelHistoryTable.php:532-557 | phase 3 fails exactly when one of its fields has no display conversion; otherwise its keys are exactly the remaining configured fields some earlier revision recorded |
| Diff.BucketKeys | src/Model/Table/ModelHistoryTable.php:466-557 | only configured fields reach a bucket |
| Diff.RawDiff | src/Model/Table/ModelHistoryTable.php:440-557 | revision 1 gives the empty diff, and only revision 1 does; otherwise the diff fails exactly when some field reaching a bucket has no display conversion |
| Diff.DiffChanged | src/Model/Table/ModelHistoryTable.php:466-494 | `changed` holds exactly the entry's configured fields recorded by an earlier revision: old value from the newest such revision, new value from the entry, both in display form |
| Diff.DiffChangedBefore | src/Model/Table/ModelHistoryTable.php:498-530 | `changedBefore` holds exactly the configured fields outside `changed` that an earlier revision recorded with a value other than the live one: old value from the newest such revision, new value the live one |
| Diff.DiffUnchanged | src/Model/Table/ModelHistoryTable.php:532-557 | `unchanged` holds exactly the remaining configured fields an earlier revision records; every recorded value equals the live value, which is shown |
| Diff.DiffPartition | src/Model/Table/ModelHistoryTable.php:466-557 | each configured field recorded by an earlier revision is in exactly one bucket, and no other field is in any |
| Diff.LocaleSlug | src/Model/Table/ModelHistoryTable.php:586 | the catalogue key ends in a dot followed by the lower-cased field name |
| Diff.TranslateFieldname | src/Model/Table/ModelHistoryTable.php:583-595 | the field name is returned when the catalogue has no translation for its key; otherwise the translation is |
| Diff.RenamingIdentity | src/Model/Table/ModelHistoryTable.php:559-571 | when every name translates to itself, renaming a bucket changes nothing |
| Diff.RenamingKeepsValues | src/Model/Table/ModelHistoryTable.php:559-571 | renaming never invents values and never grows a bucket |
| Diff.LabelsBound | src/Model/Table/ModelHistoryTable.php:559-571 | a bucket has no more translated names than keys |
| Diff.UntranslatedDiff | src/Model/Table/ModelHistoryTable.php:559-571 | with an empty catalogue the translated diff equals the raw diff |
| Diff.DisplayData | src/Model/Table/ModelHistoryTable.php:228-242 | a record's display form keeps its keys; searchable configured fields go through the display parser (with the record as subject) or the type transformer, and every other field is kept; it fails exactly when a searchable field has no display conversion |
| Diff.Displayed | src/Model/Table/ModelHistoryTable.php:242 | only the record's data is replaced, and its keys are kept |
| Diff.DisplayDataFails | src/Model/Table/ModelHistoryTable.php:239-240 | a searchable field without a display conversion makes the conversion fail |
| Diff.DisplayDataIs | src/Model/Table/ModelHistoryTable.php:228-242 | a map that agrees key by key with the display form is that form |
| HistoryTable.ModelHistoryTable.constructor | src/Model/Table/ModelHistoryTable.php:77 | the table starts empty and valid |
| HistoryTable.ModelHistoryTable.Save | src/Model/Table/ModelHistoryTable.php:190 | a record is appended exactly when it passes validation |
| HistoryTable.ModelHistoryTable.Add | src/Model/Table/ModelHistoryTable.php:77-211 | returns and appends what `AddSpec` prescribes; keeps revisions positive and monotone; keeps sequential numbering when the fan-out targets distinct rows |
| HistoryTable.ModelHistoryTable.AddComment | src/Model/Table/ModelHistoryTable.php:256-265 | an entity without id writes nothing and returns None; otherwise returns the comment record for the entity at its next revision, appended exactly when the text is not empty |
| HistoryTable.ModelHistoryTable.CollectFor | src/Model/Table/ModelHistoryTable.php:107-143 | the collected fields and fan-out records equal `Collect` |
| HistoryTable.ModelHistoryTable.Store | src/Model/Table/ModelHistoryTable.php:145-210 | returns and appends what `Finish` prescribes |
| HistoryTable.ModelHistoryTable.BuildDiff | src/Model/Table/ModelHistoryTable.php:440-574 | on a store whose revisions never decrease per entity, the earlier revisions it scans come newest first; fails exactly when `RawDiff` over this table's earlier revisions fails; otherwise returns that diff with every bucket's keys translated, renamed exactly when translations do not collide |
| HistoryTable.ModelHistoryTable.SaveAll | src/Model/Table/ModelHistoryTable.php:181-192 | appends every fan-out record in order and returns the last one |
| HistoryTable.CollectSaveFields | src/Model/Table/ModelHistoryTable.php:112-143 | the loop over saveable fields computes `CollectFields` |
| HistoryTable.CollectField | src/Model/Table/ModelHistoryTable.php:113-141 | one turn of the loop computes `CollectStep` and updates the working data to match |
| HistoryTable.FilterDirty | src/Model/Table/ModelHistoryTable.php:155-166 | the narrowing loop computes `DirtyData` |
| HistoryTable.ScanSet | src/Model/Table/ModelHistoryTable.php:467-470 | the scan stops at `FirstSet`, or runs off the end when no revision records the field |
| HistoryTable.ScanBefore | src/Model/Table/ModelHistoryTable.php:499-510 | the phase-2 scan stops at `FirstSet` for a field already in `changed`, and at `FirstDiffering` otherwise |
| HistoryTable.ChangedLoop | src/Model/Table/ModelHistoryTable.php:466-494 | the phase-1 loop computes `ChangedPhase` |
| HistoryTable.BeforeLoop | src/Model/Table/ModelHistoryTable.php:498-530 | the phase-2 loop computes `BeforePhase` |
| HistoryTable.UnchangedLoop | src/Model/Table/ModelHistoryTable.php:532-557 | the phase-3 loop computes `UnchangedPhase` |
| HistoryTable.RenameStep | src/Model/Table/ModelHistoryTable.php:562-567 | one rename step keeps every entry either untouched or moved to its translation |
| HistoryTable.ExactStep | src/Model/Table/ModelHistoryTable.php:562-567 | with collision-free translations, one rename step keeps the renamed part exact |
| HistoryTable.ExactStepKeys | src/Model/Table/ModelHistoryTable.php:562-567 | after one collision-free rename step the keys are those still to do plus the labels of those done |
| HistoryTable.ExactStepValues | src/Model/Table/ModelHistoryTable.php:562-567 | after one collision-free rename step the keys still to do keep their values and the keys done sit under their labels with their values |
| HistoryTable.RenameKeys | src/Model/Table/ModelHistoryTable.php:559-571 | renaming a bucket in any order is a renaming (every entry comes from a key under its translation; untranslated keys stay); it is exact when translations do not collide |
| HistoryTable.TransformRecordData | src/Model/Table/ModelHistoryTable.php:229-240 | the loop over one record's fields computes `DisplayData` |
| HistoryTable.TransformDataFields | src/Model/Table/ModelHistoryTable.php:220-246 | records before the first failure are replaced by their display form, in place; the failing record and every later one are left as they were; the index of the failing record is returned |
| HistoryContext.ShellContext | src/Model/Entity/HistoryContextTrait.php:59-69 | a shell context records exactly the nine shell properties, each under its own name with the shell's value |
| HistoryContext.RequestContext | src/Model/Entity/HistoryContextTrait.php:79-82 | a controller context records exactly two keys: `params` holding the request parameters and `method` holding the request method |
| HistoryContext.DefaultSlug | src/Model/Entity/HistoryContextTrait.php:86-90 | the default slug is the plugin, controller and action texts joined by "/", in that order |
| HistoryContext.BaseContext | src/Model/Entity/HistoryContextTrait.php:103-106 | the base context holds exactly `type` (the context type) and `namespace` (the class name) |
| HistoryContext.ResolveContext | src/Model/Entity/HistoryContextTrait.php:48-109 | a type that is not allowed is rejected; shell needs a shell object, controller needs a request, any other type needs a slug; on success the context holds type and namespace plus the type's own keys with their values (every shell property; the request parameters and method), and the slug is the given one (for controller, the default `plugin/controller/action` slug when none is given) |
| HistoryContext.HistoryContext.constructor | src/Model/Entity/HistoryContextTrait.php:23-37 | all three fields start null |
| HistoryContext.HistoryContext.SetHistoryContext | src/Model/Entity/HistoryContextTrait.php:48-109 | on error nothing changes and the error is reported; on success the three getters return the resolved context, slug and type |
| HistoryContext.HistoryContext.GetHistoryContext | src/Model/Entity/HistoryContextTrait.php:116-119 | returns the stored context |
| HistoryContext.HistoryContext.GetHistoryContextSlug | src/Model/Entity/HistoryContextTrait.php:126-129 | returns the stored slug |
| HistoryContext.HistoryContext.GetHistoryContextType | src/Model/Entity/HistoryContextTrait.php:136-139 | returns the stored type |

## Left out

- Database access is not modelled: queries, ordering by the database, the
  ORM's entity building and patching, and `TableRegistry` lookups. The
  table's rows are a sequence in insertion order.
- HistoryTable.ModelHistoryTable.BuildDiff: the query orders the earlier
  revisions by revision, highest first. The model scans them in reverse
  storage order instead, and `BuildDiff` requires a store whose revisions
  never decrease per entity in storage order, where both orders agree.
  `Add` keeps that (`Recorder.AddKeepsMonotone`). A store made by saving
  out-of-order rows directly with `Save` is outside the model. Rows with
  equal revisions keep reverse insertion order; the database leaves that
  order unspecified.
- The live entity for `buildDiff` is a parameter. It stands for both the
  entity `getEntityWithHistory` loads (the display parsers' subject) and
  the plain fetch whose values phases 2 and 3 compare against; the model
  assumes both carry the same values. `getEntityWithHistory` and the other query helpers are not
  part of this model.
- The fan-out record's related row is not fetched. Its id is taken to be
  the association field's value, and its table name comes from the
  inflector collaborator. When no such row exists, the source's fetch
  throws a record-not-found exception and `add` stops; the model writes
  the fan-out record anyway.
- The `ModelHistory` entity class is not part of this model. The context
  type constants are taken as "shell", "controller" and "slug", and the
  allowed context types are a constructor parameter.
- The `PHPUNIT_TESTSUITE` branches only rename test tables. They are left
  out.
- The transformer classes and their internal cache are left out. Their
  save and display conversions are opaque functions, and an unknown type
  is a `ConfigurationError`.
- Concurrency is left out. Two `add` calls racing for the same revision
  number cannot happen in the sequential model.
- `Hash::merge` is modelled as a shallow merge where the right side wins.
  In `setHistoryContext` the two sides never share a key, so nothing is
  lost there. In `add`, explicit data and a hidden property can share a
  key whose two values are both arrays. The source then merges them
  recursively; the model keeps only the hidden property's value.
- Map key order is not kept. Dafny maps are unordered, so bucket order and
  data key order are not modelled.
- HistoryTable.RenameKeys: with colliding translations the order of the
  foreach decides which entry survives. The contract states only what
  holds for every order.
- Loose comparison (`!=` on values, `==` in `switch`) is modelled as
  structural equality. PHP's numeric-string equalities are left out.
- Recorder.AddKeepsNumbering: sequential numbering is proved only when one
  call's fan-out records target distinct rows. All fan-out revisions are
  read before any fan-out record is saved, so two association fields that
  resolve to the same row get the same revision.
- Association fields with an association key keep their raw value in the
  owning record's data. Fan-out records carry no save hash. Both follow
  the code.
- For an entity without an id, `addComment` writes nothing and fails its
  declared return type with a `TypeError`. `AddComment` returns None in
  that case.
- Notices for undefined array keys are left out. A missing key reads as
  null, as PHP does after the notice.
- The framework's validation beyond the comment rule is left out (for
  example, schema types).
