/**
 * The revision recorder (`ModelHistoryTable::add`) as a specification over
 * values: which fields are collected and how they are converted, the
 * comment and delete special cases, the no-op rule, dirty-field narrowing
 * and the fan-out records written for association fields.
 */
module Recorder {
  import opened Wrappers
  import opened Values
  import opened Records
  import opened FieldConfig
  import opened Revisions

  /** What an obfuscated field is stored as. */
  const ObfuscationMarker: string := "****************"

  /** The transformer registry was asked for a type it does not know. */
  datatype Error = ConfigurationError

  /** An entry of the dirty-field list: a field name, or a nested path (skipped). */
  datatype DirtyField = Field(name: string) | Nested(path: seq<string>)

  /** The `$options` of `add`: an optional dirty-field list and optional explicit data. */
  datatype AddOptions = AddOptions(dirtyFields: Option<seq<DirtyField>>, data: Option<map<string, Value>>)

  /** `$saveFields` and `$entries` after the loop over the saveable fields. */
  datatype Collected = Collected(saveFields: map<string, Value>, entries: seq<AuditRecord>)

  /**
   * What one `add` call writes and returns: the fan-out records (all
   * stored), the owning record if it was stored, and the record returned.
   */
  datatype AddOutcome = AddOutcome(fanOut: seq<AuditRecord>, owner: Option<AuditRecord>, returned: Option<AuditRecord>)

  /** `$entity->toArray()`: the visible properties. */
  function ToArray(entity: Entity): map<string, Value>
  {
    map k | k in entity.fields && k !in entity.hidden :: entity.fields[k]
  }

  /** `!$options['data']`: no explicit data, or an empty array. */
  predicate NoExplicitData(options: AddOptions)
  {
    options.data.None? || options.data.value == map[]
  }

  /**
   * The data `add` works from: the explicit data when given, else the
   * visible properties, merged with every hidden property's value.
   */
  function SourceData(entity: Entity, options: AddOptions): (d: map<string, Value>)
    ensures forall h :: h in entity.hidden ==> h in d && d[h] == Get(entity.fields, h)
    ensures NoExplicitData(options) ==>
      forall k :: k !in entity.hidden ==> (k in d <==> k in entity.fields) && (k in d ==> d[k] == entity.fields[k])
    ensures !NoExplicitData(options) ==>
      forall k :: k !in entity.hidden ==> (k in d <==> k in options.data.value) && (k in d ==> d[k] == options.data.value[k])
  {
    var base := if NoExplicitData(options) then ToArray(entity) else options.data.value;
    base + map h | h in entity.hidden :: Get(entity.fields, h)
  }

  /** Collecting the field would ask the registry for an unknown type. */
  predicate NeedsUnknownTransform(spec: FieldSpec, data: map<string, Value>, env: Env)
  {
    IsSet(data, spec.name) && spec.saveParser.None? && spec.typ.Some? && spec.typ.value !in env.transformTypes
  }

  /** A present association field with an association key: it yields a fan-out record. */
  predicate IsFanOut(spec: FieldSpec, data: map<string, Value>)
  {
    IsSet(data, spec.name) && spec.saveParser.None? && spec.typ == Some(AssociationType) && spec.associationKey.Some?
  }

  /**
   * The value collected for a present field: the save parser's result, the
   * value itself (no type, or an association field with a key), or the
   * type's save conversion; an obfuscated field gets the marker instead,
   * whatever the conversion gave.
   */
  function StoredValue(spec: FieldSpec, v: Value, entity: Entity, env: Env): (r: Value)
    requires !(spec.saveParser.None? && spec.typ.Some? && spec.typ.value !in env.transformTypes)
    ensures spec.obfuscated ==> r == Str(ObfuscationMarker)
    ensures !spec.obfuscated && spec.saveParser.Some? ==> r == spec.saveParser.value(spec.name, v, entity)
    ensures !spec.obfuscated && spec.saveParser.None? && spec.typ.None? ==> r == v
    ensures !spec.obfuscated && spec.saveParser.None? && spec.typ == Some(AssociationType) && spec.associationKey.Some? ==> r == v
    ensures !spec.obfuscated && spec.saveParser.None? && spec.typ.Some? && !(spec.typ.value == AssociationType && spec.associationKey.Some?) ==>
      r == env.save(spec.typ.value, spec.name, spec, entity)
  {
    var converted :=
      if spec.saveParser.Some? then spec.saveParser.value(spec.name, v, entity)
      else if spec.typ.None? then v
      else if spec.typ.value == AssociationType && spec.associationKey.Some? then v
      else env.save(spec.typ.value, spec.name, spec, entity);
    if spec.obfuscated then Str(ObfuscationMarker) else converted
  }

  /**
   * The record written for the related row of an association field: model
   * and id of the related row, `{associationKey: converted value}` as data,
   * and the related row's own next revision read from the store as it was
   * before the call.
   */
  function FanOutRecord(spec: FieldSpec, entity: Entity, action: Action, records: seq<AuditRecord>, env: Env): (e: AuditRecord)
    requires spec.typ.Some? && spec.associationKey.Some?
    ensures e.action == action && e.foreignKey == Get(entity.fields, spec.name)
    ensures e.data.Keys == {spec.associationKey.value}
    ensures e.context.None? && e.contextType.None? && e.contextSlug.None? && e.userId.None? && e.saveHash == Null
    ensures forall i :: 0 <= i < |records| && SameEntity(records[i], e) ==> records[i].revision < e.revision
  {
    var model := EntityModel(env.associationTable(spec.name));
    var fk := Get(entity.fields, spec.name);
    AuditRecord(model, fk, action,
      map[spec.associationKey.value := env.save(spec.typ.value, spec.name, spec, entity)],
      None, None, None, Null, None, NextRevision(records, model, fk))
  }

  /** One turn of the loop over the saveable fields. */
  function CollectStep(acc: Collected, spec: FieldSpec, data: map<string, Value>, entity: Entity,
                       action: Action, records: seq<AuditRecord>, env: Env): Result<Collected, Error>
  {
    if !IsSet(data, spec.name) then Success(acc)
    else if NeedsUnknownTransform(spec, data, env) then Failure(ConfigurationError)
    else
      var entries := if IsFanOut(spec, data) then acc.entries + [FanOutRecord(spec, entity, action, records, env)] else acc.entries;
      Success(Collected(acc.saveFields[spec.name := StoredValue(spec, data[spec.name], entity, env)], entries))
  }

  /**
   * A turn fails exactly on a present field whose type the registry lacks;
   * otherwise it adds that field, when set, to the collected fields and at
   * most one fan-out record to the entries, keeping everything before.
   */
  lemma CollectStepShape(acc: Collected, spec: FieldSpec, data: map<string, Value>, entity: Entity,
                         action: Action, records: seq<AuditRecord>, env: Env)
    ensures var r := CollectStep(acc, spec, data, entity, action, records, env);
      && (r.Failure? <==> NeedsUnknownTransform(spec, data, env))
      && (r.Success? ==>
            && r.value.saveFields.Keys == acc.saveFields.Keys + (if IsSet(data, spec.name) then {spec.name} else {})
            && (forall k :: k in acc.saveFields && k != spec.name ==> r.value.saveFields[k] == acc.saveFields[k])
            && |r.value.entries| == |acc.entries| + (if IsFanOut(spec, data) then 1 else 0)
            && r.value.entries[..|acc.entries|] == acc.entries)
  {
  }

  /** The loop over the saveable fields, in configuration order; an unknown type aborts it. */
  function CollectFields(fields: seq<FieldSpec>, data: map<string, Value>, entity: Entity,
                         action: Action, records: seq<AuditRecord>, env: Env): Result<Collected, Error>
    decreases |fields|
  {
    if fields == [] then Success(Collected(map[], []))
    else match CollectFields(fields[..|fields| - 1], data, entity, action, records, env)
      case Failure(e) => Failure(e)
      case Success(acc) => CollectStep(acc, fields[|fields| - 1], data, entity, action, records, env)
  }

  /** Collection fails exactly when some present field needs an unknown transformer. */
  lemma {:induction false} CollectFailure(fields: seq<FieldSpec>, data: map<string, Value>, entity: Entity,
                                          action: Action, records: seq<AuditRecord>, env: Env)
    ensures CollectFields(fields, data, entity, action, records, env).Failure? <==>
      exists j :: 0 <= j < |fields| && NeedsUnknownTransform(fields[j], data, env)
    decreases |fields|
  {
    if fields != [] {
      var n := |fields| - 1;
      var init := fields[..n];
      CollectFailure(init, data, entity, action, records, env);
      if j :| 0 <= j < |init| && NeedsUnknownTransform(init[j], data, env) {
        assert NeedsUnknownTransform(fields[j], data, env);
      }
      if j :| 0 <= j < |fields| && NeedsUnknownTransform(fields[j], data, env) {
        if j < n { assert NeedsUnknownTransform(init[j], data, env); }
      }
    }
  }

  /** A failure on a prefix of the fields is a failure of the whole loop. */
  lemma CollectFailurePrefix(fields: seq<FieldSpec>, k: nat, data: map<string, Value>, entity: Entity,
                             action: Action, records: seq<AuditRecord>, env: Env)
    requires k <= |fields|
    requires CollectFields(fields[..k], data, entity, action, records, env).Failure?
    ensures CollectFields(fields, data, entity, action, records, env).Failure?
  {
    CollectFailure(fields[..k], data, entity, action, records, env);
    CollectFailure(fields, data, entity, action, records, env);
    var j :| 0 <= j < k && NeedsUnknownTransform(fields[..k][j], data, env);
    assert NeedsUnknownTransform(fields[j], data, env);
  }

  /**
   * Collection keeps exactly the listed fields that are set, each with its
   * stored value.
   */
  lemma {:induction false} CollectSaved(fields: seq<FieldSpec>, data: map<string, Value>, entity: Entity,
                                        action: Action, records: seq<AuditRecord>, env: Env)
    requires DistinctNames(fields)
    requires CollectFields(fields, data, entity, action, records, env).Success?
    ensures var c := CollectFields(fields, data, entity, action, records, env).value;
      && (forall k :: k in c.saveFields <==> k in Names(fields) && IsSet(data, k))
      && (forall j :: 0 <= j < |fields| && IsSet(data, fields[j].name) ==>
            !NeedsUnknownTransform(fields[j], data, env) &&
            c.saveFields[fields[j].name] == StoredValue(fields[j], data[fields[j].name], entity, env))
    decreases |fields|
  {
    CollectFailure(fields, data, entity, action, records, env);
    if fields != [] {
      var n := |fields| - 1;
      var init := fields[..n];
      assert DistinctNames(init);
      CollectSaved(init, data, entity, action, records, env);
      assert Names(fields) == Names(init) + {fields[n].name} by {
        forall k | k in Names(fields) ensures k in Names(init) + {fields[n].name} {
          var j :| 0 <= j < |fields| && fields[j].name == k;
          if j < n { assert init[j].name == k; }
        }
        forall k | k in Names(init) ensures k in Names(fields) {
          var j :| 0 <= j < |init| && init[j].name == k;
          assert fields[j].name == k;
        }
      }
      var c := CollectFields(fields, data, entity, action, records, env).value;
      forall j | 0 <= j < |fields| && IsSet(data, fields[j].name)
        ensures c.saveFields[fields[j].name] == StoredValue(fields[j], data[fields[j].name], entity, env)
      {
        if j < n { assert init[j] == fields[j]; }
      }
    }
  }

  /**
   * Every collected fan-out record belongs to a present association field
   * with a key, and every such field yields one.
   */
  lemma CollectEntries(fields: seq<FieldSpec>, data: map<string, Value>, entity: Entity,
                       action: Action, records: seq<AuditRecord>, env: Env)
    requires CollectFields(fields, data, entity, action, records, env).Success?
    ensures var c := CollectFields(fields, data, entity, action, records, env).value;
      && (forall i :: 0 <= i < |c.entries| ==> FromFanOutField(c.entries[i], fields, data, entity, action, records, env))
      && (forall j :: 0 <= j < |fields| && IsFanOut(fields[j], data) ==>
            FanOutRecord(fields[j], entity, action, records, env) in c.entries)
      && |c.entries| <= |fields|
  {
    EntriesFromFields(fields, data, entity, action, records, env);
    EntriesCoverFields(fields, data, entity, action, records, env);
  }

  /** The fan-out records of the fields, in configuration order. */
  function FanOuts(fields: seq<FieldSpec>, data: map<string, Value>, entity: Entity,
                   action: Action, records: seq<AuditRecord>, env: Env): seq<AuditRecord>
    decreases |fields|
  {
    if fields == [] then []
    else
      var n := |fields| - 1;
      FanOuts(fields[..n], data, entity, action, records, env) +
        (if IsFanOut(fields[n], data) then [FanOutRecord(fields[n], entity, action, records, env)] else [])
  }

  /** A successful loop collects exactly the fan-out records of the fields. */
  lemma {:induction false} CollectFanOuts(fields: seq<FieldSpec>, data: map<string, Value>, entity: Entity,
                                          action: Action, records: seq<AuditRecord>, env: Env)
    requires CollectFields(fields, data, entity, action, records, env).Success?
    ensures CollectFields(fields, data, entity, action, records, env).value.entries ==
      FanOuts(fields, data, entity, action, records, env)
    decreases |fields|
  {
    if fields != [] {
      CollectFanOuts(fields[..|fields| - 1], data, entity, action, records, env);
    }
  }

  lemma EntriesFromFields(fields: seq<FieldSpec>, data: map<string, Value>, entity: Entity,
                          action: Action, records: seq<AuditRecord>, env: Env)
    requires CollectFields(fields, data, entity, action, records, env).Success?
    ensures var c := CollectFields(fields, data, entity, action, records, env).value;
      && (forall i :: 0 <= i < |c.entries| ==> FromFanOutField(c.entries[i], fields, data, entity, action, records, env))
      && |c.entries| <= |fields|
  {
    CollectFanOuts(fields, data, entity, action, records, env);
    FanOutsFromFields(fields, data, entity, action, records, env);
  }

  lemma EntriesCoverFields(fields: seq<FieldSpec>, data: map<string, Value>, entity: Entity,
                           action: Action, records: seq<AuditRecord>, env: Env)
    requires CollectFields(fields, data, entity, action, records, env).Success?
    ensures var c := CollectFields(fields, data, entity, action, records, env).value;
      forall j :: 0 <= j < |fields| && IsFanOut(fields[j], data) ==>
        FanOutRecord(fields[j], entity, action, records, env) in c.entries
  {
    CollectFanOuts(fields, data, entity, action, records, env);
    FanOutsCoverFields(fields, data, entity, action, records, env);
  }

  lemma {:induction false} FanOutsFromFields(fields: seq<FieldSpec>, data: map<string, Value>, entity: Entity,
                                             action: Action, records: seq<AuditRecord>, env: Env)
    ensures var es := FanOuts(fields, data, entity, action, records, env);
      && (forall i :: 0 <= i < |es| ==> FromFanOutField(es[i], fields, data, entity, action, records, env))
      && |es| <= |fields|
    decreases |fields|
  {
    if fields != [] {
      var n := |fields| - 1;
      var init := fields[..n];
      FanOutsFromFields(init, data, entity, action, records, env);
      var e0 := FanOuts(init, data, entity, action, records, env);
      var es := FanOuts(fields, data, entity, action, records, env);
      var tail := if IsFanOut(fields[n], data) then [FanOutRecord(fields[n], entity, action, records, env)] else [];
      assert es == e0 + tail;
      forall i | 0 <= i < |es| ensures FromFanOutField(es[i], fields, data, entity, action, records, env) {
        if i < |e0| {
          assert es[i] == e0[i];
          FromFanOutFieldGrows(e0[i], fields, n, data, entity, action, records, env);
        } else {
          assert IsFanOut(fields[n], data) && es[i] == FanOutRecord(fields[n], entity, action, records, env);
        }
      }
    }
  }

  /** A fan-out record of some of the fields is one of all of them. */
  lemma FromFanOutFieldGrows(e: AuditRecord, fields: seq<FieldSpec>, n: nat, data: map<string, Value>, entity: Entity,
                             action: Action, records: seq<AuditRecord>, env: Env)
    requires n <= |fields|
    requires FromFanOutField(e, fields[..n], data, entity, action, records, env)
    ensures FromFanOutField(e, fields, data, entity, action, records, env)
  {
    var j :| 0 <= j < n && IsFanOut(fields[..n][j], data) && e == FanOutRecord(fields[..n][j], entity, action, records, env);
    assert fields[j] == fields[..n][j];
  }

  lemma {:induction false} FanOutsCoverFields(fields: seq<FieldSpec>, data: map<string, Value>, entity: Entity,
                                              action: Action, records: seq<AuditRecord>, env: Env)
    ensures forall j :: 0 <= j < |fields| && IsFanOut(fields[j], data) ==>
      FanOutRecord(fields[j], entity, action, records, env) in FanOuts(fields, data, entity, action, records, env)
    decreases |fields|
  {
    if fields != [] {
      var n := |fields| - 1;
      var init := fields[..n];
      FanOutsCoverFields(init, data, entity, action, records, env);
      var e0 := FanOuts(init, data, entity, action, records, env);
      var es := FanOuts(fields, data, entity, action, records, env);
      forall j | 0 <= j < |fields| && IsFanOut(fields[j], data)
        ensures FanOutRecord(fields[j], entity, action, records, env) in es
      {
        if j < n {
          assert init[j] == fields[j];
        }
      }
    }
  }

  /** The record is the fan-out record of some present association field with a key. */
  predicate FromFanOutField(e: AuditRecord, fields: seq<FieldSpec>, data: map<string, Value>, entity: Entity,
                            action: Action, records: seq<AuditRecord>, env: Env)
  {
    exists j :: 0 <= j < |fields| && IsFanOut(fields[j], data) && e == FanOutRecord(fields[j], entity, action, records, env)
  }

  /** The comment case and the loop over saveable fields. */
  function Collect(action: Action, fields: seq<FieldSpec>, data: map<string, Value>, entity: Entity,
                   records: seq<AuditRecord>, env: Env): (r: Result<Collected, Error>)
    ensures action == Comment ==>
      && r.Success? && r.value.entries == []
      && r.value.saveFields.Keys == {"comment"} && r.value.saveFields["comment"] == Get(data, "comment")
    ensures action != Comment ==>
      (r.Failure? <==> exists j :: 0 <= j < |fields| && fields[j].saveable && NeedsUnknownTransform(fields[j], data, env))
  {
    if action == Comment then Success(Collected(map["comment" := Get(data, "comment")], []))
    else
      CollectFailure(Saveable(fields), data, entity, action, records, env);
      SaveableUnknown(fields, data, env);
      CollectFields(Saveable(fields), data, entity, action, records, env)
  }

  /** Some saveable entry needs an unknown transformer exactly when some saveable configured field does. */
  lemma SaveableUnknown(fields: seq<FieldSpec>, data: map<string, Value>, env: Env)
    ensures (exists j :: 0 <= j < |Saveable(fields)| && NeedsUnknownTransform(Saveable(fields)[j], data, env)) <==>
      (exists j :: 0 <= j < |fields| && fields[j].saveable && NeedsUnknownTransform(fields[j], data, env))
  {
    var s := Saveable(fields);
    SaveableMembers(fields);
    forall j | 0 <= j < |s| && NeedsUnknownTransform(s[j], data, env)
      ensures exists k :: 0 <= k < |fields| && fields[k].saveable && NeedsUnknownTransform(fields[k], data, env)
    {
      assert s[j] in s;
      var k :| 0 <= k < |fields| && fields[k] == s[j];
      assert fields[k].saveable && NeedsUnknownTransform(fields[k], data, env);
    }
    forall j | 0 <= j < |fields| && fields[j].saveable && NeedsUnknownTransform(fields[j], data, env)
      ensures exists k :: 0 <= k < |s| && NeedsUnknownTransform(s[k], data, env)
    {
      assert fields[j] in s;
      var k :| 0 <= k < |s| && s[k] == fields[j];
      assert NeedsUnknownTransform(s[k], data, env);
    }
  }

  /**
   * For every action but comment, exactly the saveable configured fields
   * whose value is set are collected; an obfuscated one holds the marker.
   */
  lemma CollectedFields(action: Action, fields: seq<FieldSpec>, data: map<string, Value>, entity: Entity,
                        records: seq<AuditRecord>, env: Env)
    requires DistinctNames(fields)
    requires action != Comment
    requires Collect(action, fields, data, entity, records, env).Success?
    ensures var c := Collect(action, fields, data, entity, records, env).value;
      && (forall k :: k in c.saveFields <==>
            (exists j :: 0 <= j < |fields| && fields[j].saveable && fields[j].name == k) && IsSet(data, k))
      && (forall j :: 0 <= j < |fields| && fields[j].saveable && fields[j].obfuscated && IsSet(data, fields[j].name) ==>
            c.saveFields[fields[j].name] == Str(ObfuscationMarker))
  {
    var s := Saveable(fields);
    SaveableDistinct(fields);
    CollectSaved(s, data, entity, action, records, env);
    var c := Collect(action, fields, data, entity, records, env).value;
    forall k ensures k in c.saveFields <==>
            (exists j :: 0 <= j < |fields| && fields[j].saveable && fields[j].name == k) && IsSet(data, k)
    {
      SaveableNames(fields, k);
    }
    forall j | 0 <= j < |fields| && fields[j].saveable && fields[j].obfuscated && IsSet(data, fields[j].name)
      ensures c.saveFields[fields[j].name] == Str(ObfuscationMarker)
    {
      SaveableNames(fields, fields[j].name);
      var i :| 0 <= i < |s| && s[i].name == fields[j].name;
      assert s[i].obfuscated by {
        // with distinct names the saveable entry for this name is fields[j] itself
        SaveableEntry(fields, i);
      }
    }
  }

  /** Each saveable entry is an entry of the configuration, so distinct names identify it. */
  lemma {:induction false} SaveableEntry(fields: seq<FieldSpec>, i: nat)
    requires i < |Saveable(fields)|
    ensures exists j :: 0 <= j < |fields| && Saveable(fields)[i] == fields[j]
    decreases |fields|
  {
    if fields[0].saveable && i == 0 {
      assert Saveable(fields)[0] == fields[0];
    } else {
      var k := if fields[0].saveable then i - 1 else i;
      SaveableEntry(fields[1..], k);
      var j :| 0 <= j < |fields[1..]| && Saveable(fields[1..])[k] == fields[1..][j];
      assert Saveable(fields)[i] == fields[j + 1];
    }
  }

  /** The dirty-field list narrows the data: only for updates, and only when the list is non-empty. */
  predicate NarrowsToDirty(action: Action, dirty: Option<seq<DirtyField>>)
  {
    action == Update && dirty.Some? && dirty.value != []
  }

  /**
   * The data narrowed to the dirty fields: the set entries named by a plain
   * (non-array) entry of the dirty list.
   */
  function DirtyData(data: map<string, Value>, dirty: seq<DirtyField>): (r: map<string, Value>)
    ensures r.Keys <= data.Keys
    ensures forall k :: k in r <==> IsSet(data, k) && Field(k) in dirty
    ensures forall k :: k in r ==> r[k] == data[k]
  {
    map k | k in data && IsSet(data, k) && Field(k) in dirty :: data[k]
  }

  /** The data stored in the owning record: empty for a delete, narrowed for a dirty update. */
  function OwnerData(action: Action, saveFields: map<string, Value>, dirty: Option<seq<DirtyField>>): map<string, Value>
  {
    var d := if action == Delete then map[] else saveFields;
    if NarrowsToDirty(action, dirty) then DirtyData(d, dirty.value) else d
  }

  /** The fields `add` patches into a fan-out record before saving it. */
  function Patch(e: AuditRecord, entity: Entity, userId: Option<string>): AuditRecord
  {
    e.(context := entity.context, contextType := entity.contextType, contextSlug := entity.contextSlug, userId := userId)
  }

  function PatchAll(es: seq<AuditRecord>, entity: Entity, userId: Option<string>): (r: seq<AuditRecord>)
    ensures |r| == |es|
    ensures forall i :: 0 <= i < |es| ==> r[i] == Patch(es[i], entity, userId)
  {
    seq(|es|, i requires 0 <= i < |es| => Patch(es[i], entity, userId))
  }

  /** The owning record of the entity, with the revision that follows `records`. */
  function OwnerRecord(records: seq<AuditRecord>, entity: Entity, action: Action, userId: Option<string>,
                       data: map<string, Value>): (o: AuditRecord)
    ensures o.foreignKey == entity.id && o.action == action && o.data == data && o.userId == userId
    ensures o.context == entity.context && o.contextType == entity.contextType && o.contextSlug == entity.contextSlug
    ensures forall i :: 0 <= i < |records| && SameEntity(records[i], o) ==> records[i].revision < o.revision
  {
    var model := EntityModel(entity.source);
    AuditRecord(model, entity.id, action, data, entity.context, entity.contextType, entity.contextSlug,
                entity.saveHash, userId, NextRevision(records, model, entity.id))
  }

  /**
   * What follows the loop: the no-op case, and otherwise the fan-out
   * records, the owning record (only when the entity has an id; stored only
   * when it passes validation) and the record returned, which is the last
   * fan-out record when the entity has no id.
   */
  function Finish(records: seq<AuditRecord>, entity: Entity, action: Action, userId: Option<string>,
                  dirty: Option<seq<DirtyField>>, c: Collected): AddOutcome
  {
    if action != Delete && c.saveFields == map[] then AddOutcome([], None, None)
    else
      var fanOut := PatchAll(c.entries, entity, userId);
      if IsEmpty(entity.id) then
        AddOutcome(fanOut, None, if fanOut == [] then None else Some(fanOut[|fanOut| - 1]))
      else
        var owner := OwnerRecord(records + fanOut, entity, action, userId, OwnerData(action, c.saveFields, dirty));
        AddOutcome(fanOut, if PassesValidation(action, owner.data) then Some(owner) else None, Some(owner))
  }

  /**
   * A call with nothing collected (and not a delete) is a no-op. Otherwise
   * the patched fan-out records are written; an entity without id returns
   * the last of them, one with an id gets an owning record numbered after
   * everything already stored for it (the fan-out included), which is
   * returned and, when it passes validation, stored.
   */
  lemma FinishShape(records: seq<AuditRecord>, entity: Entity, action: Action, userId: Option<string>,
                    dirty: Option<seq<DirtyField>>, c: Collected)
    ensures var o := Finish(records, entity, action, userId, dirty, c);
      && (action != Delete && c.saveFields == map[] ==> o == AddOutcome([], None, None))
      && (!(action != Delete && c.saveFields == map[]) ==>
            && o.fanOut == PatchAll(c.entries, entity, userId)
            && (IsEmpty(entity.id) ==>
                  o.owner.None? && o.returned == (if o.fanOut == [] then None else Some(o.fanOut[|o.fanOut| - 1])))
            && (!IsEmpty(entity.id) ==>
                  && o.returned.Some? && o.returned.value.foreignKey == entity.id
                  && o.returned.value.data == OwnerData(action, c.saveFields, dirty)
                  && (forall i :: 0 <= i < |records + o.fanOut| && SameEntity((records + o.fanOut)[i], o.returned.value) ==>
                        (records + o.fanOut)[i].revision < o.returned.value.revision)
                  && (o.owner.Some? <==> PassesValidation(action, o.returned.value.data))
                  && (o.owner.Some? ==> o.owner == o.returned)))
  {
  }

  /** The whole of `add` over the store `records`. */
  function AddSpec(records: seq<AuditRecord>, entity: Entity, action: Action, userId: Option<string>,
                   options: AddOptions, fields: seq<FieldSpec>, env: Env): (r: Result<AddOutcome, Error>)
    ensures r.Failure? <==>
      action != Comment &&
      exists j :: 0 <= j < |fields| && fields[j].saveable && NeedsUnknownTransform(fields[j], SourceData(entity, options), env)
    ensures r.Success? ==>
      r.value == Finish(records, entity, action, userId, options.dirtyFields,
                        Collect(action, fields, SourceData(entity, options), entity, records, env).value)
  {
    match Collect(action, fields, SourceData(entity, options), entity, records, env)
    case Failure(e) => Failure(e)
    case Success(c) => Success(Finish(records, entity, action, userId, options.dirtyFields, c))
  }

  /** The options `addComment` passes to `add`: the text as the only explicit data. */
  function CommentOptions(comment: string): AddOptions
  {
    AddOptions(None, Some(map["comment" := Str(comment)]))
  }

  /** The records a call appends to the store. */
  function Written(r: Result<AddOutcome, Error>): seq<AuditRecord>
  {
    match r
    case Failure(_) => []
    case Success(o) => o.fanOut + (if o.owner.Some? then [o.owner.value] else [])
  }

  /** What a call returns: the error, or the record (none for a no-op). */
  function Returned(r: Result<AddOutcome, Error>): Result<Option<AuditRecord>, Error>
  {
    match r
    case Failure(e) => Failure(e)
    case Success(o) => Success(o.returned)
  }

  /**
   * A comment collects exactly `{comment: text}`, fans nothing out, and is
   * stored only when the entity has an id and the text is not empty.
   */
  lemma AddComment(records: seq<AuditRecord>, entity: Entity, userId: Option<string>,
                   options: AddOptions, fields: seq<FieldSpec>, env: Env)
    ensures var r := AddSpec(records, entity, Comment, userId, options, fields, env);
      var text := Get(SourceData(entity, options), "comment");
      && r.Success? && r.value.fanOut == []
      && (IsEmpty(entity.id) ==> Written(r) == [] && r.value.returned.None?)
      && (!IsEmpty(entity.id) ==>
            && r.value.returned.Some?
            && r.value.returned.value.data == map["comment" := text]
            && r.value.returned.value.action == Comment
            && (Written(r) == [r.value.returned.value] <==> !IsEmpty(text))
            && (IsEmpty(text) ==> Written(r) == []))
  {
    var c := Collect(Comment, fields, SourceData(entity, options), entity, records, env);
    assert "comment" in c.value.saveFields;
  }

  /**
   * `addComment`: the comment record carries the text (a hidden "comment"
   * property overrides it), the entity's model and id and its next
   * revision; it is written only when the entity has an id and the text is
   * not empty.
   */
  lemma CommentOutcome(records: seq<AuditRecord>, entity: Entity, comment: string, userId: Option<string>,
                       fields: seq<FieldSpec>, env: Env)
    ensures var spec := AddSpec(records, entity, Comment, userId, CommentOptions(comment), fields, env);
      var text := if "comment" in entity.hidden then Get(entity.fields, "comment") else Str(comment);
      && spec.Success?
      && (IsEmpty(entity.id) ==> spec.value.returned.None? && Written(spec) == [])
      && (!IsEmpty(entity.id) ==>
            && spec.value.returned.Some?
            && var w := spec.value.returned.value;
            && w.action == Comment && w.data == map["comment" := text]
            && w.model == EntityModel(entity.source) && w.foreignKey == entity.id
            && w.revision == NextRevision(records, w.model, entity.id)
            && (IsEmpty(text) ==> Written(spec) == [])
            && (!IsEmpty(text) ==> Written(spec) == [w]))
  {
    var options := CommentOptions(comment);
    AddComment(records, entity, userId, options, fields, env);
    assert "comment" in options.data.value;
    assert !NoExplicitData(options);
    var d := SourceData(entity, options);
    assert "comment" in d;
    assert Get(d, "comment") == (if "comment" in entity.hidden then Get(entity.fields, "comment") else Str(comment));
    if !IsEmpty(entity.id) {
      AddOwner(records, entity, Comment, userId, options, fields, env);
      assert records + [] == records;
    }
  }

  /**
   * The no-op rule: when no field was collected and the action is not a
   * delete, nothing is written and nothing is returned; a delete always
   * stores empty data; a configuration error writes nothing.
   */
  lemma AddNoOp(records: seq<AuditRecord>, entity: Entity, action: Action, userId: Option<string>,
                options: AddOptions, fields: seq<FieldSpec>, env: Env)
    ensures var c := Collect(action, fields, SourceData(entity, options), entity, records, env);
      var r := AddSpec(records, entity, action, userId, options, fields, env);
      && (c.Success? && c.value.saveFields == map[] && action != Delete ==>
            r == Success(AddOutcome([], None, None)) && Written(r) == [])
      && (c.Success? && action == Delete && !IsEmpty(entity.id) ==>
            r.Success? && r.value.returned.Some? && r.value.returned.value.data == map[] &&
            r.value.owner == r.value.returned)
      && (c.Failure? ==> r.Failure? && Written(r) == [])
  {
  }

  /**
   * Narrowing runs after the no-op check: an update with a dirty list
   * stores the collected fields that are set and named by a plain dirty
   * entry, never any other, and the result may be empty.
   */
  lemma AddDirty(records: seq<AuditRecord>, entity: Entity, userId: Option<string>,
                 options: AddOptions, fields: seq<FieldSpec>, env: Env)
    requires NarrowsToDirty(Update, options.dirtyFields)
    requires !IsEmpty(entity.id)
    ensures var c := Collect(Update, fields, SourceData(entity, options), entity, records, env);
      var r := AddSpec(records, entity, Update, userId, options, fields, env);
      c.Success? && c.value.saveFields != map[] ==>
        && r.Success? && r.value.returned.Some?
        && var stored := r.value.returned.value.data;
        && (forall k :: k in stored <==> IsSet(c.value.saveFields, k) && Field(k) in options.dirtyFields.value)
        && (forall k :: k in stored ==> stored[k] == c.value.saveFields[k])
  {
    var c := Collect(Update, fields, SourceData(entity, options), entity, records, env);
    if c.Success? && c.value.saveFields != map[] {
      var o := Finish(records, entity, Update, userId, options.dirtyFields, c.value);
      assert AddSpec(records, entity, Update, userId, options, fields, env) == Success(o);
      assert !IsEmpty(entity.id);
      assert o.returned.Some?;
    }
  }

  /** The shape of a fan-out record before it is patched. */
  predicate FanOutShaped(e: AuditRecord, action: Action, records: seq<AuditRecord>)
  {
    && e.action == action
    && e.saveHash == Null
    && |e.data| == 1
    && e.revision == NextRevision(records, e.model, e.foreignKey)
  }

  lemma FanOutFieldShaped(e: AuditRecord, fields: seq<FieldSpec>, data: map<string, Value>, entity: Entity,
                          action: Action, records: seq<AuditRecord>, env: Env)
    requires FromFanOutField(e, fields, data, entity, action, records, env)
    ensures FanOutShaped(e, action, records)
  {
  }

  /** The collected entries are fan-out records of this call; a comment has none. */
  lemma CollectShaped(action: Action, fields: seq<FieldSpec>, data: map<string, Value>, entity: Entity,
                      records: seq<AuditRecord>, env: Env)
    requires Collect(action, fields, data, entity, records, env).Success?
    ensures var c := Collect(action, fields, data, entity, records, env).value;
      && (action == Comment ==> c.entries == [])
      && forall i :: 0 <= i < |c.entries| ==> FanOutShaped(c.entries[i], action, records)
  {
    if action != Comment {
      var c := Collect(action, fields, data, entity, records, env).value;
      CollectEntries(Saveable(fields), data, entity, action, records, env);
      forall i | 0 <= i < |c.entries| ensures FanOutShaped(c.entries[i], action, records) {
        FanOutFieldShaped(c.entries[i], Saveable(fields), data, entity, action, records, env);
      }
    }
  }

  /**
   * Fan-out records: one per present association field with a key, each
   * with a one-entry data map, the call's action, context and user, no save
   * hash, the related row's next revision, and never a comment.
   */
  lemma AddFanOut(records: seq<AuditRecord>, entity: Entity, action: Action, userId: Option<string>,
                  options: AddOptions, fields: seq<FieldSpec>, env: Env)
    requires AddSpec(records, entity, action, userId, options, fields, env).Success?
    ensures var o := AddSpec(records, entity, action, userId, options, fields, env).value;
      forall i :: 0 <= i < |o.fanOut| ==>
        && FanOutShaped(o.fanOut[i], action, records)
        && action != Comment
        && o.fanOut[i].context == entity.context
        && o.fanOut[i].contextType == entity.contextType
        && o.fanOut[i].contextSlug == entity.contextSlug
        && o.fanOut[i].userId == userId
        && PassesValidation(o.fanOut[i].action, o.fanOut[i].data)
  {
    var data := SourceData(entity, options);
    var c := Collect(action, fields, data, entity, records, env).value;
    CollectShaped(action, fields, data, entity, records, env);
    var o := Finish(records, entity, action, userId, options.dirtyFields, c);
    assert AddSpec(records, entity, action, userId, options, fields, env).value == o;
    assert o.fanOut == [] || o.fanOut == PatchAll(c.entries, entity, userId);
  }

  /**
   * The owning record: written only when the entity has an id, for the
   * entity's model and id, with the entity's context and save hash and the
   * revision that follows the fan-out records just stored.
   */
  lemma AddOwner(records: seq<AuditRecord>, entity: Entity, action: Action, userId: Option<string>,
                 options: AddOptions, fields: seq<FieldSpec>, env: Env)
    requires AddSpec(records, entity, action, userId, options, fields, env).Success?
    ensures var o := AddSpec(records, entity, action, userId, options, fields, env).value;
      && (IsEmpty(entity.id) ==>
            && o.owner.None?
            && o.returned == (if o.fanOut == [] then None else Some(o.fanOut[|o.fanOut| - 1])))
      && (o.owner.Some? ==> o.returned == o.owner)
      && (o.returned.Some? && !IsEmpty(entity.id) ==>
            var w := o.returned.value;
            && w.model == EntityModel(entity.source) && w.foreignKey == entity.id
            && w.action == action && w.userId == userId && w.saveHash == entity.saveHash
            && w.context == entity.context && w.contextType == entity.contextType && w.contextSlug == entity.contextSlug
            && w.revision == NextRevision(records + o.fanOut, w.model, w.foreignKey)
            && (o.owner.Some? <==> PassesValidation(action, w.data)))
  {
  }

  /** Two records of one call's fan-out never target the same row. */
  predicate DistinctTargets(es: seq<AuditRecord>)
  {
    forall i, j :: 0 <= i < j < |es| ==> !SameEntity(es[i], es[j])
  }

  /** Every call keeps the store's revisions positive and monotone per entity. */
  lemma AddKeepsMonotone(records: seq<AuditRecord>, entity: Entity, action: Action, userId: Option<string>,
                         options: AddOptions, fields: seq<FieldSpec>, env: Env)
    requires Monotone(records) && Positive(records)
    ensures var w := Written(AddSpec(records, entity, action, userId, options, fields, env));
      Monotone(records + w) && Positive(records + w)
  {
    var r := AddSpec(records, entity, action, userId, options, fields, env);
    if r.Success? {
      AddFanOut(records, entity, action, userId, options, fields, env);
      AddOwner(records, entity, action, userId, options, fields, env);
      OutcomeMonotone(records, r.value, action);
    } else {
      assert records + Written(r) == records;
    }
  }

  /** The records of one outcome, appended in order, keep revisions positive and monotone. */
  lemma OutcomeMonotone(records: seq<AuditRecord>, o: AddOutcome, action: Action)
    requires Monotone(records) && Positive(records)
    requires forall i :: 0 <= i < |o.fanOut| ==> FanOutShaped(o.fanOut[i], action, records)
    requires o.owner.Some? ==>
      o.owner.value.revision == NextRevision(records + o.fanOut, o.owner.value.model, o.owner.value.foreignKey)
    ensures Monotone(records + Written(Success(o))) && Positive(records + Written(Success(o)))
  {
    FanOutKeepsMonotone(records, o.fanOut, action);
    var acc := records + o.fanOut;
    if o.owner.Some? {
      NextRevisionAbove(acc, o.owner.value);
      AppendMonotone(acc, o.owner.value);
      AppendPositive(acc, o.owner.value);
      assert records + Written(Success(o)) == acc + [o.owner.value];
    } else {
      assert records + Written(Success(o)) == acc;
    }
  }

  /** Appending fan-out records, each at its row's next revision in `records`, keeps monotonicity. */
  lemma FanOutKeepsMonotone(records: seq<AuditRecord>, fanOut: seq<AuditRecord>, action: Action)
    requires Monotone(records) && Positive(records)
    requires forall i :: 0 <= i < |fanOut| ==> FanOutShaped(fanOut[i], action, records)
    ensures Monotone(records + fanOut) && Positive(records + fanOut)
  {
    var acc := records;
    var k := 0;
    while k < |fanOut|
      invariant 0 <= k <= |fanOut|
      invariant acc == records + fanOut[..k]
      invariant Monotone(acc) && Positive(acc)
    {
      var e := fanOut[k];
      NextRevisionAbove(records, e);
      forall i | 0 <= i < |acc| && SameEntity(acc[i], e) ensures acc[i].revision <= e.revision {
        if i >= |records| {
          var f := fanOut[i - |records|];
          assert acc[i] == f;
          assert FanOutShaped(f, action, records);
          assert IsFor(f, e.model, e.foreignKey);
        }
      }
      AppendMonotone(acc, e);
      assert acc + [e] == records + fanOut[..k + 1];
      acc := acc + [e];
      k := k + 1;
    }
    assert fanOut[..k] == fanOut;
  }

  /**
   * Sequential numbering survives a call whose fan-out records target
   * distinct rows: every record written gets its entity's count plus one.
   * (All fan-out revisions are read before any fan-out record is saved, so
   * two association fields that resolve to the same row would share one.)
   */
  lemma AddKeepsNumbering(records: seq<AuditRecord>, entity: Entity, action: Action, userId: Option<string>,
                          options: AddOptions, fields: seq<FieldSpec>, env: Env)
    requires Numbered(records)
    requires var r := AddSpec(records, entity, action, userId, options, fields, env);
      r.Success? ==> DistinctTargets(r.value.fanOut)
    ensures Numbered(records + Written(AddSpec(records, entity, action, userId, options, fields, env)))
  {
    var r := AddSpec(records, entity, action, userId, options, fields, env);
    if r.Success? {
      AddFanOut(records, entity, action, userId, options, fields, env);
      AddOwner(records, entity, action, userId, options, fields, env);
      OutcomeNumbered(records, r.value, action);
    } else {
      assert records + Written(r) == records;
    }
  }

  /** The records of one outcome, appended in order, keep the numbering sequential. */
  lemma OutcomeNumbered(records: seq<AuditRecord>, o: AddOutcome, action: Action)
    requires Numbered(records)
    requires DistinctTargets(o.fanOut)
    requires forall i :: 0 <= i < |o.fanOut| ==> FanOutShaped(o.fanOut[i], action, records)
    requires o.owner.Some? ==>
      o.owner.value.revision == NextRevision(records + o.fanOut, o.owner.value.model, o.owner.value.foreignKey)
    ensures Numbered(records + Written(Success(o)))
  {
    FanOutKeepsNumbering(records, o.fanOut, action);
    var acc := records + o.fanOut;
    if o.owner.Some? {
      AppendNumbered(acc, o.owner.value);
      assert records + Written(Success(o)) == acc + [o.owner.value];
    } else {
      assert records + Written(Success(o)) == acc;
    }
  }

  /** Appending fan-out records for distinct rows keeps the numbering sequential. */
  lemma FanOutKeepsNumbering(records: seq<AuditRecord>, fanOut: seq<AuditRecord>, action: Action)
    requires Numbered(records)
    requires DistinctTargets(fanOut)
    requires forall i :: 0 <= i < |fanOut| ==> FanOutShaped(fanOut[i], action, records)
    ensures Numbered(records + fanOut)
  {
    var acc := records;
    var k := 0;
    while k < |fanOut|
      invariant 0 <= k <= |fanOut|
      invariant acc == records + fanOut[..k]
      invariant Numbered(acc)
    {
      forall i | 0 <= i < k ensures !IsFor(fanOut[..k][i], fanOut[k].model, fanOut[k].foreignKey) {
        assert !SameEntity(fanOut[i], fanOut[k]);
      }
      FanOutStep(records, fanOut[..k], fanOut[k]);
      assert records + fanOut[..k] + [fanOut[k]] == records + fanOut[..k + 1];
      acc := records + fanOut[..k + 1];
      k := k + 1;
    }
    assert fanOut[..k] == fanOut;
  }

  /** One fan-out record, behind records of other rows, still gets its row's count plus one. */
  lemma FanOutStep(records: seq<AuditRecord>, prior: seq<AuditRecord>, e: AuditRecord)
    requires Numbered(records) && Numbered(records + prior)
    requires e.revision == NextRevision(records, e.model, e.foreignKey)
    requires forall i :: 0 <= i < |prior| ==> !IsFor(prior[i], e.model, e.foreignKey)
    ensures Numbered(records + prior + [e])
  {
    NextRevisionCounts(records, e.model, e.foreignKey);
    NextRevisionCounts(records + prior, e.model, e.foreignKey);
    SkipOthers(records, prior, e.model, e.foreignKey);
    AppendNumbered(records + prior, e);
  }

  /** Appending records of other entities does not change an entity's count. */
  lemma {:induction false} SkipOthers(records: seq<AuditRecord>, others: seq<AuditRecord>, model: string, fk: Value)
    requires forall i :: 0 <= i < |others| ==> !IsFor(others[i], model, fk)
    ensures Count(records + others, model, fk) == Count(records, model, fk)
    decreases |others|
  {
    if others == [] {
      assert records + others == records;
    } else {
      var n := |others| - 1;
      SkipOthers(records, others[..n], model, fk);
      var all := records + others;
      assert all[..|all| - 1] == records + others[..n];
      assert all[|all| - 1] == others[n];
    }
  }
}
