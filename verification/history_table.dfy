/**
 * The `model_history` table as an object over its rows: recording a change
 * (`add`, `addComment`), building the diff of a record (`buildDiff`) and
 * converting stored records for display (`_transformDataFields`). Each
 * operation is proved against the specification functions of the Recorder
 * and Diff modules.
 */
module HistoryTable {
  import opened Wrappers
  import opened Values
  import opened Records
  import opened FieldConfig
  import opened Revisions
  import opened Recorder
  import opened Diff

  class ModelHistoryTable {
    /** The rows of the table, in insertion order. */
    var records: seq<AuditRecord>

    /** Revisions stay positive and never decrease along an entity's history. */
    ghost predicate Valid()
      reads this
    {
      Monotone(records) && Positive(records)
    }

    constructor ()
      ensures records == [] && Valid()
    {
      records := [];
    }

    /** `save`: a record that passes validation is appended; any other is refused. */
    method Save(rec: AuditRecord) returns (ok: bool)
      modifies this
      ensures ok <==> PassesValidation(rec.action, rec.data)
      ensures records == if ok then old(records) + [rec] else old(records)
    {
      ok := PassesValidation(rec.action, rec.data);
      if ok {
        records := records + [rec];
      }
    }

    /**
     * `add`: records one change of `entity`. It returns the record written
     * last (None for a no-op, or when nothing was written for an entity
     * without id) and appends the fan-out records and the owning record.
     */
    method Add(entity: Entity, action: Action, userId: Option<string>, options: AddOptions,
               fields: seq<FieldSpec>, env: Env) returns (r: Result<Option<AuditRecord>, Error>)
      requires DistinctNames(fields)
      requires Valid()
      modifies this
      ensures Valid()
      ensures r == Returned(AddSpec(old(records), entity, action, userId, options, fields, env))
      ensures records == old(records) + Written(AddSpec(old(records), entity, action, userId, options, fields, env))
      ensures var spec := AddSpec(old(records), entity, action, userId, options, fields, env);
        Numbered(old(records)) && (spec.Success? ==> DistinctTargets(spec.value.fanOut)) ==> Numbered(records)
    {
      ghost var before := records;
      var collected := CollectFor(action, fields, SourceData(entity, options), entity, env);
      AddKeepsMonotone(before, entity, action, userId, options, fields, env);
      ghost var spec := AddSpec(before, entity, action, userId, options, fields, env);
      if Numbered(before) && (spec.Success? ==> DistinctTargets(spec.value.fanOut)) {
        AddKeepsNumbering(before, entity, action, userId, options, fields, env);
      }
      if collected.Failure? {
        assert records == before + Written(spec);
        return Failure(collected.error);
      }
      CollectShaped(action, fields, SourceData(entity, options), entity, before, env);
      var entry := Store(entity, action, userId, options.dirtyFields, collected.value);
      r := Success(entry);
    }

    /**
     * `addComment`: `add` with the comment action and `{comment: text}` as
     * explicit data. The comment is stored only when the entity has an id
     * and the text is not empty; for an entity without id nothing is
     * written and None stands for the type error of the declared return.
     * A hidden property named "comment" overrides the text, as hidden
     * properties are merged over the explicit data.
     */
    method AddComment(entity: Entity, comment: string, userId: Option<string>, fields: seq<FieldSpec>, env: Env)
      returns (r: Option<AuditRecord>)
      requires DistinctNames(fields)
      requires Valid()
      modifies this
      ensures Valid()
      ensures var spec := AddSpec(old(records), entity, Comment, userId, CommentOptions(comment), fields, env);
        spec.Success? && r == spec.value.returned && records == old(records) + Written(spec)
      ensures IsEmpty(entity.id) ==> r.None? && records == old(records)
      ensures var text := if "comment" in entity.hidden then Get(entity.fields, "comment") else Str(comment);
        !IsEmpty(entity.id) ==>
          && r.Some? && r.value.action == Comment && r.value.data == map["comment" := text]
          && r.value.model == EntityModel(entity.source) && r.value.foreignKey == entity.id
          && r.value.revision == NextRevision(old(records), r.value.model, entity.id)
          && (IsEmpty(text) ==> records == old(records))
          && (!IsEmpty(text) ==> records == old(records) + [r.value])
    {
      CommentOutcome(records, entity, comment, userId, fields, env);
      var res := Add(entity, Comment, userId, CommentOptions(comment), fields, env);
      r := res.value;
    }

    /** The comment case and the loop over the saveable fields. */
    method CollectFor(action: Action, fields: seq<FieldSpec>, data: map<string, Value>, entity: Entity, env: Env)
      returns (r: Result<Collected, Error>)
      requires DistinctNames(fields)
      ensures r == Collect(action, fields, data, entity, records, env)
    {
      if action == Comment {
        r := Success(Collected(map["comment" := Get(data, "comment")], []));
      } else {
        SaveableDistinct(fields);
        r := CollectSaveFields(Saveable(fields), data, entity, action, records, env);
      }
    }

    /**
     * What `add` does once the fields are collected: the no-op return,
     * the delete and dirty-field narrowing of the data, saving the patched
     * fan-out records and then the owning record.
     */
    method Store(entity: Entity, action: Action, userId: Option<string>, dirty: Option<seq<DirtyField>>, c: Collected)
      returns (entry: Option<AuditRecord>)
      requires forall i :: 0 <= i < |c.entries| ==> c.entries[i].action == action && action != Comment
      modifies this
      ensures var o := Finish(old(records), entity, action, userId, dirty, c);
        entry == o.returned && records == old(records) + Written(Success(o))
    {
      ghost var o := Finish(records, entity, action, userId, dirty, c);
      if action != Delete && c.saveFields == map[] {
        assert o == AddOutcome([], None, None);
        return None;
      }
      var stored := if action == Delete then map[] else c.saveFields;
      if NarrowsToDirty(action, dirty) {
        stored := FilterDirty(stored, dirty.value);
      }
      assert stored == OwnerData(action, c.saveFields, dirty);
      ghost var before := records;
      var fanOut := PatchAll(c.entries, entity, userId);
      assert o.fanOut == fanOut;
      entry := SaveAll(fanOut);
      if !IsEmpty(entity.id) {
        var owner := OwnerRecord(records, entity, action, userId, stored);
        assert o.returned == Some(owner);
        var saved := Save(owner);
        entry := Some(owner);
        assert o.owner == if saved then Some(owner) else None;
      } else {
        assert o.owner == None;
      }
    }

    /**
     * `buildDiff`: the three buckets of the entry against the earlier
     * revisions of its entity in this table, newest first, with every
     * bucket's keys translated.
     */
    method BuildDiff(entry: AuditRecord, fields: seq<FieldSpec>, live: Entity, env: Env)
      returns (r: Result<DiffResult, Error>)
      requires Valid()
      requires DistinctNames(fields)
      ensures NewestFirst(PreviousRevisions(records, entry))
      ensures var raw := RawDiff(entry, PreviousRevisions(records, entry), fields, live, env);
        && (r.Failure? <==> raw.Failure?)
        && (r.Success? ==> TranslationOf(raw.value, r.value, Label(entry.model, env)))
        && (r.Success? && r.value.Diff? ==>
              var b := raw.value.buckets;
              var relabel := Label(entry.model, env);
              && (CollisionFree(b.changed, relabel) ==> RenamedExactly(b.changed, r.value.buckets.changed, relabel))
              && (CollisionFree(b.changedBefore, relabel) ==>
                    RenamedExactly(b.changedBefore, r.value.buckets.changedBefore, relabel))
              && (CollisionFree(b.unchangedValues, relabel) ==>
                    RenamedExactly(b.unchangedValues, r.value.buckets.unchangedValues, relabel)))
    {
      if entry.revision == 1 {
        PreviousRevisionsNewestFirst(records, entry);
        return Success(FirstRevision);
      }
      PreviousRevisionsNewestFirst(records, entry);
      var prev := PreviousRevisions(records, entry);
      var changed := ChangedLoop(entry, prev, fields, live, env);
      if changed.Failure? {
        return Failure(changed.error);
      }
      var before := BeforeLoop(entry, prev, fields, live, env, changed.value);
      if before.Failure? {
        return Failure(before.error);
      }
      var same := UnchangedLoop(entry, prev, fields, live, env, changed.value, before.value);
      if same.Failure? {
        return Failure(same.error);
      }
      var relabel := Label(entry.model, env);
      var c := RenameKeys(changed.value, relabel);
      var cb := RenameKeys(before.value, relabel);
      var u := RenameKeys(same.value, relabel);
      r := Success(Diff(Buckets(c, cb, u)));
    }

    /** The fan-out save loop: every record is saved in turn; the last one is returned. */
    method SaveAll(entries: seq<AuditRecord>) returns (last: Option<AuditRecord>)
      requires forall i :: 0 <= i < |entries| ==> entries[i].action != Comment
      modifies this
      ensures records == old(records) + entries
      ensures last == if entries == [] then None else Some(entries[|entries| - 1])
    {
      last := None;
      var i := 0;
      while i < |entries|
        invariant 0 <= i <= |entries|
        invariant records == old(records) + entries[..i]
        invariant last == if i == 0 then None else Some(entries[i - 1])
      {
        var _ := Save(entries[i]);
        assert entries[..i + 1] == entries[..i] + [entries[i]];
        last := Some(entries[i]);
        i := i + 1;
      }
      assert entries[..i] == entries;
    }
  }

  /**
   * The loop of `add` over the saveable fields: each set field's value is
   * converted in place in `data` and copied into the collected fields; an
   * association field with a key also yields a fan-out record.
   */
  method CollectSaveFields(fields: seq<FieldSpec>, data: map<string, Value>, entity: Entity, action: Action,
                           records: seq<AuditRecord>, env: Env) returns (r: Result<Collected, Error>)
    requires DistinctNames(fields)
    ensures r == CollectFields(fields, data, entity, action, records, env)
  {
    var current := data;
    var acc := Collected(map[], []);
    var i := 0;
    while i < |fields|
      invariant 0 <= i <= |fields|
      invariant CollectFields(fields[..i], data, entity, action, records, env) == Success(acc)
      invariant forall k :: k in acc.saveFields ==> exists t :: 0 <= t < i && fields[t].name == k
      invariant current == data + acc.saveFields
    {
      assert fields[..i + 1][..i] == fields[..i];
      assert fields[i].name !in acc.saveFields;
      var step;
      step, current := CollectField(fields[i], data, current, acc, entity, action, records, env);
      if step.Failure? {
        CollectFailurePrefix(fields, i + 1, data, entity, action, records, env);
        return CollectFields(fields, data, entity, action, records, env);
      }
      acc := step.value;
      i := i + 1;
    }
    assert fields[..i] == fields;
    r := Success(acc);
  }

  /** One turn of the loop: the field's value in `data` is converted in place and collected. */
  method CollectField(spec: FieldSpec, data: map<string, Value>, current: map<string, Value>, acc: Collected,
                      entity: Entity, action: Action, records: seq<AuditRecord>, env: Env)
    returns (r: Result<Collected, Error>, next: map<string, Value>)
    requires spec.name !in acc.saveFields && current == data + acc.saveFields
    ensures r == CollectStep(acc, spec, data, entity, action, records, env)
    ensures r.Success? ==> next == data + r.value.saveFields
  {
    next := current;
    var entries := acc.entries;
    if !IsSet(next, spec.name) {
      return Success(acc), next;
    }
    if spec.saveParser.Some? {
      next := next[spec.name := spec.saveParser.value(spec.name, next[spec.name], entity)];
    } else if spec.typ.Some? {
      if spec.typ.value !in env.transformTypes {
        return Failure(ConfigurationError), next;
      }
      if spec.typ.value == AssociationType && spec.associationKey.Some? {
        entries := entries + [FanOutRecord(spec, entity, action, records, env)];
      } else {
        next := next[spec.name := env.save(spec.typ.value, spec.name, spec, entity)];
      }
    }
    if spec.obfuscated {
      next := next[spec.name := Str(ObfuscationMarker)];
    }
    r := Success(Collected(acc.saveFields[spec.name := next[spec.name]], entries));
  }

  /** The dirty-field loop of `add`: keeps the set fields named by a plain entry of the list. */
  method FilterDirty(data: map<string, Value>, dirty: seq<DirtyField>) returns (newData: map<string, Value>)
    ensures newData == DirtyData(data, dirty)
  {
    newData := map[];
    for i := 0 to |dirty|
      invariant newData == DirtyData(data, dirty[..i])
    {
      assert dirty[..i + 1] == dirty[..i] + [dirty[i]];
      match dirty[i]
      case Nested(_) =>
      case Field(f) =>
        if IsSet(data, f) {
          newData := newData[f := data[f]];
        }
    }
    assert dirty[..|dirty|] == dirty;
  }

  /** The index of the newest earlier revision in `prev` that records the field, or `|prev|` when none does. */
  method ScanSet(prev: seq<AuditRecord>, f: string) returns (i: nat)
    ensures i <= |prev|
    ensures i < |prev| <==> FirstSet(prev, f).Some?
    ensures i < |prev| ==> FirstSet(prev, f).value == i
  {
    i := 0;
    while i < |prev|
      invariant i <= |prev|
      invariant forall t :: 0 <= t < i ==> !IsSet(prev[t].data, f)
    {
      if IsSet(prev[i].data, f) {
        break;
      }
      i := i + 1;
    }
    if i < |prev| {
      var k := FirstSet(prev, f).value;
      assert !(k < i);
    }
  }

  /**
   * Phase 2's scan of the earlier revisions for one field: it stops at the
   * first revision recording the field when the field is already in
   * `changed`, and otherwise at the first whose value differs from the live
   * one.
   */
  method ScanBefore(prev: seq<AuditRecord>, f: string, cur: Value, inChanged: bool) returns (i: nat)
    ensures i <= |prev|
    ensures inChanged ==> (i < |prev| <==> FirstSet(prev, f).Some?) && (i < |prev| ==> FirstSet(prev, f).value == i)
    ensures !inChanged ==>
      (i < |prev| <==> FirstDiffering(prev, f, cur).Some?) && (i < |prev| ==> FirstDiffering(prev, f, cur).value == i)
  {
    i := 0;
    while i < |prev|
      invariant i <= |prev|
      invariant inChanged ==> forall t :: 0 <= t < i ==> !IsSet(prev[t].data, f)
      invariant !inChanged ==> forall t :: 0 <= t < i ==> !Differs(prev[t], f, cur)
    {
      if IsSet(prev[i].data, f) && (inChanged || prev[i].data[f] != cur) {
        break;
      }
      i := i + 1;
    }
    if i < |prev| {
      if inChanged {
        var k := FirstSet(prev, f).value;
        assert !(k < i);
      } else {
        var k := FirstDiffering(prev, f, cur).value;
        assert !(k < i);
      }
    }
  }

  /**
   * Phase 1 of `buildDiff`: for each field of the entry, the newest earlier
   * revision recording it; a configured field gets its old and new display
   * values.
   */
  method ChangedLoop(entry: AuditRecord, prev: seq<AuditRecord>, fields: seq<FieldSpec>, live: Entity, env: Env)
    returns (r: Result<map<string, Change>, Error>)
    ensures r == ChangedPhase(entry, prev, fields, live, env)
  {
    var keys := ChangedKeys(entry, prev, fields);
    var changed: map<string, Change> := map[];
    var todo := entry.data.Keys;
    while todo != {}
      invariant todo <= entry.data.Keys
      invariant forall f :: f in changed <==> f in keys && f !in todo
      invariant forall f :: f in changed ==>
        Displayable(Spec(fields, f), env) && changed[f] == ChangedEntry(entry, prev, fields, live, env, f)
      decreases todo
    {
      var f :| f in todo;
      var i := ScanSet(prev, f);
      var idx := IndexOf(fields, f);
      if i < |prev| && idx.Some? {
        assert f in keys;
        var spec := fields[idx.value];
        if !Displayable(spec, env) {
          ChangedPhaseFails(entry, prev, fields, live, env, f);
          return Failure(ConfigurationError);
        }
        changed := changed[f := Change(Display(spec, f, prev[i].data[f], TrackedEntity(live), entry.model, env),
                                       Display(spec, f, entry.data[f], TrackedEntity(live), entry.model, env))];
      } else {
        assert f !in keys;
      }
      todo := todo - {f};
    }
    ChangedPhaseIs(entry, prev, fields, live, env, changed);
    r := Success(changed);
  }

  /**
   * Phase 2: for each configured field outside `changed`, in configuration
   * order, the newest earlier revision whose recorded value differs from
   * the live one.
   */
  method BeforeLoop(entry: AuditRecord, prev: seq<AuditRecord>, fields: seq<FieldSpec>, live: Entity, env: Env,
                    changed: map<string, Change>) returns (r: Result<map<string, Change>, Error>)
    requires DistinctNames(fields)
    requires changed.Keys == ChangedKeys(entry, prev, fields)
    ensures r == BeforePhase(entry, prev, fields, live, env)
  {
    var keys := BeforeKeys(entry, prev, fields, live);
    var before: map<string, Change> := map[];
    for j := 0 to |fields|
      invariant forall f :: f in before <==> f in keys && IndexOf(fields, f).value < j
      invariant forall f :: f in before ==>
        Displayable(Spec(fields, f), env) && before[f] == BeforeEntry(entry, prev, fields, live, env, f)
    {
      var spec := fields[j];
      var f := spec.name;
      assert IndexOf(fields, f) == Some(j);
      var cur := Current(live, f);
      var i := ScanBefore(prev, f, cur, f in changed);
      if i < |prev| && f !in changed {
        assert f in keys;
        if !Displayable(spec, env) {
          BeforePhaseFails(entry, prev, fields, live, env, f);
          return Failure(ConfigurationError);
        }
        before := before[f := Change(Display(spec, f, prev[i].data[f], TrackedEntity(live), entry.model, env),
                                     Display(spec, f, cur, TrackedEntity(live), entry.model, env))];
      } else {
        assert f !in keys;
      }
    }
    BeforePhaseIs(entry, prev, fields, live, env, before);
    r := Success(before);
  }

  /** Phase 3: every remaining configured field recorded earlier, with its live display value. */
  method UnchangedLoop(entry: AuditRecord, prev: seq<AuditRecord>, fields: seq<FieldSpec>, live: Entity, env: Env,
                       changed: map<string, Change>, before: map<string, Change>)
    returns (r: Result<map<string, Value>, Error>)
    requires DistinctNames(fields)
    requires changed.Keys == ChangedKeys(entry, prev, fields)
    requires before.Keys == BeforeKeys(entry, prev, fields, live)
    ensures r == UnchangedPhase(entry, prev, fields, live, env)
  {
    var keys := UnchangedKeys(entry, prev, fields, live);
    var same: map<string, Value> := map[];
    for j := 0 to |fields|
      invariant forall f :: f in same <==> f in keys && IndexOf(fields, f).value < j
      invariant forall f :: f in same ==>
        Displayable(Spec(fields, f), env) && same[f] == Shown(fields, f, Current(live, f), entry, live, env)
    {
      var spec := fields[j];
      var f := spec.name;
      assert IndexOf(fields, f) == Some(j);
      var i := ScanSet(prev, f);
      if i < |prev| && f !in changed && f !in before {
        assert f in keys;
        if !Displayable(spec, env) {
          UnchangedPhaseFails(entry, prev, fields, live, env, f);
          return Failure(ConfigurationError);
        }
        same := same[f := Display(spec, f, Current(live, f), TrackedEntity(live), entry.model, env)];
      } else {
        assert f !in keys;
      }
    }
    UnchangedPhaseIs(entry, prev, fields, live, env, same);
    r := Success(same);
  }

  /** `v` sits under key `k` because an already translated key `g` has `k` as label and `v` as value. */
  ghost predicate Moved<V>(m: map<string, V>, todo: set<string>, relabel: string -> string, k: string, v: V)
  {
    exists g :: g in m && g !in todo && relabel(g) == k && v == m[g]
  }

  /** The translation loop's invariant, with `todo` the keys not yet taken. */
  ghost predicate RenameInv<V>(m: map<string, V>, out: map<string, V>, todo: set<string>, relabel: string -> string)
  {
    && todo <= m.Keys
    && (forall k :: k in out ==> (k in todo && out[k] == m[k]) || Moved(m, todo, relabel, k, out[k]))
    && (forall g :: g in m && relabel(g) == g ==> g in out)
  }

  /** The translation loop's invariant when no labels collide. */
  ghost predicate ExactInv<V>(m: map<string, V>, out: map<string, V>, todo: set<string>, relabel: string -> string)
  {
    && todo <= m.Keys
    && out.Keys == todo + Labels(m - todo, relabel)
    && (forall g :: g in todo ==> g in out && out[g] == m[g])
    && (forall g :: g in m && g !in todo ==> relabel(g) in out && out[relabel(g)] == m[g])
  }

  /** One key of the bucket translated. */
  function RenameOne<V>(m: map<string, V>, out: map<string, V>, g: string, relabel: string -> string): map<string, V>
    requires g in m
  {
    if relabel(g) != g then out[relabel(g) := m[g]] - {g} else out
  }

  lemma RenameStep<V>(m: map<string, V>, out: map<string, V>, todo: set<string>, g: string, relabel: string -> string)
    requires RenameInv(m, out, todo, relabel) && g in todo
    ensures RenameInv(m, RenameOne(m, out, g, relabel), todo - {g}, relabel)
  {
    var out' := RenameOne(m, out, g, relabel);
    var todo' := todo - {g};
    forall k | k in out' ensures (k in todo' && out'[k] == m[k]) || Moved(m, todo', relabel, k, out'[k]) {
      if k == relabel(g) && relabel(g) != g {
        assert out'[k] == m[g];
      } else if k == g {
        assert relabel(g) == g && out'[k] == out[k];
        if !Moved(m, todo, relabel, k, out[k]) {
          assert out[g] == m[g];
        }
        var h :| h in m && h !in todo' && relabel(h) == k && out'[k] == m[h];
      } else {
        assert k in out && out'[k] == out[k];
        if Moved(m, todo, relabel, k, out[k]) {
          var h :| h in m && h !in todo && relabel(h) == k && out[k] == m[h];
        }
      }
    }
  }

  lemma ExactStep<V>(m: map<string, V>, out: map<string, V>, todo: set<string>, g: string, relabel: string -> string)
    requires CollisionFree(m, relabel)
    requires ExactInv(m, out, todo, relabel) && g in todo
    ensures ExactInv(m, RenameOne(m, out, g, relabel), todo - {g}, relabel)
  {
    ExactStepKeys(m, out, todo, g, relabel);
    ExactStepValues(m, out, todo, g, relabel);
  }

  /** The keys after one step: the keys still to do and the labels of those done. */
  lemma ExactStepKeys<V>(m: map<string, V>, out: map<string, V>, todo: set<string>, g: string, relabel: string -> string)
    requires CollisionFree(m, relabel)
    requires ExactInv(m, out, todo, relabel) && g in todo
    ensures RenameOne(m, out, g, relabel).Keys == (todo - {g}) + Labels(m - (todo - {g}), relabel)
  {
    var out' := RenameOne(m, out, g, relabel);
    var todo' := todo - {g};
    assert Labels(m - todo', relabel) == Labels(m - todo, relabel) + {relabel(g)} by {
      assert m - todo' == (m - todo)[g := m[g]];
    }
    forall k | k in out'.Keys ensures k in todo' + Labels(m - todo', relabel) {
      if k != relabel(g) {
        assert k in out.Keys && k != g;
      }
    }
    forall k | k in todo' + Labels(m - todo', relabel) ensures k in out'.Keys {
      if k !in todo' && k != relabel(g) {
        var h :| h in m - todo && relabel(h) == k;
      }
    }
  }

  /** The values after one step: keys still to do keep theirs, keys done sit under their label. */
  lemma ExactStepValues<V>(m: map<string, V>, out: map<string, V>, todo: set<string>, g: string, relabel: string -> string)
    requires CollisionFree(m, relabel)
    requires ExactInv(m, out, todo, relabel) && g in todo
    ensures var out' := RenameOne(m, out, g, relabel);
      && (forall h :: h in todo - {g} ==> h in out' && out'[h] == m[h])
      && (forall h :: h in m && h !in todo - {g} ==> relabel(h) in out' && out'[relabel(h)] == m[h])
  {
    var out' := RenameOne(m, out, g, relabel);
    var todo' := todo - {g};
    forall h | h in m && h !in todo' ensures relabel(h) in out' && out'[relabel(h)] == m[h] {
      if h != g {
        assert relabel(h) != relabel(g) && relabel(h) != g;
      }
    }
    forall h | h in todo' ensures h in out' && out'[h] == m[h] {
      assert relabel(g) != h;
    }
  }

  /**
   * The translation loop of `buildDiff` over one bucket: each key, taken
   * in turn, is replaced by its label when that differs from it; the value
   * moves with it.
   */
  method RenameKeys<V>(m: map<string, V>, relabel: string -> string) returns (out: map<string, V>)
    ensures IsRenaming(m, out, relabel)
    ensures CollisionFree(m, relabel) ==> RenamedExactly(m, out, relabel)
  {
    out := m;
    var todo := m.Keys;
    assert m - todo == map[];
    while todo != {}
      invariant RenameInv(m, out, todo, relabel)
      invariant CollisionFree(m, relabel) ==> ExactInv(m, out, todo, relabel)
      decreases todo
    {
      var g :| g in todo;
      RenameStep(m, out, todo, g, relabel);
      if CollisionFree(m, relabel) {
        ExactStep(m, out, todo, g, relabel);
      }
      var l := relabel(g);
      if l != g {
        out := out[l := m[g]] - {g};
      }
      todo := todo - {g};
    }
    forall k | k in out ensures exists g :: g in m && relabel(g) == k && out[k] == m[g] {
      assert Moved(m, {}, relabel, k, out[k]);
    }
    assert m - {} == m;
  }

  /** The inner loop of `_transformDataFields`: each field of one record's data, converted when searchable. */
  method TransformRecordData(rec: AuditRecord, fields: seq<FieldSpec>, model: string, env: Env)
    returns (r: Result<map<string, Value>, Error>)
    ensures r == DisplayData(rec, fields, model, env)
  {
    var entityData := rec.data;
    var todo := rec.data.Keys;
    while todo != {}
      invariant todo <= rec.data.Keys
      invariant entityData.Keys == rec.data.Keys
      invariant forall f :: f in todo ==> entityData[f] == rec.data[f]
      invariant forall f :: f in entityData && f !in todo ==>
        (IsShownField(fields, f) ==> Displayable(Spec(fields, f), env)) &&
        entityData[f] == ShownInRecord(rec, fields, f, model, env)
      decreases todo
    {
      var f :| f in todo;
      var idx := IndexOf(fields, f);
      if idx.Some? && fields[idx.value].searchable {
        var spec := fields[idx.value];
        if !Displayable(spec, env) {
          DisplayDataFails(rec, fields, model, env, f);
          return Failure(ConfigurationError);
        }
        entityData := entityData[f := Display(spec, f, rec.data[f], HistoryRow(rec), model, env)];
      }
      todo := todo - {f};
    }
    DisplayDataIs(rec, fields, model, env, entityData);
    r := Success(entityData);
  }

  /**
   * `_transformDataFields`: the records of `history` get their data in
   * display form, one after the other, in place. A searchable field without
   * a display conversion stops the loop at that record (its index is
   * returned), leaving it and the later ones as they were.
   */
  method TransformDataFields(history: array<AuditRecord>, fields: seq<FieldSpec>, model: string, env: Env)
    returns (failed: Option<nat>)
    modifies history
    ensures failed.Some? ==>
      failed.value < history.Length && DisplayData(old(history[failed.value]), fields, model, env).Failure?
    ensures var n := if failed.Some? then failed.value else history.Length;
      forall i :: 0 <= i < history.Length ==>
        if i < n then DisplayData(old(history[i]), fields, model, env).Success? &&
                      history[i] == Displayed(old(history[i]), fields, model, env)
        else history[i] == old(history[i])
  {
    var i := 0;
    while i < history.Length
      invariant 0 <= i <= history.Length
      invariant forall t :: 0 <= t < history.Length ==>
        if t < i then DisplayData(old(history[t]), fields, model, env).Success? &&
                      history[t] == Displayed(old(history[t]), fields, model, env)
        else history[t] == old(history[t])
    {
      var d := TransformRecordData(history[i], fields, model, env);
      if d.Failure? {
        return Some(i);
      }
      history[i] := history[i].(data := d.value);
      i := i + 1;
    }
    failed := None;
  }
}
