/**
 * The diff of one audit record against the earlier revisions of its entity
 * (`ModelHistoryTable::buildDiff`) as a specification over values: the
 * newest-first list of earlier revisions, the three buckets `changed`,
 * `changedBefore` and `unchanged`, the field-name translation, and the
 * display form of stored records (`_transformDataFields`).
 */
module Diff {
  import opened Wrappers
  import opened Values
  import opened Records
  import opened FieldConfig
  import opened Revisions
  import opened Recorder

  /** An `['old' => ..., 'new' => ...]` pair of display values. */
  datatype Change = Change(oldValue: Value, newValue: Value)

  datatype Buckets = Buckets(changed: map<string, Change>, changedBefore: map<string, Change>, unchangedValues: map<string, Value>)

  /** The diff of a first revision is the empty array; any other has the three buckets. */
  datatype DiffResult = FirstRevision | Diff(buckets: Buckets)

  /**
   * The earlier revisions of the entry's entity, newest first: the store
   * keeps records in insertion order, so the matching records are listed
   * from the last one back.
   */
  function PreviousRevisions(records: seq<AuditRecord>, entry: AuditRecord): (r: seq<AuditRecord>)
    ensures forall x :: x in r <==> x in records && IsFor(x, entry.model, entry.foreignKey) && x.revision < entry.revision
    decreases |records|
  {
    if records == [] then []
    else
      var n := |records| - 1;
      assert records == records[..n] + [records[n]];
      var rest := PreviousRevisions(records[..n], entry);
      if IsFor(records[n], entry.model, entry.foreignKey) && records[n].revision < entry.revision then [records[n]] + rest
      else rest
  }

  /** Revisions never increase along the list. */
  predicate NewestFirst(r: seq<AuditRecord>)
  {
    forall i, j :: 0 <= i < j < |r| ==> r[i].revision >= r[j].revision
  }

  /** While revisions never decrease per entity, the earlier revisions come newest first. */
  lemma {:induction false} PreviousRevisionsNewestFirst(records: seq<AuditRecord>, entry: AuditRecord)
    requires Monotone(records)
    ensures NewestFirst(PreviousRevisions(records, entry))
    decreases |records|
  {
    if records != [] {
      var n := |records| - 1;
      var init := records[..n];
      MonotonePrefix(records, n);
      PreviousRevisionsNewestFirst(init, entry);
      var rest := PreviousRevisions(init, entry);
      if IsFor(records[n], entry.model, entry.foreignKey) && records[n].revision < entry.revision {
        LastIsNewest(records, entry);
        ConsNewestFirst(records[n], rest);
      } else {
        assert PreviousRevisions(records, entry) == rest;
      }
    }
  }

  lemma MonotonePrefix(records: seq<AuditRecord>, n: nat)
    requires Monotone(records) && n <= |records|
    ensures Monotone(records[..n])
  {
    var init := records[..n];
    forall i, j | 0 <= i < j < |init| && SameEntity(init[i], init[j]) ensures init[i].revision <= init[j].revision {
      assert init[i] == records[i] && init[j] == records[j];
    }
  }

  /** The last stored record of the entity is at least as new as every earlier one. */
  lemma LastIsNewest(records: seq<AuditRecord>, entry: AuditRecord)
    requires Monotone(records) && records != []
    requires IsFor(records[|records| - 1], entry.model, entry.foreignKey)
    ensures forall x :: x in PreviousRevisions(records[..|records| - 1], entry) ==> x.revision <= records[|records| - 1].revision
  {
    var n := |records| - 1;
    var init := records[..n];
    forall x | x in PreviousRevisions(init, entry) ensures x.revision <= records[n].revision {
      assert x in init;
      var m :| 0 <= m < |init| && init[m] == x;
      assert records[m] == x;
      assert SameEntity(records[m], records[n]);
    }
  }

  lemma ConsNewestFirst(x: AuditRecord, rest: seq<AuditRecord>)
    requires NewestFirst(rest)
    requires forall y :: y in rest ==> y.revision <= x.revision
    ensures NewestFirst([x] + rest)
  {
    var r := [x] + rest;
    forall i, j | 0 <= i < j < |r| ensures r[i].revision >= r[j].revision {
      assert r[j] == rest[j - 1];
      if i > 0 { assert r[i] == rest[i - 1]; }
    }
  }

  /** The revision records the field with a value other than `current`. */
  predicate Differs(rec: AuditRecord, f: string, current: Value)
  {
    IsSet(rec.data, f) && rec.data[f] != current
  }

  /** The newest earlier revision that records the field. */
  function FirstSet(prev: seq<AuditRecord>, f: string): (r: Option<nat>)
    ensures r.Some? ==> r.value < |prev| && IsSet(prev[r.value].data, f)
    ensures r.Some? ==> forall i :: 0 <= i < r.value ==> !IsSet(prev[i].data, f)
    ensures r.None? <==> forall i :: 0 <= i < |prev| ==> !IsSet(prev[i].data, f)
  {
    if prev == [] then None
    else if IsSet(prev[0].data, f) then Some(0)
    else match FirstSet(prev[1..], f)
      case None => None
      case Some(i) => Some(i + 1)
  }

  /** The newest earlier revision whose recorded value of the field differs from `current`. */
  function FirstDiffering(prev: seq<AuditRecord>, f: string, current: Value): (r: Option<nat>)
    ensures r.Some? ==> r.value < |prev| && Differs(prev[r.value], f, current)
    ensures r.Some? ==> forall i :: 0 <= i < r.value ==> !Differs(prev[i], f, current)
    ensures r.None? <==> forall i :: 0 <= i < |prev| ==> !Differs(prev[i], f, current)
  {
    if prev == [] then None
    else if Differs(prev[0], f, current) then Some(0)
    else match FirstDiffering(prev[1..], f, current)
      case None => None
      case Some(i) => Some(i + 1)
  }

  /** The configuration entry of a configured field. */
  function Spec(fields: seq<FieldSpec>, f: string): FieldSpec
    requires f in Names(fields)
  {
    fields[IndexOf(fields, f).value]
  }

  /** The live value of a field (`$currentEntity->{$fieldName}`). */
  function Current(live: Entity, f: string): Value
  {
    Get(live.fields, f)
  }

  /** Phase 1: the entry's configured fields that some earlier revision records. */
  function ChangedKeys(entry: AuditRecord, prev: seq<AuditRecord>, fields: seq<FieldSpec>): set<string>
  {
    set f | f in entry.data && f in Names(fields) && FirstSet(prev, f).Some?
  }

  /** Phase 2: the other configured fields some earlier revision recorded with a value other than the live one. */
  function BeforeKeys(entry: AuditRecord, prev: seq<AuditRecord>, fields: seq<FieldSpec>, live: Entity): set<string>
  {
    set f | f in Names(fields) && f !in ChangedKeys(entry, prev, fields) && FirstDiffering(prev, f, Current(live, f)).Some?
  }

  /** Phase 3: the remaining configured fields some earlier revision records. */
  function UnchangedKeys(entry: AuditRecord, prev: seq<AuditRecord>, fields: seq<FieldSpec>, live: Entity): set<string>
  {
    set f | f in Names(fields) && f !in ChangedKeys(entry, prev, fields) && f !in BeforeKeys(entry, prev, fields, live)
      && FirstSet(prev, f).Some?
  }

  /** Some field of `keys` has neither a display parser nor a type the registry knows. */
  predicate Undisplayable(keys: set<string>, fields: seq<FieldSpec>, env: Env)
    requires keys <= Names(fields)
  {
    exists f :: f in keys && !Displayable(Spec(fields, f), env)
  }

  /** The display form of a value of a configured field, with the live entity as parser subject. */
  function Shown(fields: seq<FieldSpec>, f: string, v: Value, entry: AuditRecord, live: Entity, env: Env): Value
    requires f in Names(fields) && Displayable(Spec(fields, f), env)
  {
    Display(Spec(fields, f), f, v, TrackedEntity(live), entry.model, env)
  }

  /** A `changed` entry: old value from the newest revision recording the field, new value from the entry. */
  function ChangedEntry(entry: AuditRecord, prev: seq<AuditRecord>, fields: seq<FieldSpec>, live: Entity, env: Env, f: string)
    : Change
    requires f in ChangedKeys(entry, prev, fields) && Displayable(Spec(fields, f), env)
  {
    Change(Shown(fields, f, prev[FirstSet(prev, f).value].data[f], entry, live, env),
           Shown(fields, f, entry.data[f], entry, live, env))
  }

  /** A `changedBefore` entry: old value from the newest revision that differs from the live value, new value the live one. */
  function BeforeEntry(entry: AuditRecord, prev: seq<AuditRecord>, fields: seq<FieldSpec>, live: Entity, env: Env, f: string)
    : Change
    requires f in BeforeKeys(entry, prev, fields, live) && Displayable(Spec(fields, f), env)
  {
    Change(Shown(fields, f, prev[FirstDiffering(prev, f, Current(live, f)).value].data[f], entry, live, env),
           Shown(fields, f, Current(live, f), entry, live, env))
  }

  /** Phase 1 of `buildDiff`. */
  function ChangedPhase(entry: AuditRecord, prev: seq<AuditRecord>, fields: seq<FieldSpec>, live: Entity, env: Env)
    : (r: Result<map<string, Change>, Error>)
    ensures r.Failure? <==> exists f :: f in ChangedKeys(entry, prev, fields) && !Displayable(Spec(fields, f), env)
    ensures r.Success? ==> r.value.Keys == ChangedKeys(entry, prev, fields)
  {
    var keys := ChangedKeys(entry, prev, fields);
    if Undisplayable(keys, fields, env) then Failure(ConfigurationError)
    else Success(map f | f in keys :: ChangedEntry(entry, prev, fields, live, env, f))
  }

  /** Phase 2 of `buildDiff`. */
  function BeforePhase(entry: AuditRecord, prev: seq<AuditRecord>, fields: seq<FieldSpec>, live: Entity, env: Env)
    : (r: Result<map<string, Change>, Error>)
    ensures r.Failure? <==> exists f :: f in BeforeKeys(entry, prev, fields, live) && !Displayable(Spec(fields, f), env)
    ensures r.Success? ==> r.value.Keys == BeforeKeys(entry, prev, fields, live)
  {
    var keys := BeforeKeys(entry, prev, fields, live);
    if Undisplayable(keys, fields, env) then Failure(ConfigurationError)
    else Success(map f | f in keys :: BeforeEntry(entry, prev, fields, live, env, f))
  }

  /** Phase 3 of `buildDiff`: the live value of every remaining recorded field. */
  function UnchangedPhase(entry: AuditRecord, prev: seq<AuditRecord>, fields: seq<FieldSpec>, live: Entity, env: Env)
    : (r: Result<map<string, Value>, Error>)
    ensures r.Failure? <==> exists f :: f in UnchangedKeys(entry, prev, fields, live) && !Displayable(Spec(fields, f), env)
    ensures r.Success? ==> r.value.Keys == UnchangedKeys(entry, prev, fields, live)
  {
    var keys := UnchangedKeys(entry, prev, fields, live);
    if Undisplayable(keys, fields, env) then Failure(ConfigurationError)
    else Success(map f | f in keys :: Shown(fields, f, Current(live, f), entry, live, env))
  }

  lemma ChangedPhaseFails(entry: AuditRecord, prev: seq<AuditRecord>, fields: seq<FieldSpec>, live: Entity, env: Env,
                          f: string)
    requires f in ChangedKeys(entry, prev, fields) && !Displayable(Spec(fields, f), env)
    ensures ChangedPhase(entry, prev, fields, live, env) == Failure(ConfigurationError)
  {
  }

  /** A map that agrees with phase 1 key by key is its result. */
  lemma ChangedPhaseIs(entry: AuditRecord, prev: seq<AuditRecord>, fields: seq<FieldSpec>, live: Entity, env: Env,
                       changed: map<string, Change>)
    requires forall f :: f in changed <==> f in ChangedKeys(entry, prev, fields)
    requires forall f :: f in changed ==>
      Displayable(Spec(fields, f), env) && changed[f] == ChangedEntry(entry, prev, fields, live, env, f)
    ensures ChangedPhase(entry, prev, fields, live, env) == Success(changed)
  {
    var keys := ChangedKeys(entry, prev, fields);
    assert !Undisplayable(keys, fields, env);
    assert changed == map f | f in keys :: ChangedEntry(entry, prev, fields, live, env, f);
  }

  lemma BeforePhaseFails(entry: AuditRecord, prev: seq<AuditRecord>, fields: seq<FieldSpec>, live: Entity, env: Env,
                         f: string)
    requires f in BeforeKeys(entry, prev, fields, live) && !Displayable(Spec(fields, f), env)
    ensures BeforePhase(entry, prev, fields, live, env) == Failure(ConfigurationError)
  {
  }

  /** A map that agrees with phase 2 key by key is its result. */
  lemma BeforePhaseIs(entry: AuditRecord, prev: seq<AuditRecord>, fields: seq<FieldSpec>, live: Entity, env: Env,
                      before: map<string, Change>)
    requires forall f :: f in before <==> f in BeforeKeys(entry, prev, fields, live)
    requires forall f :: f in before ==>
      Displayable(Spec(fields, f), env) && before[f] == BeforeEntry(entry, prev, fields, live, env, f)
    ensures BeforePhase(entry, prev, fields, live, env) == Success(before)
  {
    var keys := BeforeKeys(entry, prev, fields, live);
    assert !Undisplayable(keys, fields, env);
    assert before == map f | f in keys :: BeforeEntry(entry, prev, fields, live, env, f);
  }

  lemma UnchangedPhaseFails(entry: AuditRecord, prev: seq<AuditRecord>, fields: seq<FieldSpec>, live: Entity, env: Env,
                            f: string)
    requires f in UnchangedKeys(entry, prev, fields, live) && !Displayable(Spec(fields, f), env)
    ensures UnchangedPhase(entry, prev, fields, live, env) == Failure(ConfigurationError)
  {
  }

  /** A map that agrees with phase 3 key by key is its result. */
  lemma UnchangedPhaseIs(entry: AuditRecord, prev: seq<AuditRecord>, fields: seq<FieldSpec>, live: Entity, env: Env,
                         same: map<string, Value>)
    requires forall f :: f in same <==> f in UnchangedKeys(entry, prev, fields, live)
    requires forall f :: f in same ==>
      Displayable(Spec(fields, f), env) && same[f] == Shown(fields, f, Current(live, f), entry, live, env)
    ensures UnchangedPhase(entry, prev, fields, live, env) == Success(same)
  {
    var keys := UnchangedKeys(entry, prev, fields, live);
    assert !Undisplayable(keys, fields, env);
    assert same == map f | f in keys :: Shown(fields, f, Current(live, f), entry, live, env);
  }

  /** The fields that get a display conversion in some bucket. */
  function BucketKeys(entry: AuditRecord, prev: seq<AuditRecord>, fields: seq<FieldSpec>, live: Entity): (r: set<string>)
    ensures r <= Names(fields)
  {
    ChangedKeys(entry, prev, fields) + BeforeKeys(entry, prev, fields, live) + UnchangedKeys(entry, prev, fields, live)
  }

  /**
   * `buildDiff` before the key translation, given the earlier revisions
   * newest first and the live entity. It fails when a field that lands in
   * a bucket has no display conversion.
   */
  function RawDiff(entry: AuditRecord, prev: seq<AuditRecord>, fields: seq<FieldSpec>, live: Entity, env: Env)
    : (r: Result<DiffResult, Error>)
    ensures r == Success(FirstRevision) <==> entry.revision == 1
    ensures r.Failure? <==> entry.revision != 1 && Undisplayable(BucketKeys(entry, prev, fields, live), fields, env)
  {
    if entry.revision == 1 then Success(FirstRevision)
    else
      match ChangedPhase(entry, prev, fields, live, env)
      case Failure(e) => Failure(e)
      case Success(changed) =>
        match BeforePhase(entry, prev, fields, live, env)
        case Failure(e) => Failure(e)
        case Success(before) =>
          match UnchangedPhase(entry, prev, fields, live, env)
          case Failure(e) => Failure(e)
          case Success(same) => Success(Diff(Buckets(changed, before, same)))
  }

  /** The field is recorded by the earlier revision at `i`, and by none newer. */
  predicate NewestSetAt(prev: seq<AuditRecord>, f: string, i: int)
  {
    0 <= i < |prev| && IsSet(prev[i].data, f) && forall j :: 0 <= j < i ==> !IsSet(prev[j].data, f)
  }

  /** The earlier revision at `i` records a value other than `current`, and none newer does. */
  predicate NewestDifferingAt(prev: seq<AuditRecord>, f: string, current: Value, i: int)
  {
    0 <= i < |prev| && Differs(prev[i], f, current) && forall j :: 0 <= j < i ==> !Differs(prev[j], f, current)
  }

  predicate RecordedEarlier(prev: seq<AuditRecord>, f: string)
  {
    exists i :: 0 <= i < |prev| && IsSet(prev[i].data, f)
  }

  /**
   * `changed` holds exactly the entry's configured fields recorded by an
   * earlier revision, with the old value taken from the newest of them and
   * the new value from the entry.
   */
  lemma DiffChanged(entry: AuditRecord, prev: seq<AuditRecord>, fields: seq<FieldSpec>, live: Entity, env: Env, f: string)
    requires RawDiff(entry, prev, fields, live, env).Success?
    requires entry.revision != 1
    ensures var b := RawDiff(entry, prev, fields, live, env).value.buckets;
      && (f in b.changed <==> f in entry.data && f in Names(fields) && RecordedEarlier(prev, f))
      && (forall i :: f in b.changed && NewestSetAt(prev, f, i) ==>
            Displayable(Spec(fields, f), env) &&
            b.changed[f] == Change(Shown(fields, f, prev[i].data[f], entry, live, env),
                                   Shown(fields, f, entry.data[f], entry, live, env)))
  {
    var b := RawDiff(entry, prev, fields, live, env).value.buckets;
    assert b.changed == ChangedPhase(entry, prev, fields, live, env).value;
    if f in entry.data && f in Names(fields) && RecordedEarlier(prev, f) {
      var i :| 0 <= i < |prev| && IsSet(prev[i].data, f);
      assert FirstSet(prev, f).Some?;
    }
    forall i | f in b.changed && NewestSetAt(prev, f, i)
      ensures Displayable(Spec(fields, f), env)
      ensures b.changed[f] == Change(Shown(fields, f, prev[i].data[f], entry, live, env),
                                     Shown(fields, f, entry.data[f], entry, live, env))
    {
      var k := FirstSet(prev, f).value;
      assert !(k < i) && !(i < k);
    }
  }

  /**
   * `changedBefore` holds exactly the configured fields outside `changed`
   * that an earlier revision recorded with a value other than the live one;
   * the old value comes from the newest such revision (newer revisions that
   * agree with the live value are skipped), the new value is the live one.
   */
  lemma DiffChangedBefore(entry: AuditRecord, prev: seq<AuditRecord>, fields: seq<FieldSpec>, live: Entity, env: Env,
                          f: string)
    requires RawDiff(entry, prev, fields, live, env).Success?
    requires entry.revision != 1
    ensures var b := RawDiff(entry, prev, fields, live, env).value.buckets;
      var cur := Current(live, f);
      && (f in b.changedBefore <==>
            f in Names(fields) && f !in b.changed && exists i :: 0 <= i < |prev| && Differs(prev[i], f, cur))
      && (forall i :: f in b.changedBefore && NewestDifferingAt(prev, f, cur, i) ==>
            Displayable(Spec(fields, f), env) &&
            b.changedBefore[f] == Change(Shown(fields, f, prev[i].data[f], entry, live, env),
                                         Shown(fields, f, cur, entry, live, env)))
  {
    var b := RawDiff(entry, prev, fields, live, env).value.buckets;
    var cur := Current(live, f);
    assert b.changed == ChangedPhase(entry, prev, fields, live, env).value;
    assert b.changedBefore == BeforePhase(entry, prev, fields, live, env).value;
    if exists i :: 0 <= i < |prev| && Differs(prev[i], f, cur) {
      assert FirstDiffering(prev, f, cur).Some?;
    }
    forall i | f in b.changedBefore && NewestDifferingAt(prev, f, cur, i)
      ensures Displayable(Spec(fields, f), env)
      ensures b.changedBefore[f] == Change(Shown(fields, f, prev[i].data[f], entry, live, env),
                                           Shown(fields, f, cur, entry, live, env))
    {
      var k := FirstDiffering(prev, f, cur).value;
      assert !(k < i) && !(i < k);
    }
  }

  /**
   * `unchanged` holds exactly the configured fields outside the other two
   * buckets that an earlier revision records; every earlier revision that
   * records such a field agrees with the live value, which is what is shown.
   */
  lemma DiffUnchanged(entry: AuditRecord, prev: seq<AuditRecord>, fields: seq<FieldSpec>, live: Entity, env: Env,
                      f: string)
    requires RawDiff(entry, prev, fields, live, env).Success?
    requires entry.revision != 1
    ensures var b := RawDiff(entry, prev, fields, live, env).value.buckets;
      && (f in b.unchangedValues <==>
            f in Names(fields) && f !in b.changed && f !in b.changedBefore && RecordedEarlier(prev, f))
      && (f in b.unchangedValues ==>
            && (forall i :: 0 <= i < |prev| && IsSet(prev[i].data, f) ==> prev[i].data[f] == Current(live, f))
            && Displayable(Spec(fields, f), env)
            && b.unchangedValues[f] == Shown(fields, f, Current(live, f), entry, live, env))
  {
    var b := RawDiff(entry, prev, fields, live, env).value.buckets;
    assert b.changed == ChangedPhase(entry, prev, fields, live, env).value;
    assert b.changedBefore == BeforePhase(entry, prev, fields, live, env).value;
    assert b.unchangedValues == UnchangedPhase(entry, prev, fields, live, env).value;
    if RecordedEarlier(prev, f) {
      var i :| 0 <= i < |prev| && IsSet(prev[i].data, f);
      assert FirstSet(prev, f).Some?;
    }
    if f in b.unchangedValues {
      forall i | 0 <= i < |prev| && IsSet(prev[i].data, f) ensures prev[i].data[f] == Current(live, f) {
        assert !Differs(prev[i], f, Current(live, f));
      }
    }
  }

  /**
   * The buckets partition the configured fields recorded by an earlier
   * revision: each such field is in exactly one bucket, and no other field
   * is in any.
   */
  lemma DiffPartition(entry: AuditRecord, prev: seq<AuditRecord>, fields: seq<FieldSpec>, live: Entity, env: Env,
                      f: string)
    requires RawDiff(entry, prev, fields, live, env).Success?
    requires entry.revision != 1
    ensures var b := RawDiff(entry, prev, fields, live, env).value.buckets;
      && (f in b.changed || f in b.changedBefore || f in b.unchangedValues <==> f in Names(fields) && RecordedEarlier(prev, f))
      && !(f in b.changed && f in b.changedBefore)
      && !(f in b.changed && f in b.unchangedValues)
      && !(f in b.changedBefore && f in b.unchangedValues)
  {
    DiffChanged(entry, prev, fields, live, env, f);
    DiffChangedBefore(entry, prev, fields, live, env, f);
    DiffUnchanged(entry, prev, fields, live, env, f);
    var cur := Current(live, f);
    if exists i :: 0 <= i < |prev| && Differs(prev[i], f, cur) {
      var i :| 0 <= i < |prev| && Differs(prev[i], f, cur);
      assert IsSet(prev[i].data, f);
    }
  }

  /** `_translateFieldname`'s catalogue key: `<model, singular and underscored>.<field>`, lower case. */
  function LocaleSlug(field: string, model: string, env: Env): (r: string)
    ensures exists k :: 0 <= k < |r| && r[k] == '.' && r[k + 1..] == Lower(field)
  {
    var m := Lower(env.localeModel(model));
    assert (m + "." + Lower(field))[|m|] == '.';
    assert (m + "." + Lower(field))[|m| + 1..] == Lower(field);
    m + "." + Lower(field)
  }

  /** The translated field name, or the field name itself when the catalogue has no translation. */
  function TranslateFieldname(field: string, model: string, env: Env): (r: string)
    ensures env.translate(LocaleSlug(field, model, env)) == LocaleSlug(field, model, env) ==> r == field
    ensures env.translate(LocaleSlug(field, model, env)) != LocaleSlug(field, model, env) ==>
      r == env.translate(LocaleSlug(field, model, env))
  {
    var slug := LocaleSlug(field, model, env);
    var t := env.translate(slug);
    if slug == t then field else t
  }

  /**
   * `out` is `m` with keys renamed by `relabel` in some order: every entry of
   * `out` is an entry of `m` under its relabel, and a key labelled as itself
   * stays.
   */
  ghost predicate IsRenaming<V>(m: map<string, V>, out: map<string, V>, relabel: string -> string)
  {
    && (forall k :: k in out ==> exists g :: g in m && relabel(g) == k && out[k] == m[g])
    && (forall g :: g in m && relabel(g) == g ==> g in out)
  }

  /** No two keys share a relabel, and no key is labelled as another key. */
  ghost predicate CollisionFree<V>(m: map<string, V>, relabel: string -> string)
  {
    forall g, h :: g in m && h in m && g != h ==> relabel(g) != relabel(h) && relabel(g) != h
  }

  function Labels<V>(m: map<string, V>, relabel: string -> string): set<string>
  {
    set g | g in m :: relabel(g)
  }

  /** Every key of `m` is present in `out` under its relabel, with its value, and nothing else is. */
  ghost predicate RenamedExactly<V>(m: map<string, V>, out: map<string, V>, relabel: string -> string)
  {
    && out.Keys == Labels(m, relabel)
    && forall g :: g in m ==> relabel(g) in out && out[relabel(g)] == m[g]
  }

  /** When every key is labelled as itself, renaming changes nothing. */
  lemma RenamingIdentity<V>(m: map<string, V>, out: map<string, V>, relabel: string -> string)
    requires IsRenaming(m, out, relabel)
    requires forall g :: g in m ==> relabel(g) == g
    ensures out == m
  {
    forall k | k in out ensures k in m && out[k] == m[k] {
      var g :| g in m && relabel(g) == k && out[k] == m[g];
    }
  }

  /** A renaming never invents values: each value of `out` is a value of `m`. */
  lemma RenamingKeepsValues<V>(m: map<string, V>, out: map<string, V>, relabel: string -> string)
    requires IsRenaming(m, out, relabel)
    ensures out.Values <= m.Values
    ensures |out| <= |m|
  {
    forall v | v in out.Values ensures v in m.Values {
      var k :| k in out && out[k] == v;
      var g :| g in m && relabel(g) == k && out[k] == m[g];
    }
    assert out.Keys <= Labels(m, relabel);
    LabelsBound(m, relabel);
    SubsetCard(out.Keys, Labels(m, relabel));
  }

  lemma {:induction false} LabelsBound<V>(m: map<string, V>, relabel: string -> string)
    ensures |Labels(m, relabel)| <= |m|
    decreases |m|
  {
    if m != map[] {
      var g :| g in m;
      var rest := m - {g};
      LabelsBound(rest, relabel);
      assert Labels(m, relabel) <= Labels(rest, relabel) + {relabel(g)};
      SubsetCard(Labels(m, relabel), Labels(rest, relabel) + {relabel(g)});
    }
  }

  lemma SubsetCard<T>(a: set<T>, b: set<T>)
    requires a <= b
    ensures |a| <= |b|
  {
    assert b == a + (b - a);
  }

  /** The translation relabel of a diff: field names in the entry's model. */
  function Label(model: string, env: Env): string -> string
  {
    f => TranslateFieldname(f, model, env)
  }

  /** `out` is `raw` with every bucket's keys translated in some order; the first-revision result is kept as is. */
  ghost predicate TranslationOf(raw: DiffResult, out: DiffResult, relabel: string -> string)
  {
    match raw
    case FirstRevision => out == FirstRevision
    case Diff(b) =>
      && out.Diff?
      && IsRenaming(b.changed, out.buckets.changed, relabel)
      && IsRenaming(b.changedBefore, out.buckets.changedBefore, relabel)
      && IsRenaming(b.unchangedValues, out.buckets.unchangedValues, relabel)
  }

  /** Without any catalogue entry, translating a diff leaves it unchanged. */
  lemma UntranslatedDiff(raw: DiffResult, out: DiffResult, model: string, env: Env)
    requires TranslationOf(raw, out, Label(model, env))
    requires forall s :: env.translate(s) == s
    ensures out == raw
  {
    if raw.Diff? {
      var b := raw.buckets;
      var relabel := Label(model, env);
      assert forall g :: relabel(g) == g;
      RenamingIdentity(b.changed, out.buckets.changed, relabel);
      RenamingIdentity(b.changedBefore, out.buckets.changedBefore, relabel);
      RenamingIdentity(b.unchangedValues, out.buckets.unchangedValues, relabel);
    }
  }

  /** `_transformDataFields` converts the field: it is configured and searchable. */
  predicate IsShownField(fields: seq<FieldSpec>, f: string)
  {
    f in Names(fields) && Spec(fields, f).searchable
  }

  /**
   * The display form of one stored record's data: each searchable
   * configured field through its display parser (with the record as
   * subject) or its type's transformer; every other field as stored. It
   * fails when a searchable field has no display conversion.
   */
  function DisplayData(rec: AuditRecord, fields: seq<FieldSpec>, model: string, env: Env)
    : (r: Result<map<string, Value>, Error>)
    ensures r.Failure? <==> exists f :: f in rec.data && IsShownField(fields, f) && !Displayable(Spec(fields, f), env)
    ensures r.Success? ==> r.value.Keys == rec.data.Keys
    ensures r.Success? ==> forall f :: f in rec.data && !IsShownField(fields, f) ==> r.value[f] == rec.data[f]
    ensures r.Success? ==> forall f :: f in rec.data && IsShownField(fields, f) ==>
      Displayable(Spec(fields, f), env) &&
      r.value[f] == Display(Spec(fields, f), f, rec.data[f], HistoryRow(rec), model, env)
  {
    if exists f :: f in rec.data && IsShownField(fields, f) && !Displayable(Spec(fields, f), env) then Failure(ConfigurationError)
    else Success(map f | f in rec.data :: ShownInRecord(rec, fields, f, model, env))
  }

  /** The record with its data in display form. */
  function Displayed(rec: AuditRecord, fields: seq<FieldSpec>, model: string, env: Env): (r: AuditRecord)
    requires DisplayData(rec, fields, model, env).Success?
    ensures r.data.Keys == rec.data.Keys
    ensures r == rec.(data := r.data)
  {
    rec.(data := DisplayData(rec, fields, model, env).value)
  }

  /** The display form of one value of a stored record. */
  function ShownInRecord(rec: AuditRecord, fields: seq<FieldSpec>, f: string, model: string, env: Env): Value
    requires f in rec.data
    requires IsShownField(fields, f) ==> Displayable(Spec(fields, f), env)
  {
    if IsShownField(fields, f) then Display(Spec(fields, f), f, rec.data[f], HistoryRow(rec), model, env) else rec.data[f]
  }

  lemma DisplayDataFails(rec: AuditRecord, fields: seq<FieldSpec>, model: string, env: Env, f: string)
    requires f in rec.data && IsShownField(fields, f) && !Displayable(Spec(fields, f), env)
    ensures DisplayData(rec, fields, model, env) == Failure(ConfigurationError)
  {
  }

  /** A map that agrees with the display form key by key is it. */
  lemma DisplayDataIs(rec: AuditRecord, fields: seq<FieldSpec>, model: string, env: Env, d: map<string, Value>)
    requires d.Keys == rec.data.Keys
    requires forall f :: f in d ==>
      (IsShownField(fields, f) ==> Displayable(Spec(fields, f), env)) && d[f] == ShownInRecord(rec, fields, f, model, env)
    ensures DisplayData(rec, fields, model, env) == Success(d)
  {
    assert !exists f :: f in rec.data && IsShownField(fields, f) && !Displayable(Spec(fields, f), env);
    assert d == map f | f in rec.data :: ShownInRecord(rec, fields, f, model, env);
  }
}
