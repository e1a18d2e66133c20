/**
 * Per-model field configuration and the collaborators the engine consumes
 * through narrow interfaces: the type-keyed transformer registry, the
 * inflector and the translation catalogue. They are opaque functions here.
 */
module FieldConfig {
  import opened Wrappers
  import opened Values
  import opened Records

  /** What a display parser receives as its third argument. */
  datatype Subject = TrackedEntity(entity: Entity) | HistoryRow(row: AuditRecord)

  /** One entry of a model's field configuration. */
  datatype FieldSpec = FieldSpec(
    name: string,
    typ: Option<string>,
    saveable: bool,
    searchable: bool,
    obfuscated: bool,
    associationKey: Option<string>,
    saveParser: Option<(string, Value, Entity) -> Value>,
    displayParser: Option<(string, Value, Subject) -> Value>)

  /**
   * The external collaborators.
   * - transformTypes: the types the transformer registry knows; any other
   *   type makes the registry throw.
   * - save(type, field, config, entity): a transformer's save conversion.
   * - display(type, field, value, model): a transformer's display conversion.
   * - associationTable(field): the related table's alias derived from an
   *   association field name (camelized plural of the name without "_id").
   * - localeModel(model): the singular, underscored form of a model name.
   * - translate(slug): the catalogue lookup; it returns the slug unchanged
   *   when there is no translation.
   */
  datatype Env = Env(
    transformTypes: set<string>,
    save: (string, string, FieldSpec, Entity) -> Value,
    display: (string, string, Value, string) -> Value,
    associationTable: string -> string,
    localeModel: string -> string,
    translate: string -> string)

  const AssociationType: string := "association"

  /** The names the configuration declares. */
  function Names(fields: seq<FieldSpec>): set<string>
  {
    set j | 0 <= j < |fields| :: fields[j].name
  }

  /** A configuration is a PHP associative array: no name occurs twice. */
  predicate DistinctNames(fields: seq<FieldSpec>)
  {
    forall i, j :: 0 <= i < j < |fields| ==> fields[i].name != fields[j].name
  }

  /** `isset($fieldConfig[$name])`: the position of the entry for a name. */
  function IndexOf(fields: seq<FieldSpec>, name: string): (r: Option<nat>)
    ensures r.Some? ==> r.value < |fields| && fields[r.value].name == name
    ensures r.None? <==> name !in Names(fields)
    ensures r.Some? && DistinctNames(fields) ==>
      forall j :: 0 <= j < |fields| && fields[j].name == name ==> j == r.value
  {
    if fields == [] then None
    else if fields[0].name == name then Some(0)
    else match IndexOf(fields[1..], name)
      case None => None
      case Some(j) => Some(j + 1)
  }

  /** `getSaveableFields()`: the entries whose saveable flag is set, in order. */
  function Saveable(fields: seq<FieldSpec>): (r: seq<FieldSpec>)
    ensures |r| <= |fields|
    ensures forall i :: 0 <= i < |r| ==> r[i].saveable
  {
    if fields == [] then []
    else if fields[0].saveable then [fields[0]] + Saveable(fields[1..])
    else Saveable(fields[1..])
  }

  /** An entry is kept exactly when it is configured and saveable. */
  lemma {:induction false} SaveableMembers(fields: seq<FieldSpec>)
    ensures forall f :: f in Saveable(fields) <==> f in fields && f.saveable
    decreases |fields|
  {
    if fields != [] {
      SaveableMembers(fields[1..]);
      assert fields == [fields[0]] + fields[1..];
      forall f ensures f in fields <==> f == fields[0] || f in fields[1..] {
      }
    }
  }

  /** One entry in front: it is kept exactly when it is saveable. */
  lemma SaveableCons(f: FieldSpec, rest: seq<FieldSpec>)
    ensures Saveable([f] + rest) == (if f.saveable then [f] else []) + Saveable(rest)
  {
    var fs := [f] + rest;
    assert fs[0] == f && fs[1..] == rest;
  }

  /**
   * Filtering distributes over concatenation: the saveable entries of a
   * list are those of its first part followed by those of the rest, so
   * their relative order is the declared one.
   */
  lemma {:induction false} SaveableConcat(a: seq<FieldSpec>, b: seq<FieldSpec>)
    ensures Saveable(a + b) == Saveable(a) + Saveable(b)
    decreases |a|
  {
    if a == [] {
      assert a + b == b;
    } else {
      assert a + b == [a[0]] + (a[1..] + b);
      assert a == [a[0]] + a[1..];
      SaveableCons(a[0], a[1..] + b);
      SaveableCons(a[0], a[1..]);
      SaveableConcat(a[1..], b);
    }
  }

  /** A name is among the saveable entries exactly when a saveable entry declares it. */
  lemma SaveableNames(fields: seq<FieldSpec>, n: string)
    ensures n in Names(Saveable(fields)) <==> exists j :: 0 <= j < |fields| && fields[j].saveable && fields[j].name == n
  {
    var r := Saveable(fields);
    SaveableMembers(fields);
    if n in Names(r) {
      var j :| 0 <= j < |r| && r[j].name == n;
      assert r[j] in r;
      var k :| 0 <= k < |fields| && fields[k] == r[j];
    }
    if j :| 0 <= j < |fields| && fields[j].saveable && fields[j].name == n {
      assert fields[j] in r;
      var k :| 0 <= k < |r| && r[k] == fields[j];
    }
  }

  /** No saveable entry after the first shares the first entry's name. */
  lemma SaveableTailFresh(fields: seq<FieldSpec>)
    requires fields != [] && DistinctNames(fields)
    ensures forall f :: f in Saveable(fields[1..]) ==> f.name != fields[0].name
  {
    SaveableMembers(fields[1..]);
    forall f | f in Saveable(fields[1..]) ensures f.name != fields[0].name {
      var j :| 0 <= j < |fields[1..]| && fields[1..][j] == f;
      assert fields[j + 1] == f;
    }
  }

  /** Putting an entry with a fresh name in front keeps the names distinct. */
  lemma ConsDistinct(f: FieldSpec, rest: seq<FieldSpec>)
    requires DistinctNames(rest)
    requires forall g :: g in rest ==> g.name != f.name
    ensures DistinctNames([f] + rest)
  {
    var r := [f] + rest;
    forall i, j | 0 <= i < j < |r| ensures r[i].name != r[j].name {
      assert r[j] == rest[j - 1];
      if i == 0 { assert rest[j - 1] in rest; } else { assert r[i] == rest[i - 1]; }
    }
  }

  /** Filtering keeps the names distinct. */
  lemma {:induction false} SaveableDistinct(fields: seq<FieldSpec>)
    requires DistinctNames(fields)
    ensures DistinctNames(Saveable(fields))
    decreases |fields|
  {
    if fields != [] {
      assert DistinctNames(fields[1..]);
      SaveableDistinct(fields[1..]);
      if fields[0].saveable {
        SaveableTailFresh(fields);
        ConsDistinct(fields[0], Saveable(fields[1..]));
      }
    }
  }

  /**
   * A display conversion is available: the field has its own display
   * parser, or its type is one the registry knows.
   */
  predicate Displayable(spec: FieldSpec, env: Env)
  {
    spec.displayParser.Some? || (spec.typ.Some? && spec.typ.value in env.transformTypes)
  }

  /**
   * The human-readable form of a stored value: the field's display parser
   * when it has one, else its type's transformer.
   */
  function Display(spec: FieldSpec, field: string, v: Value, subject: Subject, model: string, env: Env): (r: Value)
    requires Displayable(spec, env)
    ensures spec.displayParser.Some? ==> r == spec.displayParser.value(field, v, subject)
    ensures spec.displayParser.None? ==> r == env.display(spec.typ.value, field, v, model)
  {
    match spec.displayParser
    case Some(parse) => parse(field, v, subject)
    case None => env.display(spec.typ.value, field, v, model)
  }
}
