/**
 * Revision numbering per (model, foreign key) over the in-memory record
 * store, the model name derived from an entity's source, and the two store
 * invariants the numbering keeps.
 */
module Revisions {
  import opened Wrappers
  import opened Values
  import opened Records

  /** The record belongs to the history of (model, fk). */
  predicate IsFor(r: AuditRecord, model: string, fk: Value)
  {
    r.model == model && r.foreignKey == fk
  }

  predicate SameEntity(a: AuditRecord, b: AuditRecord)
  {
    a.model == b.model && a.foreignKey == b.foreignKey
  }

  /** How many records of (model, fk) the store holds. */
  function Count(records: seq<AuditRecord>, model: string, fk: Value): nat
  {
    if records == [] then 0
    else Count(records[..|records| - 1], model, fk) + (if IsFor(records[|records| - 1], model, fk) then 1 else 0)
  }

  /** The highest revision recorded for (model, fk), if any record exists. */
  function MaxRevision(records: seq<AuditRecord>, model: string, fk: Value): (m: Option<int>)
    ensures m.None? <==> forall i :: 0 <= i < |records| ==> !IsFor(records[i], model, fk)
    ensures m.Some? ==> forall i :: 0 <= i < |records| && IsFor(records[i], model, fk) ==> records[i].revision <= m.value
    ensures m.Some? ==> exists i :: 0 <= i < |records| && IsFor(records[i], model, fk) && records[i].revision == m.value
  {
    if records == [] then None
    else
      var last := records[|records| - 1];
      var before := MaxRevision(records[..|records| - 1], model, fk);
      if !IsFor(last, model, fk) then before
      else match before
        case None => Some(last.revision)
        case Some(b) => Some(if b < last.revision then last.revision else b)
  }

  /**
   * `getNextRevisionNumberForEntity`: 1 when (model, fk) has no record,
   * otherwise one more than its highest revision.
   */
  function NextRevision(records: seq<AuditRecord>, model: string, fk: Value): (r: int)
    ensures forall i :: 0 <= i < |records| && IsFor(records[i], model, fk) ==> records[i].revision < r
    ensures (forall i :: 0 <= i < |records| ==> !IsFor(records[i], model, fk)) ==> r == 1
    ensures (exists i :: 0 <= i < |records| && IsFor(records[i], model, fk)) ==>
      exists i :: 0 <= i < |records| && IsFor(records[i], model, fk) && records[i].revision == r - 1
  {
    match MaxRevision(records, model, fk)
    case None => 1
    case Some(m) => m + 1
  }

  /** `getEntityModel`: the source name with one trailing "Table" removed. */
  function EntityModel(source: string): (r: string)
    ensures |source| >= 5 && source[|source| - 5..] == "Table" ==> source == r + "Table"
    ensures !(|source| >= 5 && source[|source| - 5..] == "Table") ==> r == source
    ensures |r| <= |source| && r == source[..|r|]
  {
    if |source| >= 5 && source[|source| - 5..] == "Table" then source[..|source| - 5] else source
  }

  /**
   * Sequential numbering: each record's revision is one more than the
   * number of records of the same entity stored before it, so every
   * entity's revisions read 1, 2, 3, ... in storage order.
   */
  ghost predicate Numbered(records: seq<AuditRecord>)
  {
    forall i :: 0 <= i < |records| ==>
      records[i].revision == 1 + Count(records[..i], records[i].model, records[i].foreignKey)
  }

  /** Revisions never decrease along the history of one entity. */
  ghost predicate Monotone(records: seq<AuditRecord>)
  {
    forall i, j :: 0 <= i < j < |records| && SameEntity(records[i], records[j]) ==>
      records[i].revision <= records[j].revision
  }

  /** Revisions are positive. */
  ghost predicate Positive(records: seq<AuditRecord>)
  {
    forall i :: 0 <= i < |records| ==> records[i].revision >= 1
  }

  /** Under sequential numbering the next revision is the record count plus one. */
  lemma {:induction false} NextRevisionCounts(records: seq<AuditRecord>, model: string, fk: Value)
    requires Numbered(records)
    ensures NextRevision(records, model, fk) == 1 + Count(records, model, fk)
    decreases |records|
  {
    if records != [] {
      var n := |records| - 1;
      var init := records[..n];
      assert Numbered(init) by {
        forall i | 0 <= i < |init|
          ensures init[i].revision == 1 + Count(init[..i], init[i].model, init[i].foreignKey)
        {
          assert init[..i] == records[..i];
        }
      }
      NextRevisionCounts(init, model, fk);
      assert records[..n] == init;
      var mInit := MaxRevision(init, model, fk);
      if IsFor(records[n], model, fk) {
        assert records[n].revision == 1 + Count(init, model, fk);
        assert mInit.None? ==> Count(init, model, fk) == 0 by {
          if mInit.None? { NoRecordCountsZero(init, model, fk); }
        }
      }
    }
  }

  lemma {:induction false} NoRecordCountsZero(records: seq<AuditRecord>, model: string, fk: Value)
    requires forall i :: 0 <= i < |records| ==> !IsFor(records[i], model, fk)
    ensures Count(records, model, fk) == 0
    decreases |records|
  {
    if records != [] {
      NoRecordCountsZero(records[..|records| - 1], model, fk);
    }
  }

  /** Appending the next record of an entity keeps the numbering sequential. */
  lemma AppendNumbered(records: seq<AuditRecord>, r: AuditRecord)
    requires Numbered(records)
    requires r.revision == NextRevision(records, r.model, r.foreignKey)
    ensures Numbered(records + [r])
  {
    NextRevisionCounts(records, r.model, r.foreignKey);
    var all := records + [r];
    forall i | 0 <= i < |all|
      ensures all[i].revision == 1 + Count(all[..i], all[i].model, all[i].foreignKey)
    {
      if i < |records| {
        assert all[..i] == records[..i];
      } else {
        assert all[..i] == records;
      }
    }
  }

  /** Appending a record no older than its entity's stored ones keeps revisions monotone. */
  lemma AppendMonotone(records: seq<AuditRecord>, r: AuditRecord)
    requires Monotone(records)
    requires forall i :: 0 <= i < |records| && SameEntity(records[i], r) ==> records[i].revision <= r.revision
    ensures Monotone(records + [r])
  {
  }

  /** Appending a record with a positive revision keeps revisions positive. */
  lemma AppendPositive(records: seq<AuditRecord>, r: AuditRecord)
    requires Positive(records) && r.revision >= 1
    ensures Positive(records + [r])
  {
  }

  /** The next revision of an entity exceeds every stored one, and is at least 1. */
  lemma NextRevisionAbove(records: seq<AuditRecord>, r: AuditRecord)
    requires Positive(records)
    requires r.revision == NextRevision(records, r.model, r.foreignKey)
    ensures forall i :: 0 <= i < |records| && SameEntity(records[i], r) ==> records[i].revision < r.revision
    ensures r.revision >= 1
  {
    assert forall i :: 0 <= i < |records| && SameEntity(records[i], r) ==> IsFor(records[i], r.model, r.foreignKey);
  }

  /** Counting over a longer prefix never gives less. */
  lemma {:induction false} CountPrefixes(records: seq<AuditRecord>, a: nat, b: nat, model: string, fk: Value)
    requires a <= b <= |records|
    ensures Count(records[..a], model, fk) <= Count(records[..b], model, fk)
    ensures a < b && IsFor(records[a], model, fk) ==> Count(records[..a], model, fk) < Count(records[..b], model, fk)
    decreases b - a
  {
    if a < b {
      CountPrefixes(records, a + 1, b, model, fk);
      assert records[..a + 1][..a] == records[..a];
    }
  }

  /**
   * Under sequential numbering an entity's revisions strictly increase in
   * storage order, so its saves read 1, 2, 3, ...
   */
  lemma NumberedIncreasing(records: seq<AuditRecord>)
    requires Numbered(records)
    ensures forall i, j :: 0 <= i < j < |records| && SameEntity(records[i], records[j]) ==>
      records[i].revision < records[j].revision
    ensures Monotone(records)
  {
    forall i, j | 0 <= i < j < |records| && SameEntity(records[i], records[j])
      ensures records[i].revision < records[j].revision
    {
      CountPrefixes(records, i, j, records[j].model, records[j].foreignKey);
    }
  }
}
