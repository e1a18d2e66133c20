/**
 * The rows of the `model_history` table, the tracked entity as the recorder
 * sees it, and the table's validation rule.
 */
module Records {
  import opened Wrappers
  import opened Values

  datatype Action = Create | Update | Delete | Comment

  /**
   * A tracked entity. `fields` holds every property, hidden ones included;
   * `source` is the table alias the entity came from (e.g. "ArticlesTable").
   * The three context fields are what the entity's history-context getters
   * return (all None for an entity without them).
   */
  datatype Entity = Entity(
    source: string,
    id: Value,
    fields: map<string, Value>,
    hidden: set<string>,
    saveHash: Value,
    context: Option<map<string, Value>>,
    contextType: Option<string>,
    contextSlug: Option<string>)

  /** One audit record, a row of `model_history`. */
  datatype AuditRecord = AuditRecord(
    model: string,
    foreignKey: Value,
    action: Action,
    data: map<string, Value>,
    context: Option<map<string, Value>>,
    contextType: Option<string>,
    contextSlug: Option<string>,
    saveHash: Value,
    userId: Option<string>,
    revision: int)

  /**
   * The custom rule on `data` in the default validator: a record passes
   * unless its action is comment and its comment text is empty in PHP's
   * sense (missing, null, "" or "0").
   */
  predicate PassesValidation(action: Action, data: map<string, Value>): (ok: bool)
    ensures action != Comment ==> ok
    ensures action == Comment && ("comment" !in data || data["comment"] == Null) ==> !ok
    ensures action == Comment && "comment" in data && data["comment"].Str? ==>
      (ok <==> data["comment"].s != "" && data["comment"].s != "0")
  {
    action != Comment || !IsEmpty(Get(data, "comment"))
  }

  lemma CommentRule(action: Action, data: map<string, Value>)
    ensures !PassesValidation(action, data) <==> action == Comment && IsEmpty(Get(data, "comment"))
    ensures action == Comment && "comment" !in data ==> !PassesValidation(action, data)
    ensures action == Comment ==> !PassesValidation(action, data["comment" := Str("0")])
    ensures forall s: string :: s != "" && s != "0" ==> PassesValidation(action, data["comment" := Str(s)])
  {
  }
}
