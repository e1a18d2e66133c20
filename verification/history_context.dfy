/**
 * The history context an entity carries into its audit records
 * (`HistoryContextTrait`): where a change came from (a shell command, a
 * controller request, or a named slug), set in one step after validation
 * and read back through three getters.
 */
module HistoryContext {
  import opened Wrappers
  import opened Values

  /** The context types with a branch of their own; any other allowed type needs a slug. */
  const ShellType: string := "shell"
  const ControllerType: string := "controller"
  const SlugType: string := "slug"

  /** The optional data object passed along with the type. */
  datatype DataObject =
    | NoObject
    | ShellObject(optionParser: Value, interactive: Value, shellParams: Value, command: Value, args: Value,
                  name: Value, plugin: Value, tasks: Value, taskNames: Value)
    | RequestObject(params: map<string, Value>, httpMethod: string)
    | OtherObject

  /** Why `setHistoryContext` throws. */
  datatype ContextError = NotAllowedType | ShellRequired | RequestRequired | SlugRequired

  /** What a successful call stores. */
  datatype ContextState = ContextState(context: map<string, Value>, slug: Option<string>, contextType: string)

  /** The keys a shell context records. */
  const ShellKeys: set<string> :=
    {"OptionParser", "interactive", "params", "command", "args", "name", "plugin", "tasks", "taskNames"}

  /** The shell's properties, under their own names. */
  function ShellContext(obj: DataObject): (c: map<string, Value>)
    requires obj.ShellObject?
    ensures c.Keys == ShellKeys
    ensures && c["OptionParser"] == obj.optionParser && c["interactive"] == obj.interactive
            && c["params"] == obj.shellParams && c["command"] == obj.command && c["args"] == obj.args
            && c["name"] == obj.name && c["plugin"] == obj.plugin && c["tasks"] == obj.tasks
            && c["taskNames"] == obj.taskNames
  {
    map["OptionParser" := obj.optionParser, "interactive" := obj.interactive, "params" := obj.shellParams,
        "command" := obj.command, "args" := obj.args, "name" := obj.name, "plugin" := obj.plugin,
        "tasks" := obj.tasks, "taskNames" := obj.taskNames]
  }

  /** The request's routing parameters and HTTP method. */
  function RequestContext(obj: DataObject): (c: map<string, Value>)
    requires obj.RequestObject?
    ensures c.Keys == {"params", "method"}
    ensures c["params"] == Dict(obj.params) && c["method"] == Str(obj.httpMethod)
  {
    map["params" := Dict(obj.params), "method" := Str(obj.httpMethod)]
  }

  /** The default slug of a controller context: `:plugin/:controller/:action` filled from the request parameters. */
  function DefaultSlug(params: map<string, Value>): (s: string)
    ensures var p, c, a := Text(Get(params, "plugin")), Text(Get(params, "controller")), Text(Get(params, "action"));
      && |s| == |p| + |c| + |a| + 2
      && s[..|p|] == p && s[|p|] == '/'
      && s[|p| + 1..|p| + 1 + |c|] == c && s[|p| + 1 + |c|] == '/'
      && s[|p| + 2 + |c|..] == a
  {
    var p, c, a := Text(Get(params, "plugin")), Text(Get(params, "controller")), Text(Get(params, "action"));
    SlashJoin(p, c, a);
    p + "/" + c + "/" + a
  }

  /** Where the three parts sit in `p/c/a`. */
  lemma SlashJoin(p: string, c: string, a: string)
    ensures var s := p + "/" + c + "/" + a;
      && |s| == |p| + |c| + |a| + 2
      && s[..|p|] == p && s[|p|] == '/'
      && s[|p| + 1..|p| + 1 + |c|] == c && s[|p| + 1 + |c|] == '/'
      && s[|p| + 2 + |c|..] == a
  {
    var s := p + "/" + c + "/" + a;
    var pc := p + "/" + c;
    assert s == pc + "/" + a;
    assert pc[..|p|] == p && pc[|p| + 1..] == c;
    assert s[..|pc|] == pc;
    assert s[|pc| + 1..] == a;
  }

  /** The fields `setHistoryContext` adds in front of the type-specific context. */
  function BaseContext(contextType: string, className: string): (b: map<string, Value>)
    ensures b.Keys == {"type", "namespace"}
    ensures b["type"] == Str(contextType) && b["namespace"] == Str(className)
  {
    map["type" := Str(contextType), "namespace" := Str(className)]
  }

  /**
   * What `setHistoryContext(type, obj, slug)` stores, or why it throws.
   * `allowed` are the registered context types; `className` is the class
   * of the entity.
   */
  function ResolveContext(contextType: string, obj: DataObject, slug: Option<string>, allowed: set<string>,
                          className: string): (r: Result<ContextState, ContextError>)
    ensures r == Failure(NotAllowedType) <==> contextType !in allowed
    ensures contextType in allowed && contextType == ShellType ==>
      (r.Failure? <==> !obj.ShellObject?) && (r.Failure? ==> r.error == ShellRequired)
    ensures contextType in allowed && contextType == ControllerType ==>
      (r.Failure? <==> !obj.RequestObject?) && (r.Failure? ==> r.error == RequestRequired)
    ensures contextType in allowed && contextType != ShellType && contextType != ControllerType ==>
      (r.Failure? <==> slug.None?) && (r.Failure? ==> r.error == SlugRequired)
    ensures r.Success? ==>
      && r.value.contextType == contextType
      && "type" in r.value.context && r.value.context["type"] == Str(contextType)
      && "namespace" in r.value.context && r.value.context["namespace"] == Str(className)
    ensures r.Success? && contextType == ShellType ==>
      && r.value.slug == slug
      && r.value.context.Keys == {"type", "namespace"} + ShellKeys
      && forall k :: k in ShellKeys ==> r.value.context[k] == ShellContext(obj)[k]
    ensures r.Success? && contextType == ControllerType ==>
      && r.value.slug == (if slug.Some? then slug else Some(DefaultSlug(obj.params)))
      && r.value.context.Keys == {"type", "namespace", "params", "method"}
      && r.value.context["params"] == Dict(obj.params)
      && r.value.context["method"] == Str(obj.httpMethod)
    ensures r.Success? && contextType != ShellType && contextType != ControllerType ==>
      r.value.slug == slug && r.value.context.Keys == {"type", "namespace"}
  {
    if contextType !in allowed then Failure(NotAllowedType)
    else if contextType == ShellType then
      if !obj.ShellObject? then Failure(ShellRequired)
      else Success(ContextState(BaseContext(contextType, className) + ShellContext(obj), slug, contextType))
    else if contextType == ControllerType then
      if !obj.RequestObject? then Failure(RequestRequired)
      else
        var s := if slug.Some? then slug else Some(DefaultSlug(obj.params));
        Success(ContextState(BaseContext(contextType, className) + RequestContext(obj), s, contextType))
    else if slug.None? then Failure(SlugRequired)
    else Success(ContextState(BaseContext(contextType, className), slug, contextType))
  }

  /** The three stored fields of an entity using the trait. */
  class HistoryContext {
    /** `get_class($this)`. */
    const className: string
    /** The keys of `ModelHistory::getContextTypes()`. */
    const contextTypes: set<string>

    var context: Option<map<string, Value>>
    var contextSlug: Option<string>
    var contextType: Option<string>

    /** Either nothing is set, or a context of an allowed type that records its type and class. */
    ghost predicate Valid()
      reads this
    {
      && (context.Some? <==> contextType.Some?)
      && (contextType.Some? ==>
            && contextType.value in contextTypes
            && "type" in context.value && context.value["type"] == Str(contextType.value)
            && "namespace" in context.value && context.value["namespace"] == Str(className))
    }

    constructor (className: string, contextTypes: set<string>)
      ensures this.className == className && this.contextTypes == contextTypes
      ensures context.None? && contextSlug.None? && contextType.None?
      ensures Valid()
    {
      this.className := className;
      this.contextTypes := contextTypes;
      context := None;
      contextSlug := None;
      contextType := None;
    }

    /**
     * `setHistoryContext`: validates the type and the data object or slug
     * it needs (the checks `ResolveContext` states), then sets all three
     * fields at once; on error nothing changes.
     */
    method SetHistoryContext(newType: string, obj: DataObject, slug: Option<string>) returns (err: Option<ContextError>)
      requires Valid()
      modifies this
      ensures Valid()
      ensures var r := ResolveContext(newType, obj, slug, contextTypes, className);
        && (r.Failure? ==> err == Some(r.error) && unchanged(this))
        && (r.Success? ==>
              && err.None?
              && GetHistoryContext() == Some(r.value.context)
              && GetHistoryContextSlug() == r.value.slug
              && GetHistoryContextType() == Some(newType))
    {
      var r := ResolveContext(newType, obj, slug, contextTypes, className);
      if r.Failure? {
        return Some(r.error);
      }
      context := Some(r.value.context);
      contextSlug := r.value.slug;
      contextType := Some(newType);
      err := None;
    }

    /** `getHistoryContext`: the stored context, None before any successful call. */
    function GetHistoryContext(): (r: Option<map<string, Value>>)
      reads this
      ensures r == context
    {
      context
    }

    /** `getHistoryContextSlug`. */
    function GetHistoryContextSlug(): (r: Option<string>)
      reads this
      ensures r == contextSlug
    {
      contextSlug
    }

    /** `getHistoryContextType`. */
    function GetHistoryContextType(): (r: Option<string>)
      reads this
      ensures r == contextType
    {
      contextType
    }
  }
}
