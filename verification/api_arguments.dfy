/** The pure rules inside `OpenshiftApiController`: which namespace an object
    goes to, the keyword arguments handed to the resource client for each CRUD
    call, and the shape of a "safe" read. The resource client itself is not
    modelled; whether a resource kind is namespaced is an input. */
module ApiArguments {
  import opened Wrappers
  import opened Document

  /** The parts of an object configuration the helpers read. */
  datatype ObjectConfig = ObjectConfig(data: Value, metadata: map<string, Value>)

  /** The controller's own state: the namespace it falls back to. */
  datatype Controller = Controller(defaultNamespace: Value)

  /** A keyword argument value: a document value, or a default-constructed
      `V1DeleteOptions`. */
  datatype Arg = ValueArg(v: Value) | DeleteOptionsArg

  /** Namespace precedence as a rule over an ordered list of candidates: the
      first candidate present wins, the controller default comes last. */
  function FirstPresent(candidates: seq<Option<Value>>, fallback: Value): (v: Value)
    ensures (forall i :: 0 <= i < |candidates| ==> candidates[i].None?) ==> v == fallback
    ensures forall i ::
      (0 <= i < |candidates| && candidates[i].Some? && forall j :: 0 <= j < i ==> candidates[j].None?)
      ==> v == candidates[i].value
  {
    if |candidates| == 0 then fallback
    else if candidates[0].Some? then candidates[0].value
    else FirstPresent(candidates[1..], fallback)
  }

  /** `__determine_namespace`. A `namespace` key in the metadata wins even when
      its value is null; a supplied default counts only when it is not null. */
  function DetermineNamespace(ctl: Controller, config: ObjectConfig, supplied: Value): (ns: Value)
    ensures "namespace" in config.metadata ==> ns == config.metadata["namespace"]
    ensures "namespace" !in config.metadata && supplied != VNull ==> ns == supplied
    ensures "namespace" !in config.metadata && supplied == VNull ==> ns == ctl.defaultNamespace
  {
    if "namespace" in config.metadata then Get(config.metadata, "namespace")
    else if supplied != VNull then supplied
    else ctl.defaultNamespace
  }

  /** The candidates of `__determine_namespace`, in order of precedence. */
  function NamespaceCandidates(config: ObjectConfig, supplied: Value): seq<Option<Value>> {
    [ if "namespace" in config.metadata then Some(config.metadata["namespace"]) else None,
      if supplied != VNull then Some(supplied) else None ]
  }

  /** The precedence rule and the first-present rule agree on every input, and
      the result is always one of the three sources. */
  lemma DetermineNamespaceIsFirstPresent(ctl: Controller, config: ObjectConfig, supplied: Value)
    ensures DetermineNamespace(ctl, config, supplied)
      == FirstPresent(NamespaceCandidates(config, supplied), ctl.defaultNamespace)
    ensures var ns := DetermineNamespace(ctl, config, supplied);
      ns == supplied || ns == ctl.defaultNamespace
      || ("namespace" in config.metadata && ns == config.metadata["namespace"])
  {
    var cs := NamespaceCandidates(config, supplied);
    assert cs[1..][1..] == [];
  }

  /** The value of a keyword argument, null when it is absent (the client's default). */
  function ValueOf(args: map<string, Arg>, key: string): Value {
    if key in args && args[key].ValueArg? then args[key].v else VNull
  }

  /** `__build_create_arguments`: the body is the object data; a namespace is
      passed exactly when the resource kind is namespaced. */
  function BuildCreateArguments(ctl: Controller, namespaced: bool, config: ObjectConfig, supplied: Value)
    : (args: map<string, Arg>)
    ensures "body" in args && args["body"] == ValueArg(config.data)
    ensures "namespace" in args <==> namespaced
    ensures namespaced ==> args["namespace"] == ValueArg(DetermineNamespace(ctl, config, supplied))
    ensures forall k :: k in args ==> k == "body" || k == "namespace"
  {
    var args := map["body" := ValueArg(config.data)];
    if namespaced then args["namespace" := ValueArg(DetermineNamespace(ctl, config, supplied))] else args
  }

  /** `__build_update_arguments`: the same rule as for create. */
  function BuildUpdateArguments(ctl: Controller, namespaced: bool, config: ObjectConfig, supplied: Value)
    : (args: map<string, Arg>)
    ensures "body" in args && args["body"] == ValueArg(config.data)
    ensures "namespace" in args <==> namespaced
    ensures namespaced ==> args["namespace"] == ValueArg(DetermineNamespace(ctl, config, supplied))
    ensures forall k :: k in args ==> k == "body" || k == "namespace"
  {
    var args := map["body" := ValueArg(config.data)];
    if namespaced then args["namespace" := ValueArg(DetermineNamespace(ctl, config, supplied))] else args
  }

  /** Create and update send identical arguments for identical inputs, and
      the client sees the object data and, for a namespaced kind, the resolved
      namespace (a cluster-scoped kind gets the client's null default). */
  lemma CreateUpdateArgumentsAgree(ctl: Controller, namespaced: bool, config: ObjectConfig, supplied: Value)
    ensures BuildUpdateArguments(ctl, namespaced, config, supplied) == BuildCreateArguments(ctl, namespaced, config, supplied)
    ensures var args := BuildCreateArguments(ctl, namespaced, config, supplied);
      && ValueOf(args, "body") == config.data
      && ValueOf(args, "namespace") == (if namespaced then DetermineNamespace(ctl, config, supplied) else VNull)
  {
  }

  /** `__build_read_arguments`: the name always, the namespace only when it is not null. */
  function BuildReadArguments(name: Value, namespace: Value): (args: map<string, Arg>)
    ensures "name" in args && args["name"] == ValueArg(name)
    ensures "namespace" in args <==> namespace != VNull
    ensures namespace != VNull ==> args["namespace"] == ValueArg(namespace)
    ensures forall k :: k in args ==> k == "name" || k == "namespace"
  {
    var args := map["name" := ValueArg(name)];
    if namespace != VNull then args["namespace" := ValueArg(namespace)] else args
  }

  /** `__build_delete_arguments`: the read arguments plus default delete options as the body. */
  function BuildDeleteArguments(name: Value, namespace: Value): (args: map<string, Arg>)
    ensures "name" in args && args["name"] == ValueArg(name)
    ensures "body" in args && args["body"] == DeleteOptionsArg
    ensures "namespace" in args <==> namespace != VNull
    ensures namespace != VNull ==> args["namespace"] == ValueArg(namespace)
    ensures forall k :: k in args ==> k == "name" || k == "body" || k == "namespace"
  {
    var args := map["name" := ValueArg(name), "body" := DeleteOptionsArg];
    if namespace != VNull then args["namespace" := ValueArg(namespace)] else args
  }

  /** Leaving the namespace out loses nothing: the client recovers the caller's
      name and namespace from the read and delete arguments, and a delete sends
      exactly what a read sends plus the delete options. */
  lemma ReadDeleteArgumentsRoundTrip(name: Value, namespace: Value)
    ensures ValueOf(BuildReadArguments(name, namespace), "name") == name
    ensures ValueOf(BuildReadArguments(name, namespace), "namespace") == namespace
    ensures BuildDeleteArguments(name, namespace) == BuildReadArguments(name, namespace)["body" := DeleteOptionsArg]
  {
  }

  /** What the resource client's `get` did: returned an object, raised
      `NotFoundError`, or raised something else. */
  datatype ReadOutcome<O, X> = Found(obj: O) | NotFound | Raised(err: X)

  /** `safe_read_object`: `(True, obj)` on success, `(False, None)` on
      not-found; any other exception propagates. */
  function SafeReadObject<O, X>(outcome: ReadOutcome<O, X>): (r: Result<(bool, Option<O>), X>)
    ensures r.Failure? <==> outcome.Raised?
    ensures r.Failure? ==> r.error == outcome.err
    ensures r.Success? ==> (r.value.0 <==> r.value.1.Some?)
    ensures r.Success? && r.value.1.Some? ==> outcome == Found(r.value.1.value)
    ensures outcome.Found? ==> r == Success((true, Some(outcome.obj)))
    ensures outcome.NotFound? ==> r == Success((false, None))
  {
    match outcome
    case Found(obj) => Success((true, Some(obj)))
    case NotFound => Success((false, None))
    case Raised(err) => Failure(err)
  }

  /** The outcome a caller reads back from the pair `safe_read_object` returns. */
  function OutcomeOf<O, X>(found: bool, obj: Option<O>): ReadOutcome<O, X>
    requires found <==> obj.Some?
  {
    if found then Found(obj.value) else NotFound
  }

  /** Not-found is never surfaced as an error, and the returned pair carries
      the read outcome without loss. */
  lemma SafeReadObjectRoundTrip<O, X>(outcome: ReadOutcome<O, X>)
    requires !outcome.Raised?
    ensures SafeReadObject(outcome).Success?
    ensures var p := SafeReadObject(outcome).value; OutcomeOf<O, X>(p.0, p.1) == outcome
  {
  }
}
