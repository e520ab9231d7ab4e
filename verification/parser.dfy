/** `DeploymentStrategyParser`: reads an untyped document into a
    `DeploymentStrategy`, stopping at the first violation. The task factory
    `DeployTask.on_read` is a parameter, `onRead`, which may fail with an error
    of its own type `E`; the parser propagates that failure unchanged. */
module Parser {
  import opened Wrappers
  import opened Document
  import opened Strategy

  /** A task definition the factory accepts: a map that `onRead` turns into a task. */
  predicate TaskDefReadable<T, E>(d: Value, onRead: map<string, Value> -> Result<T, E>) {
    d.VMap? && onRead(d.entries).Success?
  }

  /** `__read_deploy_task`: a definition that is not a dict is rejected before
      the factory sees it; a dict is handed to the factory unchanged. */
  function ReadDeployTask<T, E>(d: Value, onRead: map<string, Value> -> Result<T, E>)
    : (r: Result<T, ParseError<E>>)
    ensures r.Success? <==> TaskDefReadable(d, onRead)
    ensures r.Success? ==> onRead(d.entries) == Success(r.value)
    ensures !d.VMap? ==> r == Failure(TaskNotMap(KindOf(d)))
    ensures d.VMap? && onRead(d.entries).Failure? ==> r == Failure(TaskRejected(onRead(d.entries).error))
  {
    match d
    case VMap(m) =>
      (match onRead(m)
       case Success(t) => Success(t)
       case Failure(e) => Failure(TaskRejected(e)))
    case _ => Failure(TaskNotMap(KindOf(d)))
  }

  /** `defs[k]` is the first task definition the factory rejects, with error `e`. */
  predicate FirstBadTask<T, E(==)>(defs: seq<Value>, k: int, e: ParseError<E>, onRead: map<string, Value> -> Result<T, E>) {
    && 0 <= k < |defs|
    && (forall j :: 0 <= j < k ==> TaskDefReadable(defs[j], onRead))
    && ReadDeployTask(defs[k], onRead).Failure?
    && ReadDeployTask(defs[k], onRead).error == e
  }

  /** The loop over a `deploy` list: one task per definition, in list order,
      aborting at the first definition that cannot be read. */
  function ReadDeployTasks<T, E(==)>(defs: seq<Value>, onRead: map<string, Value> -> Result<T, E>)
    : (r: Result<seq<T>, ParseError<E>>)
    ensures r.Success? <==> forall k :: 0 <= k < |defs| ==> TaskDefReadable(defs[k], onRead)
    ensures r.Success? ==> |r.value| == |defs|
    ensures r.Success? ==> forall k :: 0 <= k < |defs| ==> onRead(defs[k].entries) == Success(r.value[k])
    ensures r.Failure? ==> exists k :: FirstBadTask(defs, k, r.error, onRead)
  {
    if |defs| == 0 then Success([])
    else
      var head := ReadDeployTask(defs[0], onRead);
      assert head.Failure? ==> FirstBadTask(defs, 0, head.error, onRead);
      var t :- head;
      match ReadDeployTasks(defs[1..], onRead)
      case Failure(e) =>
        FirstBadTaskShift(defs, e, onRead);
        Failure(e)
      case Success(rest) =>
        assert forall k :: 1 <= k < |defs| ==> defs[k] == defs[1..][k - 1];
        Success([t] + rest)
  }

  /** A first rejected definition of the tail, behind a readable head, is the
      first rejected definition of the whole list. */
  lemma FirstBadTaskShift<T, E>(defs: seq<Value>, e: ParseError<E>, onRead: map<string, Value> -> Result<T, E>)
    requires |defs| > 0 && TaskDefReadable(defs[0], onRead)
    requires exists k :: FirstBadTask(defs[1..], k, e, onRead)
    ensures exists k :: FirstBadTask(defs, k, e, onRead)
  {
    var k :| FirstBadTask(defs[1..], k, e, onRead);
    assert FirstBadTask(defs, k + 1, e, onRead);
  }

  /** The `deploy` field of a compose entry is acceptable: absent or null, or a
      list whose every definition the factory accepts. */
  predicate DeployFieldReadable<T, E>(entry: map<string, Value>, onRead: map<string, Value> -> Result<T, E>) {
    var f := Get(entry, "deploy");
    f == VNull || (f.VList? && forall k :: 0 <= k < |f.items| ==> TaskDefReadable(f.items[k], onRead))
  }

  /** `tasks` is what the factory makes of the entry's `deploy` field, one task
      per definition and in the same order; no field means no tasks. */
  predicate TasksRead<T(==), E>(entry: map<string, Value>, tasks: seq<T>, onRead: map<string, Value> -> Result<T, E>) {
    var f := Get(entry, "deploy");
    if f == VNull then tasks == []
    else
      && f.VList?
      && |tasks| == |f.items|
      && forall k :: 0 <= k < |tasks| ==> f.items[k].VMap? && onRead(f.items[k].entries) == Success(tasks[k])
  }

  /** `__read_compose_def`: the script takes the already checked name, the tasks
      read from `deploy`, and `reverse` exactly as written (null when absent). */
  function ReadComposeDef<T(==), E(==)>(name: Value, entry: map<string, Value>, onRead: map<string, Value> -> Result<T, E>)
    : (r: Result<ComposeScript<T>, ParseError<E>>)
    ensures r.Success? <==> DeployFieldReadable(entry, onRead)
    ensures r.Success? ==> r.value.name == name && r.value.reverse == Get(entry, "reverse")
    ensures r.Success? ==> TasksRead(entry, r.value.deploy, onRead)
    ensures Get(entry, "deploy") != VNull && !Get(entry, "deploy").VList?
      ==> r == Failure(DeployNotList(KindOf(Get(entry, "deploy"))))
    ensures Get(entry, "deploy").VList? && r.Failure?
      ==> exists k :: FirstBadTask(Get(entry, "deploy").items, k, r.error, onRead)
  {
    var deployDefs := Get(entry, "deploy");
    var tasks :-
      if deployDefs == VNull then Success([])
      else if deployDefs.VList? then ReadDeployTasks(deployDefs.items, onRead)
      else Failure(DeployNotList(KindOf(deployDefs)));
    Success(ComposeScript(name, tasks, Get(entry, "reverse")))
  }

  /** The name a compose entry declares; null when it is missing or not a dict. */
  function EntryName(d: Value): Value {
    if d.VMap? then Get(d.entries, "name") else VNull
  }

  /** One pass of the loop in `__read_compose`: the entry must be a dict (else
      Python raises `AttributeError` on `.get`), must name itself (a missing
      name is reported before any duplicate check), must not repeat a name in
      `seen`, and must read as a script. */
  function ReadComposeEntry<T(==), E(==)>(d: Value, seen: seq<Value>, onRead: map<string, Value> -> Result<T, E>)
    : (r: Result<ComposeScript<T>, ParseError<E>>)
    ensures r.Success? ==> d.VMap? && r.value.name == EntryName(d) && r.value.name != VNull && r.value.name !in seen
    ensures !d.VMap? ==> r == Failure(EntryNotMap(KindOf(d)))
    ensures d.VMap? && EntryName(d) == VNull ==> r == Failure(MissingName(d.entries))
    ensures d.VMap? && EntryName(d) != VNull && EntryName(d) in seen ==> r == Failure(DuplicateName(EntryName(d)))
  {
    if !d.VMap? then Failure(EntryNotMap(KindOf(d)))
    else
      var name := Get(d.entries, "name");
      if name == VNull then Failure(MissingName(d.entries))
      else if name in seen then Failure(DuplicateName(name))
      else ReadComposeDef(name, d.entries, onRead)
  }

  /** The loop of `__read_compose` over the `compose` list, with `seen` the names
      of the entries already read; the first entry that fails decides the error. */
  function ReadComposeEntries<T(==), E(==)>(defs: seq<Value>, seen: seq<Value>, onRead: map<string, Value> -> Result<T, E>)
    : (r: Result<seq<ComposeScript<T>>, ParseError<E>>)
    ensures r.Success? ==> |r.value| == |defs|
    ensures r.Success? ==> forall i :: 0 <= i < |defs| ==> r.value[i].name == EntryName(defs[i])
  {
    if |defs| == 0 then Success([])
    else
      var script :- ReadComposeEntry(defs[0], seen, onRead);
      var rest :- ReadComposeEntries(defs[1..], seen + [script.name], onRead);
      assert forall i :: 1 <= i < |defs| ==> defs[i] == defs[1..][i - 1];
      Success([script] + rest)
  }

  /** `__read_compose`: no `compose` (or a null one) means no scripts; anything
      else must be a list. */
  function ReadCompose<T(==), E(==)>(data: map<string, Value>, onRead: map<string, Value> -> Result<T, E>)
    : (r: Result<seq<ComposeScript<T>>, ParseError<E>>)
    ensures Get(data, "compose") == VNull ==> r == Success([])
    ensures Get(data, "compose") != VNull && !Get(data, "compose").VList?
      ==> r == Failure(ComposeNotList(KindOf(Get(data, "compose"))))
    ensures Get(data, "compose").VList? && r.Success?
      ==> |r.value| == |Get(data, "compose").items|
  {
    var composeDefs := Get(data, "compose");
    if composeDefs == VNull then Success([])
    else if !composeDefs.VList? then Failure(ComposeNotList(KindOf(composeDefs)))
    else ReadComposeEntries(composeDefs.items, [], onRead)
  }

  /** `read_dict`: the parser's entry point. */
  function ReadDict<T(==), E(==)>(data: map<string, Value>, onRead: map<string, Value> -> Result<T, E>)
    : (r: Result<DeploymentStrategy<T>, ParseError<E>>)
    ensures Get(data, "compose") == VNull ==> r == Success(DeploymentStrategy([]))
    ensures Get(data, "compose") != VNull && !Get(data, "compose").VList?
      ==> r == Failure(ComposeNotList(KindOf(Get(data, "compose"))))
  {
    var compose :- ReadCompose(data, onRead);
    Success(DeploymentStrategy(compose))
  }
}
