/** The deployment-strategy model the parser builds: a strategy is an ordered
    list of compose scripts, each an ordered list of deploy tasks plus an
    opaque reverse descriptor. The task type `T` stays abstract: tasks are
    whatever the task factory (`DeployTask.on_read`) returns. */
module Strategy {
  import opened Document

  datatype ComposeScript<T> = ComposeScript(name: Value, deploy: seq<T>, reverse: Value)

  datatype DeploymentStrategy<T> = DeploymentStrategy(compose: seq<ComposeScript<T>>)

  /** Why a parse failed. Every case but `EntryNotMap` and `TaskRejected` is an
      `InvalidDeploymentStrategyError` in the source; `EntryNotMap` is the
      Python `AttributeError` raised when a compose entry is not a dict, and
      `TaskRejected` carries whatever the task factory raised. */
  datatype ParseError<E> =
    | ComposeNotList(found: Kind)
    | MissingName(entry: map<string, Value>)
    | DuplicateName(name: Value)
    | DeployNotList(found: Kind)
    | TaskNotMap(found: Kind)
    | TaskRejected(cause: E)
    | EntryNotMap(found: Kind)
  {
    predicate IsInvalidStrategyError() {
      !EntryNotMap? && !TaskRejected?
    }
  }

  /** The names of a list of scripts, in order. */
  function Names<T>(scripts: seq<ComposeScript<T>>): (ns: seq<Value>)
    ensures |ns| == |scripts|
    ensures forall i :: 0 <= i < |scripts| ==> ns[i] == scripts[i].name
  {
    if |scripts| == 0 then [] else [scripts[0].name] + Names(scripts[1..])
  }

  /** The strategy invariant: no two scripts share a name. */
  predicate NamesDistinct<T>(scripts: seq<ComposeScript<T>>) {
    forall i, j :: 0 <= i < j < |scripts| ==> scripts[i].name != scripts[j].name
  }

  /** Every script carries a name (the parser rejects a missing or null one). */
  predicate NamesPresent<T>(scripts: seq<ComposeScript<T>>) {
    forall i :: 0 <= i < |scripts| ==> scripts[i].name != VNull
  }

  predicate ValidStrategy<T>(s: DeploymentStrategy<T>) {
    NamesDistinct(s.compose) && NamesPresent(s.compose)
  }
}
