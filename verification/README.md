# Deployment-strategy parser and OpenShift API argument rules, in Dafny

This project models two pieces of the Kubernetes driver's KEGD component
(Kubernetes Entity Group Deployment).

**The deployment-strategy parser** (`DeploymentStrategyParser`) turns an untyped
YAML/JSON document into a `DeploymentStrategy`. A strategy is an ordered list of
uniquely named `ComposeScript`s. Each script holds an ordered list of deploy
tasks and an opaque `reverse` descriptor. The parser stops at the first
violation and then returns no strategy at all.

**The argument rules of `OpenshiftApiController`** decide which namespace an
object goes to. They also assemble the keyword arguments for the resource
client's create, update, read and delete calls, and give the shape of
`safe_read_object`'s answer.

Files:

- `wrappers.dfy`: `Result` and `Option`. A Python call that returns or raises becomes a `Result`.
- `document.dfy`: the loaded document as a `Value` (`VNull` is `None`), its runtime `Kind`, and `dict.get` as `Get`.
- `strategy.dfy`: `ComposeScript`, `DeploymentStrategy`, the parser's errors, and the strategy invariant (`ValidStrategy`: names present and pairwise distinct).
- `parser.dfy`: the parser, one function per method of the source class.
- `parser_properties.dfy`: a description of an acceptable `compose` list that does not mention the parser, and lemmas relating it to the parser. These cover acceptance if and only if well-formed, one script per entry in entry order, composition over list concatenation, fail-fast errors, and missing-name versus duplicate-name reporting.
- `parser_scenarios.dfy`: concrete documents and their outcomes.
- `api_arguments.dfy`: namespace precedence, the argument maps, and `safe_read_object`.

The task factory `DeployTask.on_read` is a parameter, `onRead`. It is a total
function from a string-keyed map to `Result<T, E>`, where the task type `T`
and its error type `E` stay abstract. The parser hands each dict entry to it
unchanged and propagates its failure as `TaskRejected`.

Three behaviours of the code are easy to misread; the model follows the code as written:

- A compose entry that is not a dict is not reported as an invalid strategy. The code calls `.get` on it, which raises Python's `AttributeError`. The model reports it as the separate error `EntryNotMap`, and `ParseError.IsInvalidStrategyError` is false for it.
- A compose name only has to be non-null. An empty string, a number or a list is accepted as a name. Names are compared with equality.
- A metadata `namespace` key wins even when its value is null. The resolved namespace is then null.

## Model

| member | source | states |
|---|---|---|
| Parser.ReadDeployTask | kubedriver/kegd/model/parser.py:45-48 | A non-dict task definition fails with `TaskNotMap` and the actual kind. A dict succeeds exactly when the factory accepts it, with the factory's task; a factory failure is propagated as `TaskRejected`. |
| Parser.ReadDeployTasks | kubedriver/kegd/model/parser.py:40-41 | Succeeds exactly when every definition is readable. On success there is one task per definition, the factory's task for that definition, at the same index. On failure the error is that of the first unreadable definition, all earlier ones being readable. |
| Parser.ReadComposeDef | kubedriver/kegd/model/parser.py:34-43 | Succeeds exactly when `deploy` is absent/null or a list of readable definitions. A non-null non-list `deploy` fails with `DeployNotList`. The script keeps the given name, gets `reverse` unchanged (null when absent), and gets the tasks read in order (none when `deploy` is absent). |
| Parser.ReadComposeEntry | kubedriver/kegd/model/parser.py:23-31 | A non-dict entry fails with `EntryNotMap`. A null or missing name fails with `MissingName`. A name already seen fails with `DuplicateName`. A script read from the entry carries the entry's non-null, unseen name. |
| Parser.ReadComposeEntries | kubedriver/kegd/model/parser.py:22-31 | On success there is one script per entry, and the i-th script's name is the i-th entry's name. |
| Parser.ReadCompose | kubedriver/kegd/model/parser.py:16-32 | An absent or null `compose` gives no scripts. A non-null non-list `compose` fails with `ComposeNotList` and the actual kind. An accepted list gives one script per entry. |
| Parser.ReadDict | kubedriver/kegd/model/parser.py:12-21 | A document without `compose`, or with a null one, gives an empty strategy. A non-null non-list `compose` fails with `ComposeNotList` and the actual kind. |
| ParserProperties.ReadComposeEntryCorrect | kubedriver/kegd/model/parser.py:23-31 | One entry passes the loop body exactly when it is a well-formed dict whose name is new, and it then yields the script it describes. |
| ParserProperties.ReadComposeEntriesCorrect | kubedriver/kegd/model/parser.py:22-31 | The loop accepts exactly the well-formed lists: dict entries, names present, no name repeated or seen before, deploy fields readable. It then yields, at each index, the script that entry describes. |
| ParserProperties.ReadComposeEntriesAppend | kubedriver/kegd/model/parser.py:22-31 | Reading `a + b` means reading `a`, then reading `b` with `a`'s names already seen. An error in `a` decides the outcome. |
| ParserProperties.ReadComposeEntriesFailFast | kubedriver/kegd/model/parser.py:23-31 | A failed read fails with the error of the first entry that turns an accepted prefix into a rejected one. |
| ParserProperties.MissingNameReported | kubedriver/kegd/model/parser.py:24-26 | A nameless dict entry behind an accepted prefix fails with `MissingName` for that entry. |
| ParserProperties.DuplicateNameReported | kubedriver/kegd/model/parser.py:27-30 | A dict entry repeating an earlier entry's name, behind an accepted prefix, fails with `DuplicateName` for that name, whatever its other fields are. |
| ParserProperties.NoEntryNotMapForDictEntries | kubedriver/kegd/model/parser.py:23-24 | When every compose entry is a dict, every failure is an invalid-strategy error or the task factory's own error, never the `AttributeError`-like `EntryNotMap`. |
| ParserProperties.ReadDictCorrect | kubedriver/kegd/model/parser.py:12-32 | A document is accepted exactly when `compose` is absent, null, or a well-formed list. An accepted document yields a valid strategy (names present and pairwise distinct) with one script per entry, in entry order, each the script its entry describes. A rejected list fails with the error of its first bad entry. |
| ParserScenarios.SingleNamedScript | kubedriver/kegd/model/parser.py:12-43 | `{"compose": [{"name": "db"}]}` gives one script `db` with no tasks and a null reverse. |
| ParserScenarios.DuplicateDb | kubedriver/kegd/model/parser.py:27-28 | A second `db` entry fails as a duplicate once the first entry's task is accepted. |
| ParserScenarios.NamelessEntry | kubedriver/kegd/model/parser.py:24-26 | `{"compose": [{"deploy": []}]}` fails with `MissingName`. |
| ParserScenarios.StringTask | kubedriver/kegd/model/parser.py:45-47 | A string deploy entry fails with `TaskNotMap(StrKind)`. |
| ParserScenarios.NamesKeepOrder | kubedriver/kegd/model/parser.py:23-31 | Entries named `a`, `b`, `c` give scripts named `a`, `b`, `c` in that order. |
| ApiArguments.DetermineNamespace | kubedriver/kubeclient/os_api_ctl.py:136-142 | Precedence: a metadata `namespace` key wins, even when its value is null. Otherwise a non-null supplied default wins. Otherwise the controller's default namespace is used. |
| ApiArguments.DetermineNamespaceIsFirstPresent | kubedriver/kubeclient/os_api_ctl.py:136-142 | The precedence equals "first present candidate, controller default last". The result is always the metadata namespace, the supplied default or the controller default. |
| ApiArguments.BuildCreateArguments | kubedriver/kubeclient/os_api_ctl.py:57-63 | `body` is the object data. `namespace` is present exactly when the kind is namespaced, and then holds the resolved namespace. No other keys appear. |
| ApiArguments.BuildUpdateArguments | kubedriver/kubeclient/os_api_ctl.py:77-83 | The same as create: `body` is the data, and `namespace` is present exactly when namespaced, holding the resolved namespace. No other keys appear. |
| ApiArguments.CreateUpdateArgumentsAgree | kubedriver/kubeclient/os_api_ctl.py:57-83 | Create and update build identical argument maps. The client reads back the data, and the resolved namespace for a namespaced kind or null otherwise. |
| ApiArguments.BuildReadArguments | kubedriver/kubeclient/os_api_ctl.py:104-110 | `name` is always present. `namespace` is present exactly when the given namespace is not null. No other keys appear. |
| ApiArguments.BuildDeleteArguments | kubedriver/kubeclient/os_api_ctl.py:123-130 | `name` and a default delete-options `body` are always present. `namespace` is present exactly when it is not null. No other keys appear. |
| ApiArguments.ReadDeleteArgumentsRoundTrip | kubedriver/kubeclient/os_api_ctl.py:104-130 | The name and namespace read back from the read arguments equal the inputs. Delete arguments are the read arguments plus the delete-options body. |
| ApiArguments.SafeReadObject | kubedriver/kubeclient/os_api_ctl.py:85-90 | A found read returns `(true, obj)` with the object read; a not-found read returns `(false, None)`. It fails only when the read raised something else, with that error. |
| ApiArguments.SafeReadObjectRoundTrip | kubedriver/kubeclient/os_api_ctl.py:85-90 | Not-found is never an error. The returned pair gives back the read outcome without loss. |

## Left out

- Python equality between values of different types (`1 == True`, `1 == 1.0`) is not modelled. Names are compared structurally, so such names count as distinct here, while Python would call them duplicates.
- Floats, dates and other YAML scalars are not among the `Value` cases.
- Dict keys are strings by construction. The source would raise `TypeError` when expanding a task dict with non-string keys into keyword arguments.
- `read_dict` called on something other than a dict (an `AttributeError` in Python) is excluded, because the document parameter is typed as a map.
- The injectable `strategy_class` constructor is fixed to `DeploymentStrategy`.
- The internals of `DeployTask.on_read` and its concrete task variants are not part of this model. `onRead` stands for the factory, so no variant schema is assumed.
- Error messages are not rendered as text. Each error carries the offending kind, entry or name instead.
- The resource-client calls (`create_object`, `update_object`, `read_object`, `delete_object`, `is_object_namespaced`, `__get_resource_client`) are left out as network I/O through `DynamicClient`. Whether a kind is namespaced and how a read turned out are inputs instead.
- Request/response logging (`_generate_additional_logs` and the logging context) is left out as a side effect only. The same goes for `uuid4` request IDs, which are nondeterministic tracing data.
- `ObjectConfig`'s `api_version` and `kind` are left out: they only select the resource client.
- `DEFAULT_NAMESPACE` (defined in `kubedriver/kubeclient/defaults.py`) is not part of this model. The controller's default namespace is a field set by the caller.
- `kubedriver/kegd/properties.py` only sets constant templating delimiters, so it has no rule to model.
