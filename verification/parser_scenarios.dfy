/** Concrete documents and what the parser makes of them, for any task factory. */
module ParserScenarios {
  import opened Wrappers
  import opened Document
  import opened Strategy
  import opened Parser

  function Doc(compose: seq<Value>): map<string, Value> {
    map["compose" := VList(compose)]
  }

  /** `{"compose": [{"name": "db"}]}` gives one script named `db`, with no
      tasks and a null reverse descriptor. */
  lemma SingleNamedScript<T, E>(onRead: map<string, Value> -> Result<T, E>)
    ensures ReadDict(Doc([VMap(map["name" := VStr("db")])]), onRead)
      == Success(DeploymentStrategy([ComposeScript(VStr("db"), [], VNull)]))
  {
    var d := VMap(map["name" := VStr("db")]);
    assert Get(d.entries, "deploy") == VNull && Get(d.entries, "reverse") == VNull;
    assert ReadComposeEntry(d, [], onRead) == Success(ComposeScript(VStr("db"), [], VNull));
    assert [d][1..] == [];
    assert [] + [VStr("db")] == [VStr("db")];
    assert ReadComposeEntries([], [VStr("db")], onRead) == Success([]);
    var only: ComposeScript<T> := ComposeScript(VStr("db"), [], VNull);
    assert [only] + [] == [only];
    assert ReadComposeEntries([d], [], onRead) == Success([ComposeScript(VStr("db"), [], VNull)]);
  }

  /** A second entry named `db` is rejected as a duplicate, once the first
      entry's task has been accepted by the factory. */
  lemma DuplicateDb<T, E>(onRead: map<string, Value> -> Result<T, E>)
    requires onRead(map["type" := VStr("apply"), "manifest" := VStr("x")]).Success?
    ensures var task := VMap(map["type" := VStr("apply"), "manifest" := VStr("x")]);
      ReadDict(Doc([VMap(map["name" := VStr("db"), "deploy" := VList([task])]), VMap(map["name" := VStr("db")])]), onRead)
        == Failure(DuplicateName(VStr("db")))
  {
    var task := VMap(map["type" := VStr("apply"), "manifest" := VStr("x")]);
    var first := VMap(map["name" := VStr("db"), "deploy" := VList([task])]);
    var second := VMap(map["name" := VStr("db")]);
    var defs := [first, second];
    assert [task][1..] == [];
    assert defs[1..] == [second];
    var script := ReadComposeEntry(first, [], onRead);
    assert script.Success? && script.value.name == VStr("db");
    assert ReadComposeEntry(second, [VStr("db")], onRead) == Failure(DuplicateName(VStr("db")));
  }

  /** `{"compose": [{"deploy": []}]}` is rejected for its missing name. */
  lemma NamelessEntry<T, E>(onRead: map<string, Value> -> Result<T, E>)
    ensures ReadDict(Doc([VMap(map["deploy" := VList([])])]), onRead)
      == Failure(MissingName(map["deploy" := VList([])]))
  {
  }

  /** A deploy entry that is a string is rejected, naming its type. */
  lemma StringTask<T, E>(onRead: map<string, Value> -> Result<T, E>)
    ensures ReadDict(Doc([VMap(map["name" := VStr("app"), "deploy" := VList([VStr("not-a-map")])])]), onRead)
      == Failure(TaskNotMap(StrKind))
  {
  }

  /** Scripts `a`, `b`, `c` come out in that order. */
  lemma NamesKeepOrder<T, E>(onRead: map<string, Value> -> Result<T, E>)
    ensures var r := ReadDict(Doc([VMap(map["name" := VStr("a")]), VMap(map["name" := VStr("b")]),
                                   VMap(map["name" := VStr("c")])]), onRead);
      r.Success? && Names(r.value.compose) == [VStr("a"), VStr("b"), VStr("c")]
  {
    var a := VMap(map["name" := VStr("a")]);
    var b := VMap(map["name" := VStr("b")]);
    var c := VMap(map["name" := VStr("c")]);
    var defs := [a, b, c];
    assert defs[1..] == [b, c];
    assert defs[1..][1..] == [c];
    assert defs[1..][1..][1..] == [];
    assert ReadComposeEntry(a, [], onRead) == Success(ComposeScript(VStr("a"), [], VNull));
    assert ReadComposeEntry(b, [VStr("a")], onRead) == Success(ComposeScript(VStr("b"), [], VNull));
    assert ReadComposeEntry(c, [VStr("a"), VStr("b")], onRead) == Success(ComposeScript(VStr("c"), [], VNull));
    assert ReadComposeEntries([], [VStr("a"), VStr("b"), VStr("c")], onRead) == Success([]);
    assert ReadComposeEntries([c], [VStr("a"), VStr("b")], onRead).Success?;
    assert [b, c][1..] == [c];
    assert [VStr("a")] + [VStr("b")] == [VStr("a"), VStr("b")];
    assert ReadComposeEntries([b, c], [VStr("a")], onRead).Success?;
    assert [] + [VStr("a")] == [VStr("a")];
    var r := ReadComposeEntries(defs, [], onRead);
    assert r.Success?;
    assert Names(r.value) == [VStr("a"), VStr("b"), VStr("c")];
  }
}
