/** What the parser guarantees, stated against a description of a well-formed
    `compose` list that does not mention the parser, and the fail-fast shape of
    its errors. */
module ParserProperties {
  import opened Wrappers
  import opened Document
  import opened Strategy
  import opened Parser

  /** One compose entry the parser accepts on its own: a dict with a non-null
      name whose `deploy` field reads. */
  predicate EntryWellFormed<T, E>(d: Value, onRead: map<string, Value> -> Result<T, E>) {
    d.VMap? && EntryName(d) != VNull && DeployFieldReadable(d.entries, onRead)
  }

  /** A `compose` list the parser accepts after the names in `seen`: every entry
      well formed, no name among `seen`, no name declared twice. */
  predicate WellFormedEntries<T, E>(defs: seq<Value>, seen: seq<Value>, onRead: map<string, Value> -> Result<T, E>) {
    && (forall i :: 0 <= i < |defs| ==> EntryWellFormed(defs[i], onRead) && EntryName(defs[i]) !in seen)
    && (forall i, j :: 0 <= i < j < |defs| ==> EntryName(defs[i]) != EntryName(defs[j]))
  }

  /** `s` is the script the entry `d` describes. */
  predicate ScriptRead<T(==), E>(d: Value, s: ComposeScript<T>, onRead: map<string, Value> -> Result<T, E>) {
    && d.VMap?
    && s.name == EntryName(d)
    && s.reverse == Get(d.entries, "reverse")
    && TasksRead(d.entries, s.deploy, onRead)
  }

  /** Peeling the first entry off a well-formed list. */
  lemma WellFormedCons<T, E>(defs: seq<Value>, seen: seq<Value>, onRead: map<string, Value> -> Result<T, E>)
    requires |defs| > 0
    ensures WellFormedEntries(defs, seen, onRead) <==>
      && EntryWellFormed(defs[0], onRead)
      && EntryName(defs[0]) !in seen
      && WellFormedEntries(defs[1..], seen + [EntryName(defs[0])], onRead)
  {
    assert forall i :: 1 <= i < |defs| ==> defs[i] == defs[1..][i - 1];
    if WellFormedEntries(defs, seen, onRead) {
      forall i | 0 <= i < |defs[1..]|
        ensures EntryName(defs[1..][i]) !in seen + [EntryName(defs[0])]
      {
        assert defs[1..][i] == defs[i + 1];
      }
    }
    if && EntryWellFormed(defs[0], onRead)
       && EntryName(defs[0]) !in seen
       && WellFormedEntries(defs[1..], seen + [EntryName(defs[0])], onRead)
    {
      forall i, j | 0 <= i < j < |defs|
        ensures EntryName(defs[i]) != EntryName(defs[j])
      {
        assert defs[j] == defs[1..][j - 1];
        if i > 0 {
          assert defs[i] == defs[1..][i - 1];
        }
      }
    }
  }

  /** A single entry passes the loop body exactly when it is well formed and
      its name is new, and then it yields the script it describes. */
  lemma ReadComposeEntryCorrect<T, E>(d: Value, seen: seq<Value>, onRead: map<string, Value> -> Result<T, E>)
    ensures ReadComposeEntry(d, seen, onRead).Success? <==> EntryWellFormed(d, onRead) && EntryName(d) !in seen
    ensures ReadComposeEntry(d, seen, onRead).Success? ==> ScriptRead(d, ReadComposeEntry(d, seen, onRead).value, onRead)
  {
  }

  /** The parser's loop accepts exactly the well-formed lists, and then yields
      one script per entry, in entry order, each the script its entry describes. */
  lemma {:induction false} ReadComposeEntriesCorrect<T, E>(
    defs: seq<Value>, seen: seq<Value>, onRead: map<string, Value> -> Result<T, E>)
    ensures ReadComposeEntries(defs, seen, onRead).Success? <==> WellFormedEntries(defs, seen, onRead)
    ensures var r := ReadComposeEntries(defs, seen, onRead);
      r.Success? ==> |r.value| == |defs| && forall i :: 0 <= i < |defs| ==> ScriptRead(defs[i], r.value[i], onRead)
    decreases |defs|
  {
    if |defs| > 0 {
      WellFormedCons(defs, seen, onRead);
      ReadComposeEntryCorrect(defs[0], seen, onRead);
      var script := ReadComposeEntry(defs[0], seen, onRead);
      if script.Success? {
        ReadComposeEntriesCorrect(defs[1..], seen + [script.value.name], onRead);
        var rest := ReadComposeEntries(defs[1..], seen + [script.value.name], onRead);
        if rest.Success? {
          var r := ReadComposeEntries(defs, seen, onRead);
          assert r.value == [script.value] + rest.value;
          forall i | 0 <= i < |defs|
            ensures ScriptRead(defs[i], r.value[i], onRead)
          {
            if i > 0 {
              assert defs[i] == defs[1..][i - 1];
            }
          }
        }
      }
    }
  }

  /** Scripts already read, followed by the outcome of reading the rest. */
  function Then<T, E>(sa: seq<ComposeScript<T>>, rb: Result<seq<ComposeScript<T>>, ParseError<E>>)
    : Result<seq<ComposeScript<T>>, ParseError<E>>
  {
    match rb
    case Failure(e) => Failure(e)
    case Success(sb) => Success(sa + sb)
  }

  /** One step of the loop, as an equation. */
  lemma ReadComposeEntriesStep<T, E>(defs: seq<Value>, seen: seq<Value>, onRead: map<string, Value> -> Result<T, E>)
    requires |defs| > 0
    ensures var h := ReadComposeEntry(defs[0], seen, onRead);
      ReadComposeEntries(defs, seen, onRead) ==
        if h.Failure? then Failure(h.error)
        else Then([h.value], ReadComposeEntries(defs[1..], seen + [h.value.name], onRead))
  {
  }

  lemma ConcatAssoc<X>(x: seq<X>, y: seq<X>, z: seq<X>)
    ensures x + (y + z) == (x + y) + z
  {
  }

  lemma NamesCons<T>(s: ComposeScript<T>, rest: seq<ComposeScript<T>>)
    ensures Names([s] + rest) == [s.name] + Names(rest)
  {
    assert ([s] + rest)[1..] == rest;
  }

  /** Reading `a + b` is reading `a`, then reading `b` with the names of `a`
      already seen; an error in `a` wins. */
  lemma {:induction false} ReadComposeEntriesAppend<T, E>(
    a: seq<Value>, b: seq<Value>, seen: seq<Value>, onRead: map<string, Value> -> Result<T, E>)
    ensures var ra := ReadComposeEntries(a, seen, onRead);
      ra.Failure? ==> ReadComposeEntries(a + b, seen, onRead) == Failure(ra.error)
    ensures var ra := ReadComposeEntries(a, seen, onRead);
      ra.Success? ==> ReadComposeEntries(a + b, seen, onRead) == Then(ra.value, ReadComposeEntries(b, seen + Names(ra.value), onRead))
    decreases |a|
  {
    if |a| == 0 {
      assert a + b == b;
      assert seen + Names<T>([]) == seen;
      var rb := ReadComposeEntries(b, seen, onRead);
      if rb.Success? {
        assert [] + rb.value == rb.value;
      }
    } else {
      var ab := a + b;
      assert ab[0] == a[0];
      assert ab[1..] == a[1..] + b;
      ReadComposeEntriesStep(ab, seen, onRead);
      ReadComposeEntriesStep(a, seen, onRead);
      var script := ReadComposeEntry(a[0], seen, onRead);
      if script.Success? {
        var s := script.value;
        var seen1 := seen + [s.name];
        ReadComposeEntriesAppend(a[1..], b, seen1, onRead);
        var restA := ReadComposeEntries(a[1..], seen1, onRead);
        var restAB := ReadComposeEntries(a[1..] + b, seen1, onRead);
        assert ReadComposeEntries(ab, seen, onRead) == Then([s], restAB);
        assert ReadComposeEntries(a, seen, onRead) == Then([s], restA);
        if restA.Success? {
          var sa := [s] + restA.value;
          NamesCons(s, restA.value);
          ConcatAssoc(seen, [s.name], Names(restA.value));
          var restB := ReadComposeEntries(b, seen + Names(sa), onRead);
          assert restAB == Then(restA.value, restB);
          if restB.Success? {
            ConcatAssoc([s], restA.value, restB.value);
          }
        }
      }
    }
  }

  /** Fail-fast: a failed parse fails with the error of the first entry whose
      addition turns an accepted prefix into a rejected one; nothing read
      before it survives into the result. */
  lemma {:induction false} ReadComposeEntriesFailFast<T, E>(
    defs: seq<Value>, seen: seq<Value>, onRead: map<string, Value> -> Result<T, E>)
    requires ReadComposeEntries(defs, seen, onRead).Failure?
    ensures exists i ::
      && 0 <= i < |defs|
      && ReadComposeEntries(defs[..i], seen, onRead).Success?
      && ReadComposeEntries(defs[..i + 1], seen, onRead) == Failure(ReadComposeEntries(defs, seen, onRead).error)
    decreases |defs|
  {
    var e := ReadComposeEntries(defs, seen, onRead).error;
    ReadComposeEntriesAppend(defs[..1], defs[1..], seen, onRead);
    assert defs[..1] + defs[1..] == defs;
    var head := ReadComposeEntries(defs[..1], seen, onRead);
    if head.Failure? {
      assert defs[..0] == [];
      assert defs[..0 + 1] == defs[..1];
    } else {
      var seen' := seen + Names(head.value);
      ReadComposeEntriesFailFast(defs[1..], seen', onRead);
      var i :| && 0 <= i < |defs[1..]|
               && ReadComposeEntries(defs[1..][..i], seen', onRead).Success?
               && ReadComposeEntries(defs[1..][..i + 1], seen', onRead) == Failure(e);
      ReadComposeEntriesAppend(defs[..1], defs[1..][..i], seen, onRead);
      ReadComposeEntriesAppend(defs[..1], defs[1..][..i + 1], seen, onRead);
      assert defs[..1] + defs[1..][..i] == defs[..i + 1];
      assert defs[..1] + defs[1..][..i + 1] == defs[..i + 2];
    }
  }

  /** A nameless (or null-named) entry behind an accepted prefix is reported as
      missing its name. */
  lemma MissingNameReported<T, E>(defs: seq<Value>, i: int, onRead: map<string, Value> -> Result<T, E>)
    requires 0 <= i < |defs| && ReadComposeEntries(defs[..i], [], onRead).Success?
    requires defs[i].VMap? && EntryName(defs[i]) == VNull
    ensures ReadComposeEntries(defs, [], onRead) == Failure(MissingName(defs[i].entries))
  {
    assert defs[..i] + defs[i..] == defs;
    ReadComposeEntriesAppend(defs[..i], defs[i..], [], onRead);
    var prefix := ReadComposeEntries(defs[..i], [], onRead).value;
    ReadComposeEntriesStep(defs[i..], [] + Names(prefix), onRead);
  }

  /** An entry repeating the name of an earlier entry, behind an accepted
      prefix, is reported as a duplicate, whatever its other fields hold. */
  lemma DuplicateNameReported<T, E>(defs: seq<Value>, j: int, i: int, onRead: map<string, Value> -> Result<T, E>)
    requires 0 <= j < i < |defs| && ReadComposeEntries(defs[..i], [], onRead).Success?
    requires defs[i].VMap? && EntryName(defs[i]) != VNull && EntryName(defs[i]) == EntryName(defs[j])
    ensures ReadComposeEntries(defs, [], onRead) == Failure(DuplicateName(EntryName(defs[i])))
  {
    assert defs[..i] + defs[i..] == defs;
    ReadComposeEntriesAppend(defs[..i], defs[i..], [], onRead);
    var prefix := ReadComposeEntries(defs[..i], [], onRead).value;
    assert defs[..i][j] == defs[j];
    assert Names(prefix)[j] == EntryName(defs[j]);
    ReadComposeEntriesStep(defs[i..], [] + Names(prefix), onRead);
  }

  /** Every error other than `EntryNotMap` comes from an entry that is a dict:
      when all entries are dicts, the parser fails only with an invalid-strategy
      error or with the task factory's own error, never the way Python's
      `AttributeError` does. */
  lemma {:induction false} NoEntryNotMapForDictEntries<T, E>(
    defs: seq<Value>, seen: seq<Value>, onRead: map<string, Value> -> Result<T, E>)
    requires forall i :: 0 <= i < |defs| ==> defs[i].VMap?
    ensures var r := ReadComposeEntries(defs, seen, onRead);
      r.Failure? ==> r.error.IsInvalidStrategyError() || r.error.TaskRejected?
    decreases |defs|
  {
    if |defs| > 0 {
      ReadComposeEntriesStep(defs, seen, onRead);
      var script := ReadComposeEntry(defs[0], seen, onRead);
      if script.Success? {
        assert forall i :: 0 <= i < |defs[1..]| ==> defs[1..][i] == defs[i + 1];
        NoEntryNotMapForDictEntries(defs[1..], seen + [script.value.name], onRead);
      } else {
        var d := defs[0];
        var f := Get(d.entries, "deploy");
        if EntryName(d) != VNull && EntryName(d) !in seen && f.VList? {
          var k :| FirstBadTask(f.items, k, script.error, onRead);
        }
      }
    }
  }

  /** The parser as a whole: it accepts exactly the documents whose `compose`
      is absent, null, or a well-formed list; an accepted document yields a
      strategy with unique, present names and one script per entry in entry
      order; a rejected one fails with the error of its first bad entry. */
  lemma ReadDictCorrect<T, E>(data: map<string, Value>, onRead: map<string, Value> -> Result<T, E>)
    ensures var c := Get(data, "compose");
      ReadDict(data, onRead).Success? <==> c == VNull || (c.VList? && WellFormedEntries(c.items, [], onRead))
    ensures ReadDict(data, onRead).Success? ==> ValidStrategy(ReadDict(data, onRead).value)
    ensures var c := Get(data, "compose"); var r := ReadDict(data, onRead);
      r.Success? && c.VList? ==>
        && |r.value.compose| == |c.items|
        && forall i :: 0 <= i < |c.items| ==> ScriptRead(c.items[i], r.value.compose[i], onRead)
    ensures var c := Get(data, "compose"); var r := ReadDict(data, onRead);
      r.Failure? && c.VList? ==>
        exists i ::
          && 0 <= i < |c.items|
          && ReadComposeEntries(c.items[..i], [], onRead).Success?
          && ReadComposeEntries(c.items[..i + 1], [], onRead) == Failure(r.error)
  {
    var c := Get(data, "compose");
    if c.VList? {
      ReadComposeEntriesCorrect(c.items, [], onRead);
      if ReadDict(data, onRead).Failure? {
        ReadComposeEntriesFailFast(c.items, [], onRead);
      }
    }
  }
}
