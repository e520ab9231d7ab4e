/** The untyped document a deployment strategy is read from: the nested
    mapping/sequence structure a YAML or JSON loader produces. */
module Document {

  /** One loaded value. `VNull` is Python's `None`; maps are keyed by strings,
      which is what keyword-argument expansion of a task definition needs. */
  datatype Value =
    | VNull
    | VBool(b: bool)
    | VInt(i: int)
    | VStr(s: string)
    | VList(items: seq<Value>)
    | VMap(entries: map<string, Value>)

  /** The runtime type of a value, as reported in error messages. */
  datatype Kind = NoneKind | BoolKind | IntKind | StrKind | ListKind | DictKind

  function KindOf(v: Value): (k: Kind)
    ensures k == ListKind <==> v.VList?
    ensures k == DictKind <==> v.VMap?
    ensures k == NoneKind <==> v.VNull?
  {
    match v
    case VNull => NoneKind
    case VBool(_) => BoolKind
    case VInt(_) => IntKind
    case VStr(_) => StrKind
    case VList(_) => ListKind
    case VMap(_) => DictKind
  }

  /** Python's `dict.get(key)`: the stored value, or `None` when the key is absent. */
  function Get(m: map<string, Value>, key: string): Value {
    if key in m then m[key] else VNull
  }
}
