/** Immutable JSON values: what a parsed document, or a subtree read out of the token graph, is worth. */
module Json {

  import opened Wrappers

  /** A leaf value, kept with the text `JValue.ToString()` renders for it. */
  datatype Scalar = Str(s: string) | Num(text: string) | Bool(b: bool) | Null

  datatype Member = Member(name: string, value: Value)

  /** An object (ordered members), an array, or a scalar. */
  datatype Value = JObject(members: seq<Member>) | JArray(items: seq<Value>) | JValue(scalar: Scalar)

  /** Index of the first name equal to `key` at or after `from` (the ordinal property lookup). */
  function FindName(names: seq<string>, key: string, from: nat): (r: Option<nat>)
    decreases |names| - from
    ensures r.Some? ==> from <= r.value < |names| && names[r.value] == key
    ensures r.Some? ==> forall j :: from <= j < r.value ==> names[j] != key
    ensures r.None? ==> forall j :: from <= j < |names| ==> names[j] != key
  {
    if from >= |names| then None
    else if names[from] == key then Some(from)
    else FindName(names, key, from + 1)
  }

  /** The names of a list of named things, in order. */
  function Names<T>(xs: seq<T>, name: T -> string): (r: seq<string>)
    ensures |r| == |xs| && forall j :: 0 <= j < |xs| ==> r[j] == name(xs[j])
  {
    seq(|xs|, j requires 0 <= j < |xs| => name(xs[j]))
  }

  const MemberName: Member -> string := (m: Member) => m.name

  /** `value[key]` on a value: the member's value for an object, nothing for arrays and scalars. */
  function Child(v: Value, key: string): (r: Option<Value>)
    ensures r.Some? <==> v.JObject? && exists j :: 0 <= j < |v.members| && v.members[j].name == key
  {
    match v
    case JObject(ms) =>
      (match FindName(Names(ms, MemberName), key, 0)
       case Some(j) => Some(ms[j].value)
       case None => None)
    case _ => None
  }

  /** The value reached by following `segs` member by member from `v`. */
  function At(v: Value, segs: seq<string>): Option<Value>
    decreases |segs|
  {
    if segs == [] then Some(v)
    else
      match Child(v, segs[0])
      case None => None
      case Some(c) => At(c, segs[1..])
  }
}
