/**
 * The configuration tree handed to an action: a JavaScript value as the
 * settings file produces it, with the kinds the rewriting layer tells apart
 * made explicit instead of being probed with `typeof` and `Array.isArray`.
 */
module JsValue {
  import opened Wrappers

  /** A settings value. Numbers are never inspected, so an `int` stands for any JS number. */
  datatype Value =
    | Str(s: string)
    | Num(n: int)
    | Bool(b: bool)
    | Null
    | Undefined
    | Obj(fields: map<string, Value>)
    | Arr(elems: seq<Value>)

  /** One step into a tree: a property of a mapping, or a position in an array. */
  datatype Step = Key(k: string) | Index(i: nat)

  /** The value found by following `loc` from `v`, if every step exists. */
  function Get(v: Value, loc: seq<Step>): (found: Option<Value>)
    decreases |loc|
  {
    if loc == [] then Some(v)
    else match loc[0]
      case Key(k) =>
        if v.Obj? && k in v.fields then Get(v.fields[k], loc[1..]) else None
      case Index(i) =>
        if v.Arr? && i < |v.elems| then Get(v.elems[i], loc[1..]) else None
  }

  /** Following a step and then a location is following the joined location. */
  lemma {:induction false} GetCons(v: Value, s: Step, loc: seq<Step>)
    ensures Get(v, [s] + loc) ==
      match s
      case Key(k) => if v.Obj? && k in v.fields then Get(v.fields[k], loc) else None
      case Index(i) => if v.Arr? && i < |v.elems| then Get(v.elems[i], loc) else None
  {
    assert ([s] + loc)[0] == s;
    assert ([s] + loc)[1..] == loc;
  }

  /** Nothing below a string, a number, a boolean, null or undefined can be reached. */
  lemma {:induction false} GetBelowScalar(v: Value, loc: seq<Step>)
    requires !v.Obj? && !v.Arr? && loc != []
    ensures Get(v, loc) == None
  {
  }
}
