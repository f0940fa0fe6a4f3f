/**
 * The JSON-like values the build configuration, the property files and the
 * language resources are made of, with JavaScript's truthiness, `typeof`
 * and property access, and the dotted lookup that both placeholder
 * replacers share.
 */
module Json {
  import opened Strings

  datatype Value =
    | Undefined
    | Null
    | Bool(b: bool)
    | Num(n: int)
    | Str(s: string)
    | Arr(items: seq<Value>)
    | Obj(props: map<string, Value>)

  /** JavaScript truthiness (numbers are integers here, so NaN is not modelled). */
  predicate Truthy(v: Value) {
    match v
    case Undefined => false
    case Null => false
    case Bool(b) => b
    case Num(n) => n != 0
    case Str(s) => s != []
    case Arr(_) => true
    case Obj(_) => true
  }

  /** `typeof v == 'object'`: null, arrays and records. */
  predicate TypeofObject(v: Value) {
    v.Null? || v.Arr? || v.Obj?
  }

  /** The array index a property name denotes: canonical decimal, no leading zero. */
  function ArrayIndex(key: string): (r: Option<nat>)
    ensures r.Some? ==> NatToString(r.value) == key
  {
    if |key| > 0 && (|key| == 1 || key[0] != '0') && LeadingDigits(key) == |key| then
      var n := DigitsValue(key, 0, |key|);
      if NatToString(n) == key then Some(n) else None
    else None
  }

  /** `v[key]` on own properties, array and string indices and `length`; prototype members are not modelled. */
  function Member(v: Value, key: string): (r: Value)
    ensures v.Obj? && key in v.props ==> r == v.props[key]
    ensures v.Obj? && key !in v.props ==> r == Undefined
    ensures !TypeofObject(v) && !v.Str? ==> r == Undefined
  {
    match v
    case Obj(m) => if key in m then m[key] else Undefined
    case Arr(items) =>
      if key == "length" then Num(|items|)
      else (match ArrayIndex(key)
            case Some(i) => if i < |items| then items[i] else Undefined
            case None => Undefined)
    case Str(s) =>
      if key == "length" then Num(|s|)
      else (match ArrayIndex(key)
            case Some(i) => if i < |s| then Str([s[i]]) else Undefined
            case None => Undefined)
    case _ => Undefined
  }

  /**
   * The value the dotted lookup loop ends with: walk the segments left to
   * right and stop as soon as the current value is falsy. Only a record,
   * an array or a string can be walked into.
   */
  function Lookup(segs: seq<string>, v: Value): (r: Value)
    ensures segs != [] && Truthy(r) ==> v.Obj? || v.Arr? || v.Str?
    decreases |segs|
  {
    if segs == [] || !Truthy(v) then v else Lookup(segs[1..], Member(v, segs[0]))
  }

  /** A falsy value ends the walk: it is the result, whatever segments remain. */
  lemma LookupFalsy(segs: seq<string>, v: Value)
    requires !Truthy(v)
    ensures Lookup(segs, v) == v
  {
  }

  /** The walk is left to right: looking up `p + q` is looking up `q` in the value `p` leads to. */
  lemma {:induction false} LookupConcat(p: seq<string>, q: seq<string>, v: Value)
    ensures Lookup(p + q, v) == Lookup(q, Lookup(p, v))
    decreases |p|
  {
    if p == [] {
      assert p + q == q;
    } else if !Truthy(v) {
      LookupFalsy(q, v);
    } else {
      assert (p + q)[1..] == p[1..] + q;
      LookupConcat(p[1..], q, Member(v, p[0]));
    }
  }

  /** Once a prefix of the path leads to a falsy value, that value is the result of the whole lookup. */
  lemma LookupStopsAtFalsy(segs: seq<string>, k: nat, v: Value)
    requires k <= |segs| && !Truthy(Lookup(segs[..k], v))
    ensures Lookup(segs, v) == Lookup(segs[..k], v)
  {
    assert segs == segs[..k] + segs[k..];
    LookupConcat(segs[..k], segs[k..], v);
    LookupFalsy(segs[k..], Lookup(segs[..k], v));
  }

  /** Each segment names an existing key of the record the path has reached so far. */
  predicate KeyPath(segs: seq<string>, v: Value)
    decreases |segs|
  {
    segs == [] || (v.Obj? && segs[0] in v.props && KeyPath(segs[1..], v.props[segs[0]]))
  }

  /** The value stored at the end of such a path. */
  function ValueAt(segs: seq<string>, v: Value): Value
    requires KeyPath(segs, v)
    decreases |segs|
  {
    if segs == [] then v else ValueAt(segs[1..], v.props[segs[0]])
  }

  /** Looking up a path of record keys that all exist reaches the value stored under the last one. */
  lemma {:induction false} LookupNested(segs: seq<string>, v: Value)
    requires KeyPath(segs, v)
    ensures Lookup(segs, v) == ValueAt(segs, v)
    decreases |segs|
  {
    if segs != [] {
      assert Truthy(v) && Member(v, segs[0]) == v.props[segs[0]];
      LookupNested(segs[1..], v.props[segs[0]]);
    }
  }

  /** The two-key instance: `{a: {b: x}}` looked up along `a.b`. */
  lemma LookupTwoKeys(a: string, b: string, x: Value)
    ensures Lookup([a, b], Obj(map[a := Obj(map[b := x])])) == x
  {
    var inner := Obj(map[b := x]);
    var v := Obj(map[a := inner]);
    assert [a, b][1..] == [b] && [b][1..] == [];
    assert KeyPath([], x) && ValueAt([], x) == x;
    assert KeyPath([b], inner) && ValueAt([b], inner) == ValueAt([b][1..], inner.props[b]);
    assert KeyPath([a, b], v) && ValueAt([a, b], v) == x;
    LookupNested([a, b], v);
  }

  /**
   * The lookup loop of `getProperty`: shift a segment off the list and index
   * into the current value while segments remain and the value is truthy.
   */
  method WalkPath(segs: seq<string>, start: Value) returns (res: Value)
    ensures res == Lookup(segs, start)
  {
    var tmp := segs;
    res := start;
    ghost var done: seq<string> := [];
    while |tmp| > 0 && Truthy(res)
      invariant done + tmp == segs
      invariant res == Lookup(done, start)
      invariant Lookup(tmp, res) == Lookup(segs, start)
      decreases |tmp|
    {
      LookupConcat(done, [tmp[0]], start);
      done := done + [tmp[0]];
      res := Member(res, tmp[0]);
      tmp := tmp[1..];
    }
  }
}
