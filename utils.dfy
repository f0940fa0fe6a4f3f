/**
 * The record helpers of `tasks/lib/utils.js`: in-order iteration, the
 * in-place object merge, shallow cloning, the comma-list hash and the
 * first-defined pick.
 */
module Utils {
  import opened Strings
  import opened Json

  // ---------------------------------------------------------------- arrayEach

  /**
   * What a callback has built after `arrayEach` visited `arr[..n]`:
   * `step(state, arr[i], i)` applied for `i = 0, 1, …, n - 1`, in that order.
   */
  function Visit<T, S>(arr: seq<T>, step: (S, T, nat) -> S, init: S, n: nat): S
    requires n <= |arr|
    decreases n
  {
    if n == 0 then init else step(Visit(arr, step, init, n - 1), arr[n - 1], n - 1)
  }

  /** `arrayEach(arr, callback)`, with the callback's effect on its state as `step`. */
  method ArrayEach<T, S>(arr: seq<T>, step: (S, T, nat) -> S, init: S) returns (s: S)
    ensures s == Visit(arr, step, init, |arr|)
  {
    s := init;
    for i := 0 to |arr|
      invariant s == Visit(arr, step, init, i)
    {
      s := step(s, arr[i], i);
    }
  }

  /** The indices are visited once each, from 0 up to the length less one. */
  lemma {:induction false} VisitOrder<T>(arr: seq<T>, n: nat)
    requires n <= |arr|
    ensures Visit(arr, (acc: seq<nat>, x: T, i: nat) => acc + [i], [], n) == seq(n, i => i)
    decreases n
  {
    if n > 0 {
      VisitOrder(arr, n - 1);
    }
  }

  /** A callback that pushes every item onto a list rebuilds the array. */
  lemma {:induction false} VisitPush<T>(arr: seq<T>, n: nat)
    requires n <= |arr|
    ensures Visit(arr, (acc: seq<T>, x: T, i: nat) => acc + [x], [], n) == arr[..n]
    decreases n
  {
    if n > 0 {
      VisitPush(arr, n - 1);
      assert arr[..n] == arr[..n - 1] + [arr[n - 1]];
    }
  }

  // ------------------------------------------------------------- extendObject

  /** `!check || typeof origin[p] == 'undefined'`: the key is written at all. */
  predicate Writes(ov: Value, check: bool) {
    !check || ov.Undefined?
  }

  /** Both sides are objects (`origin[p]` truthy) and levels remain: merge instead of overwrite. */
  predicate Descends(ov: Value, ev: Value, level: int) {
    Truthy(ov) && TypeofObject(ov) && TypeofObject(ev) && level > 0
  }

  /** `deepLevel || 3`. */
  function StartLevel(dl: int): (l: int)
    ensures l != 0
    ensures dl != 0 ==> l == dl
  {
    if dl == 0 then 3 else dl
  }

  /**
   * The level a nested merge works at. As written the nested call receives
   * `level - 1` and its own `deepLevel || 3` turns a 0 back into 3 (`reset`);
   * the bounded merge passes `level - 1` on.
   */
  function ChildLevel(level: int, reset: bool): int {
    if reset then StartLevel(level - 1) else level - 1
  }

  function Max(a: int, b: int): int { if a < b then b else a }

  /** The new value of one key: kept, merged one level deeper, or overwritten. */
  function Item(ov: Value, ev: Value, check: bool, level: int, reset: bool): (r: Value)
    ensures !Writes(ov, check) ==> r == ov
    ensures Writes(ov, check) && !Descends(ov, ev, level) ==> r == ev
    decreases ev, 2
  {
    if !Writes(ov, check) then ov
    else if Descends(ov, ev, level) then Merge(ov, ev, check, ChildLevel(level, reset), reset)
    else ev
  }

  /**
   * The for-in loop of `extendObject` on a truthy `o` at level `level`, as a
   * value. Own keys of `e` are written into `o`: into a record by key, into
   * an array by index (a longer array is appended to); a primitive `o`
   * ignores the writes and a non-object `e` has no keys.
   */
  function Merge(o: Value, e: Value, check: bool, level: int, reset: bool): (r: Value)
    ensures o.Obj? && (e.Obj? || e.Arr?) ==> r.Obj?
    ensures o.Arr? && (e.Obj? || e.Arr?) ==> r.Arr?
    ensures !TypeofObject(e) || !TypeofObject(o) ==> r == o
    decreases e, 1
  {
    match e
    case Obj(ep) =>
      (match o
       case Obj(op) =>
         Obj(map k | k in op.Keys + ep.Keys :: if k in ep then Item(Member(o, k), ep[k], check, level, reset) else op[k])
       case Arr(os) =>
         Arr(seq(|os|, i requires 0 <= i < |os| =>
           if NatToString(i) in ep then Item(os[i], ep[NatToString(i)], check, level, reset) else os[i]))
       case _ => o)
    case Arr(es) =>
      (match o
       case Arr(os) =>
         Arr(seq(Max(|os|, |es|), i requires 0 <= i < Max(|os|, |es|) =>
           if i < |es| then Item(if i < |os| then os[i] else Undefined, es[i], check, level, reset) else os[i]))
       case Obj(op) =>
         NatToStringInjective();
         Obj(op + map i | 0 <= i < |es| :: NatToString(i) := Item(Member(o, NatToString(i)), es[i], check, level, reset))
       case _ => o)
    case _ => o
  }

  /** `extendObject(origin, extend, check, deepLevel)` as a value, with the level handling chosen by `reset`. */
  function Extend(o: Value, e: Value, check: bool, dl: int, reset: bool): (r: Value)
    ensures !Truthy(o) && e.Obj? ==> r.Obj? && r.props.Keys == e.props.Keys
  {
    Merge(if Truthy(o) then o else Obj(map[]), e, check, StartLevel(dl), reset)
  }

  /** The merge as written: every nested call restarts at level 3 once its level reaches 0. */
  function ExtendAsWritten(o: Value, e: Value, check: bool, dl: int): (r: Value)
    ensures !Truthy(o) && e.Obj? ==> r.Obj?
  {
    Extend(o, e, check, dl, true)
  }

  /** The depth-bounded merge: the level only decreases. */
  function ExtendBounded(o: Value, e: Value, check: bool, dl: int): (r: Value)
    ensures !Truthy(o) && e.Obj? ==> r.Obj?
  {
    Extend(o, e, check, dl, false)
  }

  lemma {:induction false} NatToStringLength(n: nat)
    ensures |NatToString(n)| == 1 <==> n < 10
    decreases n
  {
    if n >= 10 {
      NatToStringLength(n / 10);
    }
  }

  lemma {:induction false} NatToStringInjectiveAt(a: nat, b: nat)
    requires NatToString(a) == NatToString(b)
    ensures a == b
    decreases a
  {
    NatToStringLength(a);
    NatToStringLength(b);
    if a >= 10 && b >= 10 {
      var sa, sb := NatToString(a), NatToString(b);
      assert sa[..|sa| - 1] == NatToString(a / 10);
      assert sb[..|sb| - 1] == NatToString(b / 10);
      NatToStringInjectiveAt(a / 10, b / 10);
      assert sa[|sa| - 1] == sb[|sb| - 1];
    }
  }

  /** Distinct indices have distinct names, so indexing by name is well defined. */
  lemma NatToStringInjective()
    ensures forall a: nat, b: nat :: NatToString(a) == NatToString(b) ==> a == b
  {
    forall a: nat, b: nat | NatToString(a) == NatToString(b) ensures a == b {
      NatToStringInjectiveAt(a, b);
    }
  }

  /** The record an object held before the loop, after its keys in `done` were processed. */
  function Partial(op: map<string, Value>, ep: map<string, Value>, done: set<string>, check: bool, level: int): map<string, Value>
    requires done <= ep.Keys
  {
    map k | k in op.Keys + done :: if k in done then Item(Member(Obj(op), k), ep[k], check, level, false) else op[k]
  }

  /** Processing one more key updates that key alone. */
  lemma PartialStep(op: map<string, Value>, ep: map<string, Value>, done: set<string>, p: string, check: bool, level: int)
    requires done <= ep.Keys && p in ep && p !in done
    ensures var before := Partial(op, ep, done, check, level);
      Member(Obj(before), p) == Member(Obj(op), p)
      && Partial(op, ep, done + {p}, check, level) == before[p := Item(Member(Obj(op), p), ep[p], check, level, false)]
      && (!Writes(Member(Obj(op), p), check) ==> before[p := Member(Obj(op), p)] == before)
  {
  }

  /** Once every key is processed, the object holds the bounded merge. */
  lemma PartialAll(op: map<string, Value>, ep: map<string, Value>, check: bool, dl: int)
    ensures Obj(Partial(op, ep, ep.Keys, check, StartLevel(dl))) == ExtendBounded(Obj(op), Obj(ep), check, dl)
  {
    var m := Merge(Obj(op), Obj(ep), check, StartLevel(dl), false);
    assert m.props == Partial(op, ep, ep.Keys, check, StartLevel(dl));
  }

  /** An object whose own properties the merge writes into in place. */
  class JsObject {
    var props: map<string, Value>

    constructor (init: map<string, Value>)
      ensures props == init
    {
      props := init;
    }
  }

  /** One turn of the for-in loop: write, merge into, or skip the key `p` of `origin`. */
  method ExtendKey(origin: JsObject, p: string, ev: Value, check: bool, level: int)
    modifies origin
    ensures origin.props == old(origin.props)[p := Item(Member(Obj(old(origin.props)), p), ev, check, level, false)]
  {
    var cur := if p in origin.props then origin.props[p] else Undefined;
    if Writes(cur, check) {
      if Descends(cur, ev, level) {
        origin.props := origin.props[p := Merge(cur, ev, check, level - 1, false)];
      } else {
        origin.props := origin.props[p := ev];
      }
    } else {
      assert origin.props == origin.props[p := cur];
    }
  }

  /**
   * `extendObject(origin, extend, check, deepLevel)` with a record `extend`:
   * `origin` itself is updated and returned, or a fresh object when it is null.
   */
  method ExtendObject(origin: JsObject?, extend: map<string, Value>, check: bool, deepLevel: int) returns (r: JsObject)
    modifies origin
    ensures origin != null ==> r == origin
    ensures origin == null ==> fresh(r)
    ensures Obj(r.props) == ExtendBounded(Obj(old(if origin == null then map[] else origin.props)), Obj(extend), check, deepLevel)
  {
    if origin == null {
      r := new JsObject(map[]);
    } else {
      r := origin;
    }
    ghost var op := r.props;
    ExtendKeys(r, extend, check, StartLevel(deepLevel));
    PartialAll(op, extend, check, deepLevel);
  }

  /** The `for (p in extend)` loop: each key of `extend` in turn, in any order. */
  method ExtendKeys(r: JsObject, extend: map<string, Value>, check: bool, level: int)
    modifies r
    ensures r.props == Partial(old(r.props), extend, extend.Keys, check, level)
  {
    ghost var op := r.props;
    var todo := extend.Keys;
    while todo != {}
      invariant todo <= extend.Keys
      invariant r.props == Partial(op, extend, extend.Keys - todo, check, level)
      decreases |todo|
    {
      var p :| p in todo;
      ghost var done := extend.Keys - todo;
      PartialStep(op, extend, done, p, check, level);
      ExtendKey(r, p, extend[p], check, level);
      todo := todo - {p};
      assert extend.Keys - todo == done + {p};
    }
    assert extend.Keys - todo == extend.Keys;
  }

  /**
   * The merge of records, whatever the level handling: every key of either
   * side survives; keys only in `origin` keep their values; without `check`
   * every key of `extend` is written, and with `check` only keys that were
   * undefined are.
   */
  lemma MergeRecords(op: map<string, Value>, ep: map<string, Value>, check: bool, level: int, reset: bool)
    ensures Merge(Obj(op), Obj(ep), check, level, reset).props.Keys == op.Keys + ep.Keys
    ensures forall k | k in op && k !in ep :: Merge(Obj(op), Obj(ep), check, level, reset).props[k] == op[k]
    ensures forall k | k in ep && !check && !Descends(Member(Obj(op), k), ep[k], level) ::
              Merge(Obj(op), Obj(ep), check, level, reset).props[k] == ep[k]
    ensures forall k | k in ep && check && Member(Obj(op), k) != Undefined ::
              Merge(Obj(op), Obj(ep), check, level, reset).props[k] == op[k]
    ensures forall k | k in ep && check && Member(Obj(op), k) == Undefined ::
              Merge(Obj(op), Obj(ep), check, level, reset).props[k] == ep[k]
  {
  }

  /** With no levels left the bounded merge is a plain overwrite: `extend` wins key by key. */
  lemma ShallowWhenNoLevels(op: map<string, Value>, ep: map<string, Value>, level: int)
    requires level <= 0
    ensures Merge(Obj(op), Obj(ep), false, level, false) == Obj(op + ep)
  {
    var r := Merge(Obj(op), Obj(ep), false, level, false);
    assert r.props == op + ep;
  }

  lemma MergeSameKey(k: string, ov: Value, ev: Value, check: bool, level: int, reset: bool)
    ensures Merge(Obj(map[k := ov]), Obj(map[k := ev]), check, level, reset)
         == Obj(map[k := Item(ov, ev, check, level, reset)])
  {
    var r := Merge(Obj(map[k := ov]), Obj(map[k := ev]), check, level, reset);
    assert r.props.Keys == {k};
  }

  lemma MergeNewKey(k: string, ov: Value, j: string, ev: Value, level: int, reset: bool)
    requires k != j
    ensures Merge(Obj(map[k := ov]), Obj(map[j := ev]), false, level, reset) == Obj(map[k := ov, j := ev])
  {
    var r := Merge(Obj(map[k := ov]), Obj(map[j := ev]), false, level, reset);
    assert r.props.Keys == {k, j};
  }

  /**
   * As written, a merge at level 1 still merges two levels down: the nested
   * call receives 0 and restarts at 3.
   * `origin = {a: {b: {x: 1}}}`, `extend = {a: {b: {y: 2}}}`, level 1.
   */
  lemma DepthResetCounterexample()
    ensures ExtendAsWritten(Obj(map["a" := Obj(map["b" := Obj(map["x" := Num(1)])])]),
                            Obj(map["a" := Obj(map["b" := Obj(map["y" := Num(2)])])]), false, 1)
         == Obj(map["a" := Obj(map["b" := Obj(map["x" := Num(1), "y" := Num(2)])])])
  {
    var oa, ea := Obj(map["b" := Obj(map["x" := Num(1)])]), Obj(map["b" := Obj(map["y" := Num(2)])]);
    RestartedLevelMerges();
    MergeSameKey("a", oa, ea, false, 1, true);
  }

  /** The middle step of the counterexample: at the restarted level 3 the records under `b` are merged. */
  lemma RestartedLevelMerges()
    ensures Item(Obj(map["b" := Obj(map["x" := Num(1)])]), Obj(map["b" := Obj(map["y" := Num(2)])]), false, 1, true)
         == Obj(map["b" := Obj(map["x" := Num(1), "y" := Num(2)])])
  {
    var x1, y2 := Obj(map["x" := Num(1)]), Obj(map["y" := Num(2)]);
    MergeNewKey("x", Num(1), "y", Num(2), 2, true);
    assert Item(x1, y2, false, 3, true) == Obj(map["x" := Num(1), "y" := Num(2)]);
    MergeSameKey("b", x1, y2, false, 3, true);
  }

  /** The bounded merge at level 1 merges one level and overwrites below it, on the same input. */
  lemma DepthBoundedExample()
    ensures ExtendBounded(Obj(map["a" := Obj(map["b" := Obj(map["x" := Num(1)])])]),
                          Obj(map["a" := Obj(map["b" := Obj(map["y" := Num(2)])])]), false, 1)
         == Obj(map["a" := Obj(map["b" := Obj(map["y" := Num(2)])])])
  {
    var x1, y2 := Obj(map["x" := Num(1)]), Obj(map["y" := Num(2)]);
    var oa, ea := Obj(map["b" := x1]), Obj(map["b" := y2]);
    assert Item(x1, y2, false, 0, false) == y2;
    MergeSameKey("b", x1, y2, false, 0, false);
    assert Item(oa, ea, false, 1, false) == ea;
    MergeSameKey("a", oa, ea, false, 1, false);
  }

  // -------------------------------------------------------------- cloneObject

  /** An array object, filled by pushes. */
  class JsArray {
    var items: seq<Value>

    constructor ()
      ensures items == []
    {
      items := [];
    }
  }

  /** A JavaScript value at the top of a clone: a primitive, or a reference to a container. */
  datatype Ref = Prim(v: Value) | RecordRef(obj: JsObject) | ArrayRef(arr: JsArray)

  /** A record or an array is only ever reached through a reference; `null` is a primitive here. */
  predicate Boxed(r: Ref) {
    r.Prim? ==> !r.v.Obj? && !r.v.Arr?
  }

  /**
   * `cloneObject(obj, deep)`: a non-object is returned as it is, and so is
   * everything when `deep` is negative (the level 0 already exceeds it);
   * otherwise a fresh container with the same items or own entries.
   */
  method CloneObject(obj: Ref, deep: int) returns (r: Ref)
    requires Boxed(obj)
    ensures Boxed(r)
    ensures 0 > deep || obj.Prim? ==> r == obj
    ensures 0 <= deep && obj.RecordRef? ==> r.RecordRef? && fresh(r.obj) && r.obj.props == obj.obj.props
    ensures 0 <= deep && obj.ArrayRef? ==> r.ArrayRef? && fresh(r.arr) && r.arr.items == obj.arr.items
  {
    r := obj;
    if 0 > deep {
      return;
    }
    match obj
    case Prim(_) =>
    case ArrayRef(a) =>
      var res := new JsArray();
      var pushed := ArrayEach(a.items, (acc: seq<Value>, x: Value, i: nat) => acc + [x], []);
      VisitPush(a.items, |a.items|);
      assert a.items[..|a.items|] == a.items;
      res.items := pushed;
      r := ArrayRef(res);
    case RecordRef(o) =>
      var res := new JsObject(map[]);
      var todo := o.props.Keys;
      while todo != {}
        invariant todo <= o.props.Keys
        invariant res.props == map k | k in o.props.Keys - todo :: o.props[k]
        decreases |todo|
      {
        var p :| p in todo;
        ghost var done := o.props.Keys - todo;
        res.props := res.props[p := o.props[p]];
        todo := todo - {p};
        assert o.props.Keys - todo == done + {p};
      }
      assert o.props.Keys - todo == o.props.Keys;
      r := RecordRef(res);
  }

  // -------------------------------------------------------- getHashFromString

  function TrimStart(s: string): (r: string)
    ensures |r| <= |s| && r == s[|s| - |r|..]
    ensures r == [] || !IsSpace(r[0])
    ensures forall i | 0 <= i < |s| - |r| :: IsSpace(s[i])
  {
    if |s| > 0 && IsSpace(s[0]) then TrimStart(s[1..]) else s
  }

  function TrimEnd(s: string): (r: string)
    ensures |r| <= |s| && r == s[..|r|]
    ensures r == [] || !IsSpace(r[|r| - 1])
    ensures forall i | |r| <= i < |s| :: IsSpace(s[i])
  {
    if |s| > 0 && IsSpace(s[|s| - 1]) then TrimEnd(s[..|s| - 1]) else s
  }

  /**
   * The split of `getHashFromString`: split at every comma; the whitespace right
   * before a comma and right after it goes with the separator.
   */
  function CommaTokens(str: string): (r: seq<string>)
    ensures |r| == |Split(str, ',')|
    ensures forall i | 0 <= i < |r| :: ',' !in r[i]
  {
    var parts := Split(str, ',');
    seq(|parts|, i requires 0 <= i < |parts| =>
      var p := if i < |parts| - 1 then TrimEnd(parts[i]) else parts[i];
      if i > 0 then TrimStart(p) else p)
  }

  /** Without whitespace the tokens are the comma-separated parts, and joining them gives the text back. */
  lemma TokensRejoin(str: string)
    requires forall i | 0 <= i < |str| :: !IsSpace(str[i])
    ensures CommaTokens(str) == Split(str, ',')
    ensures Join(CommaTokens(str), ",") == str
  {
    var parts := Split(str, ',');
    var tokens := CommaTokens(str);
    forall i | 0 <= i < |parts| ensures tokens[i] == parts[i] {
      PartUntrimmed(str, i);
    }
    JoinSplit(str, ',');
  }

  /** A part of text without whitespace is left alone by the trimming. */
  lemma PartUntrimmed(str: string, i: nat)
    requires forall j | 0 <= j < |str| :: !IsSpace(str[j])
    requires i < |Split(str, ',')|
    ensures TrimStart(Split(str, ',')[i]) == Split(str, ',')[i]
    ensures TrimEnd(Split(str, ',')[i]) == Split(str, ',')[i]
    ensures CommaTokens(str)[i] == Split(str, ',')[i]
  {
    var part := Split(str, ',')[i];
    SplitPartsFrom(str, ',', i);
    assert forall j | 0 <= j < |part| :: part[j] in str;
    NoSpaceTrim(part);
  }

  lemma NoSpaceTrim(s: string)
    requires forall j | 0 <= j < |s| :: !IsSpace(s[j])
    ensures TrimStart(s) == s && TrimEnd(s) == s
  {
  }

  /** Every character of a part occurs in the split text. */
  lemma {:induction false} SplitPartsFrom(s: string, sep: char, i: nat)
    requires i < |Split(s, sep)|
    ensures forall c | c in Split(s, sep)[i] :: c in s
    decreases |s|
  {
    if s != [] {
      var rest := Split(s[1..], sep);
      if s[0] == sep {
        if i > 0 {
          SplitPartsFrom(s[1..], sep, i - 1);
        }
      } else {
        SplitPartsFrom(s[1..], sep, if i == 0 then 0 else i);
      }
    }
  }

  /** `typeof val != 'undefined' ? val : 1`. */
  function HashValue(val: Value): Value {
    if val.Undefined? then Num(1) else val
  }

  /** The loop of `getHashFromString`: every token becomes a key holding `v`. */
  method HashTokens(tokens: seq<string>, v: Value) returns (res: map<string, Value>)
    ensures res.Keys == set t | t in tokens
    ensures forall k | k in res :: res[k] == v
  {
    res := map[];
    for i := 0 to |tokens|
      invariant res.Keys == set t | t in tokens[..i]
      invariant forall k | k in res :: res[k] == v
    {
      assert tokens[..i + 1] == tokens[..i] + [tokens[i]];
      res := res[tokens[i] := v];
    }
    assert tokens[..|tokens|] == tokens;
  }

  /**
   * `getHashFromString(str, val)`: null (None) for the empty string, else a
   * record mapping every token to `val`, or to 1 when `val` is undefined.
   */
  method GetHashFromString(str: string, val: Value) returns (r: Option<map<string, Value>>)
    ensures str == [] <==> r == None
    ensures r.Some? ==> r.value.Keys == (set t | t in CommaTokens(str))
    ensures r.Some? ==> forall k | k in r.value :: r.value[k] == HashValue(val)
  {
    if str == [] {
      return None;
    }
    var res := HashTokens(CommaTokens(str), HashValue(val));
    r := Some(res);
  }

  // ----------------------------------------------------------- getDefinedItem

  /**
   * `getDefinedItem(list)`: the first element that is not undefined, or
   * undefined when there is none.
   */
  method GetDefinedItem(list: seq<Value>) returns (r: Value)
    ensures r.Undefined? <==> forall i | 0 <= i < |list| :: list[i].Undefined?
    ensures !r.Undefined? ==> exists i | 0 <= i < |list| :: list[i] == r && forall j | 0 <= j < i :: list[j].Undefined?
  {
    r := Undefined;
    for i := 0 to |list|
      invariant r == Undefined
      invariant forall j | 0 <= j < i :: list[j].Undefined?
    {
      r := list[i];
      if !r.Undefined? {
        return;
      }
    }
  }
}
