/**
 * Build-time property substitution (`tasks/lib/properties.js`): every
 * `%{{a.b}}%` whose dotted lookup in the property record yields a string is
 * replaced by that string, in one left-to-right pass. The wall clock that
 * `TIMESTAMP` names read is the parameter `now` (milliseconds).
 */
module Properties {
  import opened Strings
  import opened Json
  import opened Placeholders

  /** `/^TIMESTAMP(_\d+|$)/`: the bare name, or `_` and a digit after it (anything may follow). */
  predicate IsTimestamp(name: string) {
    StartsWith(name, "TIMESTAMP")
    && (|name| == 9 || (|name| > 10 && name[9] == '_' && IsDigit(name[10])))
  }

  /** `parseInt(name.split('_')[1]) || 1000`. */
  function Divisor(name: string): (d: nat)
    ensures d > 0
  {
    var parts := Split(name, '_');
    if |parts| < 2 then 1000
    else match ParseLeadingNat(parts[1])
      case Some(n) => if n == 0 then 1000 else n
      case None => 1000
  }

  /** What `getProperty` yields: a timestamp number, or the dotted lookup in `props`. */
  function PropertyValue(name: string, props: Value, now: nat): (r: Value)
    ensures IsTimestamp(name) ==> r.Num?
    ensures !IsTimestamp(name) ==> r == Lookup(Split(name, '.'), props)
  {
    if IsTimestamp(name) then Num(now / Divisor(name)) else Lookup(Split(name, '.'), props)
  }

  /** `getProperty`: the timestamp branch, else the shift-and-index loop over the dotted segments. */
  method GetProperty(name: string, props: Value, now: nat) returns (res: Value)
    ensures res == PropertyValue(name, props, now)
  {
    if IsTimestamp(name) {
      res := Num(now / Divisor(name));
    } else {
      res := WalkPath(Split(name, '.'), props);
    }
  }

  /** The replacement callback: a string value replaces the match, anything else leaves it as written. */
  function Substitute(name: string, props: Value, now: nat): string {
    match PropertyValue(name, props, now)
    case Str(v) => v
    case _ => Placeholder(name, '%')
  }

  /** The global replace over the content, scanning left to right; replaced text is not scanned again. */
  function Scan(s: string, props: Value, now: nat): string
    decreases |s|
  {
    if s == [] then []
    else match MatchAt(s, '%')
      case Some(m) => Substitute(m.name, props, now) + Scan(s[m.len..], props, now)
      case None => [s[0]] + Scan(s[1..], props, now)
  }

  /** `replaceProperties(content, properties)`. */
  function ReplaceProperties(content: string, props: Value, now: nat): (r: string)
    ensures !Truthy(props) ==> r == content
  {
    if !Truthy(props) then content else Scan(content, props, now)
  }

  /** Text without `%` is copied unchanged. */
  lemma {:induction false} ScanPlain(a: string, b: string, props: Value, now: nat)
    requires '%' !in a
    ensures Scan(a + b, props, now) == a + Scan(b, props, now)
    decreases |a|
  {
    if a != [] {
      assert (a + b)[0] == a[0];
      NoMatchWithoutMark(a + b, '%');
      assert (a + b)[1..] == a[1..] + b;
      ScanPlain(a[1..], b, props, now);
      assert a == [a[0]] + a[1..];
    } else {
      assert a + b == b;
    }
  }

  /** A placeholder at the front is handled by the callback, and scanning resumes right after it. */
  lemma ScanPlaceholder(name: string, rest: string, props: Value, now: nat)
    requires IsName(name)
    ensures Scan(Placeholder(name, '%') + rest, props, now) == Substitute(name, props, now) + Scan(rest, props, now)
  {
    MatchPlaceholder(name, '%', rest);
    var s := Placeholder(name, '%') + rest;
    assert s[|name| + 6..] == rest;
  }

  /** Text without `%`, a placeholder, and the rest: the text is kept and the placeholder substituted. */
  lemma ScanBetween(pre: string, name: string, post: string, props: Value, now: nat)
    requires '%' !in pre && IsName(name)
    ensures Scan(pre + Placeholder(name, '%') + post, props, now) == pre + Substitute(name, props, now) + Scan(post, props, now)
  {
    var ph, sub, rest := Placeholder(name, '%'), Substitute(name, props, now), Scan(post, props, now);
    Regroup(pre, ph, post);
    ScanPlain(pre, ph + post, props, now);
    ScanPlaceholder(name, post, props, now);
    Regroup(pre, sub, rest);
  }

  lemma Regroup(a: string, b: string, c: string)
    ensures a + b + c == a + (b + c)
  {
  }

  /**
   * One pass: a placeholder whose value is a string is replaced by exactly
   * that string (even when the string itself holds placeholders), the text
   * before it is kept, and the text after it is scanned on its own.
   */
  lemma SinglePassString(pre: string, name: string, post: string, props: Value, now: nat, v: string)
    requires '%' !in pre && IsName(name) && Truthy(props)
    requires PropertyValue(name, props, now) == Str(v)
    ensures ReplaceProperties(pre + Placeholder(name, '%') + post, props, now)
         == pre + v + ReplaceProperties(post, props, now)
  {
    ScanBetween(pre, name, post, props, now);
  }

  /** A placeholder whose lookup is not a string (a number, a record, undefined) stays as written. */
  lemma SinglePassUnresolved(pre: string, name: string, post: string, props: Value, now: nat)
    requires '%' !in pre && IsName(name) && Truthy(props)
    requires !PropertyValue(name, props, now).Str?
    ensures ReplaceProperties(pre + Placeholder(name, '%') + post, props, now)
         == pre + Placeholder(name, '%') + ReplaceProperties(post, props, now)
  {
    ScanBetween(pre, name, post, props, now);
  }

  lemma TimestampIsNumber(name: string, props: Value, now: nat)
    requires IsTimestamp(name)
    ensures !PropertyValue(name, props, now).Str?
  {
  }

  /** `TIMESTAMP` names never consult the record; their number leaves the placeholder as written. */
  lemma TimestampKept(name: string, post: string, props: Value, now: nat)
    requires IsTimestamp(name) && IsName(name) && Truthy(props)
    ensures ReplaceProperties(Placeholder(name, '%') + post, props, now)
         == Placeholder(name, '%') + ReplaceProperties(post, props, now)
  {
    TimestampIsNumber(name, props, now);
    ScanPlaceholder(name, post, props, now);
  }

  /** Content without `%` is returned unchanged. */
  lemma NoMarkUnchanged(content: string, props: Value, now: nat)
    requires '%' !in content
    ensures ReplaceProperties(content, props, now) == content
  {
    ScanPlain(content, [], props, now);
    assert content + [] == content;
  }

  /** `%{{a.b}}%` with `{a: {b: v}}` becomes `v`, for plain segment names `a` and `b`. */
  lemma NestedResolved(a: string, b: string, v: string)
    requires IsName(a) && IsName(b) && '.' !in a && '.' !in b && !StartsWith(a, "TIMESTAMP")
    ensures ReplaceProperties(Placeholder(a + "." + b, '%'), Obj(map[a := Obj(map[b := Str(v)])]), 0) == v
  {
    var name := a + "." + b;
    var props := Obj(map[a := Obj(map[b := Str(v)])]);
    DottedName(a, b);
    assert Split(name, '.') == [a, b] by {
      SplitFirst(a, '.', b);
      SplitNone(b, '.');
    }
    LookupTwoKeys(a, b, Str(v));
    assert PropertyValue(name, props, 0) == Str(v);
    SinglePassString([], name, [], props, 0, v);
    assert [] + Placeholder(name, '%') + [] == Placeholder(name, '%');
  }

  lemma DottedName(a: string, b: string)
    requires IsName(a) && IsName(b) && !StartsWith(a, "TIMESTAMP")
    ensures IsName(a + "." + b) && !IsTimestamp(a + "." + b)
  {
    var name := a + "." + b;
    assert forall i | 0 <= i < |name| :: IsNameChar(name[i]) by {
      forall i | 0 <= i < |name| ensures IsNameChar(name[i]) {
        if i < |a| {
          assert name[i] == a[i];
        } else if i > |a| {
          assert name[i] == b[i - |a| - 1];
        }
      }
    }
    if |a| >= 9 {
      assert name[..9] == a[..9];
    } else {
      assert name[|a|] == '.' && "TIMESTAMP"[|a|] != '.';
    }
  }

  /** `%{{a.b}}%` with `{a: {b: "X"}}` becomes `X`. */
  lemma ExampleResolved()
    ensures ReplaceProperties("%{{a.b}}%", Obj(map["a" := Obj(map["b" := Str("X")])]), 0) == "X"
  {
    assert IsName("a") && IsName("b");
    assert !StartsWith("a", "TIMESTAMP");
    NestedResolved("a", "b", "X");
    assert Placeholder("a" + "." + "b", '%') == "%{{a.b}}%";
  }

  /** A placeholder whose plain name is not a key of the record stays as written. */
  lemma MissingKept(name: string, m: map<string, Value>)
    requires IsName(name) && '.' !in name && !IsTimestamp(name) && name !in m
    ensures ReplaceProperties(Placeholder(name, '%'), Obj(m), 0) == Placeholder(name, '%')
  {
    SplitNone(name, '.');
    assert Lookup([name], Obj(m)) == Undefined by {
      assert Member(Obj(m), name) == Undefined;
      assert [name][1..] == [];
    }
    SinglePassUnresolved([], name, [], Obj(m), 0);
    assert [] + Placeholder(name, '%') + [] == Placeholder(name, '%');
  }

  /** `%{{missing}}%` stays as written when the record has no `missing` key. */
  lemma ExampleMissing()
    ensures ReplaceProperties(Placeholder("missing", '%'), Obj(map["a" := Str("X")]), 0) == Placeholder("missing", '%')
  {
    assert IsName("missing") && '.' !in "missing";
    assert !StartsWith("missing", "TIMESTAMP");
    assert "missing" != "a";
    MissingKept("missing", map["a" := Str("X")]);
  }
}
