/**
 * Language resource substitution (`tasks/lib/lang.js`): every `${{a.b}}$`
 * is replaced by what the dotted lookup in the resource record gives. A
 * non-string becomes `*a.b*`, a string without placeholders is inserted as
 * it is, and a string that holds placeholders itself is expanded again one
 * level deeper, until the level passes 3, where it becomes `**a.b**`.
 */
module Lang {
  import opened Strings
  import opened Json
  import opened Placeholders

  /** `_lv || 1`: a missing (or zero) level starts at 1. */
  function Level(lv: nat): (l: nat)
    ensures l >= 1
    ensures lv > 0 ==> l == lv
  {
    if lv == 0 then 1 else lv
  }

  /** How many nested expansions are still allowed at level `l`. */
  function Budget(l: nat): nat {
    if l <= 3 then 4 - l else 0
  }

  /** `getProperty`: the shift-and-index loop over the dotted segments, without the timestamp names. */
  method GetProperty(name: string, props: Value) returns (res: Value)
    ensures res == Lookup(Split(name, '.'), props)
  {
    res := WalkPath(Split(name, '.'), props);
  }

  /** `replaceProperties(content, properties, _lv)`. */
  function ReplaceLang(content: string, props: Value, lv: nat): (r: string)
    ensures !Truthy(props) ==> r == content
    decreases Budget(Level(lv)), |content|, 1
  {
    if !Truthy(props) then content else Scan(content, props, Level(lv))
  }

  /** The global replace over `s` at level `level`; replaced text is not scanned again at this level. */
  function Scan(s: string, props: Value, level: nat): string
    decreases Budget(level), |s|, 0
  {
    if s == [] then []
    else match MatchAt(s, '$')
      case Some(m) => Resolve(m.name, props, level) + Scan(s[m.len..], props, level)
      case None => [s[0]] + Scan(s[1..], props, level)
  }

  /** The replacement callback for the placeholder `name` at level `level`. */
  function Resolve(name: string, props: Value, level: nat): string
    decreases Budget(level), |name|, 2
  {
    match Lookup(Split(name, '.'), props)
    case Str(v) =>
      if !HasPlaceholder(v, '$') then v
      else if level > 3 then "**" + name + "**"
      else ReplaceLang(v, props, level + 1)
    case _ => "*" + name + "*"
  }

  /** Text without `$` is copied unchanged. */
  lemma {:induction false} ScanPlain(a: string, b: string, props: Value, level: nat)
    requires '$' !in a
    ensures Scan(a + b, props, level) == a + Scan(b, props, level)
    decreases |a|
  {
    if a != [] {
      assert (a + b)[0] == a[0];
      NoMatchWithoutMark(a + b, '$');
      assert (a + b)[1..] == a[1..] + b;
      ScanPlain(a[1..], b, props, level);
      assert a == [a[0]] + a[1..];
    } else {
      assert a + b == b;
    }
  }

  /**
   * One pass: the text before the first placeholder is kept, the placeholder
   * is replaced by the callback's result, and the rest is scanned at the same level.
   */
  lemma SinglePass(pre: string, name: string, post: string, props: Value, lv: nat)
    requires '$' !in pre && IsName(name) && Truthy(props)
    ensures ReplaceLang(pre + Placeholder(name, '$') + post, props, lv)
         == pre + Resolve(name, props, Level(lv)) + ReplaceLang(post, props, lv)
  {
    var s := Placeholder(name, '$') + post;
    assert pre + Placeholder(name, '$') + post == pre + s;
    ScanPlain(pre, s, props, Level(lv));
    ScanHead(name, post, props, Level(lv));
  }

  /** A placeholder at the front goes to the callback, and the scan resumes right after it. */
  lemma ScanHead(name: string, post: string, props: Value, level: nat)
    requires IsName(name)
    ensures Scan(Placeholder(name, '$') + post, props, level) == Resolve(name, props, level) + Scan(post, props, level)
  {
    var s := Placeholder(name, '$') + post;
    MatchPlaceholder(name, '$', post);
    assert s[|name| + 6..] == post;
  }

  /** A placeholder whose lookup is not a string becomes `*name*`. */
  lemma NotStringMarked(pre: string, name: string, post: string, props: Value, lv: nat)
    requires '$' !in pre && IsName(name) && Truthy(props)
    requires !Lookup(Split(name, '.'), props).Str?
    ensures ReplaceLang(pre + Placeholder(name, '$') + post, props, lv)
         == pre + ("*" + name + "*") + ReplaceLang(post, props, lv)
  {
    SinglePass(pre, name, post, props, lv);
  }

  /** A string value without placeholders is inserted verbatim. */
  lemma PlainStringVerbatim(pre: string, name: string, post: string, props: Value, lv: nat, v: string)
    requires '$' !in pre && IsName(name) && Truthy(props)
    requires Lookup(Split(name, '.'), props) == Str(v) && !HasPlaceholder(v, '$')
    ensures ReplaceLang(pre + Placeholder(name, '$') + post, props, lv)
         == pre + v + ReplaceLang(post, props, lv)
  {
    SinglePass(pre, name, post, props, lv);
  }

  /** A string value with placeholders is expanded one level deeper while the level is at most 3. */
  lemma NestedExpanded(pre: string, name: string, post: string, props: Value, lv: nat, v: string)
    requires '$' !in pre && IsName(name) && Truthy(props)
    requires Lookup(Split(name, '.'), props) == Str(v) && HasPlaceholder(v, '$')
    requires Level(lv) <= 3
    ensures ReplaceLang(pre + Placeholder(name, '$') + post, props, lv)
         == pre + ReplaceLang(v, props, Level(lv) + 1) + ReplaceLang(post, props, lv)
  {
    SinglePass(pre, name, post, props, lv);
  }

  /** Past level 3 a string value with placeholders becomes `**name**` instead. */
  lemma NestedCutOff(pre: string, name: string, post: string, props: Value, lv: nat, v: string)
    requires '$' !in pre && IsName(name) && Truthy(props)
    requires Lookup(Split(name, '.'), props) == Str(v) && HasPlaceholder(v, '$')
    requires lv > 3
    ensures ReplaceLang(pre + Placeholder(name, '$') + post, props, lv)
         == pre + ("**" + name + "**") + ReplaceLang(post, props, lv)
  {
    SinglePass(pre, name, post, props, lv);
    ResolveCutOff(name, props, Level(lv), v);
  }

  lemma ResolveCutOff(name: string, props: Value, level: nat, v: string)
    requires Lookup(Split(name, '.'), props) == Str(v) && HasPlaceholder(v, '$') && level > 3
    ensures Resolve(name, props, level) == "**" + name + "**"
  {
  }

  /** The callback with no further expansion: what every placeholder becomes past level 3. */
  function FlatResolve(name: string, props: Value): string {
    match Lookup(Split(name, '.'), props)
    case Str(v) => if HasPlaceholder(v, '$') then "**" + name + "**" else v
    case _ => "*" + name + "*"
  }

  function FlatScan(s: string, props: Value): string
    decreases |s|
  {
    if s == [] then []
    else match MatchAt(s, '$')
      case Some(m) => FlatResolve(m.name, props) + FlatScan(s[m.len..], props)
      case None => [s[0]] + FlatScan(s[1..], props)
  }

  /**
   * The depth bound: past level 3 the replacement makes no recursive call at
   * all, so at most four nested expansions happen below a top-level call.
   */
  lemma {:induction false} CutOffIsFlat(s: string, props: Value, level: nat)
    requires level > 3
    ensures Scan(s, props, level) == FlatScan(s, props)
    decreases |s|
  {
    if s != [] {
      match MatchAt(s, '$')
      case Some(m) =>
        CutOffIsFlat(s[m.len..], props, level);
      case None =>
        CutOffIsFlat(s[1..], props, level);
    }
  }

  lemma PlaceholderFound(name: string, mark: char)
    requires IsName(name)
    ensures HasPlaceholder(Placeholder(name, mark), mark)
  {
    MatchPlaceholder(name, mark, []);
    assert Placeholder(name, mark) + [] == Placeholder(name, mark);
    assert Placeholder(name, mark)[0..] == Placeholder(name, mark);
  }

  /** A placeholder alone in the content is replaced by what the callback gives for it. */
  lemma AloneResolves(name: string, props: Value, lv: nat)
    requires IsName(name) && Truthy(props)
    ensures ReplaceLang(Placeholder(name, '$'), props, lv) == Resolve(name, props, Level(lv))
  {
    SinglePass([], name, [], props, lv);
    assert [] + Placeholder(name, '$') + [] == Placeholder(name, '$');
    assert [] + Resolve(name, props, Level(lv)) + [] == Resolve(name, props, Level(lv));
  }

  /** A resource that names itself, `{a: "${{a}}$"}`, expands four times and ends as `**a**`. */
  lemma SelfReferenceCutOff()
    ensures ReplaceLang(Placeholder("a", '$'), Obj(map["a" := Str(Placeholder("a", '$'))]), 0) == "**a**"
  {
    var props := Obj(map["a" := Str(Placeholder("a", '$'))]);
    SelfLookup();
    AloneResolves("a", props, 0);
    SelfFrom(1);
  }

  /** From any level on, the self-reference ends as `**a**`. */
  lemma {:induction false} SelfFrom(l: nat)
    requires 1 <= l
    ensures Resolve("a", Obj(map["a" := Str(Placeholder("a", '$'))]), l) == "**a**"
    decreases Budget(l)
  {
    var props := Obj(map["a" := Str(Placeholder("a", '$'))]);
    SelfStep(l);
    if l <= 3 {
      SelfLookup();
      AloneResolves("a", props, l + 1);
      SelfFrom(l + 1);
    }
  }

  lemma SelfLookup()
    ensures IsName("a") && HasPlaceholder(Placeholder("a", '$'), '$')
    ensures Lookup(Split("a", '.'), Obj(map["a" := Str(Placeholder("a", '$'))])) == Str(Placeholder("a", '$'))
  {
    var props := Obj(map["a" := Str(Placeholder("a", '$'))]);
    assert IsName("a");
    SplitNone("a", '.');
    assert Member(props, "a") == Str(Placeholder("a", '$'));
    assert ["a"][1..] == [];
    PlaceholderFound("a", '$');
  }

  /** One expansion of the self-reference: below level 4 it is expanded again one level deeper. */
  lemma SelfStep(l: nat)
    requires 1 <= l
    ensures var props := Obj(map["a" := Str(Placeholder("a", '$'))]);
      Resolve("a", props, l) == if l > 3 then "**a**" else ReplaceLang(Placeholder("a", '$'), props, l + 1)
  {
    SelfLookup();
  }
}
