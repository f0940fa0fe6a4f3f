/**
 * The rest of template compilation in `tasks/yomb.js`: the object name a
 * non-AMD template module is assigned to (`getTmplObjName`), the end of
 * `getIncProcessed` (the queue of include marks, the `with($data)` wrap of
 * a template source, the line-break normalisation), the level-0 branch of
 * `getUglified`, and the module `compileTmpl` assembles around the render
 * function.
 */
module Compile {
  import opened Strings
  import Scan
  import opened Template
  import Define
  import Json
  import TemplateShapes

  // ---------------------------------------------------------------------
  // getTmplObjName

  /** A character of the class `[-_\.]`. */
  predicate IsJoiner(c: char) { c == '-' || c == '_' || c == '.' }

  predicate IsNotJoiner(c: char) { !IsJoiner(c) }

  /** A character of the class `[-_\.\/]`, which the run after a match stops at. */
  predicate IsSeparator(c: char) { IsJoiner(c) || c == '/' }

  predicate IsNotDot(c: char) { c != '.' }

  /**
   * `[-_\.]+(\w)` for the run that starts at `q`: the run is greedy and gives
   * characters back from its end `j` until a word character follows it.
   */
  function BackOff(s: string, q: nat, j: nat): (r: Option<nat>)
    requires q < j <= |s|
    ensures r.Some? ==> q < r.value <= j && r.value < |s| && IsWordChar(s[r.value])
    ensures r.None? ==> forall k | q < k <= j && k < |s| :: !IsWordChar(s[k])
    decreases j
  {
    if j < |s| && IsWordChar(s[j]) then Some(j)
    else if j - 1 > q then BackOff(s, q, j - 1)
    else None
  }

  /** `(?:\.*\/)+` from `i`, greedy: the end of the last `/` it takes, or `i` when it takes none. */
  function SlashGroups(s: string, i: nat): (e: nat)
    requires i <= |s|
    ensures i <= e <= |s|
    ensures e > i ==> s[e - 1] == '/'
    decreases |s| - i
  {
    var d := Scan.ScanTo(s, i, IsNotDot);
    if d < |s| && s[d] == '/' then SlashGroups(s, d + 1) else i
  }

  /**
   * `(?:[-_\.]+|(?:\.*\/)+)(\w)` at `q`: the position of the `\w`, trying
   * the run of `-`, `_` and `.` first and the groups ending in `/` second.
   */
  function WordAfter(s: string, q: nat): (r: Option<nat>)
    requires q <= |s|
    ensures r.Some? ==> q < r.value < |s| && IsWordChar(s[r.value])
    ensures (q < |s| && !IsSeparator(s[q])) || q == |s| ==> r.None?
  {
    var first := if q < |s| && IsJoiner(s[q]) then BackOff(s, q, Scan.ScanTo(s, q, IsNotJoiner)) else None;
    if first.Some? then first
    else
      var e := SlashGroups(s, q);
      if q < e < |s| && IsWordChar(s[e]) then Some(e) else None
  }

  /**
   * The global replace from `q` on: a match gives its `\w` upper-cased
   * followed by the run `[^-_\.\/]*` after it, and the scan goes on behind
   * that run; any other character is copied.
   */
  function CamelCase(s: string, q: nat): (r: string)
    requires q <= |s|
    ensures |r| <= |s| - q
    ensures q < |s| ==> |r| > 0
    decreases |s| - q
  {
    if q == |s| then []
    else match WordAfter(s, q)
      case Some(w) =>
        var f := Scan.ScanTo(s, w + 1, IsSeparator);
        [ToUpper(s[w])] + s[w + 1..f] + CamelCase(s, f)
      case None => [s[q]] + CamelCase(s, q + 1)
  }

  /**
   * `getTmplObjName(str)`: the camel-cased name with its first character
   * lower-cased. It is empty exactly when `str` is, and never longer.
   */
  function GetTmplObjName(str: string): (r: string)
    ensures |r| <= |str|
    ensures r == [] <==> str == []
    ensures r != [] ==> r[1..] == CamelCase(str, 0)[1..] && r[0] == ToLower(CamelCase(str, 0)[0])
  {
    var t := CamelCase(str, 0);
    if t == [] then [] else [ToLower(t[0])] + t[1..]
  }

  predicate SeparatorFree(s: string) {
    forall i | 0 <= i < |s| :: !IsSeparator(s[i])
  }

  /** No separator in `s` from `q` up to `f`. */
  predicate NoSeparatorIn(s: string, q: nat, f: nat)
    requires q <= f <= |s|
  {
    forall k | q <= k < f :: !IsSeparator(s[k])
  }

  /** A character that is not a separator is copied. */
  lemma CopyStep(s: string, q: nat)
    requires q < |s| && !IsSeparator(s[q])
    ensures CamelCase(s, q) == [s[q]] + CamelCase(s, q + 1)
  {
  }

  lemma CopySteps(s: string, q: nat, f: nat)
    requires q <= f <= |s| && NoSeparatorIn(s, q, f)
    ensures forall p | q <= p < f :: CamelCase(s, p) == [s[p]] + CamelCase(s, p + 1)
  {
    forall p | q <= p < f ensures CamelCase(s, p) == [s[p]] + CamelCase(s, p + 1) {
      CopyStep(s, p);
    }
  }

  /** A stretch without separators is copied. */
  lemma CamelCopy(s: string, q: nat, f: nat)
    requires q <= f <= |s| && NoSeparatorIn(s, q, f)
    ensures CamelCase(s, q) == s[q..f] + CamelCase(s, f)
  {
    CopySteps(s, q, f);
    var g := (p: nat) => if p <= |s| then CamelCase(s, p) else [];
    assert forall p | q <= p < f :: g(p) == [s[p]] + g(p + 1);
    TemplateShapes.CopyRun(s, q, f, g);
  }

  /** A name without `-`, `_`, `.` and `/` keeps its letters; only its first one is lowered. */
  lemma PlainName(str: string)
    requires str != [] && SeparatorFree(str)
    ensures GetTmplObjName(str) == [ToLower(str[0])] + str[1..]
  {
    CamelCopy(str, 0, |str|);
    assert str[0..|str|] == str;
  }

  /** The run `[^-_\.\/]*` from position `w` is the stretch up to `f`. */
  lemma RunTo(s: string, w: nat, f: nat)
    requires w <= f <= |s| && NoSeparatorIn(s, w, f) && (f == |s| || IsSeparator(s[f]))
    ensures Scan.ScanTo(s, w, IsSeparator) == f
    decreases f - w
  {
    if w < f {
      RunTo(s, w + 1, f);
    }
  }

  /** The separator at `q` is followed by the word character at `q + 1`. */
  lemma WordNext(s: string, q: nat)
    requires q + 1 < |s| && IsSeparator(s[q]) && IsWordChar(s[q + 1]) && s[q + 1] != '_'
    ensures WordAfter(s, q) == Some(q + 1)
  {
    if IsJoiner(s[q]) {
      assert Scan.ScanTo(s, q, IsNotJoiner) == q + 1;
    } else {
      assert Scan.ScanTo(s, q, IsNotDot) == q;
      assert Scan.ScanTo(s, q + 1, IsNotDot) == q + 1;
      assert SlashGroups(s, q + 1) == q + 1;
    }
  }

  /**
   * One of `-`, `_`, `.` or `/` followed by a letter or digit: the separator
   * is dropped and the letter upper-cased; the run after it up to the next
   * separator is kept.
   */
  lemma CamelStep(s: string, q: nat, f: nat)
    requires q + 2 <= f <= |s| && IsSeparator(s[q])
    requires IsWordChar(s[q + 1]) && s[q + 1] != '_'
    requires NoSeparatorIn(s, q + 1, f) && (f == |s| || IsSeparator(s[f]))
    ensures CamelCase(s, q) == [ToUpper(s[q + 1])] + s[q + 2..f] + CamelCase(s, f)
  {
    WordNext(s, q);
    RunTo(s, q + 2, f);
    MatchStep(s, q, q + 1, f);
  }

  /** A match whose `\w` is at `w` and whose run ends at `f`. */
  lemma MatchStep(s: string, q: nat, w: nat, f: nat)
    requires q < |s| && WordAfter(s, q) == Some(w) && w < f <= |s| && Scan.ScanTo(s, w + 1, IsSeparator) == f
    ensures CamelCase(s, q) == [ToUpper(s[w])] + s[w + 1..f] + CamelCase(s, f)
  {
  }

  /** A letter or digit: a word character that `[-_\.]+` cannot take. */
  predicate IsAlnum(c: char) { IsWordChar(c) && c != '_' }

  lemma LowerUpper(c: char)
    ensures ToLower(ToUpper(c)) == ToLower(c)
  {
  }

  /**
   * Two segments joined by one separator: `a-b`, `a_b`, `a.b` and `a/b` all
   * become `a` with its first letter lowered, then `b` with its first letter
   * raised.
   */
  lemma TwoSegments(a: string, sep: char, b: string)
    requires a != [] && b != [] && SeparatorFree(a) && SeparatorFree(b)
    requires IsSeparator(sep) && IsAlnum(b[0])
    ensures GetTmplObjName(a + [sep] + b) == [ToLower(a[0])] + a[1..] + [ToUpper(b[0])] + b[1..]
  {
    var s := a + [sep] + b;
    CamelTwo(s, a, sep, b);
    NameOf(s, a + [ToUpper(b[0])] + b[1..]);
  }

  lemma CamelTwo(s: string, a: string, sep: char, b: string)
    requires a != [] && b != [] && SeparatorFree(a) && SeparatorFree(b)
    requires IsSeparator(sep) && IsAlnum(b[0]) && s == a + [sep] + b
    ensures CamelCase(s, 0) == a + [ToUpper(b[0])] + b[1..]
  {
    Around(s, [], a, [sep] + b);
    Around(s, a + [sep], b, []);
    CamelCopy(s, 0, |a|);
    CamelStep(s, |a|, |s|);
    assert CamelCase(s, |s|) == [];
    var t := CamelCase(s, |a|);
    assert t == [ToUpper(b[0])] + b[1..];
    assert CamelCase(s, 0) == a + t;
  }

  /** Where the parts of `p + a + rest` are, for a separator-free `a`. */
  lemma Around(s: string, p: string, a: string, rest: string)
    requires a != [] && SeparatorFree(a) && s == p + a + rest
    ensures NoSeparatorIn(s, |p|, |p| + |a|)
    ensures s[|p|] == a[0] && s[|p| + 1..|p| + |a|] == a[1..] && s[|p|..|p| + |a|] == a
    ensures rest != [] ==> s[|p| + |a|] == rest[0]
  {
    assert forall k | |p| <= k < |p| + |a| :: s[k] == a[k - |p|];
    assert s[|p|..|p| + |a|] == a;
  }

  /** The name of a text whose camel-cased form is `t`. */
  lemma NameOf(s: string, t: string)
    requires t != [] && CamelCase(s, 0) == t
    ensures GetTmplObjName(s) == [ToLower(t[0])] + t[1..]
  {
  }

  /**
   * A path relative to the current directory, `./a/b`: the `./` is dropped
   * with the first letter it precedes raised (and then lowered again as the
   * first letter of the name), and `/b` becomes `b` with its first letter
   * raised.
   */
  lemma RelativeSegments(a: string, b: string)
    requires a != [] && b != [] && SeparatorFree(a) && SeparatorFree(b)
    requires IsAlnum(a[0]) && IsAlnum(b[0])
    ensures GetTmplObjName("./" + a + "/" + b) == [ToLower(a[0])] + a[1..] + [ToUpper(b[0])] + b[1..]
  {
    var s := "./" + a + "/" + b;
    CamelRelative(s, a, b);
    NameOf(s, [ToUpper(a[0])] + a[1..] + [ToUpper(b[0])] + b[1..]);
    LowerUpper(a[0]);
  }

  lemma CamelRelative(s: string, a: string, b: string)
    requires a != [] && b != [] && SeparatorFree(a) && SeparatorFree(b)
    requires IsAlnum(a[0]) && IsAlnum(b[0]) && s == "./" + a + "/" + b
    ensures CamelCase(s, 0) == [ToUpper(a[0])] + a[1..] + [ToUpper(b[0])] + b[1..]
  {
    SlashSuffix(s, a, b);
    CamelRelativeHead(s, a, "/" + b);
    CamelTail(s, 2 + |a|, b);
  }

  lemma SlashSuffix(s: string, a: string, b: string)
    requires s == "./" + a + "/" + b
    ensures s == "./" + a + ("/" + b)
    ensures s[2 + |a|] == '/' && s[3 + |a|..] == b
  {
    assert s[2 + |a|..] == "/" + b;
  }

  /** A last segment after a separator is raised and copied to the end. */
  lemma CamelTail(s: string, f: nat, b: string)
    requires f < |s| && IsSeparator(s[f]) && s[f + 1..] == b
    requires b != [] && SeparatorFree(b) && IsAlnum(b[0])
    ensures CamelCase(s, f) == [ToUpper(b[0])] + b[1..]
  {
    assert s[f + 1] == b[0];
    assert s[f + 2..] == b[1..];
    assert NoSeparatorIn(s, f + 1, |s|) by {
      forall k | f + 1 <= k < |s| ensures !IsSeparator(s[k]) {
        assert s[k] == b[k - f - 1];
      }
    }
    CamelStep(s, f, |s|);
    assert CamelCase(s, |s|) == [];
  }

  /** The first segment after `./` is raised and copied up to the next separator. */
  lemma CamelRelativeHead(s: string, a: string, rest: string)
    requires a != [] && SeparatorFree(a) && IsAlnum(a[0]) && s == "./" + a + rest
    requires rest == [] || IsSeparator(rest[0])
    ensures CamelCase(s, 0) == [ToUpper(a[0])] + a[1..] + CamelCase(s, 2 + |a|)
  {
    Around(s, "./", a, rest);
    DotSlash(s);
    RunTo(s, 3, 2 + |a|);
    MatchStep(s, 0, 2, 2 + |a|);
  }

  /** `./` followed by a letter or digit is a match of the second alternative. */
  lemma DotSlash(s: string)
    requires |s| > 2 && s[0] == '.' && s[1] == '/' && IsAlnum(s[2])
    ensures WordAfter(s, 0) == Some(2)
  {
    assert Scan.ScanTo(s, 0, IsNotJoiner) == 1;
    assert BackOff(s, 0, 1) == None;
    assert Scan.ScanTo(s, 0, IsNotDot) == 1;
    assert Scan.ScanTo(s, 2, IsNotDot) == 2;
    assert SlashGroups(s, 2) == 2;
    assert SlashGroups(s, 0) == 2;
  }

  lemma DashedName(s: string)
    requires s == "list-item"
    ensures GetTmplObjName(s) == "listItem"
  {
    TwoSegments("list", '-', "item");
    assert "list" + ['-'] + "item" == s;
  }

  lemma RelativeName(a: string, b: string)
    requires a == "tpl" && b == "list"
    ensures GetTmplObjName("./" + a + "/" + b) == "tplList"
  {
    TplListParts(a, b);
    RelativeSegments(a, b);
  }

  lemma TplListParts(a: string, b: string)
    requires a == "tpl" && b == "list"
    ensures SeparatorFree(a) && SeparatorFree(b) && IsAlnum(a[0]) && IsAlnum(b[0])
    ensures [ToLower(a[0])] + a[1..] + [ToUpper(b[0])] + b[1..] == "tplList"
  {
    forall i | 0 <= i < |a| ensures !IsSeparator(a[i]) { }
    forall i | 0 <= i < |b| ensures !IsSeparator(b[i]) { }
    assert ToLower(a[0]) == 't' && ToUpper(b[0]) == 'L';
  }


  // ---------------------------------------------------------------------
  // The end of getIncProcessed

  /**
   * `$data.` at `p` where `(^|[^.]+)\B\$data\.` matches: at the very start,
   * or after a character that is neither a `.` (so `obj.$data.x` does not
   * count) nor a word character (the `\B` before `$`).
   */
  predicate DataRefAt(s: string, p: nat) {
    HasAt(s, p, "$data.") && (p == 0 || (s[p - 1] != '.' && !IsWordChar(s[p - 1])))
  }

  /** `/(^|[^.]+)\B\$data\./.test(s)`, scanning from `q` on. */
  function UsesData(s: string, q: nat): (r: bool)
    requires q <= |s|
    ensures r <==> exists p | q <= p < |s| :: DataRefAt(s, p)
    decreases |s| - q
  {
    if q == |s| then false else DataRefAt(s, q) || UsesData(s, q + 1)
  }

  /** The code of the wrapper's statement tags. */
  const WrapOpenCode: string := ";(function() {"
  const WithOpenCode: string := "with($data) {"
  const WithCloseCode: string := "}"
  const WrapCloseCode: string := "})();"

  const WrapOpen: string := "<%" + WrapOpenCode + "%>"
  const WithOpen: string := "<%" + WithOpenCode + "%>"
  const WithClose: string := "<%" + WithCloseCode + "%>"
  const WrapClose: string := "<%" + WrapCloseCode + "%>"

  /**
   * The wrap of a template source: its code runs in a function of its own
   * and, unless it reads `$data.` itself, inside `with($data)`.
   */
  function StrictWrap(tmpl: string): (r: string)
    ensures UsesData(tmpl, 0) ==> r == WrapOpen + EOL + EOL + tmpl + EOL + EOL + WrapClose
    ensures !UsesData(tmpl, 0) ==> r == WrapOpen + EOL + WithOpen + EOL + tmpl + EOL + WithClose + EOL + WrapClose
  {
    var strict := UsesData(tmpl, 0);
    JoinFive(WrapOpen, if strict then [] else WithOpen, tmpl, if strict then [] else WithClose, WrapClose);
    Join([WrapOpen, if strict then [] else WithOpen, tmpl, if strict then [] else WithClose, WrapClose], EOL)
  }

  /**
   * The text `getIncProcessed` hands on: a template source wrapped, then
   * every `\r\n` made `\n`. A script without `\r` passes through unchanged.
   */
  function IncFinish(tmpl: string, isTemplate: bool): (r: string)
    ensures !isTemplate && Free(tmpl, '\r') ==> r == tmpl
  {
    NoReturnKept(tmpl);
    ReplaceAll(if isTemplate then StrictWrap(tmpl) else tmpl, "\r\n", "\n")
  }

  /** A template that starts with `$data.` is wrapped without `with($data)`. */
  lemma DataPrefixStrict(tmpl: string)
    requires StartsWith(tmpl, "$data.")
    ensures StrictWrap(tmpl) == WrapOpen + EOL + EOL + tmpl + EOL + EOL + WrapClose
  {
    assert DataRefAt(tmpl, 0);
  }

  /** `obj.$data.x` is a member access, and `x$data.` is part of a longer name: neither counts. */
  lemma MemberDataIgnored(s: string, p: nat)
    requires 0 < p && p + 6 <= |s| && (s[p - 1] == '.' || IsWordChar(s[p - 1]))
    ensures !DataRefAt(s, p)
  {
  }

  /** The wrapper tags are statement tags: each closes the current push and opens the next. */
  lemma WrapperTags(keepLines: bool)
    ensures PushCode(WrapOpen, keepLines) == "');" + EOL + "\t\t" + WrapOpenCode + Reopen
    ensures PushCode(WithOpen, keepLines) == "');" + EOL + "\t\t" + WithOpenCode + Reopen
    ensures PushCode(WithClose, keepLines) == "');" + EOL + "\t\t" + WithCloseCode + Reopen
    ensures PushCode(WrapClose, keepLines) == "');" + EOL + "\t\t" + WrapCloseCode + Reopen
  {
    QuietCodes();
    WrapperCode(WrapOpenCode, keepLines);
    WrapperCode(WithOpenCode, keepLines);
    WrapperCode(WithCloseCode, keepLines);
    WrapperCode(WrapCloseCode, keepLines);
  }

  /** A character a wrapper statement may hold: none that starts or ends a tag, an output or a target. */
  predicate IsQuietChar(ch: char) {
    ch != '%' && ch != '-' && ch != '<' && ch != '=' && ch != VT && !IsLineTerminator(ch)
  }

  predicate Quiet(c: string) {
    forall k | 0 <= k < |c| :: IsQuietChar(c[k])
  }

  lemma QuietCodes()
    ensures Quiet(WrapOpenCode) && Quiet(WithOpenCode) && Quiet(WithCloseCode) && Quiet(WrapCloseCode)
  {
    QuietText(WrapOpenCode);
    QuietText(WithOpenCode);
    QuietText(WrapCloseCode);
  }

  lemma QuietText(c: string)
    requires c in {WrapOpenCode, WithOpenCode, WrapCloseCode}
    ensures Quiet(c)
  {
  }

  lemma WrapperCode(c: string, keepLines: bool)
    requires Quiet(c)
    ensures PushCode("<%" + c + "%>", keepLines) == "');" + EOL + "\t\t" + c + Reopen
  {
    if |c| > 0 {
      assert c[..1][0] == c[0];
    }
    TemplateShapes.StatementTag(c, keepLines);
  }

  /** A text without `\r` passes the line-break normalisation unchanged. */
  lemma NoReturnKept(tmpl: string)
    ensures Free(tmpl, '\r') ==> ReplaceAll(tmpl, "\r\n", "\n") == tmpl
  {
    if Free(tmpl, '\r') {
      forall i | 0 <= i <= |tmpl| ensures !HasAt(tmpl, i, "\r\n") {
        if i + 2 <= |tmpl| {
          assert tmpl[i..i + 2][0] == tmpl[i];
        }
      }
      ReplaceAllAbsent(tmpl, "\r\n", "\n");
    }
  }

  /** The normalisation is a single pass: `\r\r\n` keeps a `\r\n`. */
  lemma SinglePassNormalisation(s: string)
    requires s == "\r\r\n"
    ensures IncFinish(s, false) == "\r\n"
  {
    assert s[..2][1] == '\r';
    assert s[1..] == "\r\n";
    ReplaceAllFirst([], [], "\r\n", "\n");
    assert [] + "\r\n" + [] == s[1..];
  }

  // ---------------------------------------------------------------------
  // The queue of include marks

  /** The mark an include or require comment leaves for the `n`-th queued item. */
  function Mark(n: nat): (m: string)
    ensures |m| > 0 && m[0] == '<'
  {
    "<YOMB_INC_PROCESS_ASYNC_MARK_" + NatToString(n) + ">"
  }

  /** The template after the items from `n` on replaced their marks everywhere, in queue order. */
  function Merged(tmpl: string, results: seq<string>, n: nat): (r: string)
    ensures Free(tmpl, '<') ==> r == tmpl
    decreases |results| - n
  {
    if n >= |results| then tmpl
    else
      MarklessStep(tmpl, results, n);
      Merged(ReplaceAll(tmpl, Mark(n), results[n]), results, n + 1)
  }

  /**
   * The `mergeOne` loop of `getIncProcessed`: the queue is drained from the
   * front, and each item's result replaces its mark in the whole template.
   * `results[n]` is what the `n`-th item's processor called back with.
   */
  method MergeMarks(tmpl: string, results: seq<string>) returns (r: string)
    ensures r == Merged(tmpl, results, 0)
  {
    var queue := results;
    var n := 0;
    r := tmpl;
    while |queue| > 0
      invariant n + |queue| == |results| && queue == results[n..]
      invariant Merged(r, results, n) == Merged(tmpl, results, 0)
    {
      var item := queue[0];
      queue := queue[1..];
      r := ReplaceAll(r, Mark(n), item);
      n := n + 1;
    }
  }

  /** A text without `<` carries no mark: one step of the merge leaves it as it is. */
  lemma MarklessStep(tmpl: string, results: seq<string>, n: nat)
    requires n < |results|
    ensures Free(tmpl, '<') ==> ReplaceAll(tmpl, Mark(n), results[n]) == tmpl
  {
    if Free(tmpl, '<') {
      NoMarkIn(tmpl, Mark(n));
      ReplaceAllAbsent(tmpl, Mark(n), results[n]);
    }
  }

  lemma NoMarkIn(s: string, m: string)
    requires Free(s, '<') && |m| > 0 && m[0] == '<'
    ensures !Contains(s, m)
  {
    forall i | 0 <= i <= |s| ensures !HasAt(s, i, m) {
      if i + |m| <= |s| {
        assert s[i..i + |m|][0] == s[i];
      }
    }
  }

  /**
   * A mark between text without `<`: once the queue reaches the mark's own
   * item, the mark is gone and that item's result stands in its place.
   */
  lemma MarkFilled(a: string, b: string, results: seq<string>, n: nat)
    requires n < |results| && Free(a, '<') && Free(b, '<') && Free(results[n], '<')
    ensures Merged(a + Mark(n) + b, results, n) == a + results[n] + b
  {
    var m := Mark(n);
    forall i | 0 <= i < |a| ensures !HasAt(a + m + b, i, m) {
      assert (a + m + b)[i] == a[i];
      if i + |m| <= |a + m + b| {
        assert (a + m + b)[i..i + |m|][0] == a[i];
      }
    }
    ReplaceAllFirst(a, b, m, results[n]);
    NoMarkIn(b, m);
    ReplaceAllAbsent(b, m, results[n]);
    FreeConcat3(a, results[n], b);
  }

  lemma FreeConcat3(a: string, x: string, b: string)
    requires Free(a, '<') && Free(x, '<') && Free(b, '<')
    ensures Free(a + x + b, '<')
  {
    var s := a + x + b;
    forall i | 0 <= i < |s| ensures s[i] != '<' {
      if i < |a| { assert s[i] == a[i]; }
      else if i < |a| + |x| { assert s[i] == x[i - |a|]; }
      else { assert s[i] == b[i - |a| - |x|]; }
    }
  }

  // ---------------------------------------------------------------------
  // getUglified at level 0

  /** `/\S/.test(s)`. */
  predicate HasNonSpace(s: string) {
    exists i | 0 <= i < |s| :: !IsSpace(s[i])
  }

  /** `info.banner || (opt.inline ? '' : globalBanner)`; an empty `infoBanner` is an absent one. */
  function Banner(infoBanner: string, inline: bool, globalBanner: string): string {
    if infoBanner != [] then infoBanner else if inline then [] else globalBanner
  }

  /** `info.uglify` when it is defined, else the global level. */
  function Level(infoUglify: Json.Value, globalLevel: Json.Value): Json.Value {
    if infoUglify.Undefined? then globalLevel else infoUglify
  }

  /**
   * `getUglified` up to the parser. Blank content gives the empty text; a
   * falsy level (0, undefined, …) gives the banner followed by the content
   * as it is. None: a truthy level hands the content to uglify-js.
   */
  function GetUglified(content: string, infoUglify: Json.Value, globalLevel: Json.Value,
                       infoBanner: string, inline: bool, globalBanner: string): (r: Option<string>)
    ensures r.Some? <==> !HasNonSpace(content) || !Json.Truthy(Level(infoUglify, globalLevel))
    ensures r.Some? && !HasNonSpace(content) ==> r.value == []
    ensures r.Some? && HasNonSpace(content) ==>
      var k := |Banner(infoBanner, inline, globalBanner)|;
      |r.value| == k + |content| && r.value[..k] == Banner(infoBanner, inline, globalBanner) && r.value[k..] == content
  {
    if !HasNonSpace(content) then Some([])
    else if !Json.Truthy(Level(infoUglify, globalLevel)) then Some(Banner(infoBanner, inline, globalBanner) + content)
    else None
  }

  /** Inline scripts at level 0 carry no global banner: without a banner of their own they stay as they are. */
  lemma InlineUnchanged(content: string, infoUglify: Json.Value, globalLevel: Json.Value, globalBanner: string)
    requires HasNonSpace(content) && !Json.Truthy(Level(infoUglify, globalLevel))
    ensures GetUglified(content, infoUglify, globalLevel, [], true, globalBanner) == Some(content)
  {
  }

  // ---------------------------------------------------------------------
  // The module compileTmpl assembles

  /** The `type` a template is compiled for: `NODE`, `AMD` or anything else. */
  datatype Kind = Node | Amd | Plain

  /** `opt.id + ''`: an undefined id prints as `undefined`. */
  function IdString(id: Option<string>): string {
    if id.Some? then id.value else "undefined"
  }

  const AmdFactory: string := "', ['require', 'exports', 'module'], function(require, exports, module) {"
  const AmdAnonymous: string := "define(function(require, exports, module) {"
  const PlainOpen: string := " = (function() {\n\tvar exports = {};"
  const PlainClose: string := "\treturn exports\n})()"

  /** What goes in front of the render function. */
  function Header(kind: Kind, id: Option<string>): seq<string> {
    match kind
    case Node => []
    case Amd => if id.Some? && id.value != [] then ["define('" + id.value + AmdFactory] else [AmdAnonymous]
    case Plain => ["var " + GetTmplObjName(IdString(id)) + PlainOpen]
  }

  /** What goes behind it. */
  function Footer(kind: Kind): seq<string> {
    match kind
    case Node => []
    case Amd => ["})"]
    case Plain => [PlainClose]
  }

  /**
   * The module text for the output of `getIncProcessed`, before
   * `fixDefineParams` and the beautifier: closing script tags are broken
   * up, and the render function sits between the header and the footer.
   */
  function ModuleText(processed: string, kind: Kind, id: Option<string>, uglifyLevel: int): string {
    var render := RenderBlock(ScriptClose(processed, 0), KeepsLines(kind == Node, uglifyLevel));
    Join(Header(kind, id) + [render] + Footer(kind), EOL)
  }

  /**
   * `compileTmpl` without a build root: an AMD module gets its header
   * fixed, then the text goes through the beautifier `beautify`.
   */
  function CompileTmpl(processed: string, kind: Kind, id: Option<string>, baseId: string, uglifyLevel: int,
                       join: string -> string, beautify: string -> string): string {
    var res := ModuleText(processed, kind, id, uglifyLevel);
    beautify(if kind == Amd then Define.FixDefineParams(res, if id.Some? then id.value else [], baseId, join) else res)
  }

  /** A NODE module is the render function alone. */
  lemma NodeModule(processed: string, uglifyLevel: int, render: string)
    requires render == RenderBlock(ScriptClose(processed, 0), KeepsLines(true, uglifyLevel))
    ensures ModuleText(processed, Node, None, uglifyLevel) == render
  {
    assert Header(Node, None) + [render] + Footer(Node) == [render];
  }

  /** An AMD module opens with its `define(` header and closes with `})`. */
  lemma AmdModule(processed: string, id: Option<string>, uglifyLevel: int, render: string)
    requires render == RenderBlock(ScriptClose(processed, 0), false)
    ensures ModuleText(processed, Amd, id, uglifyLevel)
      == (if id.Some? && id.value != [] then "define('" + id.value + AmdFactory else AmdAnonymous) + EOL + render + EOL + "})"
  {
    var h := if id.Some? && id.value != [] then "define('" + id.value + AmdFactory else AmdAnonymous;
    assert Header(Amd, id) == [h];
    assert [h] + [render] + ["})"] == [h, render, "})"];
    JoinThree(h, render, "})");
  }

  /**
   * Any other module assigns an immediately called function to the
   * template's object name, and that function returns `exports`.
   */
  lemma PlainModule(processed: string, id: Option<string>, uglifyLevel: int, render: string)
    requires render == RenderBlock(ScriptClose(processed, 0), false)
    ensures ModuleText(processed, Plain, id, uglifyLevel)
      == "var " + GetTmplObjName(IdString(id)) + PlainOpen + EOL + render + EOL + PlainClose
  {
    var h := "var " + GetTmplObjName(IdString(id)) + PlainOpen;
    assert Header(Plain, id) == [h];
    assert [h] + [render] + [PlainClose] == [h, render, PlainClose];
    JoinThree(h, render, PlainClose);
  }

  lemma JoinFive(a: string, b: string, c: string, d: string, e: string)
    ensures Join([a, b, c, d, e], EOL) == a + EOL + b + EOL + c + EOL + d + EOL + e
  {
    assert [a, b, c, d, e][1..] == [b, c, d, e];
    assert [b, c, d, e][1..] == [c, d, e];
    JoinThree(c, d, e);
  }

  lemma JoinThree(a: string, b: string, c: string)
    ensures Join([a, b, c], EOL) == a + EOL + b + EOL + c
  {
    assert [a, b, c][1..] == [b, c];
    assert [b, c][1..] == [c];
    assert Join([c], EOL) == c;
    assert Join([b, c], EOL) == b + EOL + c;
  }

  /**
   * `combineOne` compiles a template as a plain module with no id, so the
   * object it assigns is named after the string `undefined`.
   */
  lemma CombinedName(id: Option<string>)
    requires id.None?
    ensures Header(Plain, id) == ["var undefined" + PlainOpen]
  {
    var u := IdString(id);
    assert u == "undefined";
    assert SeparatorFree(u) by {
      forall i | 0 <= i < |u| ensures !IsSeparator(u[i]) { }
    }
    PlainName(u);
    assert ToLower(u[0]) == u[0];
    assert [u[0]] + u[1..] == u;
    assert "var " + u == "var undefined";
  }
}
