/**
 * The micro-template compiler of `tasks/yomb.js` (`compileTmpl`): the chain
 * of global replacements that turns template text into the body of a
 * `render` function pushing strings onto `_$out_`, the `$encodeHtml` helper
 * the generated code carries, and the module wrapper around it.
 *
 * Each regular expression of the chain is an explicit scanner over the
 * shapes it matches. A pattern scanner is indexed by the position it has
 * reached in a fixed text, as a global `replace` scans from `lastIndex`;
 * a per-character replacement recurses on the rest of the text.
 */
module Template {
  import opened Strings
  import Scan

  const EOL: string := "\n"

  // ---------------------------------------------------------------------
  // Per-character replacements

  /** `s.replace(/c/g, rep)` for a single character `c`. */
  function ReplaceChar(s: string, c: char, rep: string): (r: string)
    ensures |r| >= |s| || rep == []
  {
    if s == [] then [] else (if s[0] == c then rep else [s[0]]) + ReplaceChar(s[1..], c, rep)
  }

  predicate Free(s: string, c: char) {
    forall i | 0 <= i < |s| :: s[i] != c
  }

  lemma {:induction false} ReplaceCharAbsent(s: string, c: char, rep: string)
    requires Free(s, c)
    ensures ReplaceChar(s, c, rep) == s
  {
    if s != [] {
      ReplaceCharAbsent(s[1..], c, rep);
    }
  }

  lemma {:induction false} ReplaceCharConcat(a: string, b: string, c: char, rep: string)
    ensures ReplaceChar(a + b, c, rep) == ReplaceChar(a, c, rep) + ReplaceChar(b, c, rep)
  {
    if a != [] {
      assert (a + b)[1..] == a[1..] + b;
      ReplaceCharConcat(a[1..], b, c, rep);
    } else {
      assert a + b == b;
    }
  }

  lemma ReplaceOnce(c: char, rep: string)
    ensures ReplaceChar([c], c, rep) == rep
  {
    assert [c][1..] == [];
  }

  /** Single-character replacements applied one after the other. */
  function ReplaceChars(s: string, rs: seq<(char, string)>): string
    decreases |rs|
  {
    if rs == [] then s else ReplaceChars(ReplaceChar(s, rs[0].0, rs[0].1), rs[1..])
  }

  lemma {:induction false} ReplaceCharsConcat(x: string, y: string, rs: seq<(char, string)>)
    ensures ReplaceChars(x + y, rs) == ReplaceChars(x, rs) + ReplaceChars(y, rs)
    decreases |rs|
  {
    if rs != [] {
      ReplaceCharConcat(x, y, rs[0].0, rs[0].1);
      ReplaceCharsConcat(ReplaceChar(x, rs[0].0, rs[0].1), ReplaceChar(y, rs[0].0, rs[0].1), rs[1..]);
    }
  }

  /** A text without any of the replaced characters is left alone. */
  lemma {:induction false} ReplaceCharsAbsent(s: string, rs: seq<(char, string)>)
    requires forall k | 0 <= k < |rs| :: Free(s, rs[k].0)
    ensures ReplaceChars(s, rs) == s
    decreases |rs|
  {
    if rs != [] {
      ReplaceCharAbsent(s, rs[0].0, rs[0].1);
      ReplaceCharsAbsent(s, rs[1..]);
    }
  }

  // ---------------------------------------------------------------------
  // `$encodeHtml`

  /** What `$encodeHtml` does to one character. */
  function Entity(c: char): string {
    if c == '&' then "&amp;"
    else if c == '<' then "&lt;"
    else if c == '>' then "&gt;"
    else if c == '`' then "&#96;"
    else if c == '\'' then "&#39;"
    else if c == '"' then "&quot;"
    else [c]
  }

  /** The characters `$encodeHtml` replaces. */
  predicate IsHtmlSpecial(c: char) {
    c == '&' || c == '<' || c == '>' || c == '`' || c == '\'' || c == '"'
  }

  /** Every character replaced by its entity, in one pass. */
  function EncodeChars(s: string): string {
    if s == [] then [] else Entity(s[0]) + EncodeChars(s[1..])
  }

  /** The replacements of `$encodeHtml`, in their order: `&` first. */
  const HtmlReplacements: seq<(char, string)> :=
    [('&', "&amp;"), ('<', "&lt;"), ('>', "&gt;"), ('`', "&#96;"), ('\'', "&#39;"), ('"', "&quot;")]

  /**
   * `$encodeHtml(str)` of the generated code: six global replacements, the
   * one of `&` first, so that the entities the other five insert are not
   * escaped again.
   */
  function EncodeHtml(s: string): (r: string)
    ensures r == EncodeChars(s)
    ensures forall i | 0 <= i < |r| :: !IsHtmlSpecial(r[i]) || r[i] == '&'
  {
    EncodeHtmlChars(s);
    EncodedCharsInert(s);
    ReplaceChars(s, HtmlReplacements)
  }

  /** An entity has no character that a later replacement of the chain looks for. */
  lemma EntityStep(x: char, k: nat)
    requires k < |HtmlReplacements| && x == HtmlReplacements[k].0
    ensures ReplaceChars([x], HtmlReplacements[k..]) == Entity(x)
  {
    var rs := HtmlReplacements[k..];
    ReplaceOnce(x, rs[0].1);
    assert rs[1..] == HtmlReplacements[k + 1..];
    assert forall j | 0 <= j < |rs[1..]| :: Free(Entity(x), rs[1..][j].0);
    ReplaceCharsAbsent(Entity(x), rs[1..]);
  }

  /** The chain over the replacements before the one that applies leaves a character alone. */
  lemma {:induction false} SkipSteps(x: char, k: nat)
    requires k <= |HtmlReplacements|
    requires forall j | 0 <= j < k :: x != HtmlReplacements[j].0
    ensures ReplaceChars([x], HtmlReplacements) == ReplaceChars([x], HtmlReplacements[k..])
    decreases k
  {
    if k > 0 {
      SkipSteps(x, k - 1);
      var rs := HtmlReplacements[k - 1..];
      ReplaceCharAbsent([x], rs[0].0, rs[0].1);
      assert rs[1..] == HtmlReplacements[k..];
    }
  }

  lemma EncodeHtmlChar(x: char)
    ensures ReplaceChars([x], HtmlReplacements) == Entity(x)
  {
    var rs := HtmlReplacements;
    var k := if x == '&' then 0 else if x == '<' then 1 else if x == '>' then 2
      else if x == '`' then 3 else if x == '\'' then 4 else if x == '"' then 5 else 6;
    SkipSteps(x, k);
    if k < 6 {
      EntityStep(x, k);
    } else {
      assert rs[6..] == [];
    }
  }

  /** The chain of six replacements is the one-pass character mapping. */
  lemma {:induction false} EncodeHtmlChars(s: string)
    ensures ReplaceChars(s, HtmlReplacements) == EncodeChars(s)
  {
    if s != [] {
      assert s == [s[0]] + s[1..];
      ReplaceCharsConcat([s[0]], s[1..], HtmlReplacements);
      EncodeHtmlChar(s[0]);
      EncodeHtmlChars(s[1..]);
    }
  }

  /** The mapped text has none of `<`, `>`, backquote and the two quotes; only `&` of the special characters remains. */
  lemma {:induction false} EncodedCharsInert(s: string)
    ensures forall i | 0 <= i < |EncodeChars(s)| :: !IsHtmlSpecial(EncodeChars(s)[i]) || EncodeChars(s)[i] == '&'
  {
    if s != [] {
      EncodedCharsInert(s[1..]);
      var e, r := Entity(s[0]), EncodeChars(s[1..]);
      assert forall i | 0 <= i < |e| :: !IsHtmlSpecial(e[i]) || e[i] == '&';
      assert forall i | |e| <= i < |e + r| :: (e + r)[i] == r[i - |e|];
    }
  }

  /** `&` replaced last instead of first would escape the entities again: `<` would become `&amp;lt;`, not `&lt;`. */
  lemma AmpersandLastEscapesTwice()
    ensures ReplaceChar(ReplaceChar("<", '<', "&lt;"), '&', "&amp;") == "&amp;lt;"
  {
    var lt := ReplaceChar("<", '<', "&lt;");
    ReplaceOnce('<', "&lt;");
    AmpersandAgain(lt);
  }

  lemma AmpersandAgain(lt: string)
    requires lt == "&lt;"
    ensures ReplaceChar(lt, '&', "&amp;") == "&amp;lt;"
  {
    assert lt == ['&'] + "lt;";
    ReplaceCharConcat(['&'], "lt;", '&', "&amp;");
    ReplaceOnce('&', "&amp;");
    ReplaceCharAbsent("lt;", '&', "&amp;");
  }

  // ---------------------------------------------------------------------
  // The replacement chain of `compileTmpl`

  /** The vertical tab, which the chain uses to stand for a line break. */
  const VT: char := '\U{B}'

  /** `.replace(/\r\n|\n|\r/g, "\v")`, on the text from `q` on. */
  function LinesToVt(s: string, q: nat): string
    requires q <= |s|
    decreases |s| - q
  {
    if q == |s| then []
    else if s[q] == '\r' && q + 1 < |s| && s[q + 1] == '\n' then [VT] + LinesToVt(s, q + 2)
    else if s[q] == '\n' || s[q] == '\r' then [VT] + LinesToVt(s, q + 1)
    else [s[q]] + LinesToVt(s, q + 1)
  }

  /** `.*?(?:<%|$)` from `i`: where the lazy match ends; it cannot run past a line terminator. */
  function LazyEnd(s: string, i: nat): (r: Option<nat>)
    requires i <= |s|
    ensures r.Some? ==> i <= r.value <= |s| && (r.value == i ==> i == |s|)
    decreases |s| - i
  {
    if HasAt(s, i, "<%") then Some(i + 2)
    else if i == |s| then Some(i)
    else if IsLineTerminator(s[i]) then None
    else LazyEnd(s, i + 1)
  }

  /** A match of `(?:^|%>).*?(?:<%|$)` at `p`: the text outside the tags, and where it ends. */
  function SegmentAt(s: string, p: nat): (r: Option<nat>)
    requires p <= |s|
    ensures r.Some? ==> p <= r.value <= |s| && (r.value == p ==> p == |s|)
  {
    var atStart := if p == 0 then LazyEnd(s, 0) else None;
    if atStart.Some? then atStart
    else if HasAt(s, p, "%>") then LazyEnd(s, p + 2)
    else None
  }

  /** `.replace(/('|\\)/g, "\\$1")`: a backslash in front of each quote and each backslash. */
  function EscapeQuotes(s: string): string {
    if s == [] then []
    else (if s[0] == '\'' || s[0] == '\\' then ['\\', s[0]] else [s[0]]) + EscapeQuotes(s[1..])
  }

  /** `.replace(/[\v\t]/g, "")`. */
  function StripVtTab(s: string): string {
    if s == [] then []
    else (if s[0] == VT || s[0] == '\t' then [] else [s[0]]) + StripVtTab(s[1..])
  }

  /** `.replace(/\s+/g, " ")`: each run of white space becomes one space. */
  function CollapseSpaces(s: string): string
    decreases |s|
  {
    if s == [] then []
    else if IsSpace(s[0]) then " " + CollapseSpaces(s[Scan.SkipSpaces(s, 1)..])
    else [s[0]] + CollapseSpaces(s[1..])
  }

  /**
   * The callback applied to each text outside the tags: quotes and
   * backslashes escaped; then, for a NODE module at uglify level 0 or below,
   * line breaks become `\n` escapes, and otherwise line breaks and tabs are
   * dropped and white space runs shrink to one space.
   */
  function Outer(x: string, keepLines: bool): string {
    if keepLines then ReplaceChar(EscapeQuotes(x), VT, "\\n")
    else CollapseSpaces(StripVtTab(EscapeQuotes(x)))
  }

  /** `.replace(/(?:^|%>).*?(?:<%|$)/g, callback)`, from `lastIndex` `q` on. */
  function Segments(s: string, q: nat, keepLines: bool): string
    requires q <= |s|
    decreases |s| - q
  {
    if q == |s| then []
    else match SegmentAt(s, q)
      case Some(e) => Outer(s[q..e], keepLines) + Segments(s, e, keepLines)
      case None => [s[q]] + Segments(s, q + 1, keepLines)
  }

  /** `(.*?)%>` from `i`: the `%>` the lazy match reaches without passing a line terminator. */
  function CloseAt(s: string, i: nat): (r: Option<nat>)
    requires i <= |s|
    ensures r.Some? ==> i <= r.value && HasAt(s, r.value, "%>")
    decreases |s| - i
  {
    if HasAt(s, i, "%>") then Some(i)
    else if i == |s| || IsLineTerminator(s[i]) then None
    else CloseAt(s, i + 1)
  }

  /**
   * `.replace(/<open>(.*?)%>/g, pre + "$1" + post)`: an output tag, `<%==…%>`
   * or `<%=…%>`, becomes an argument of the push it ends and the one it starts.
   */
  function OutputTags(s: string, q: nat, open: string, pre: string, post: string): string
    requires q <= |s|
    decreases |s| - q
  {
    if q == |s| then []
    else
      var c := if HasAt(s, q, open) then CloseAt(s, q + |open|) else None;
      if c.Some? then pre + s[q + |open|..c.value] + post + OutputTags(s, c.value + 2, open, pre, post)
      else [s[q]] + OutputTags(s, q + 1, open, pre, post)
  }

  /** `.replace(/<%(<-)?/g, "');" + EOL + "\t\t")`: any other tag opener ends the push and starts a statement. */
  function Statements(s: string, q: nat): string
    requires q <= |s|
    decreases |s| - q
  {
    if q == |s| then []
    else if HasAt(s, q, "<%") then
      "');" + EOL + "\t\t" + Statements(s, if HasAt(s, q + 2, "<-") then q + 4 else q + 2)
    else [s[q]] + Statements(s, q + 1)
  }

  predicate IsNonWord(c: char) { !IsWordChar(c) }

  /** `->(\w+)%>` at `q`: the end of the name. */
  function TargetAt(s: string, q: nat): (r: Option<nat>)
    requires q <= |s|
    ensures r.Some? ==> q + 2 < r.value && HasAt(s, r.value, "%>")
  {
    if !HasAt(s, q, "->") then None
    else
      var w := Scan.ScanTo(s, q + 2, IsNonWord);
      if w > q + 2 && HasAt(s, w, "%>") then Some(w) else None
  }

  /** `.replace(/->(\w+)%>/g, EOL + "\t\t$1.push('")`: a statement ending in `->name` sends the next text to `name`. */
  function PushTargets(s: string, q: nat): string
    requires q <= |s|
    decreases |s| - q
  {
    if q == |s| then []
    else match TargetAt(s, q)
      case Some(w) => EOL + "\t\t" + s[q + 2..w] + ".push('" + PushTargets(s, w + 2)
      case None => [s[q]] + PushTargets(s, q + 1)
  }

  const Push: string := "_$out_.push('"

  /** What `.split("%>").join(...)` puts where a statement tag closes. */
  const Reopen: string := "\n\t\t_$out_.push('"

  /**
   * The passes over the text outside the tags: line breaks become `\v`, the
   * text between tags is escaped and, unless lines are kept, squeezed, then
   * the remaining `\v` become line breaks again.
   */
  function TextPasses(tmpl: string, keepLines: bool): string {
    ReplaceChar(Segments(LinesToVt(tmpl, 0), 0, keepLines), VT, EOL)
  }

  /**
   * The passes over the tags: output tags, statement openers, push targets,
   * and `.split("%>").join(EOL + "\t\t_$out_.push('")` for the closers left.
   */
  function TagPasses(s: string): string {
    var s4 := OutputTags(s, 0, "<%==", "', $encodeHtml(", "), '");
    var s5 := OutputTags(s4, 0, "<%=", "', ", ", '");
    var s6 := Statements(s5, 0);
    var s7 := PushTargets(s6, 0);
    ReplaceAll(s7, "%>", Reopen)
  }

  /** The code the template contributes to the first push of `render`. */
  function PushCode(tmpl: string, keepLines: bool): string {
    TagPasses(TextPasses(tmpl, keepLines))
  }

  /** Whether the text outside the tags keeps its line breaks: a NODE module at uglify level 0 or below. */
  predicate KeepsLines(isNode: bool, uglifyLevel: int) {
    isNode && uglifyLevel <= 0
  }

  /** The `$encodeHtml` helper and the start of `exports.render`, as the generated code has them. */
  const Prologue: seq<string> :=
    [ "\tfunction $encodeHtml(str) {",
      "\t\treturn (str + '').replace(/&/g, '&amp;').replace(/</g, '&lt;').replace(/>/g, '&gt;')"
      + ".replace(/`/g, '&#96;').replace(/'/g, '&#39;').replace(/\"/g, '&quot;');",
      "\t}",
      "\texports.render = function($data, $opt) {",
      "\t\t$data = $data || {};",
      "\t\tvar _$out_= [];",
      "\t\tvar $print = function(str) {_$out_.push(str);};" ]

  /** The end of `exports.render`. */
  const Epilogue: seq<string> := [ "\t\treturn _$out_.join('');", "\t};" ]

  /** The helper and `exports.render`, with the template's code in the first push. */
  function RenderLines(code: string): seq<string> {
    Prologue + [PushLine(code)] + Epilogue
  }

  /** The line of `render` that pushes the template's code. */
  function PushLine(code: string): string {
    "\t\t" + Push + code + "');"
  }

  const EmptyPush: string := "_$out_.push('');"

  /** The render function as text, with every empty push `_$out_.push('');` removed. */
  function RenderBlock(tmpl: string, keepLines: bool): string {
    ReplaceAll(Join(RenderLines(PushCode(tmpl, keepLines)), EOL), EmptyPush, "")
  }

  /** `</script>` at `q` in any case: the `i` flag folds ASCII letters only. */
  predicate ScriptCloseAt(s: string, q: nat) {
    q + 9 <= |s| && forall k | 0 <= k < 9 :: ToLower(s[q + k]) == "</script>"[k]
  }

  /** `.replace(/<\/script>/ig, '</s<%=""%>cript>')`: a closing script tag is broken by an empty output tag. */
  function ScriptClose(s: string, q: nat): string
    requires q <= |s|
    decreases |s| - q
  {
    if q == |s| then []
    else if ScriptCloseAt(s, q) then "</s<%=\"\"%>cript>" + ScriptClose(s, q + 9)
    else [s[q]] + ScriptClose(s, q + 1)
  }
}
