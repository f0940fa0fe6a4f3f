/**
 * What the replacement chain of `compileTmpl` makes of each kind of tag and
 * of the text between tags. Each pass of the chain is first shown to copy a
 * stretch it finds nothing in; a shape theorem then follows one tag through
 * all the passes.
 */
module TemplateShapes {
  import opened Strings
  import Scan
  import opened Template

  // ---------------------------------------------------------------------
  // Stretches each pass copies

  lemma SliceStep(s: string, q: nat, r: nat)
    requires q < r <= |s|
    ensures s[q..r] == [s[q]] + s[q + 1..r]
  {
  }

  /** A scan that copies each character of `s[q..r]` it passes copies the stretch. */
  lemma {:induction false} CopyRun(s: string, q: nat, r: nat, f: nat -> string)
    requires q <= r <= |s|
    requires forall p | q <= p < r :: f(p) == [s[p]] + f(p + 1)
    ensures f(q) == s[q..r] + f(r)
    decreases r - q
  {
    if q < r {
      CopyRun(s, q + 1, r, f);
      SliceStep(s, q, r);
    }
  }

  predicate NoBreaks(s: string, q: nat, r: nat)
    requires q <= r <= |s|
  {
    forall p | q <= p < r :: s[p] != '\n' && s[p] != '\r'
  }

  lemma LinesStep(s: string, q: nat)
    requires q < |s| && s[q] != '\n' && s[q] != '\r'
    ensures LinesToVt(s, q) == [s[q]] + LinesToVt(s, q + 1)
  {
  }

  lemma LinesSteps(s: string, q: nat, r: nat)
    requires q <= r <= |s| && NoBreaks(s, q, r)
    ensures forall p | q <= p < r :: LinesToVt(s, p) == [s[p]] + LinesToVt(s, p + 1)
  {
    forall p | q <= p < r ensures LinesToVt(s, p) == [s[p]] + LinesToVt(s, p + 1) {
      LinesStep(s, p);
    }
  }

  lemma LinesCopy(s: string, q: nat, r: nat)
    requires q <= r <= |s| && NoBreaks(s, q, r)
    ensures LinesToVt(s, q) == s[q..r] + LinesToVt(s, r)
  {
    LinesSteps(s, q, r);
    var f := (p: nat) => if p <= |s| then LinesToVt(s, p) else [];
    assert forall p | q <= p < r :: f(p) == [s[p]] + f(p + 1);
    CopyRun(s, q, r, f);
  }


  predicate NoPercent(s: string, q: nat, r: nat)
    requires q <= r <= |s|
  {
    forall p | q <= p < r :: s[p] != '%'
  }

  lemma SegmentsStep(s: string, q: nat, keepLines: bool)
    requires 0 < q < |s| && s[q] != '%'
    ensures Segments(s, q, keepLines) == [s[q]] + Segments(s, q + 1, keepLines)
  {
    assert !HasAt(s, q, "%>") by {
      assert q + 2 <= |s| ==> s[q..q + 2][0] == s[q];
    }
    assert SegmentAt(s, q) == None;
  }

  lemma SegmentsSteps(s: string, q: nat, r: nat, keepLines: bool)
    requires 0 < q <= r <= |s| && NoPercent(s, q, r)
    ensures forall p | q <= p < r :: Segments(s, p, keepLines) == [s[p]] + Segments(s, p + 1, keepLines)
  {
    forall p | q <= p < r ensures Segments(s, p, keepLines) == [s[p]] + Segments(s, p + 1, keepLines) {
      SegmentsStep(s, p, keepLines);
    }
  }

  lemma SegmentsCopy(s: string, q: nat, r: nat, keepLines: bool)
    requires 0 < q <= r <= |s| && NoPercent(s, q, r)
    ensures Segments(s, q, keepLines) == s[q..r] + Segments(s, r, keepLines)
  {
    SegmentsSteps(s, q, r, keepLines);
    var f := (p: nat) => if p <= |s| then Segments(s, p, keepLines) else [];
    assert forall p | q <= p < r :: f(p) == [s[p]] + f(p + 1);
    CopyRun(s, q, r, f);
  }

  predicate NoneAt(s: string, q: nat, r: nat, pat: string)
    requires q <= r <= |s|
  {
    forall p | q <= p < r :: !HasAt(s, p, pat)
  }

  lemma OutputsStep(s: string, q: nat, open: string, pre: string, post: string)
    requires q < |s| && !HasAt(s, q, open)
    ensures OutputTags(s, q, open, pre, post) == [s[q]] + OutputTags(s, q + 1, open, pre, post)
  {
  }

  lemma OutputsSteps(s: string, q: nat, r: nat, open: string, pre: string, post: string)
    requires q <= r <= |s| && NoneAt(s, q, r, open)
    ensures forall p | q <= p < r :: OutputTags(s, p, open, pre, post) == [s[p]] + OutputTags(s, p + 1, open, pre, post)
  {
    forall p | q <= p < r ensures OutputTags(s, p, open, pre, post) == [s[p]] + OutputTags(s, p + 1, open, pre, post) {
      OutputsStep(s, p, open, pre, post);
    }
  }

  lemma OutputsCopy(s: string, q: nat, r: nat, open: string, pre: string, post: string)
    requires q <= r <= |s| && NoneAt(s, q, r, open)
    ensures OutputTags(s, q, open, pre, post) == s[q..r] + OutputTags(s, r, open, pre, post)
  {
    OutputsSteps(s, q, r, open, pre, post);
    var f := (p: nat) => if p <= |s| then OutputTags(s, p, open, pre, post) else [];
    assert forall p | q <= p < r :: f(p) == [s[p]] + f(p + 1);
    CopyRun(s, q, r, f);
  }


  lemma StatementsStep(s: string, q: nat)
    requires q < |s| && !HasAt(s, q, "<%")
    ensures Statements(s, q) == [s[q]] + Statements(s, q + 1)
  {
  }

  lemma StatementsSteps(s: string, q: nat, r: nat)
    requires q <= r <= |s| && NoneAt(s, q, r, "<%")
    ensures forall p | q <= p < r :: Statements(s, p) == [s[p]] + Statements(s, p + 1)
  {
    forall p | q <= p < r ensures Statements(s, p) == [s[p]] + Statements(s, p + 1) {
      StatementsStep(s, p);
    }
  }

  lemma StatementsCopy(s: string, q: nat, r: nat)
    requires q <= r <= |s| && NoneAt(s, q, r, "<%")
    ensures Statements(s, q) == s[q..r] + Statements(s, r)
  {
    StatementsSteps(s, q, r);
    var f := (p: nat) => if p <= |s| then Statements(s, p) else [];
    assert forall p | q <= p < r :: f(p) == [s[p]] + f(p + 1);
    CopyRun(s, q, r, f);
  }


  predicate NoTargets(s: string, q: nat, r: nat)
    requires q <= r <= |s|
  {
    forall p | q <= p < r :: TargetAt(s, p) == None
  }

  lemma TargetsStep(s: string, q: nat)
    requires q < |s| && TargetAt(s, q) == None
    ensures PushTargets(s, q) == [s[q]] + PushTargets(s, q + 1)
  {
  }

  lemma TargetsSteps(s: string, q: nat, r: nat)
    requires q <= r <= |s| && NoTargets(s, q, r)
    ensures forall p | q <= p < r :: PushTargets(s, p) == [s[p]] + PushTargets(s, p + 1)
  {
    forall p | q <= p < r ensures PushTargets(s, p) == [s[p]] + PushTargets(s, p + 1) {
      TargetsStep(s, p);
    }
  }

  lemma TargetsCopy(s: string, q: nat, r: nat)
    requires q <= r <= |s| && NoTargets(s, q, r)
    ensures PushTargets(s, q) == s[q..r] + PushTargets(s, r)
  {
    TargetsSteps(s, q, r);
    var f := (p: nat) => if p <= |s| then PushTargets(s, p) else [];
    assert forall p | q <= p < r :: f(p) == [s[p]] + f(p + 1);
    CopyRun(s, q, r, f);
  }


  /** A text without `c` holds no occurrence of a pattern that contains `c`. */
  lemma FreeNoMatch(x: string, c: char, pat: string, k: nat, p: int)
    requires Free(x, c) && k < |pat| && pat[k] == c
    ensures !HasAt(x, p, pat)
  {
    if 0 <= p && p + |pat| <= |x| {
      assert x[p..p + |pat|][k] == x[p + k];
    }
  }

  lemma OutputsFree(x: string, open: string, pre: string, post: string)
    requires Free(x, '%') && |open| >= 2 && open[1] == '%'
    ensures OutputTags(x, 0, open, pre, post) == x
  {
    forall p | 0 <= p < |x| ensures !HasAt(x, p, open) {
      FreeNoMatch(x, '%', open, 1, p);
    }
    OutputsCopy(x, 0, |x|, open, pre, post);
  }

  lemma StatementsFree(x: string)
    requires Free(x, '%')
    ensures Statements(x, 0) == x
  {
    forall p | 0 <= p < |x| ensures !HasAt(x, p, "<%") {
      FreeNoMatch(x, '%', "<%", 1, p);
    }
    StatementsCopy(x, 0, |x|);
  }

  lemma TargetsFree(x: string)
    requires Free(x, '%')
    ensures PushTargets(x, 0) == x
  {
    forall p | 0 <= p < |x| ensures TargetAt(x, p) == None {
      if HasAt(x, p, "->") {
        FreeNoMatch(x, '%', "%>", 0, Scan.ScanTo(x, p + 2, IsNonWord));
      }
    }
    TargetsCopy(x, 0, |x|);
  }

  lemma ClosersFree(x: string)
    requires Free(x, '%')
    ensures ReplaceAll(x, "%>", Reopen) == x
  {
    forall i | 0 <= i <= |x| ensures !HasAt(x, i, "%>") {
      FreeNoMatch(x, '%', "%>", 0, i);
    }
    ReplaceAllAbsent(x, "%>", Reopen);
  }

  /** The tag passes leave a text without `%` alone. */
  lemma TagPassesFree(x: string)
    requires Free(x, '%')
    ensures TagPasses(x) == x
  {
    OutputsFree(x, "<%==", "', $encodeHtml(", "), '");
    OutputsFree(x, "<%=", "', ", ", '");
    StatementsFree(x);
    TargetsFree(x);
    ClosersFree(x);
  }

  // ---------------------------------------------------------------------
  // The text passes on one tag

  /** Tag contents the chain passes through: no `%`, no line terminator, no vertical tab. */
  predicate PlainCode(e: string) {
    forall k | 0 <= k < |e| :: e[k] != '%' && !IsLineTerminator(e[k]) && e[k] != VT
  }

  /** The characters of a tag `<%x%>`. */
  lemma TagChars(x: string, s: string)
    requires s == "<%" + x + "%>"
    ensures |s| == |x| + 4 && s[0] == '<' && s[1] == '%' && s[|s| - 2] == '%' && s[|s| - 1] == '>'
    ensures forall k | 0 <= k < |x| :: s[2 + k] == x[k]
    ensures s[2..|s| - 2] == x
  {
  }

  lemma TagLines(x: string, s: string)
    requires PlainCode(x) && s == "<%" + x + "%>"
    ensures LinesToVt(s, 0) == s
  {
    TagChars(x, s);
    assert NoBreaks(s, 0, |s|) by {
      forall p | 0 <= p < |s| ensures s[p] != '\n' && s[p] != '\r' {
        if 2 <= p < |s| - 2 {
          assert s[p] == x[p - 2];
        }
      }
    }
    LinesCopy(s, 0, |s|);
    assert s[0..|s|] == s;
  }

  /** Two characters the text callback has nothing to do with. */
  predicate Inert(c: char) {
    c != '\'' && c != '\\' && c != VT && c != '\t' && !IsSpace(c)
  }

  lemma OuterPair(a: char, b: char, keepLines: bool)
    requires Inert(a) && Inert(b)
    ensures Outer([a, b], keepLines) == [a, b]
  {
    var x := [a, b];
    assert x[1..] == [b] && [b][1..] == [];
    assert EscapeQuotes([b]) == [b];
    assert EscapeQuotes(x) == [a] + EscapeQuotes([b]);
    if keepLines {
      ReplaceCharAbsent(x, VT, "\\n");
    } else {
      assert StripVtTab([b]) == [b];
      assert StripVtTab(x) == [a] + StripVtTab([b]);
      assert CollapseSpaces([b]) == [b];
      assert CollapseSpaces(x) == [a] + CollapseSpaces([b]);
    }
  }

  lemma OuterTagEnds(keepLines: bool)
    ensures Outer("<%", keepLines) == "<%" && Outer("%>", keepLines) == "%>"
  {
    OuterPair('<', '%', keepLines);
    OuterPair('%', '>', keepLines);
  }

  /** The text at the start, up to the first `<%`, is the first segment. */
  lemma SegmentsOpen(s: string, keepLines: bool)
    requires HasAt(s, 0, "<%")
    ensures Segments(s, 0, keepLines) == "<%" + Segments(s, 2, keepLines)
  {
    assert LazyEnd(s, 0) == Some(2);
    assert s[0..2] == "<%";
    OuterTagEnds(keepLines);
  }

  /** A `%>` at the very end is a segment of its own. */
  lemma SegmentsClose(s: string, keepLines: bool)
    requires |s| >= 4 && HasAt(s, |s| - 2, "%>")
    ensures Segments(s, |s| - 2, keepLines) == "%>"
  {
    assert LazyEnd(s, |s|) == Some(|s|);
    assert SegmentAt(s, |s| - 2) == Some(|s|);
    assert s[|s| - 2..|s|] == "%>";
    OuterTagEnds(keepLines);
  }

  lemma TagSegments(x: string, s: string, keepLines: bool)
    requires PlainCode(x) && s == "<%" + x + "%>"
    ensures Segments(s, 0, keepLines) == s
  {
    TagChars(x, s);
    assert HasAt(s, 0, "<%") && HasAt(s, |s| - 2, "%>");
    SegmentsOpen(s, keepLines);
    assert NoPercent(s, 2, |s| - 2) by {
      forall p | 2 <= p < |s| - 2 ensures s[p] != '%' {
        assert s[p] == x[p - 2];
      }
    }
    SegmentsCopy(s, 2, |s| - 2, keepLines);
    SegmentsClose(s, keepLines);
  }

  /** The text passes leave a tag with plain contents as it is. */
  lemma TextPassesTag(x: string, keepLines: bool)
    requires PlainCode(x)
    ensures TextPasses("<%" + x + "%>", keepLines) == "<%" + x + "%>"
  {
    var s := "<%" + x + "%>";
    TagLines(x, s);
    TagSegments(x, s, keepLines);
    TagChars(x, s);
    assert Free(s, VT) by {
      forall p | 0 <= p < |s| ensures s[p] != VT {
        if 2 <= p < |s| - 2 {
          assert s[p] == x[p - 2];
        }
      }
    }
    ReplaceCharAbsent(s, VT, EOL);
  }

  // ---------------------------------------------------------------------
  // The tag passes on one tag

  /** `(.*?)%>` from `i` stops at the first `%>` when no line ends before it. */
  lemma {:induction false} CloseAtRun(s: string, i: nat, c: nat)
    requires i <= c && HasAt(s, c, "%>")
    requires forall k | i <= k < c :: s[k] != '%' && !IsLineTerminator(s[k])
    ensures CloseAt(s, i) == Some(c)
    decreases c - i
  {
    if i < c {
      assert !HasAt(s, i, "%>") by {
        assert s[i..i + 2][0] == s[i];
      }
      CloseAtRun(s, i + 1, c);
    }
  }

  /** An output tag that makes up the whole text. */
  lemma OutputsOne(s: string, open: string, pre: string, post: string)
    requires |s| >= |open| + 2 && HasAt(s, 0, open)
    requires CloseAt(s, |open|) == Some(|s| - 2)
    ensures OutputTags(s, 0, open, pre, post) == pre + s[|open|..|s| - 2] + post
  {
    assert |s| > 0;
  }

  /** Inside a tag `<%x%>` with plain contents, a pattern `?%…` of three or more characters can only start at 0. */
  lemma OpenOnlyAtStart(x: string, s: string, open: string)
    requires PlainCode(x) && s == "<%" + x + "%>"
    requires |open| >= 3 && open[1] == '%' && open[2] != '>'
    ensures NoneAt(s, 1, |s|, open)
  {
    TagChars(x, s);
    forall p | 1 <= p < |s| ensures !HasAt(s, p, open) {
      if p + |open| <= |s| {
        assert s[p..p + |open|][1] == s[p + 1];
        assert s[p..p + |open|][2] == s[p + 2];
        if p + 1 < |s| - 2 {
          assert s[p + 1] == x[p - 1];
        }
      }
    }
  }

  lemma NoneAtCons(s: string, r: nat, pat: string)
    requires 0 < r <= |s| && !HasAt(s, 0, pat) && NoneAt(s, 1, r, pat)
    ensures NoneAt(s, 0, r, pat)
  {
  }

  /** The tag passes after the output tags, on a text without `%`. */
  lemma StatementPassesFree(y: string)
    requires Free(y, '%')
    ensures ReplaceAll(PushTargets(Statements(y, 0), 0), "%>", Reopen) == y
  {
    StatementsFree(y);
    TargetsFree(y);
    ClosersFree(y);
  }

  /** The tag passes, one result at a time. */
  lemma TagPassesAre(s: string, s4: string, s5: string, s6: string, s7: string)
    requires s4 == OutputTags(s, 0, "<%==", "', $encodeHtml(", "), '")
    requires s5 == OutputTags(s4, 0, "<%=", "', ", ", '")
    requires s6 == Statements(s5, 0) && s7 == PushTargets(s6, 0)
    ensures TagPasses(s) == ReplaceAll(s7, "%>", Reopen)
  {
  }

  lemma EscapedOutputs(e: string, s: string)
    requires PlainCode(e) && s == "<%==" + e + "%>"
    ensures OutputTags(s, 0, "<%==", "', $encodeHtml(", "), '") == "', $encodeHtml(" + e + "), '"
  {
    assert HasAt(s, 0, "<%==");
    assert forall k | 4 <= k < |s| - 2 :: s[k] == e[k - 4];
    CloseAtRun(s, 4, |s| - 2);
    OutputsOne(s, "<%==", "', $encodeHtml(", "), '");
    assert s[4..|s| - 2] == e;
  }

  /** `<%==e%>` pushes `$encodeHtml(e)` between the text before and after it. */
  lemma EscapedTag(e: string, keepLines: bool)
    requires PlainCode(e)
    ensures PushCode("<%==" + e + "%>", keepLines) == "', $encodeHtml(" + e + "), '"
  {
    var x := "==" + e;
    var s := "<%" + x + "%>";
    assert s == "<%==" + e + "%>";
    assert PlainCode(x) by {
      assert forall k | 2 <= k < |x| :: x[k] == e[k - 2];
    }
    TextPassesTag(x, keepLines);
    EscapedTagPasses(e, s);
  }

  lemma EscapedTagPasses(e: string, s: string)
    requires PlainCode(e) && s == "<%==" + e + "%>"
    ensures TagPasses(s) == "', $encodeHtml(" + e + "), '"
  {
    EscapedOutputs(e, s);
    var y := "', $encodeHtml(" + e + "), '";
    assert Free(y, '%');
    OutputsFree(y, "<%=", "', ", ", '");
    StatementPassesFree(y);
    TagPassesAre(s, y, y, Statements(y, 0), PushTargets(Statements(y, 0), 0));
  }
  lemma RawSkipsEscaped(x: string, s: string)
    requires PlainCode(x) && s == "<%" + x + "%>" && |x| > 0 && x[0] == '='
    requires |x| == 1 || x[1] != '='
    ensures OutputTags(s, 0, "<%==", "', $encodeHtml(", "), '") == s
  {
    TagChars(x, s);
    assert !HasAt(s, 0, "<%==") by {
      assert s[3] != '=';
    }
    OpenOnlyAtStart(x, s, "<%==");
    NoneAtCons(s, |s|, "<%==");
    OutputsCopy(s, 0, |s|, "<%==", "', $encodeHtml(", "), '");
    assert s[0..|s|] == s;
  }

  lemma RawOutputs(e: string, s: string)
    requires PlainCode(e) && s == "<%=" + e + "%>"
    ensures OutputTags(s, 0, "<%=", "', ", ", '") == "', " + e + ", '"
  {
    assert HasAt(s, 0, "<%=");
    assert forall k | 3 <= k < |s| - 2 :: s[k] == e[k - 3];
    CloseAtRun(s, 3, |s| - 2);
    OutputsOne(s, "<%=", "', ", ", '");
    assert s[3..|s| - 2] == e;
  }

  /** A raw output tag `<%=e%>`, `e` not starting with `=`, pushes `e` itself. */
  lemma RawTag(e: string, keepLines: bool)
    requires PlainCode(e) && (e == [] || e[0] != '=')
    ensures PushCode("<%=" + e + "%>", keepLines) == "', " + e + ", '"
  {
    var x := "=" + e;
    var s := "<%" + x + "%>";
    assert s == "<%=" + e + "%>";
    assert PlainCode(x) by {
      assert forall k | 1 <= k < |x| :: x[k] == e[k - 1];
    }
    TextPassesTag(x, keepLines);
    RawTagPasses(e, x, s);
  }

  lemma RawTagPasses(e: string, x: string, s: string)
    requires PlainCode(e) && (e == [] || e[0] != '=')
    requires PlainCode(x) && x == "=" + e && s == "<%" + x + "%>" && s == "<%=" + e + "%>"
    ensures TagPasses(s) == "', " + e + ", '"
  {
    RawSkipsEscaped(x, s);
    RawOutputs(e, s);
    var y := "', " + e + ", '";
    assert Free(y, '%');
    StatementPassesFree(y);
    TagPassesAre(s, s, y, Statements(y, 0), PushTargets(Statements(y, 0), 0));
  }

  /** No `->` in the text. */
  predicate NoArrow(c: string) {
    forall k | 0 <= k < |c| - 1 :: !(c[k] == '-' && c[k + 1] == '>')
  }

  /** Contents of a statement tag that neither the output tags nor the `<%<-` opener claim. */
  predicate StatementStart(c: string) {
    !StartsWith(c, "=") && !StartsWith(c, "<-")
  }

  lemma StatementSkips(c: string, s: string, open: string, pre: string, post: string)
    requires PlainCode(c) && s == "<%" + c + "%>" && !StartsWith(c, "=")
    requires |open| >= 3 && open[..3] == "<%="
    ensures OutputTags(s, 0, open, pre, post) == s
  {
    TagChars(c, s);
    assert !HasAt(s, 0, open) by {
      assert |c| > 0 ==> c[..1] != "=";
      assert s[2] != '=';
      if |open| <= |s| {
        assert s[..|open|][2] == s[2];
      }
    }
    OpenOnlyAtStart(c, s, open);
    NoneAtCons(s, |s|, open);
    OutputsCopy(s, 0, |s|, open, pre, post);
    assert s[0..|s|] == s;
  }

  lemma StatementOpen(s: string)
    requires HasAt(s, 0, "<%") && !HasAt(s, 2, "<-")
    ensures Statements(s, 0) == "');" + EOL + "\t\t" + Statements(s, 2)
  {
  }

  lemma StatementOpenBack(s: string)
    requires HasAt(s, 0, "<%") && HasAt(s, 2, "<-")
    ensures Statements(s, 0) == "');" + EOL + "\t\t" + Statements(s, 4)
  {
  }

  /** After the opener, the statement pass copies the contents and the closer. */
  lemma StatementRest(t: string, c: string, s: string)
    requires s == t + c + "%>" && Free(c, '%') && (c == [] || c[|c| - 1] != '<')
    requires |t| > 0 && t[|t| - 1] != '<'
    ensures Statements(s, |t|) == c + "%>"
  {
    assert forall k | 0 <= k < |c| :: s[|t| + k] == c[k];
    forall p | |t| <= p < |s| ensures !HasAt(s, p, "<%") {
      if p + 2 <= |s| {
        assert s[p..p + 2][0] == s[p] && s[p..p + 2][1] == s[p + 1];
        if p + 1 < |t| + |c| {
          assert s[p + 1] == c[p + 1 - |t|];
        } else if p + 1 == |t| + |c| && c != [] {
          assert s[p] == c[|c| - 1];
        }
      }
    }
    StatementsCopy(s, |t|, |s|);
    assert s[|t|..|s|] == c + "%>";
  }

  /** The push-target pass copies a statement whose contents have no `->`. */
  lemma StatementNoTargets(c: string, y: string)
    requires PlainCode(c) && NoArrow(c) && y == "');" + EOL + "\t\t" + c + "%>"
    ensures PushTargets(y, 0) == y
  {
    assert forall k | 0 <= k < |c| :: y[6 + k] == c[k];
    forall p | 0 <= p < |y| ensures TargetAt(y, p) == None {
      if p + 2 <= |y| {
        assert y[p..p + 2][0] == y[p] && y[p..p + 2][1] == y[p + 1];
        if 6 <= p && p + 1 < 6 + |c| {
          assert y[p] == c[p - 6] && y[p + 1] == c[p - 5];
        }
      }
    }
    TargetsCopy(y, 0, |y|);
    assert y[0..|y|] == y;
  }

  /** A text without `%` followed by one closer: the closer opens the next push. */
  lemma ClosesOnce(a: string)
    requires Free(a, '%')
    ensures ReplaceAll(a + "%>", "%>", Reopen) == a + Reopen
  {
    assert a + "%>" == a + "%>" + [];
    forall i | 0 <= i < |a| ensures !HasAt(a + "%>" + [], i, "%>") {
      assert (a + "%>" + [])[i..i + 2][0] == a[i];
    }
    ReplaceAllFirst(a, [], "%>", Reopen);
  }

  lemma StatementClose(c: string, y: string)
    requires PlainCode(c) && NoArrow(c) && y == "');" + EOL + "\t\t" + c + "%>"
    ensures ReplaceAll(PushTargets(y, 0), "%>", Reopen) == "');" + EOL + "\t\t" + c + Reopen
  {
    StatementNoTargets(c, y);
    var a := "');" + EOL + "\t\t" + c;
    StatementFree(c, a);
    assert y == a + "%>";
    ClosesOnce(a);
  }

  lemma StatementFree(c: string, a: string)
    requires Free(c, '%') && a == "');" + EOL + "\t\t" + c
    ensures Free(a, '%')
  {
    assert forall k | 6 <= k < |a| :: a[k] == c[k - 6];
  }

  /**
   * A statement tag `<%c%>` ends the current push, puts `c` on a line of its
   * own, and opens a new push onto `_$out_`.
   */
  lemma StatementTag(c: string, keepLines: bool)
    requires PlainCode(c) && StatementStart(c) && NoArrow(c) && (c == [] || c[|c| - 1] != '<')
    ensures PushCode("<%" + c + "%>", keepLines) == "');" + EOL + "\t\t" + c + Reopen
  {
    TextPassesTag(c, keepLines);
    StatementTagPasses(c, "<%" + c + "%>");
  }

  lemma StatementPass(c: string, s: string)
    requires PlainCode(c) && StatementStart(c) && (c == [] || c[|c| - 1] != '<')
    requires s == "<%" + c + "%>"
    ensures Statements(s, 0) == "');" + EOL + "\t\t" + c + "%>"
  {
    TagChars(c, s);
    assert !HasAt(s, 2, "<-") by {
      assert |c| >= 2 ==> c[..2] != "<-";
      assert |c| >= 2 ==> s[2..4] == c[..2];
    }
    StatementOpen(s);
    assert Free(c, '%');
    StatementRest("<%", c, s);
  }

  lemma StatementTagPasses(c: string, s: string)
    requires PlainCode(c) && StatementStart(c) && NoArrow(c) && (c == [] || c[|c| - 1] != '<')
    requires s == "<%" + c + "%>"
    ensures TagPasses(s) == "');" + EOL + "\t\t" + c + Reopen
  {
    StatementSkips(c, s, "<%==", "', $encodeHtml(", "), '");
    StatementSkips(c, s, "<%=", "', ", ", '");
    StatementPass(c, s);
    var y := "');" + EOL + "\t\t" + c + "%>";
    StatementClose(c, y);
    TagPassesAre(s, s, s, y, PushTargets(y, 0));
  }

  /** `<%<-c%>` does the same as `<%c%>`: the arrow only keeps a name from being read. */
  lemma BackTag(c: string, keepLines: bool)
    requires PlainCode(c) && NoArrow(c) && (c == [] || c[|c| - 1] != '<')
    ensures PushCode("<%<-" + c + "%>", keepLines) == "');" + EOL + "\t\t" + c + Reopen
  {
    var x := "<-" + c;
    assert PlainCode(x) by {
      assert forall k | 2 <= k < |x| :: x[k] == c[k - 2];
    }
    assert "<%" + x + "%>" == "<%<-" + c + "%>";
    TextPassesTag(x, keepLines);
    BackTagPasses(c, x, "<%<-" + c + "%>");
  }

  lemma BackPass(c: string, s: string)
    requires PlainCode(c) && (c == [] || c[|c| - 1] != '<') && s == "<%<-" + c + "%>"
    ensures Statements(s, 0) == "');" + EOL + "\t\t" + c + "%>"
  {
    assert HasAt(s, 0, "<%") && HasAt(s, 2, "<-");
    StatementOpenBack(s);
    assert Free(c, '%');
    StatementRest("<%<-", c, s);
  }

  lemma BackTagPasses(c: string, x: string, s: string)
    requires PlainCode(c) && NoArrow(c) && (c == [] || c[|c| - 1] != '<')
    requires x == "<-" + c && PlainCode(x) && s == "<%" + x + "%>" && s == "<%<-" + c + "%>"
    ensures TagPasses(s) == "');" + EOL + "\t\t" + c + Reopen
  {
    assert !StartsWith(x, "=") by {
      assert x[0] == '<';
    }
    StatementSkips(x, s, "<%==", "', $encodeHtml(", "), '");
    StatementSkips(x, s, "<%=", "', ", ", '");
    BackPass(c, s);
    var y := "');" + EOL + "\t\t" + c + "%>";
    StatementClose(c, y);
    TagPassesAre(s, s, s, y, PushTargets(y, 0));
  }

  predicate IsWord(w: string) {
    |w| > 0 && forall k | 0 <= k < |w| :: IsWordChar(w[k])
  }

  /** The scan for the end of a name stops at the first character that is not a word character. */
  lemma NameEnd(s: string, i: nat, j: nat)
    requires i <= j < |s| && !IsWordChar(s[j])
    requires forall k | i <= k < j :: IsWordChar(s[k])
    ensures Scan.ScanTo(s, i, IsNonWord) == j
  {
  }

  /** A statement line `');\n\t\tc` has no `->` when `c` has none. */
  lemma LineNoArrow(c: string, a: string)
    requires NoArrow(c) && a == "');" + EOL + "\t\t" + c
    ensures NoArrow(a)
  {
    assert forall k | 0 <= k < |c| :: a[6 + k] == c[k];
  }

  /** No push target starts in a text without `->` that the arrow follows. */
  lemma TargetsBefore(a: string, y: string)
    requires NoArrow(a) && |a| + 2 <= |y| && y[..|a| + 2] == a + "->"
    ensures NoTargets(y, 0, |a|)
  {
    assert forall k | 0 <= k < |a| + 2 :: y[k] == (a + "->")[k];
    forall p | 0 <= p < |a| ensures TargetAt(y, p) == None {
      assert y[p..p + 2][0] == y[p] && y[p..p + 2][1] == y[p + 1];
    }
  }

  lemma TargetFound(a: string, w: string, y: string)
    requires IsWord(w) && y == a + "->" + w + "%>"
    ensures TargetAt(y, |a|) == Some(|a| + 2 + |w|) && y[|a| + 2..|a| + 2 + |w|] == w
  {
    var m := |a|;
    var e := m + 2 + |w|;
    assert forall k | 0 <= k < |w| :: y[m + 2 + k] == w[k];
    assert HasAt(y, m, "->") && HasAt(y, e, "%>");
    NameEnd(y, m + 2, e);
    assert y[m + 2..e] == w;
  }

  /** In `a->w%>`, the target pass copies `a` and turns `->w%>` into a push onto `w`. */
  lemma TargetPass(a: string, w: string, y: string)
    requires NoArrow(a) && IsWord(w) && y == a + "->" + w + "%>"
    ensures PushTargets(y, 0) == a + EOL + "\t\t" + w + ".push('"
  {
    assert y[..|a| + 2] == a + "->";
    TargetsBefore(a, y);
    TargetsCopy(y, 0, |a|);
    TargetFound(a, w, y);
    assert y[0..|a|] == a;
    assert PushTargets(y, |a| + 2 + |w| + 2) == [];
  }

  /**
   * A statement tag that ends in `->name` ends the current push, puts the
   * statement on a line of its own, and opens a push onto `name`, so the
   * text up to the next tag goes to `name` instead of `_$out_`.
   */
  lemma TargetTag(c: string, w: string, keepLines: bool)
    requires PlainCode(c) && NoArrow(c) && IsWord(w) && StatementStart(c + "->" + w)
    ensures PushCode("<%" + c + "->" + w + "%>", keepLines)
      == "');" + EOL + "\t\t" + c + EOL + "\t\t" + w + ".push('"
  {
    var x := c + "->" + w;
    assert PlainCode(x) by {
      assert forall k | 0 <= k < |c| :: x[k] == c[k];
      assert forall k | 0 <= k < |w| :: x[|c| + 2 + k] == w[k];
    }
    assert "<%" + x + "%>" == "<%" + c + "->" + w + "%>";
    TextPassesTag(x, keepLines);
    TargetTagPasses(c, w, x, "<%" + x + "%>");
  }

  lemma TargetStatements(c: string, w: string, x: string, s: string)
    requires IsWord(w) && x == c + "->" + w && PlainCode(x) && StatementStart(x) && s == "<%" + x + "%>"
    ensures Statements(s, 0) == "');" + EOL + "\t\t" + c + "->" + w + "%>"
  {
    assert x[|x| - 1] == w[|w| - 1];
    StatementPass(x, s);
  }

  lemma PushLineFree(c: string, w: string, z: string)
    requires PlainCode(c) && IsWord(w) && z == "');" + EOL + "\t\t" + c + EOL + "\t\t" + w + ".push('"
    ensures Free(z, '%')
  {
    assert forall k | 0 <= k < |c| :: z[6 + k] == c[k];
    assert forall k | 0 <= k < |w| :: z[6 + |c| + 3 + k] == w[k];
  }

  lemma TargetTagPasses(c: string, w: string, x: string, s: string)
    requires PlainCode(c) && NoArrow(c) && IsWord(w)
    requires x == c + "->" + w && PlainCode(x) && StatementStart(x) && s == "<%" + x + "%>"
    ensures TagPasses(s) == "');" + EOL + "\t\t" + c + EOL + "\t\t" + w + ".push('"
  {
    StatementSkips(x, s, "<%==", "', $encodeHtml(", "), '");
    StatementSkips(x, s, "<%=", "', ", ", '");
    TargetStatements(c, w, x, s);
    var a := "');" + EOL + "\t\t" + c;
    LineNoArrow(c, a);
    var y := a + "->" + w + "%>";
    TargetPass(a, w, y);
    var z := a + EOL + "\t\t" + w + ".push('";
    PushLineFree(c, w, z);
    ClosersFree(z);
    TagPassesAre(s, s, s, y, z);
  }

  // ---------------------------------------------------------------------
  // Text between tags

  lemma FreeConcat(a: string, b: string, c: char)
    requires Free(a, c) && Free(b, c)
    ensures Free(a + b, c)
  {
  }

  /** No line terminator in the text from `q` on. */
  predicate OneLine(s: string, q: nat)
    requires q <= |s|
  {
    forall p | q <= p < |s| :: !IsLineTerminator(s[p])
  }

  /** `\v` stands for every line break; other characters are kept. */
  lemma {:induction false} LinesToVtFree(s: string, q: nat, c: char)
    requires q <= |s| && c != VT
    requires c == '\n' || c == '\r' || forall p | q <= p < |s| :: s[p] != c
    ensures Free(LinesToVt(s, q), c)
    decreases |s| - q
  {
    if q < |s| {
      if s[q] == '\r' && q + 1 < |s| && s[q + 1] == '\n' {
        LinesToVtFree(s, q + 2, c);
        FreeConcat([VT], LinesToVt(s, q + 2), c);
      } else {
        LinesToVtFree(s, q + 1, c);
        var h := if s[q] == '\n' || s[q] == '\r' then [VT] else [s[q]];
        assert LinesToVt(s, q) == h + LinesToVt(s, q + 1);
        FreeConcat(h, LinesToVt(s, q + 1), c);
      }
    }
  }

  /** With no `<%` and no line terminator ahead, the lazy match runs to the end. */
  lemma {:induction false} LazyEndRuns(s: string, i: nat)
    requires i <= |s| && OneLine(s, i) && forall p | i <= p < |s| :: s[p] != '%'
    ensures LazyEnd(s, i) == Some(|s|)
    decreases |s| - i
  {
    if i < |s| {
      assert !HasAt(s, i, "<%") by {
        assert i + 2 <= |s| ==> s[i..i + 2][1] == s[i + 1];
      }
      LazyEndRuns(s, i + 1);
    }
  }

  lemma {:induction false} EscapeQuotesFree(s: string, c: char)
    requires c != '\\' && Free(s, c)
    ensures Free(EscapeQuotes(s), c)
  {
    if s != [] {
      EscapeQuotesFree(s[1..], c);
    }
  }

  lemma {:induction false} ReplaceCharFree(s: string, c: char, rep: string, d: char)
    requires (d == c || Free(s, d)) && Free(rep, d)
    ensures Free(ReplaceChar(s, c, rep), d)
  {
    if s != [] {
      ReplaceCharFree(s[1..], c, rep, d);
    }
  }

  lemma {:induction false} StripFree(s: string, d: char)
    requires d == VT || d == '\t' || Free(s, d)
    ensures Free(StripVtTab(s), d)
  {
    if s != [] {
      StripFree(s[1..], d);
    }
  }

  lemma {:induction false} CollapseFree(s: string, d: char)
    requires d != ' ' && Free(s, d)
    ensures Free(CollapseSpaces(s), d)
    decreases |s|
  {
    if s != [] {
      var j := if IsSpace(s[0]) then Scan.SkipSpaces(s, 1) else 1;
      CollapseFree(s[j..], d);
      var h := if IsSpace(s[0]) then " " else [s[0]];
      assert CollapseSpaces(s) == h + CollapseSpaces(s[j..]);
      FreeConcat(h, CollapseSpaces(s[j..]), d);
    }
  }

  /** The text callback leaves no `\v` and adds no `%`. */
  lemma OuterFree(x: string, keepLines: bool, d: char)
    requires d == VT || (Free(x, d) && d != '\\' && d != 'n' && d != ' ')
    ensures Free(Outer(x, keepLines), d)
  {
    if d != VT {
      EscapeQuotesFree(x, d);
    }
    if keepLines {
      ReplaceCharFree(EscapeQuotes(x), VT, "\\n", d);
    } else {
      StripFree(EscapeQuotes(x), d);
      CollapseFree(StripVtTab(EscapeQuotes(x)), d);
    }
  }

  /** A text without tags on one line is a single segment. */
  lemma SegmentsLiteral(v: string, keepLines: bool)
    requires OneLine(v, 0) && Free(v, '%')
    ensures Segments(v, 0, keepLines) == Outer(v, keepLines)
  {
    if v != [] {
      LazyEndRuns(v, 0);
      assert v[0..|v|] == v;
    } else {
      assert EscapeQuotes(v) == [] && StripVtTab([]) == [] && CollapseSpaces([]) == [];
    }
  }

  /**
   * A text without tags is the callback's escaping of it, line breaks of any
   * kind first turned into `\v`: with lines kept each becomes a `\n` escape,
   * otherwise they and the tabs are dropped and white space runs become one
   * space.
   */
  lemma LiteralText(lit: string, keepLines: bool)
    requires Free(lit, '%') && Free(lit, '\U{2028}') && Free(lit, '\U{2029}')
    ensures PushCode(lit, keepLines) == Outer(LinesToVt(lit, 0), keepLines)
  {
    var v := LinesToVt(lit, 0);
    LinesToVtFree(lit, 0, '%');
    LinesToVtFree(lit, 0, '\n');
    LinesToVtFree(lit, 0, '\r');
    LinesToVtFree(lit, 0, '\U{2028}');
    LinesToVtFree(lit, 0, '\U{2029}');
    SegmentsLiteral(v, keepLines);
    var o := Outer(v, keepLines);
    OuterFree(v, keepLines, VT);
    ReplaceCharAbsent(o, VT, EOL);
    OuterFree(v, keepLines, '%');
    TagPassesFree(o);
  }

  // ---------------------------------------------------------------------
  // What the generated string literal reads as

  /** The escapes the compiler writes, and what they stand for. */
  function Unescape(c: char): (r: Option<char>)
    ensures r.Some? <==> c == 'n' || c == '\\' || c == '\''
  {
    if c == 'n' then Some('\n') else if c == '\\' || c == '\'' then Some(c) else None
  }

  function Prepend(c: char, r: Option<string>): Option<string> {
    match r
    case Some(t) => Some([c] + t)
    case None => None
  }

  /**
   * How JavaScript reads the body of a single-quoted string literal written
   * with the escapes `\n`, `\\` and `\'` only: an unescaped quote or a line
   * terminator would end the literal or break it (None), and any other
   * escape is not read here (None).
   */
  function Unquote(x: string): Option<string>
    decreases |x|
  {
    if x == [] then Some([])
    else if x[0] == '\'' || IsLineTerminator(x[0]) then None
    else if x[0] != '\\' then Prepend(x[0], Unquote(x[1..]))
    else if |x| == 1 then None
    else match Unescape(x[1])
      case Some(c) => Prepend(c, Unquote(x[2..]))
      case None => None
  }

  /** One character of the text as the callback writes it when lines are kept. */
  function KeptChar(a: char): string {
    if a == '\'' || a == '\\' then ['\\', a] else if a == VT then "\\n" else [a]
  }

  lemma KeptCons(a: char, r: string)
    ensures Outer([a] + r, true) == KeptChar(a) + Outer(r, true)
  {
    var v := [a] + r;
    assert v[1..] == r;
    var h := EscapedHead(a);
    assert EscapeQuotes(v) == h + EscapeQuotes(r);
    ReplaceCharConcat(h, EscapeQuotes(r), VT, "\\n");
    KeptHead(a);
  }

  /** What `EscapeQuotes` writes for one character. */
  function EscapedHead(a: char): string {
    if a == '\'' || a == '\\' then ['\\', a] else [a]
  }

  lemma KeptHead(a: char)
    ensures ReplaceChar(EscapedHead(a), VT, "\\n") == KeptChar(a)
  {
    var h := EscapedHead(a);
    var e := ReplaceChar([a], VT, "\\n");
    assert [a][1..] == [] && ReplaceChar([], VT, "\\n") == [];
    assert e == (if a == VT then "\\n" else [a]) + ReplaceChar([a][1..], VT, "\\n");
    if a == '\'' || a == '\\' {
      assert h[1..] == [a];
      assert ReplaceChar(h, VT, "\\n") == ['\\'] + e;
    } else {
      assert h == [a];
    }
  }

  lemma UnquoteKept(a: char, rest: string)
    requires !IsLineTerminator(a)
    ensures Unquote(KeptChar(a) + rest) == Prepend(if a == VT then '\n' else a, Unquote(rest))
  {
    var k := KeptChar(a);
    if |k| == 2 {
      assert (k + rest)[2..] == rest;
    } else {
      assert (k + rest)[1..] == rest;
    }
  }

  /**
   * With lines kept, the pushed literal reads back as the text between the
   * tags, each line break (and each `\v`) read as `\n`: quotes and
   * backslashes cannot end or break the string.
   */
  lemma {:induction false} KeptRoundTrip(v: string)
    requires OneLine(v, 0)
    ensures Unquote(Outer(v, true)) == Some(ReplaceChar(v, VT, "\n"))
    decreases |v|
  {
    if v == [] {
      assert EscapeQuotes(v) == [];
    } else {
      var a, r := v[0], v[1..];
      assert v == [a] + r;
      assert OneLine(r, 0) by {
        assert forall p | 0 <= p < |r| :: r[p] == v[p + 1];
      }
      KeptRoundTrip(r);
      KeptCons(a, r);
      UnquoteKept(a, Outer(r, true));
    }
  }

  function EscapedChar(a: char): string {
    if a == '\'' || a == '\\' then ['\\', a] else [a]
  }

  lemma UnquoteEscaped(a: char, rest: string)
    requires !IsLineTerminator(a)
    ensures Unquote(EscapedChar(a) + rest) == Prepend(a, Unquote(rest))
  {
    var k := EscapedChar(a);
    if |k| == 2 {
      assert (k + rest)[2..] == rest;
    } else {
      assert (k + rest)[1..] == rest;
    }
  }

  /** The escaping on its own: a text on one line reads back as itself. */
  lemma {:induction false} EscapeRoundTrip(t: string)
    requires OneLine(t, 0)
    ensures Unquote(EscapeQuotes(t)) == Some(t)
    decreases |t|
  {
    if t != [] {
      var a, r := t[0], t[1..];
      assert OneLine(r, 0) by {
        assert forall p | 0 <= p < |r| :: r[p] == t[p + 1];
      }
      EscapeRoundTrip(r);
      assert EscapeQuotes(t) == EscapedChar(a) + EscapeQuotes(r);
      UnquoteEscaped(a, EscapeQuotes(r));
      assert t == [a] + r;
    }
  }

  /**
   * A template without tags, compiled for a NODE module at uglify level 0,
   * pushes a string that reads back as the template with its line breaks
   * (`\r\n`, `\n` or `\r`) made `\n`.
   */
  lemma LiteralRoundTrip(lit: string)
    requires Free(lit, '%') && Free(lit, '\U{2028}') && Free(lit, '\U{2029}')
    ensures Unquote(PushCode(lit, true)) == Some(ReplaceChar(LinesToVt(lit, 0), VT, "\n"))
  {
    LiteralText(lit, true);
    var v := LinesToVt(lit, 0);
    LinesToVtFree(lit, 0, '\n');
    LinesToVtFree(lit, 0, '\r');
    LinesToVtFree(lit, 0, '\U{2028}');
    LinesToVtFree(lit, 0, '\U{2029}');
    KeptRoundTrip(v);
  }

  // ---------------------------------------------------------------------
  // The removal of empty pushes

  /** A pattern without `c` is replaced on each side of a `c` separately. */
  lemma {:induction false} ReplaceAllSplit(a: string, c: char, b: string, pat: string, rep: string)
    requires |pat| > 0 && Free(pat, c)
    ensures ReplaceAll(a + [c] + b, pat, rep) == ReplaceAll(a, pat, rep) + [c] + ReplaceAll(b, pat, rep)
    decreases |a|
  {
    var s := a + [c] + b;
    if a == [] {
      assert s == [c] + b && s[1..] == b;
      if |s| >= |pat| {
        assert s[..|pat|][0] == c;
      }
    } else if |a| >= |pat| {
      assert s[..|pat|] == a[..|pat|];
      if a[..|pat|] == pat {
        assert s[|pat|..] == a[|pat|..] + [c] + b;
        ReplaceAllSplit(a[|pat|..], c, b, pat, rep);
      } else {
        assert s[1..] == a[1..] + [c] + b;
        ReplaceAllSplit(a[1..], c, b, pat, rep);
      }
    } else {
      if |s| >= |pat| {
        assert s[..|pat|][|a|] == c;
      }
      assert s[1..] == a[1..] + [c] + b;
      ReplaceAllSplit(a[1..], c, b, pat, rep);
      assert a == [a[0]] + a[1..];
    }
  }

  function MapReplace(lines: seq<string>, pat: string, rep: string): (r: seq<string>)
    requires |pat| > 0
    ensures |r| == |lines| && forall i | 0 <= i < |lines| :: r[i] == ReplaceAll(lines[i], pat, rep)
  {
    if lines == [] then [] else [ReplaceAll(lines[0], pat, rep)] + MapReplace(lines[1..], pat, rep)
  }

  /** Replacing a pattern without line breaks in joined lines replaces it line by line. */
  lemma {:induction false} ReplaceAllJoin(lines: seq<string>, pat: string, rep: string)
    requires |pat| > 0 && Free(pat, '\n')
    ensures ReplaceAll(Join(lines, EOL), pat, rep) == Join(MapReplace(lines, pat, rep), EOL)
    decreases |lines|
  {
    if |lines| == 0 {
      assert ReplaceAll([], pat, rep) == [];
    } else if |lines| > 1 {
      var m := MapReplace(lines, pat, rep);
      assert Join(lines, EOL) == lines[0] + ['\n'] + Join(lines[1..], EOL);
      ReplaceAllSplit(lines[0], '\n', Join(lines[1..], EOL), pat, rep);
      ReplaceAllJoin(lines[1..], pat, rep);
      assert m[1..] == MapReplace(lines[1..], pat, rep);
    }
  }

  /** The removal of `_$out_.push('');` works line by line on `render`. */
  lemma RemovalByLine(tmpl: string, keepLines: bool)
    ensures RenderBlock(tmpl, keepLines) == Join(MapReplace(RenderLines(PushCode(tmpl, keepLines)), EmptyPush, ""), EOL)
  {
    ReplaceAllJoin(RenderLines(PushCode(tmpl, keepLines)), EmptyPush, "");
  }

  lemma PushLineIs(code: string)
    ensures |RenderLines(code)| == 10 && RenderLines(code)[7] == PushLine(code)
  {
  }

  /** An empty template pushes nothing: its push line is left with only the indentation. */
  lemma EmptyTemplate(keepLines: bool)
    ensures PushCode([], keepLines) == []
    ensures MapReplace(RenderLines([]), EmptyPush, "")[7] == "\t\t"
  {
    LiteralText([], keepLines);
    assert EscapeQuotes([]) == [] && StripVtTab([]) == [] && CollapseSpaces([]) == [];
    PushLineIs([]);
    EmptyPushGone();
  }

  lemma EmptyPushGone()
    ensures ReplaceAll(PushLine([]), EmptyPush, "") == "\t\t"
  {
    var t := "\t\t";
    assert PushLine([]) == t + EmptyPush + [];
    forall i | 0 <= i < 2 ensures !HasAt(t + EmptyPush + [], i, EmptyPush) {
      assert (t + EmptyPush + [])[i] == '\t';
    }
    ReplaceAllFirst(t, [], EmptyPush, "");
  }
}
