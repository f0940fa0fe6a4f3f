/**
 * A tag between two texts: the replacement chain of `compileTmpl` turns
 * `a + tag + b` into the code for `a`, the code for the tag, and the code
 * for `b`, one after the other. Every pass is shown to handle the text in
 * front of the tag, the tag, and the text after it separately.
 */
module TemplateComposition {
  import opened Strings
  import Scan
  import opened Template
  import opened TemplateShapes

  /** A text with no tag character `%` and no line terminator the lazy matches stop at. */
  predicate Literal(a: string) {
    Free(a, '%') && Free(a, '\U{2028}') && Free(a, '\U{2029}')
  }

  // ---------------------------------------------------------------------
  // Line breaks

  /** The line-break pass looks only forward. */
  lemma {:induction false} LinesShift(p: string, r: string, s: string, q: nat)
    requires s == p + r && q <= |r|
    ensures LinesToVt(s, |p| + q) == LinesToVt(r, q)
    decreases |r| - q
  {
    if q < |r| {
      assert s[|p| + q] == r[q];
      if q + 1 < |r| {
        assert s[|p| + q + 1] == r[q + 1];
      }
      if r[q] == '\r' && q + 1 < |r| && r[q + 1] == '\n' {
        LinesShift(p, r, s, q + 2);
      } else {
        LinesShift(p, r, s, q + 1);
      }
    }
  }

  /** Unless a `\r\n` straddles the cut, the text in front is handled on its own. */
  lemma {:induction false} LinesPrefix(p: string, r: string, s: string, q: nat)
    requires s == p + r && q <= |p|
    requires p == [] || r == [] || p[|p| - 1] != '\r' || r[0] != '\n'
    ensures LinesToVt(s, q) == LinesToVt(p, q) + LinesToVt(s, |p|)
    decreases |p| - q
  {
    if q < |p| {
      assert s[q] == p[q];
      if q + 1 < |p| {
        assert s[q + 1] == p[q + 1];
      } else if r != [] {
        assert s[q + 1] == r[0];
      }
      if p[q] == '\r' && q + 1 < |p| && p[q + 1] == '\n' {
        LinesPrefix(p, r, s, q + 2);
        Assoc3([VT], LinesToVt(p, q + 2), LinesToVt(s, |p|));
      } else {
        LinesPrefix(p, r, s, q + 1);
        Assoc3(if p[q] == '\n' || p[q] == '\r' then [VT] else [p[q]], LinesToVt(p, q + 1), LinesToVt(s, |p|));
      }
    }
  }

  lemma LinesConcat(p: string, r: string, s: string)
    requires s == p + r
    requires p == [] || r == [] || p[|p| - 1] != '\r' || r[0] != '\n'
    ensures LinesToVt(s, 0) == LinesToVt(p, 0) + LinesToVt(r, 0)
  {
    LinesPrefix(p, r, s, 0);
    LinesShift(p, r, s, 0);
  }

  // ---------------------------------------------------------------------
  // The text callback on a text next to a tag end

  lemma {:induction false} EscapeQuotesConcat(x: string, y: string)
    ensures EscapeQuotes(x + y) == EscapeQuotes(x) + EscapeQuotes(y)
  {
    if x != [] {
      assert (x + y)[1..] == x[1..] + y;
      EscapeQuotesConcat(x[1..], y);
    } else {
      assert x + y == y;
    }
  }

  lemma {:induction false} StripConcat(x: string, y: string)
    ensures StripVtTab(x + y) == StripVtTab(x) + StripVtTab(y)
  {
    if x != [] {
      assert (x + y)[1..] == x[1..] + y;
      StripConcat(x[1..], y);
    } else {
      assert x + y == y;
    }
  }

  /** A run of white space at the end of `u` stops in front of a non-space. */
  lemma SkipSpacesBefore(u: string, v: string, i: nat)
    requires 1 <= i <= |u| && v != [] && !IsSpace(v[0])
    ensures Scan.SkipSpaces(u + v, i) == Scan.SkipSpaces(u, i)
  {
    var s := u + v;
    assert forall k | i <= k < |u| :: s[k] == u[k];
    assert s[|u|] == v[0];
  }

  /** One step of `CollapseSpaces` on `u + v`, where `v` starts with a non-space. */
  lemma CollapseStep(u: string, v: string, s: string, j: nat, h: string)
    requires u != [] && v != [] && !IsSpace(v[0]) && s == u + v
    requires j == (if IsSpace(u[0]) then Scan.SkipSpaces(u, 1) else 1)
    requires h == (if IsSpace(u[0]) then " " else [u[0]])
    ensures 1 <= j <= |u| && s[j..] == u[j..] + v
    ensures CollapseSpaces(s) == h + CollapseSpaces(s[j..]) && CollapseSpaces(u) == h + CollapseSpaces(u[j..])
  {
    assert s[0] == u[0];
    if IsSpace(u[0]) {
      SkipSpacesBefore(u, v, 1);
    } else {
      assert s[1..] == u[1..] + v;
    }
  }

  lemma Assoc3(h: string, p: string, q: string)
    ensures h + (p + q) == h + p + q
  {
  }

  lemma {:induction false} CollapseBefore(u: string, v: string)
    requires v != [] && !IsSpace(v[0])
    ensures CollapseSpaces(u + v) == CollapseSpaces(u) + CollapseSpaces(v)
    decreases |u|
  {
    if u == [] {
      assert u + v == v;
    } else {
      var j := if IsSpace(u[0]) then Scan.SkipSpaces(u, 1) else 1;
      var h := if IsSpace(u[0]) then " " else [u[0]];
      CollapseStep(u, v, u + v, j, h);
      CollapseBefore(u[j..], v);
      Assoc3(h, CollapseSpaces(u[j..]), CollapseSpaces(v));
    }
  }

  /** The callback's steps leave a tag end alone. */
  lemma TagEndInert(t: string)
    requires t == "<%" || t == "%>"
    ensures EscapeQuotes(t) == t && StripVtTab(t) == t && CollapseSpaces(t) == t
    ensures ReplaceChar(t, VT, "\\n") == t && !IsSpace(t[0]) && !IsSpace(t[1])
  {
    assert t == [t[0]] + [t[1]] && t[1..] == [t[1]] && [t[1]][1..] == [];
    assert EscapeQuotes([t[1]]) == [t[1]];
    assert StripVtTab([t[1]]) == [t[1]];
    assert CollapseSpaces([t[1]]) == [t[1]];
    ReplaceCharAbsent(t, VT, "\\n");
  }

  /** A text followed by a tag opener: the callback leaves the `<%` alone. */
  lemma OuterBefore(x: string, t: string, keepLines: bool)
    requires t == "<%"
    ensures Outer(x + t, keepLines) == Outer(x, keepLines) + t
  {
    TagEndInert(t);
    EscapeQuotesConcat(x, t);
    if keepLines {
      ReplaceCharConcat(EscapeQuotes(x), t, VT, "\\n");
    } else {
      StripConcat(EscapeQuotes(x), t);
      CollapseBefore(StripVtTab(EscapeQuotes(x)), t);
    }
  }

  /** `CollapseSpaces` keeps a `%>` in front of anything. */
  lemma CollapseAfter(t: string, w: string)
    requires t == "%>"
    ensures CollapseSpaces(t + w) == t + CollapseSpaces(w)
  {
    var s := t + w;
    TagEndInert(t);
    assert s[0] == '%' && s[1..] == [t[1]] + w;
    assert ([t[1]] + w)[1..] == w;
  }

  /** A tag closer followed by a text: the callback leaves the `%>` alone. */
  lemma OuterAfter(t: string, y: string, keepLines: bool)
    requires t == "%>"
    ensures Outer(t + y, keepLines) == t + Outer(y, keepLines)
  {
    TagEndInert(t);
    EscapeQuotesConcat(t, y);
    if keepLines {
      ReplaceCharConcat(t, EscapeQuotes(y), VT, "\\n");
    } else {
      StripConcat(t, EscapeQuotes(y));
      CollapseAfter(t, StripVtTab(EscapeQuotes(y)));
    }
  }

  // ---------------------------------------------------------------------
  // A tag between two texts, character by character

  lemma Chars(a: string, x: string, b: string, s: string)
    requires s == a + "<%" + x + "%>" + b
    ensures |s| == |a| + |x| + |b| + 4
    ensures forall k | 0 <= k < |a| :: s[k] == a[k]
    ensures s[|a|] == '<' && s[|a| + 1] == '%'
    ensures forall k | 0 <= k < |x| :: s[|a| + 2 + k] == x[k]
    ensures s[|a| + |x| + 2] == '%' && s[|a| + |x| + 3] == '>'
    ensures forall k | 0 <= k < |b| :: s[|a| + |x| + 4 + k] == b[k]
  {
  }

  lemma Slices(a: string, x: string, b: string, s: string)
    requires s == a + "<%" + x + "%>" + b
    ensures |s| == |a| + |x| + |b| + 4
    ensures s[..|a|] == a && s[|a| + 2..|a| + |x| + 2] == x && s[|a| + |x| + 4..] == b
    ensures s[..|a| + 2] == a + "<%" && s[|a| + |x| + 2..] == "%>" + b
  {
  }

  /** Where the opener and the closer are. */
  lemma Ends(a: string, x: string, b: string, s: string)
    requires s == a + "<%" + x + "%>" + b
    ensures |s| == |a| + |x| + |b| + 4
    ensures HasAt(s, |a|, "<%") && HasAt(s, |a| + |x| + 2, "%>")
  {
    Slices(a, x, b, s);
    assert s[|a|..|a| + 2] == "<%";
    assert s[|a| + |x| + 2..|a| + |x| + 4] == "%>";
  }

  /** Plain contents have no `%` and no line terminator. */
  lemma Inside(a: string, x: string, b: string, s: string)
    requires s == a + "<%" + x + "%>" + b && PlainCode(x)
    ensures |s| == |a| + |x| + |b| + 4
    ensures forall k | |a| + 2 <= k < |a| + |x| + 2 :: s[k] != '%' && !IsLineTerminator(s[k])
  {
    Chars(a, x, b, s);
    forall k | |a| + 2 <= k < |a| + |x| + 2 ensures s[k] != '%' && !IsLineTerminator(s[k]) {
      assert s[k] == x[k - |a| - 2];
    }
  }

  /** One-line texts without `%` on both sides. */
  lemma Outside(a: string, x: string, b: string, s: string)
    requires s == a + "<%" + x + "%>" + b
    requires Free(a, '%') && Free(b, '%') && OneLine(a, 0) && OneLine(b, 0)
    ensures |s| == |a| + |x| + |b| + 4
    ensures forall k | 0 <= k < |a| :: s[k] != '%' && !IsLineTerminator(s[k])
    ensures forall k | |a| + |x| + 4 <= k < |s| :: s[k] != '%' && !IsLineTerminator(s[k])
  {
    Chars(a, x, b, s);
    forall k | |a| + |x| + 4 <= k < |s| ensures s[k] != '%' && !IsLineTerminator(s[k]) {
      assert s[k] == b[k - |a| - |x| - 4];
    }
  }

  /** With no `%` in the texts and in the contents, a `%` is one of the tag's two. */
  lemma PercentAt(a: string, x: string, b: string, s: string)
    requires s == a + "<%" + x + "%>" + b && Free(a, '%') && Free(x, '%') && Free(b, '%')
    ensures forall i | 0 <= i < |s| && s[i] == '%' :: i == |a| + 1 || i == |a| + |x| + 2
  {
    Chars(a, x, b, s);
    forall i | 0 <= i < |s| && i != |a| + 1 && i != |a| + |x| + 2 ensures s[i] != '%' {
      if i < |a| {
        assert s[i] == a[i];
      } else if |a| + 2 <= i < |a| + |x| + 2 {
        assert s[i] == x[i - |a| - 2];
      } else if |a| + |x| + 4 <= i {
        assert s[i] == b[i - |a| - |x| - 4];
      }
    }
  }

  /** An output opener `<%=…` can only match where the tag starts. */
  lemma OpensAt(a: string, x: string, b: string, s: string, open: string)
    requires s == a + "<%" + x + "%>" + b && Free(a, '%') && Free(x, '%') && Free(b, '%')
    requires |open| >= 3 && open[1] == '%' && open[2] == '='
    ensures |s| == |a| + |x| + |b| + 4
    ensures NoneAt(s, 0, |a|, open) && NoneAt(s, |a| + 1, |s|, open)
  {
    Chars(a, x, b, s);
    PercentAt(a, x, b, s);
    forall p | 0 <= p < |s| && HasAt(s, p, open) ensures p == |a| {
      assert s[p..p + |open|][1] == s[p + 1];
      assert s[p..p + |open|][2] == s[p + 2];
    }
  }

  // ---------------------------------------------------------------------
  // The text passes

  /** `.*?(?:<%|$)` from `i` stops at the first `<%` when no line ends before it. */
  lemma {:induction false} LazyEndTo(s: string, i: nat, c: nat)
    requires i <= c && HasAt(s, c, "<%")
    requires forall k | i <= k < c :: s[k] != '%' && !IsLineTerminator(s[k])
    ensures LazyEnd(s, i) == Some(c + 2)
    decreases c - i
  {
    if i < c {
      assert !HasAt(s, i, "<%") by {
        assert s[i..i + 2][1] == s[i + 1];
        assert i + 1 < c ==> s[i + 1] != '%';
        assert i + 1 == c ==> s[i + 1] == '<';
      }
      LazyEndTo(s, i + 1, c);
    }
  }

  /** The first segment runs from the start to the first `<%`. */
  lemma SegmentsFirst(s: string, i: nat, keepLines: bool)
    requires HasAt(s, i, "<%")
    requires forall p | 0 <= p < i :: s[p] != '%' && !IsLineTerminator(s[p])
    ensures Segments(s, 0, keepLines) == Outer(s[..i + 2], keepLines) + Segments(s, i + 2, keepLines)
  {
    LazyEndTo(s, 0, i);
    assert SegmentAt(s, 0) == Some(i + 2);
    assert s[0..i + 2] == s[..i + 2];
  }

  /** A `%>` with a one-line text without `%` after it: one segment to the end. */
  lemma SegmentsLast(s: string, c: nat, keepLines: bool)
    requires 0 < c && HasAt(s, c, "%>")
    requires forall p | c + 2 <= p < |s| :: s[p] != '%' && !IsLineTerminator(s[p])
    ensures Segments(s, c, keepLines) == Outer(s[c..], keepLines)
  {
    LazyEndRuns(s, c + 2);
    assert SegmentAt(s, c) == Some(|s|);
    assert s[c..|s|] == s[c..];
  }

  /** The segments of a text, a tag with contents without `%`, and a text, all on one line. */
  lemma SegmentsAround(s: string, i: nat, c: nat, keepLines: bool)
    requires i + 2 <= c && HasAt(s, i, "<%") && HasAt(s, c, "%>")
    requires forall p | 0 <= p < i :: s[p] != '%' && !IsLineTerminator(s[p])
    requires NoPercent(s, i + 2, c)
    requires forall p | c + 2 <= p < |s| :: s[p] != '%' && !IsLineTerminator(s[p])
    ensures Segments(s, 0, keepLines) == Outer(s[..i + 2], keepLines) + s[i + 2..c] + Outer(s[c..], keepLines)
  {
    SegmentsFirst(s, i, keepLines);
    SegmentsCopy(s, i + 2, c, keepLines);
    SegmentsLast(s, c, keepLines);
    Chain(Segments(s, 0, keepLines), Outer(s[..i + 2], keepLines), Segments(s, i + 2, keepLines),
      s[i + 2..c], Segments(s, c, keepLines), Outer(s[c..], keepLines));
  }

  lemma Chain(r: string, u: string, v: string, m: string, w: string, w': string)
    requires r == u + v && v == m + w && w == w'
    ensures r == u + m + w'
  {
  }

  /** The segments of a tag with plain contents between two one-line texts without `%`. */
  lemma SegmentsBetween(a: string, x: string, b: string, s: string, keepLines: bool)
    requires s == a + "<%" + x + "%>" + b && PlainCode(x)
    requires Free(a, '%') && Free(b, '%') && OneLine(a, 0) && OneLine(b, 0)
    ensures Segments(s, 0, keepLines) == Outer(a, keepLines) + "<%" + x + "%>" + Outer(b, keepLines)
  {
    Slices(a, x, b, s);
    Ends(a, x, b, s);
    Inside(a, x, b, s);
    Outside(a, x, b, s);
    assert NoPercent(s, |a| + 2, |a| + |x| + 2);
    SegmentsGlued(s, a, x, b, |a| + |x| + 2, keepLines);
  }

  lemma SegmentsGlued(s: string, a: string, x: string, b: string, c: nat, keepLines: bool)
    requires c == |a| + |x| + 2 && |s| == c + |b| + 2
    requires HasAt(s, |a|, "<%") && HasAt(s, c, "%>")
    requires forall p | 0 <= p < |a| :: s[p] != '%' && !IsLineTerminator(s[p])
    requires NoPercent(s, |a| + 2, c)
    requires forall p | c + 2 <= p < |s| :: s[p] != '%' && !IsLineTerminator(s[p])
    requires s[..|a| + 2] == a + "<%" && s[|a| + 2..c] == x && s[c..] == "%>" + b
    ensures Segments(s, 0, keepLines) == Outer(a, keepLines) + "<%" + x + "%>" + Outer(b, keepLines)
  {
    SegmentsAround(s, |a|, c, keepLines);
    SegmentsJoin(s, a, x, b, c, keepLines);
  }

  lemma SegmentsJoin(s: string, a: string, x: string, b: string, c: nat, keepLines: bool)
    requires |a| + 2 <= c <= |s|
    requires Segments(s, 0, keepLines) == Outer(s[..|a| + 2], keepLines) + s[|a| + 2..c] + Outer(s[c..], keepLines)
    requires s[..|a| + 2] == a + "<%" && s[|a| + 2..c] == x && s[c..] == "%>" + b
    ensures Segments(s, 0, keepLines) == Outer(a, keepLines) + "<%" + x + "%>" + Outer(b, keepLines)
  {
    OuterTail(s, "%>", b, c, keepLines);
    OuterHead(s, a, "<%", keepLines);
    TagGlue(Segments(s, 0, keepLines), Outer(s[..|a| + 2], keepLines), s[|a| + 2..c],
      Outer(s[c..], keepLines), Outer(a, keepLines), x, Outer(b, keepLines));
  }

  lemma OuterHead(s: string, a: string, t: string, keepLines: bool)
    requires t == "<%" && |a| + 2 <= |s| && s[..|a| + 2] == a + t
    ensures Outer(s[..|a| + 2], keepLines) == Outer(a, keepLines) + t
  {
    OuterBefore(a, t, keepLines);
  }

  lemma OuterTail(s: string, t: string, b: string, c: nat, keepLines: bool)
    requires t == "%>" && c <= |s| && s[c..] == t + b
    ensures Outer(s[c..], keepLines) == t + Outer(b, keepLines)
  {
    OuterAfter(t, b, keepLines);
  }

  /** Putting a text, `<%`, the contents, `%>` and a text back together. */
  lemma TagGlue(r: string, u: string, m: string, w: string, ua: string, x: string, wb: string)
    requires r == u + m + w && u == ua + "<%" && m == x && w == "%>" + wb
    ensures r == ua + "<%" + x + "%>" + wb
  {
  }

  /** Line breaks become `\v` and nothing else is a line terminator afterwards. */
  lemma LinesOneLine(a: string)
    requires Literal(a)
    ensures Free(LinesToVt(a, 0), '%') && OneLine(LinesToVt(a, 0), 0)
  {
    var v := LinesToVt(a, 0);
    LinesToVtFree(a, 0, '%');
    LinesToVtFree(a, 0, '\n');
    LinesToVtFree(a, 0, '\r');
    LinesToVtFree(a, 0, '\U{2028}');
    LinesToVtFree(a, 0, '\U{2029}');
  }

  /** The code for a literal text has no `%`. */
  lemma LiteralFree(a: string, keepLines: bool)
    requires Literal(a)
    ensures PushCode(a, keepLines) == Outer(LinesToVt(a, 0), keepLines)
    ensures Free(PushCode(a, keepLines), '%')
  {
    LiteralText(a, keepLines);
    LinesOneLine(a);
    OuterFree(LinesToVt(a, 0), keepLines, '%');
  }

  /** The line-break pass on a text, a tag with plain contents, and a text. */
  lemma LinesBetween(a: string, x: string, b: string, s: string)
    requires s == a + "<%" + x + "%>" + b && PlainCode(x)
    ensures LinesToVt(s, 0) == LinesToVt(a, 0) + "<%" + x + "%>" + LinesToVt(b, 0)
  {
    var t := "<%" + x + "%>";
    var tb := t + b;
    Regroup(a, x, b, t, tb, s);
    TagLines(x, t);
    LinesConcat(t, b, tb);
    LinesConcat(a, tb, s);
    Assoc(LinesToVt(a, 0), t, LinesToVt(b, 0), x);
  }

  lemma Regroup(a: string, x: string, b: string, t: string, tb: string, s: string)
    requires t == "<%" + x + "%>" && tb == t + b && s == a + "<%" + x + "%>" + b
    ensures s == a + tb && tb[0] == '<' && t[|t| - 1] == '>'
  {
  }

  lemma Assoc(u: string, t: string, w: string, x: string)
    requires t == "<%" + x + "%>"
    ensures u + (t + w) == u + "<%" + x + "%>" + w
  {
  }

  /** The `\v` pass leaves a text without `\v` as it is. */
  lemma VtBetween(oa: string, x: string, ob: string)
    requires Free(oa, VT) && Free(ob, VT) && PlainCode(x)
    ensures ReplaceChar(oa + "<%" + x + "%>" + ob, VT, EOL) == oa + "<%" + x + "%>" + ob
  {
    var s := oa + "<%" + x + "%>" + ob;
    Chars(oa, x, ob, s);
    assert Free(s, VT) by {
      forall p | 0 <= p < |s| ensures s[p] != VT {
        if p < |oa| {
          assert s[p] == oa[p];
        } else if |oa| + 2 <= p < |oa| + |x| + 2 {
          assert s[p] == x[p - |oa| - 2];
        } else if |oa| + |x| + 4 <= p {
          assert s[p] == ob[p - |oa| - |x| - 4];
        }
      }
    }
    ReplaceCharAbsent(s, VT, EOL);
  }

  /**
   * The text passes on `a`, a tag with plain contents, and `b`: the code
   * for `a`, the tag unchanged, the code for `b`.
   */
  lemma TextPassesBetween(a: string, x: string, b: string, keepLines: bool)
    requires Literal(a) && Literal(b) && PlainCode(x)
    ensures TextPasses(a + "<%" + x + "%>" + b, keepLines)
         == PushCode(a, keepLines) + "<%" + x + "%>" + PushCode(b, keepLines)
  {
    var s := a + "<%" + x + "%>" + b;
    var va := LinesToVt(a, 0);
    var vb := LinesToVt(b, 0);
    LinesBetween(a, x, b, s);
    LinesOneLine(a);
    LinesOneLine(b);
    SegmentsBetween(va, x, vb, LinesToVt(s, 0), keepLines);
    OuterFree(va, keepLines, VT);
    OuterFree(vb, keepLines, VT);
    VtBetween(Outer(va, keepLines), x, Outer(vb, keepLines));
    LiteralText(a, keepLines);
    LiteralText(b, keepLines);
  }

  // ---------------------------------------------------------------------
  // The tag passes

  /** The three pieces of an output pass that finds one tag, put together. */
  lemma Glue(r0: string, r1: string, r2: string, u: string, pre: string, m: string, post: string, w: string)
    requires r0 == u + r1 && r1 == pre + m + post + r2 && r2 == w + []
    ensures r0 == u + pre + m + post + w
  {
  }

  lemma OutputsAt(s: string, i: nat, c: nat, open: string, pre: string, post: string)
    requires i < |s| && HasAt(s, i, open) && i + |open| <= |s| && CloseAt(s, i + |open|) == Some(c)
    ensures c + 2 <= |s|
    ensures OutputTags(s, i, open, pre, post) == pre + s[i + |open|..c] + post + OutputTags(s, c + 2, open, pre, post)
  {
  }

  /** An output pass that finds one tag, from `i` to the `%>` at `c`, and nothing else. */
  lemma OutputsAround(s: string, i: nat, c: nat, open: string, pre: string, post: string)
    requires i + |open| <= c && c + 2 <= |s| && HasAt(s, i, open) && HasAt(s, c, "%>")
    requires forall k | i + |open| <= k < c :: s[k] != '%' && !IsLineTerminator(s[k])
    requires NoneAt(s, 0, i, open) && NoneAt(s, c + 2, |s|, open)
    ensures OutputTags(s, 0, open, pre, post) == s[..i] + pre + s[i + |open|..c] + post + s[c + 2..]
  {
    CloseAtRun(s, i + |open|, c);
    OutputsAt(s, i, c, open, pre, post);
    OutputsCopy(s, 0, i, open, pre, post);
    OutputsCopy(s, c + 2, |s|, open, pre, post);
    assert OutputTags(s, |s|, open, pre, post) == [];
    assert s[0..i] == s[..i] && s[c + 2..|s|] == s[c + 2..];
    Glue(OutputTags(s, 0, open, pre, post), OutputTags(s, i, open, pre, post), OutputTags(s, c + 2, open, pre, post),
      s[..i], pre, s[i + |open|..c], post, s[c + 2..]);
  }

  /** The output pass for `open` on `a<%x%>b` when `<%x%>` starts with `open`. */
  lemma OutputsBetween(a: string, x: string, b: string, s: string, open: string, pre: string, post: string)
    requires s == a + "<%" + x + "%>" + b && Free(a, '%') && Free(b, '%') && PlainCode(x)
    requires |open| >= 3 && open[1] == '%' && open[2] == '=' && |open| <= |x| + 2 && HasAt(s, |a|, open)
    ensures OutputTags(s, 0, open, pre, post) == a + pre + s[|a| + |open|..|a| + |x| + 2] + post + b
  {
    Slices(a, x, b, s);
    Ends(a, x, b, s);
    Inside(a, x, b, s);
    OpensAt(a, x, b, s, open);
    var c := |a| + |x| + 2;
    assert NoneAt(s, c + 2, |s|, open);
    OutputsAround(s, |a|, c, open, pre, post);
  }

  /** The raw output pass on `a<%=e%>b`. */
  lemma RawBetween(a: string, e: string, b: string, s: string)
    requires Free(a, '%') && Free(b, '%') && PlainCode(e)
    requires s == a + "<%=" + e + "%>" + b
    ensures OutputTags(s, 0, "<%=", "', ", ", '") == a + "', " + e + ", '" + b
  {
    var x := "=" + e;
    assert s == a + "<%" + x + "%>" + b;
    assert PlainCode(x) by {
      assert forall k | 1 <= k < |x| :: x[k] == e[k - 1];
    }
    assert s[|a|..|a| + 3] == "<%=";
    OutputsBetween(a, x, b, s, "<%=", "', ", ", '");
    assert s[|a| + 3..|a| + |x| + 2] == e;
  }

  /** The escaped output pass on `a<%==e%>b`. */
  lemma EscapedBetween(a: string, e: string, b: string, s: string)
    requires Free(a, '%') && Free(b, '%') && PlainCode(e)
    requires s == a + "<%==" + e + "%>" + b
    ensures OutputTags(s, 0, "<%==", "', $encodeHtml(", "), '") == a + "', $encodeHtml(" + e + "), '" + b
  {
    var x := "==" + e;
    assert s == a + "<%" + x + "%>" + b;
    assert PlainCode(x) by {
      assert forall k | 2 <= k < |x| :: x[k] == e[k - 2];
    }
    assert s[|a|..|a| + 4] == "<%==";
    OutputsBetween(a, x, b, s, "<%==", "', $encodeHtml(", "), '");
    assert s[|a| + 4..|a| + |x| + 2] == e;
  }

  /** A raw tag is not an escaped one, in context too. */
  lemma RawNotEscaped(a: string, e: string, b: string, s: string)
    requires Free(a, '%') && Free(b, '%') && PlainCode(e) && (e == [] || e[0] != '=')
    requires s == a + "<%=" + e + "%>" + b
    ensures OutputTags(s, 0, "<%==", "', $encodeHtml(", "), '") == s
  {
    var x := "=" + e;
    assert s == a + "<%" + x + "%>" + b;
    assert PlainCode(x) by {
      assert forall k | 1 <= k < |x| :: x[k] == e[k - 1];
    }
    Chars(a, x, b, s);
    OpensAt(a, x, b, s, "<%==");
    assert !HasAt(s, |a|, "<%==") by {
      assert s[|a|..|a| + 4][3] == s[|a| + 3];
      assert |e| > 0 ==> s[|a| + 3] == e[0];
    }
    OutputsCopy(s, 0, |s|, "<%==", "', $encodeHtml(", "), '");
    assert s[0..|s|] == s;
  }

  // ---------------------------------------------------------------------
  // The whole chain

  /** The tag `<%x%>` with `x` an output opener's `=` and the contents. */
  lemma RawRegroup(a: string, x: string, b: string, e: string)
    requires x == "=" + e
    ensures a + "<%" + x + "%>" + b == a + "<%=" + e + "%>" + b
  {
  }

  lemma EscapedRegroup(a: string, x: string, b: string, e: string)
    requires x == "==" + e
    ensures a + "<%" + x + "%>" + b == a + "<%==" + e + "%>" + b
  {
  }

  /** The code around an output tag's contents has no `%`. */
  lemma CodeFree(a: string, pre: string, e: string, post: string, b: string)
    requires Free(a, '%') && Free(pre, '%') && PlainCode(e) && Free(post, '%') && Free(b, '%')
    ensures Free(a + pre + e + post + b, '%')
  {
    FreeConcat(a, pre, '%');
    FreeConcat(a + pre, e, '%');
    FreeConcat(a + pre + e, post, '%');
    FreeConcat(a + pre + e + post, b, '%');
  }

  /** The tag passes on `a<%=e%>b`, `a` and `b` without `%`. */
  lemma RawPasses(a: string, e: string, b: string, s: string)
    requires Free(a, '%') && Free(b, '%') && PlainCode(e) && (e == [] || e[0] != '=')
    requires s == a + "<%=" + e + "%>" + b
    ensures TagPasses(s) == a + "', " + e + ", '" + b
  {
    RawNotEscaped(a, e, b, s);
    RawBetween(a, e, b, s);
    CodeFree(a, "', ", e, ", '", b);
    PassesAfterOutputs(s, s, a + "', " + e + ", '" + b);
  }

  /** Once the output passes leave no `%`, the rest of the chain changes nothing. */
  lemma PassesAfterOutputs(s: string, s4: string, y: string)
    requires s4 == OutputTags(s, 0, "<%==", "', $encodeHtml(", "), '")
    requires y == OutputTags(s4, 0, "<%=", "', ", ", '") && Free(y, '%')
    ensures TagPasses(s) == y
  {
    StatementPassesFree(y);
    TagPassesAre(s, s4, y, Statements(y, 0), PushTargets(Statements(y, 0), 0));
  }

  /** The tag passes on `a<%==e%>b`, `a` and `b` without `%`. */
  lemma EscapedPasses(a: string, e: string, b: string, s: string)
    requires Free(a, '%') && Free(b, '%') && PlainCode(e)
    requires s == a + "<%==" + e + "%>" + b
    ensures TagPasses(s) == a + "', $encodeHtml(" + e + "), '" + b
  {
    EscapedBetween(a, e, b, s);
    var y := a + "', $encodeHtml(" + e + "), '" + b;
    CodeFree(a, "', $encodeHtml(", e, "), '", b);
    OutputsFree(y, "<%=", "', ", ", '");
    PassesAfterOutputs(s, y, y);
  }

  /**
   * `a<%=e%>b`, with `a` and `b` literal texts: the code for `a`, then `e`
   * pushed as an argument, then the code for `b`.
   */
  lemma RawTagBetween(a: string, e: string, b: string, keepLines: bool)
    requires Literal(a) && Literal(b) && PlainCode(e) && (e == [] || e[0] != '=')
    ensures PushCode(a + "<%=" + e + "%>" + b, keepLines)
         == PushCode(a, keepLines) + "', " + e + ", '" + PushCode(b, keepLines)
  {
    var x := "=" + e;
    assert PlainCode(x) by {
      assert forall k | 1 <= k < |x| :: x[k] == e[k - 1];
    }
    TextPassesBetween(a, x, b, keepLines);
    var ca := PushCode(a, keepLines);
    var cb := PushCode(b, keepLines);
    LiteralFree(a, keepLines);
    LiteralFree(b, keepLines);
    RawRegroup(a, x, b, e);
    RawRegroup(ca, x, cb, e);
    RawPasses(ca, e, cb, TextPasses(a + "<%=" + e + "%>" + b, keepLines));
  }

  /**
   * `a<%==e%>b`, with `a` and `b` literal texts: the code for `a`, then `e`
   * pushed through `$encodeHtml`, then the code for `b`.
   */
  lemma EscapedTagBetween(a: string, e: string, b: string, keepLines: bool)
    requires Literal(a) && Literal(b) && PlainCode(e)
    ensures PushCode(a + "<%==" + e + "%>" + b, keepLines)
         == PushCode(a, keepLines) + "', $encodeHtml(" + e + "), '" + PushCode(b, keepLines)
  {
    var x := "==" + e;
    assert PlainCode(x) by {
      assert forall k | 2 <= k < |x| :: x[k] == e[k - 2];
    }
    TextPassesBetween(a, x, b, keepLines);
    var ca := PushCode(a, keepLines);
    var cb := PushCode(b, keepLines);
    LiteralFree(a, keepLines);
    LiteralFree(b, keepLines);
    EscapedRegroup(a, x, b, e);
    EscapedRegroup(ca, x, cb, e);
    EscapedPasses(ca, e, cb, TextPasses(a + "<%==" + e + "%>" + b, keepLines));
  }
}
