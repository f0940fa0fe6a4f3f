/**
 * Explicit scanners for the regular expressions with which `tasks/yomb.js`
 * finds `require('…')` calls and `define(` headers. Every such pattern
 * starts with the lead `(^|[^.]+?)\b`: the word must not follow a `.` or
 * a word character, and a global scan cannot reuse the character that
 * ended the previous match as the lead of the next one.
 */
module Scan {
  import opened Strings

  predicate IsQuote(c: char) { c == '"' || c == '\'' }

  /** The first index at or after `i` whose character satisfies `stop`, or the length. */
  function ScanTo(s: string, i: nat, stop: char -> bool): (j: nat)
    requires i <= |s|
    ensures i <= j <= |s|
    ensures forall k | i <= k < j :: !stop(s[k])
    ensures j < |s| ==> stop(s[j])
    decreases |s| - i
  {
    if i == |s| || stop(s[i]) then i else ScanTo(s, i + 1, stop)
  }

  predicate IsNonSpace(c: char) { !IsSpace(c) }

  /** `[` or `]`, the characters an array pattern `\[[^\[\]]*\]` stops at. */
  predicate IsBracket(c: char) { c == '[' || c == ']' }

  /** `\s*`, greedy. */
  function SkipSpaces(s: string, i: nat): (j: nat)
    requires i <= |s|
    ensures i <= j <= |s|
    ensures forall k | i <= k < j :: IsSpace(s[k])
    ensures j < |s| ==> !IsSpace(s[j])
  {
    ScanTo(s, i, IsNonSpace)
  }

  /**
   * The lead `(^|[^.]+?)\b` in front of a word that starts at `q`, in a scan
   * whose previous match ended at `last`: either `^` matches at `q` (the
   * start, or a line start under the `m` flag), or at least one character
   * after `last` and right before `q` is not a `.`; and `\b` holds, since the
   * word starts with a letter.
   */
  predicate LeadOk(s: string, q: nat, last: nat, multiline: bool)
    requires q <= |s|
  {
    last <= q
    && (q == 0 || !IsWordChar(s[q - 1]))
    && (q == 0 || (multiline && IsLineTerminator(s[q - 1])) || (last < q && s[q - 1] != '.'))
  }

  /** A `require` call found by a scan: where it starts and ends, its quote and its target. */
  datatype Call = Call(at: nat, end: nat, quote: char, target: string)

  /**
   * `require\s*\(\s*(["'])([^"']+?)\2\s*\)` at `q`: the target is the whole
   * run of non-quote characters after the opening quote, and the quote that
   * ends it must be the same one.
   */
  function RequireAt(s: string, q: nat): (r: Option<Call>)
    requires q <= |s|
    ensures r.Some? ==> r.value.at == q && q < r.value.end <= |s|
    ensures r.Some? ==> |r.value.target| > 0 && IsQuote(r.value.quote)
    ensures r.Some? ==> forall k | 0 <= k < |r.value.target| :: !IsQuote(r.value.target[k])
  {
    if !HasAt(s, q, "require") then None
    else
      var a := SkipSpaces(s, q + 7);
      if !(a < |s| && s[a] == '(') then None
      else
        var b := SkipSpaces(s, a + 1);
        if !(b < |s| && IsQuote(s[b])) then None
        else
          var e := ScanTo(s, b + 1, IsQuote);
          if !(b + 1 < e < |s| && s[e] == s[b]) then None
          else
            var c := SkipSpaces(s, e + 1);
            if !(c < |s| && s[c] == ')') then None
            else Some(Call(q, c + 1, s[b], s[b + 1..e]))
  }

  /** A target of the form `(\.[^"']+?)`: a `.` and at least one more character. */
  predicate IsRelative(target: string) {
    |target| >= 2 && target[0] == '.'
  }

  /** The call the scan accepts at `q`: any call, or only one with a relative target. */
  function CallAt(s: string, q: nat, relative: bool): (r: Option<Call>)
    requires q <= |s|
    ensures r.Some? ==> r.value.at == q && q < r.value.end <= |s|
    ensures r.Some? ==> |r.value.target| > 0 && IsQuote(r.value.quote)
    ensures r.Some? && relative ==> IsRelative(r.value.target)
    ensures r.Some? ==> forall k | 0 <= k < |r.value.target| :: !IsQuote(r.value.target[k])
  {
    match RequireAt(s, q)
    case None => None
    case Some(c) => if relative && !IsRelative(c.target) then None else Some(c)
  }

  /**
   * The calls a global, multi-line scan finds from position `q` on, the
   * previous match having ended at `last`: the leftmost acceptable call, then
   * the scan resumes where it ended.
   */
  function Calls(s: string, last: nat, q: nat, relative: bool): seq<Call>
    requires last <= q <= |s|
    decreases |s| - q, 1
  {
    if q == |s| then [] else CallsAt(s, last, q, relative)
  }

  /** The scan at a position inside the text: a call accepted there, or the next position. */
  function CallsAt(s: string, last: nat, q: nat, relative: bool): seq<Call>
    requires last <= q < |s|
    decreases |s| - q, 0
  {
    match CallAt(s, q, relative)
    case Some(c) =>
      if LeadOk(s, q, last, true) then [c] + Calls(s, c.end, c.end, relative)
      else Calls(s, last, q + 1, relative)
    case None => Calls(s, last, q + 1, relative)
  }

  /** One step of the scan, in the two cases the recursion distinguishes. */
  lemma CallsStep(s: string, last: nat, q: nat, relative: bool)
    requires last <= q < |s|
    ensures var c := CallAt(s, q, relative);
      Calls(s, last, q, relative)
      == if c.Some? && LeadOk(s, q, last, true) then [c.value] + Calls(s, c.value.end, c.value.end, relative)
         else Calls(s, last, q + 1, relative)
  {
  }

  /** Every call of the list has a target, and a relative one when `relative` is set. */
  predicate Targeted(calls: seq<Call>, relative: bool) {
    forall i | 0 <= i < |calls| :: |calls[i].target| > 0 && (relative ==> IsRelative(calls[i].target))
  }

  lemma TargetedCons(c: Call, rest: seq<Call>, relative: bool)
    requires |c.target| > 0 && (relative ==> IsRelative(c.target)) && Targeted(rest, relative)
    ensures Targeted([c] + rest, relative)
  {
    assert forall i | 1 <= i < |[c] + rest| :: ([c] + rest)[i] == rest[i - 1];
  }

  /** Every call found has a target; the relative scan finds only relative targets. */
  lemma {:induction false} CallsTargets(s: string, last: nat, q: nat, relative: bool)
    requires last <= q <= |s|
    ensures Targeted(Calls(s, last, q, relative), relative)
    decreases |s| - q
  {
    if q < |s| {
      CallsStep(s, last, q, relative);
      var c := CallAt(s, q, relative);
      if c.Some? && LeadOk(s, q, last, true) {
        CallsTargets(s, c.value.end, c.value.end, relative);
        TargetedCons(c.value, Calls(s, c.value.end, c.value.end, relative), relative);
      } else {
        CallsTargets(s, last, q + 1, relative);
      }
    }
  }

  /** The targets of the calls, in order. */
  function Targets(calls: seq<Call>): (r: seq<string>)
    ensures |r| == |calls|
    ensures forall i | 0 <= i < |calls| :: r[i] == calls[i].target
  {
    if calls == [] then [] else [calls[0].target] + Targets(calls[1..])
  }

  lemma TargetsConcat(a: seq<Call>, b: seq<Call>)
    ensures Targets(a + b) == Targets(a) + Targets(b)
  {
    assert forall i | 0 <= i < |a + b| :: Targets(a + b)[i] == (Targets(a) + Targets(b))[i];
  }

  /** A text without the letters `require` has no call in it. */
  lemma {:induction false} NoWordNoCalls(s: string, last: nat, q: nat, relative: bool)
    requires last <= q <= |s|
    requires forall i | q <= i <= |s| :: !HasAt(s, i, "require")
    ensures Calls(s, last, q, relative) == []
    decreases |s| - q
  {
    if q < |s| {
      NoWordNoCalls(s, last, q + 1, relative);
    }
  }

  /** A call right after a `.` is a method call, not a `require`: `a.require('x')` is not found. */
  lemma MemberCallNotFound(s: string, q: nat, last: nat)
    requires 0 < q <= |s| && s[q - 1] == '.'
    ensures !LeadOk(s, q, last, true)
  {
  }

  /**
   * A call that follows the previous call without a character in between
   * is not found: the lead needs a character of its own after the previous
   * match. `require('a')require('b')` yields only `a`.
   */
  lemma AdjacentCallNotFound(s: string, q: nat)
    requires 0 < q <= |s| && !IsLineTerminator(s[q - 1])
    ensures !LeadOk(s, q, q, true)
  {
  }

  /** `require('./a')` alone is found, with its target. */
  lemma SingleCallFound()
    ensures Targets(Calls("require('./a')", 0, 0, false)) == ["./a"]
  {
    var s := "require('./a')";
    assert HasAt(s, 0, "require");
    assert SkipSpaces(s, 7) == 7;
    assert SkipSpaces(s, 8) == 8;
    assert ScanTo(s, 12, IsQuote) == 12;
    assert ScanTo(s, 11, IsQuote) == 12;
    assert ScanTo(s, 10, IsQuote) == 12;
    assert ScanTo(s, 9, IsQuote) == 12;
    assert SkipSpaces(s, 13) == 13;
    assert s[9..12] == "./a";
    assert RequireAt(s, 0) == Some(Call(0, 14, '\'', "./a"));
    assert Calls(s, 14, 14, false) == [];
  }
}
