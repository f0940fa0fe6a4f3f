/**
 * The placeholder token shared by the two replacers: a mark character,
 * `{{`, a non-empty name of word characters, `-` and `.`, `}}` and the mark
 * again (`%{{a.b}}%` for build properties, `${{a.b}}$` for language
 * resources). This scanner stands in for the regular expressions
 * `/%{{([\w-\.]+)}}%/g` and `/\${{([\w\-\.]+)}}\$/g`.
 */
module Placeholders {
  import opened Strings

  predicate IsNameChar(c: char) { IsWordChar(c) || c == '-' || c == '.' }

  predicate IsName(name: string) {
    |name| > 0 && forall i | 0 <= i < |name| :: IsNameChar(name[i])
  }

  /** Length of the run of name characters at the start of `s`. */
  function NameRun(s: string): (n: nat)
    ensures n <= |s|
    ensures forall i | 0 <= i < n :: IsNameChar(s[i])
    ensures n < |s| ==> !IsNameChar(s[n])
  {
    if |s| > 0 && IsNameChar(s[0]) then 1 + NameRun(s[1..]) else 0
  }

  /** The placeholder text for `name`. */
  function Placeholder(name: string, mark: char): string {
    [mark] + "{{" + name + "}}" + [mark]
  }

  /** A placeholder that starts `s`: its name and its length. */
  datatype Match = Match(name: string, len: nat)

  /**
   * The regular expression anchored at the start of `s`. The name class
   * excludes `}`, so the greedy name is the whole run of name characters and
   * must be followed by the closing `}}` and the mark.
   */
  function MatchAt(s: string, mark: char): (r: Option<Match>)
    ensures r.Some? ==> IsName(r.value.name) && r.value.len == |r.value.name| + 6
    ensures r.Some? ==> r.value.len <= |s| && s[..r.value.len] == Placeholder(r.value.name, mark)
  {
    if |s| >= 3 && s[0] == mark && s[1] == '{' && s[2] == '{' then
      var n := NameRun(s[3..]);
      if n > 0 && HasAt(s, 3 + n, "}}" + [mark]) then
        assert s[..n + 6] == s[..3] + s[3..3 + n] + s[3 + n..n + 6];
        Some(Match(s[3..3 + n], n + 6))
      else None
    else None
  }

  /** A placeholder is recognised as itself, whatever follows it. */
  lemma MatchPlaceholder(name: string, mark: char, rest: string)
    requires IsName(name)
    ensures MatchAt(Placeholder(name, mark) + rest, mark) == Some(Match(name, |name| + 6))
  {
    var s := Placeholder(name, mark) + rest;
    assert s[3..3 + |name|] == name;
    var n := NameRun(s[3..]);
    NameRunOf(name, "}}" + [mark] + rest);
    assert s[3..] == name + ("}}" + [mark] + rest);
    assert s[3 + |name|..3 + |name| + 3] == "}}" + [mark];
  }

  lemma {:induction false} NameRunOf(name: string, rest: string)
    requires forall i | 0 <= i < |name| :: IsNameChar(name[i])
    requires |rest| > 0 && rest[0] == '}'
    ensures NameRun(name + rest) == |name|
    decreases |name|
  {
    if name != [] {
      assert (name + rest)[1..] == name[1..] + rest;
      NameRunOf(name[1..], rest);
    } else {
      assert name + rest == rest;
    }
  }

  /** Text that does not start with the mark character never starts a placeholder. */
  lemma NoMatchWithoutMark(s: string, mark: char)
    requires |s| == 0 || s[0] != mark
    ensures MatchAt(s, mark) == None
  {
  }

  /** Some placeholder starts at some position of `s`. */
  predicate HasPlaceholder(s: string, mark: char) {
    exists i | 0 <= i <= |s| :: MatchAt(s[i..], mark).Some?
  }

  /** Text without the mark character holds no placeholder. */
  lemma NoPlaceholderWithoutMark(s: string, mark: char)
    requires mark !in s
    ensures !HasPlaceholder(s, mark)
  {
    forall i | 0 <= i <= |s| ensures MatchAt(s[i..], mark) == None {
      if i < |s| {
        assert s[i..][0] == s[i];
      }
    }
  }
}
