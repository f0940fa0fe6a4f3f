/**
 * `fixDefineParams(def, depId, baseId)` of `tasks/yomb.js`: the module body
 * goes through `getBodyDeps`; then either a module that only assigns
 * `module.exports` is wrapped in a `define` call, or the first `define(`
 * header gets an id and a dependency array, the body dependencies added
 * to it. `path.join(path.dirname(baseId), ·)` is the parameter `join`; an
 * absent `depId` or `baseId` is the empty string.
 */
module Define {
  import opened Strings
  import opened Scan
  import Deps
  import Paths

  /** A character that ends the id of a header: a quote or white space. */
  predicate IsIdStop(c: char) { IsQuote(c) || IsSpace(c) }

  predicate NoIdStop(s: string) { forall i | 0 <= i < |s| :: !IsIdStop(s[i]) }

  predicate NoBracket(s: string) { forall i | 0 <= i < |s| :: !IsBracket(s[i]) }

  predicate Blank(s: string) { forall i | 0 <= i < |s| :: IsSpace(s[i]) }

  /** An array literal without nested brackets: `[`, the entries, `]`. */
  predicate IsFlatArray(a: string) {
    |a| >= 2 && a[0] == '[' && a[|a| - 1] == ']' && NoBracket(a[1..|a| - 1])
  }

  /** `define\s*\(` at `q`, and the position after the parenthesis. */
  function DefineOpenAt(s: string, q: nat): (r: Option<nat>)
    requires q <= |s|
    ensures r.Some? ==> HasAt(s, q, "define") && q + 7 <= r.value <= |s| && s[r.value - 1] == '('
  {
    if !HasAt(s, q, "define") then None
    else
      var a := SkipSpaces(s, q + 6);
      if a < |s| && s[a] == '(' then Some(a + 1) else None
  }

  /**
   * `(["'])([^"'\s]+)\3\s*,\s*` at `i`: a quoted id followed by a comma,
   * and the position after the spaces that follow the comma.
   */
  function DefinedIdAt(s: string, i: nat): (r: Option<(string, nat)>)
    requires i <= |s|
    ensures r.Some? ==> i < r.value.1 <= |s| && r.value.0 != [] && NoIdStop(r.value.0)
  {
    if !(i < |s| && IsQuote(s[i])) then None
    else
      var k := ScanTo(s, i + 1, IsIdStop);
      if !(i + 1 < k < |s| && s[k] == s[i]) then None
      else
        var m := SkipSpaces(s, k + 1);
        if !(m < |s| && s[m] == ',') then None
        else Some((s[i + 1..k], SkipSpaces(s, m + 1)))
  }

  /** The optional defined id at `i`, and where the pattern goes on. */
  function IdAt(s: string, i: nat): (r: (Option<string>, nat))
    requires i <= |s|
    ensures i <= r.1 <= |s|
  {
    match DefinedIdAt(s, i)
    case Some((x, j)) => (Some(x), j)
    case None => (None, i)
  }

  /** `\[[^\[\]]*\]` at `j`, and the position after it. */
  function ArrayAt(s: string, j: nat): (r: Option<nat>)
    requires j <= |s|
    ensures r.Some? ==> j < r.value <= |s|
  {
    if !(j < |s| && s[j] == '[') then None
    else
      var m := ScanTo(s, j + 1, IsBracket);
      if !(m < |s| && s[m] == ']') then None
      else Some(m + 1)
  }

  /** What `ArrayAt` reads is a flat array. */
  lemma ArrayAtFlat(s: string, j: nat, e: nat)
    requires j <= |s| && ArrayAt(s, j) == Some(e)
    ensures e <= |s| && IsFlatArray(s[j..e])
  {
    var m := ScanTo(s, j + 1, IsBracket);
    assert j < |s| && s[j] == '[' && m < |s| && s[m] == ']' && e == m + 1;
    var a := s[j..e];
    assert a[0] == '[' && a[|a| - 1] == ']';
    var b := a[1..|a| - 1];
    assert forall i | 0 <= i < |b| :: b[i] == s[j + 1 + i];
  }

  /**
   * What the header pattern matches at a `define`: the end of `define(`,
   * the optional defined id, the optional array, and where the match ends.
   */
  datatype Header = Header(open: nat, id: Option<string>, arr: Option<string>, end: nat)

  /** The header pattern of `fixDefineParams` at `q`; only `define(` is required. */
  function HeaderAt(s: string, q: nat): (r: Option<Header>)
    requires q <= |s|
    ensures r.Some? <==> DefineOpenAt(s, q).Some?
    ensures r.Some? ==> r.value.open == DefineOpenAt(s, q).value <= r.value.end <= |s|
    ensures r.Some? && r.value.arr.Some? ==> IsFlatArray(r.value.arr.value)
  {
    match DefineOpenAt(s, q)
    case None => None
    case Some(open) => Some(HeaderFrom(s, open))
  }

  /** The rest of the header pattern after `define(` at `open`: the optional id and the optional array. */
  function HeaderFrom(s: string, open: nat): (h: Header)
    requires open <= |s|
    ensures h.open == open <= h.end <= |s|
    ensures h.arr.Some? ==> IsFlatArray(h.arr.value)
  {
    var (id, j) := IdAt(s, SkipSpaces(s, open));
    match ArrayAt(s, j)
    case Some(e) => ArrayAtFlat(s, j, e); Header(open, id, Some(s[j..e]), e)
    case None => Header(open, id, None, j)
  }

  /**
   * The first header of a text: the pattern `(^|[^.]+?)\bdefine\s*\(`
   * searched from `q`. With the search starting at 0 the `m` flag changes
   * nothing, since a line terminator is not a `.`.
   */
  function FirstHeader(s: string, q: nat): (k: nat)
    requires q <= |s|
    ensures q <= k <= |s|
    ensures forall j | q <= j < k :: !(LeadOk(s, j, 0, true) && DefineOpenAt(s, j).Some?)
    ensures k < |s| ==> LeadOk(s, k, 0, true) && DefineOpenAt(s, k).Some?
    decreases |s| - q
  {
    if q == |s| || (LeadOk(s, q, 0, true) && DefineOpenAt(s, q).Some?) then q
    else FirstHeader(s, q + 1)
  }

  /** `module.exports` at `q`, followed by a word boundary. */
  predicate ModuleExportsAt(s: string, q: nat)
    requires q <= |s|
  {
    HasAt(s, q, "module.exports") && (q + 14 == |s| || !IsWordChar(s[q + 14]))
  }

  /** The first match of `(^|[^.]+?)\bmodule\.exports\b` from `q`, or the length. */
  function FirstExports(s: string, q: nat): (k: nat)
    requires q <= |s|
    ensures q <= k <= |s|
    ensures forall j | q <= j < k :: !(LeadOk(s, j, 0, false) && ModuleExportsAt(s, j))
    ensures k < |s| ==> LeadOk(s, k, 0, false) && ModuleExportsAt(s, k)
    decreases |s| - q
  {
    if q == |s| || (LeadOk(s, q, 0, false) && ModuleExportsAt(s, q)) then q
    else FirstExports(s, q + 1)
  }

  /** Each dependency in single quotes. */
  function QuoteAll(ds: seq<string>): (r: seq<string>)
    ensures |r| == |ds|
    ensures forall i | 0 <= i < |ds| :: r[i] == "'" + ds[i] + "'"
  {
    if ds == [] then [] else ["'" + ds[0] + "'"] + QuoteAll(ds[1..])
  }

  /** The body dependencies as array entries: `"'" + bodyDeps.join("', '") + "'"`. */
  function DepsText(ds: seq<string>): string {
    Join(QuoteAll(ds), ", ")
  }

  /** An array literal with the given entries. */
  function ArrayText(items: seq<string>): string {
    "[" + Join(items, ", ") + "]"
  }

  /** The entries a header without an array gets before the body dependencies. */
  const Defaults: seq<string> := ["'require'", "'exports'", "'module'"]

  /**
   * `deps.replace(/]$/, ', ' + bodyDeps + ']')` as written: an array that
   * is empty gets a hole in front of the added entries.
   */
  function MergedArrayAsWritten(arr: string, ds: seq<string>): (r: string)
    requires |arr| >= 2
    ensures ds == [] ==> r == arr
  {
    if ds == [] then arr else arr[..|arr| - 1] + ", " + DepsText(ds) + "]"
  }

  /** The body dependencies added to an array, without a hole when the array is empty. */
  function MergedArray(arr: string, ds: seq<string>): (r: string)
    requires |arr| >= 2
    ensures ds == [] ==> r == arr
    ensures !Blank(arr[1..|arr| - 1]) ==> r == MergedArrayAsWritten(arr, ds)
  {
    if ds == [] then arr
    else if Blank(arr[1..|arr| - 1]) then "[" + DepsText(ds) + "]"
    else arr[..|arr| - 1] + ", " + DepsText(ds) + "]"
  }

  /** The array of the new header: the matched one merged, or the three defaults and the body dependencies. */
  function NewArray(arr: Option<string>, ds: seq<string>): string
    requires arr.Some? ==> |arr.value| >= 2
  {
    match arr
    case Some(a) => MergedArray(a, ds)
    case None => ArrayText(Defaults + QuoteAll(ds))
  }

  /** `deps || "['require', 'exports', 'module'], "`: a new array is followed by a comma. */
  function DepsPart(arr: Option<string>, ds: seq<string>): string
    requires arr.Some? ==> |arr.value| >= 2
  {
    NewArray(arr, ds) + (if arr.None? then ", " else "")
  }

  /**
   * The id the header gets: a defined id that is not relative is kept;
   * otherwise `depId`, joined with the directory of `baseId` when both are
   * given, and made relative with `./`.
   */
  function ModuleId(definedId: Option<string>, depId: string, baseId: string, join: string -> string): (id: string)
    ensures definedId.Some? && !StartsWith(definedId.value, ".") ==> id == definedId.value
    ensures !(definedId.Some? && !StartsWith(definedId.value, ".")) ==> id == [] || StartsWith(id, ".")
    ensures !(definedId.Some? && !StartsWith(definedId.value, ".")) && baseId == [] ==>
      (id == [] <==> depId == []) && (id != [] ==> id == depId || id == "./" + depId)
  {
    if definedId.Some? && !StartsWith(definedId.value, ".") then definedId.value
    else
      var id0 := if depId != [] && baseId != [] then join(depId) else depId;
      if id0 != [] && !StartsWith(id0, ".") then "./" + id0 else id0
  }

  /** `id && ("'" + getUnixStylePath(id) + "', ")`. */
  function IdPart(id: string): string {
    IdText(Paths.UnixPath(id))
  }

  /** A normalised id in quotes, followed by a comma; nothing for no id. */
  function IdText(x: string): string {
    if x == [] then [] else "'" + x + "', "
  }

  /** The id the header pattern reads from `IdText(x)`: none for the empty id. */
  function IdOf(x: string): Option<string> {
    if x == [] then None else Some(x)
  }

  /** Normalising keeps an id free of quotes and spaces, and keeps it empty or not. */
  lemma UnixId(id: string)
    requires NoIdStop(id)
    ensures NoIdStop(Paths.UnixPath(id)) && (Paths.UnixPath(id) == [] <==> id == [])
  {
    var x := Paths.UnixPath(id);
    assert forall i | 0 <= i < |x| :: x[i] == '/' || x[i] == id[i];
  }

  /** The first header rewritten: the text up to `define(`, the id, the array, the rest after the match. */
  function Rewrite(body: string, h: Header, ds: seq<string>, depId: string, baseId: string, join: string -> string): string
    requires h.open <= h.end <= |body|
    requires h.arr.Some? ==> |h.arr.value| >= 2
  {
    body[..h.open] + IdPart(ModuleId(h.id, depId, baseId, join)) + DepsPart(h.arr, ds) + body[h.end..]
  }

  /** The factory function a wrapped module's text goes into, and the end of the `define` call. */
  const Factory: string := "function(require, exports, module) {\n"
  const Close: string := "\n});"

  /** The header at `k` rewritten. */
  function RewriteFirst(body: string, k: nat, ds: seq<string>, depId: string, baseId: string, join: string -> string): string
    requires k <= |body| && DefineOpenAt(body, k).Some?
  {
    Rewrite(body, HeaderAt(body, k).value, ds, depId, baseId, join)
  }

  /** The wrapper for a module that only assigns `module.exports`. */
  function Wrap(body: string, ds: seq<string>, depId: string, baseId: string, join: string -> string): string {
    "define(" + IdPart(ModuleId(None, depId, baseId, join)) + DepsPart(None, ds)
    + Factory + body + Close
  }

  /** The rewrite of a body whose `require` calls are already processed, with its body dependencies `ds`. */
  function Fix(body: string, ds: seq<string>, depId: string, baseId: string, join: string -> string): (r: string)
    ensures FirstHeader(body, 0) == |body| && FirstExports(body, 0) == |body| ==> r == body
  {
    var k := FirstHeader(body, 0);
    if k < |body| then RewriteFirst(body, k, ds, depId, baseId, join)
    else if FirstExports(body, 0) < |body| then Wrap(body, ds, depId, baseId, join)
    else body
  }

  /**
   * `fixDefineParams(def, depId, baseId)`: the `require` targets folded,
   * then the header rewritten or the module wrapped. A module whose
   * targets need no folding and that has neither `define(` nor
   * `module.exports` comes out as it went in.
   */
  function FixDefineParams(def: string, depId: string, baseId: string, join: string -> string): (r: string)
    ensures NeedsNoFix(def) ==> r == def
  {
    Unfolded(def);
    Fix(Deps.BodyText(def), Deps.BodyDeps(def), depId, baseId, join)
  }

  /** Targets that need no folding, and neither `define(` nor `module.exports`. */
  predicate NeedsNoFix(def: string) {
    Deps.PlainTargets(def) && FirstHeader(def, 0) == |def| && FirstExports(def, 0) == |def|
  }

  lemma Unfolded(def: string)
    ensures Deps.PlainTargets(def) ==> Deps.BodyText(def) == def
  {
    if Deps.PlainTargets(def) {
      Deps.BodyWithoutFoldsUnchanged(def);
    }
  }

  // ---------------------------------------------------------------------
  // Reading a header back

  /** The first `n` characters of two texts are the same. */
  predicate Agree(x: string, y: string, n: nat) {
    n <= |x| && n <= |y| && forall i | 0 <= i < n :: x[i] == y[i]
  }

  /** Two texts that agree up to a stop character scan to the same place. */
  lemma {:induction false} ScanAgree(x: string, y: string, i: nat, m: nat, stop: char -> bool)
    requires i <= m < |x| && Agree(x, y, m + 1) && stop(x[m])
    ensures ScanTo(x, i, stop) == ScanTo(y, i, stop) <= m
    decreases m - i
  {
    if !stop(x[i]) {
      ScanAgree(x, y, i + 1, m, stop);
    }
  }

  /** `define(` is read alike in two texts that agree up to a character that is not a space. */
  lemma OpenAgree(x: string, y: string, q: nat, m: nat)
    requires q + 6 <= m < |x| && Agree(x, y, m + 1) && !IsSpace(x[m])
    ensures DefineOpenAt(x, q) == DefineOpenAt(y, q)
  {
    assert x[q..q + 6] == y[q..q + 6];
    ScanAgree(x, y, q + 6, m, IsNonSpace);
  }

  /** No `define` starts in the five characters before a `d`. */
  lemma NoDefineOverlap(s: string, j: nat, k: nat)
    requires j < k < j + 6 && k < |s| && s[k] == 'd'
    ensures !HasAt(s, j, "define")
  {
  }

  /** Before the first header, a text that agrees with another up to its `define` reads no header either. */
  lemma PrefixAgree(x: string, y: string, j: nat, k: nat)
    requires j < k < |x| && Agree(x, y, k + 1) && x[k] == 'd'
    ensures DefineOpenAt(x, j) == DefineOpenAt(y, j)
    ensures LeadOk(x, j, 0, true) == LeadOk(y, j, 0, true)
  {
    if j + 6 <= k {
      OpenAgree(x, y, j, k);
    } else {
      NoDefineOverlap(x, j, k);
      NoDefineOverlap(y, j, k);
    }
  }

  lemma AgreeShorter(x: string, y: string, n: nat, m: nat)
    requires Agree(x, y, n) && m <= n
    ensures Agree(x, y, m)
  {
  }

  /** A text that keeps everything up to the first header's `define(` keeps that header first. */
  lemma FirstKept(r: string, body: string, k: nat, open: nat)
    requires FirstHeader(body, 0) == k < |body| && DefineOpenAt(body, k) == Some(open)
    requires Agree(r, body, open)
    ensures FirstHeader(r, 0) == k && DefineOpenAt(r, k) == Some(open)
  {
    KeptOpen(r, body, k, open);
    AgreeShorter(r, body, open, k + 1);
    KeptFirst(r, body, k);
  }

  lemma KeptOpen(r: string, body: string, k: nat, open: nat)
    requires k <= |body| && DefineOpenAt(body, k) == Some(open) && Agree(r, body, open)
    ensures DefineOpenAt(r, k) == Some(open) && k + 7 <= open && r[k] == 'd'
  {
    OpenAgree(r, body, k, open - 1);
    assert body[k..k + 6] == "define";
    assert body[k] == 'd';
  }

  lemma KeptFirst(r: string, body: string, k: nat)
    requires FirstHeader(body, 0) == k < |body| && k < |r| && Agree(r, body, k + 1)
    requires r[k] == 'd' && DefineOpenAt(r, k).Some?
    ensures FirstHeader(r, 0) == k
  {
    assert k > 0 ==> r[k - 1] == body[k - 1];
    NoHeaderBefore(r, body, k);
    FirstHeaderIs(r, k);
  }

  lemma NoHeaderBefore(r: string, body: string, k: nat)
    requires k < |r| && Agree(r, body, k + 1) && r[k] == 'd'
    requires forall j | 0 <= j < k :: !(LeadOk(body, j, 0, true) && DefineOpenAt(body, j).Some?)
    ensures forall j | 0 <= j < k :: !(LeadOk(r, j, 0, true) && DefineOpenAt(r, j).Some?)
  {
    forall j | 0 <= j < k
      ensures !(LeadOk(r, j, 0, true) && DefineOpenAt(r, j).Some?)
    {
      PrefixAgree(r, body, j, k);
    }
  }

  lemma FirstHeaderIs(s: string, k: nat)
    requires k < |s| && LeadOk(s, k, 0, true) && DefineOpenAt(s, k).Some?
    requires forall j | 0 <= j < k :: !(LeadOk(s, j, 0, true) && DefineOpenAt(s, j).Some?)
    ensures FirstHeader(s, 0) == k
  {
  }

  /** A quoted id followed by `, ` is read as the defined id. */
  lemma ReadId(s: string, i: nat, x: string, t: string)
    requires x != [] && NoIdStop(x) && t == "'" + x + "', "
    requires HasAt(s, i, t) && i + |x| + 4 < |s| && !IsSpace(s[i + |x| + 4])
    ensures DefinedIdAt(s, i) == Some((x, i + |x| + 4))
  {
    var n := |x|;
    IdChars(s, i, x, t);
    ScanExact(s, i + 1, i + 1 + n, IsIdStop);
    assert SkipSpaces(s, i + n + 2) == i + n + 2;
    assert SkipSpaces(s, i + n + 3) == i + n + 4;
  }

  /** The characters of a quoted id followed by `, `. */
  lemma IdChars(s: string, i: nat, x: string, t: string)
    requires NoIdStop(x) && t == "'" + x + "', " && HasAt(s, i, t)
    ensures s[i] == '\'' && s[i + 1..i + 1 + |x|] == x
    ensures s[i + |x| + 1] == '\'' && s[i + |x| + 2] == ',' && s[i + |x| + 3] == ' '
    ensures forall j | i + 1 <= j < i + 1 + |x| :: !IsIdStop(s[j])
  {
    var n := |x|;
    assert forall j | 0 <= j < n + 4 :: s[i + j] == t[j];
    assert forall j | 0 <= j < n :: t[j + 1] == x[j];
    assert t[0] == '\'' && t[n + 1] == '\'' && t[n + 2] == ',' && t[n + 3] == ' ';
    assert s[i + 1..i + 1 + n] == x;
  }

  /** A scan over characters that do not stop it, up to one that does. */
  lemma ScanExact(s: string, i: nat, n: nat, stop: char -> bool)
    requires i <= n < |s| && stop(s[n]) && forall j | i <= j < n :: !stop(s[j])
    ensures ScanTo(s, i, stop) == n
  {
  }

  /** A flat array is read as the array. */
  lemma ReadArray(s: string, j: nat, a: string)
    requires IsFlatArray(a) && HasAt(s, j, a)
    ensures ArrayAt(s, j) == Some(j + |a|)
  {
    var n := |a|;
    assert forall i | 0 <= i < n :: s[j + i] == a[i];
    assert forall i | 1 <= i < n - 1 :: a[i] == a[1..n - 1][i - 1];
    ScanExact(s, j + 1, j + n - 1, IsBracket);
  }

  /** The position after `define(` followed by an id part and a flat array: the header is read back. */
  lemma ReadBack(s: string, q: nat, open: nat, x: string, arr: string)
    requires q <= |s| && DefineOpenAt(s, q) == Some(open)
    requires NoIdStop(x) && IsFlatArray(arr)
    requires HasAt(s, open, IdText(x) + arr)
    ensures HeaderAt(s, q) == Some(Header(open, IdOf(x), Some(arr), open + |IdText(x)| + |arr|))
  {
    ReadFrom(s, open, x, arr);
  }

  /** The same, after `define(`. */
  lemma ReadFrom(s: string, open: nat, x: string, arr: string)
    requires open <= |s| && NoIdStop(x) && IsFlatArray(arr)
    requires HasAt(s, open, IdText(x) + arr)
    ensures HeaderFrom(s, open) == Header(open, IdOf(x), Some(arr), open + |IdText(x)| + |arr|)
  {
    var t := IdText(x);
    var j := open + |t|;
    ReadParts(s, open, x, t, arr, j, j + |arr|);
    HeaderIs(s, open, IdOf(x), j, j + |arr|, arr);
  }

  /** The parts of a header after `define(`: spaces, the id part, the array. */
  lemma ReadParts(s: string, open: nat, x: string, t: string, arr: string, j: nat, e: nat)
    requires open <= |s| && NoIdStop(x) && IsFlatArray(arr) && t == IdText(x) && HasAt(s, open, t + arr)
    requires j == open + |t| && e == j + |arr|
    ensures IdAt(s, SkipSpaces(s, open)) == (IdOf(x), j)
    ensures j <= e <= |s| && ArrayAt(s, j) == Some(e) && s[j..e] == arr
  {
    SplitHas(s, open, t, arr);
    assert s[j] == arr[0];
    ReadIdPart(s, open, x, t);
    ReadArray(s, j, arr);
  }

  /** The id part is read back: the quoted id, or nothing in front of the array. */
  lemma ReadIdPart(s: string, open: nat, x: string, t: string)
    requires NoIdStop(x) && t == IdText(x) && HasAt(s, open, t)
    requires open + |t| < |s| && s[open + |t|] == '['
    ensures IdAt(s, SkipSpaces(s, open)) == (IdOf(x), open + |t|)
  {
    if x == [] {
      assert SkipSpaces(s, open) == open;
    } else {
      assert s[open] == t[0];
      assert SkipSpaces(s, open) == open;
      ReadId(s, open, x, t);
    }
  }

  /** The header read from its parts. */
  lemma HeaderIs(s: string, open: nat, id: Option<string>, j: nat, e: nat, arr: string)
    requires open <= |s| && IdAt(s, SkipSpaces(s, open)) == (id, j)
    requires j <= e <= |s| && ArrayAt(s, j) == Some(e) && s[j..e] == arr
    ensures HeaderFrom(s, open) == Header(open, id, Some(arr), e)
  {
  }

  /** Two texts one after the other: each occurs at its place. */
  lemma SplitHas(s: string, i: nat, a: string, b: string)
    requires HasAt(s, i, a + b)
    ensures HasAt(s, i, a) && HasAt(s, i + |a|, b)
  {
    assert s[i..i + |a|] == (a + b)[..|a|];
    assert s[i + |a|..i + |a| + |b|] == (a + b)[|a|..];
  }

  // ---------------------------------------------------------------------
  // The new array

  lemma {:induction false} JoinConcat(a: seq<string>, b: seq<string>, sep: string)
    requires a != [] && b != []
    ensures Join(a + b, sep) == Join(a, sep) + sep + Join(b, sep)
    decreases |a|
  {
    if |a| == 1 {
      assert (a + b)[1..] == b;
    } else {
      assert (a + b)[1..] == a[1..] + b;
      JoinConcat(a[1..], b, sep);
    }
  }

  lemma {:induction false} JoinNoBracket(parts: seq<string>, sep: string)
    requires NoBracket(sep) && forall i | 0 <= i < |parts| :: NoBracket(parts[i])
    ensures NoBracket(Join(parts, sep))
    decreases |parts|
  {
    if |parts| > 1 {
      JoinNoBracket(parts[1..], sep);
      var rest := Join(parts[1..], sep);
      assert forall i | 0 <= i < |parts[0] + sep + rest| ::
        (parts[0] + sep + rest)[i] == if i < |parts[0]| then parts[0][i]
                                      else if i < |parts[0]| + |sep| then sep[i - |parts[0]|]
                                      else rest[i - |parts[0]| - |sep|];
    }
  }

  /** The entries of a quoted dependency list have no bracket when the dependencies have none. */
  lemma DepsTextNoBracket(ds: seq<string>)
    requires forall i | 0 <= i < |ds| :: NoBracket(ds[i])
    ensures NoBracket(DepsText(ds))
  {
    var qs := QuoteAll(ds);
    forall i | 0 <= i < |qs| ensures NoBracket(qs[i]) {
      assert forall j | 0 <= j < |qs[i]| :: qs[i][j] == if j == 0 || j == |qs[i]| - 1 then '\'' else ds[i][j - 1];
    }
    JoinNoBracket(qs, ", ");
  }

  lemma BracketedFlat(pre: string, mid: string)
    requires NoBracket(pre) && NoBracket(mid)
    ensures IsFlatArray("[" + pre + mid + "]")
  {
    var a := "[" + pre + mid + "]";
    assert a[1..|a| - 1] == pre + mid;
    assert forall i | 0 <= i < |pre + mid| :: (pre + mid)[i] == if i < |pre| then pre[i] else mid[i - |pre|];
  }

  lemma NoBracketConcat(x: string, y: string)
    requires NoBracket(x) && NoBracket(y)
    ensures NoBracket(x + y)
  {
    assert forall i | 0 <= i < |x + y| :: (x + y)[i] == if i < |x| then x[i] else y[i - |x|];
  }

  /** An array literal of entries without brackets is flat. */
  lemma ArrayTextFlat(items: seq<string>)
    requires forall i | 0 <= i < |items| :: NoBracket(items[i])
    ensures IsFlatArray(ArrayText(items))
  {
    JoinNoBracket(items, ", ");
    BracketedFlat(Join(items, ", "), []);
    assert "[" + Join(items, ", ") + [] + "]" == ArrayText(items);
  }

  /** A non-empty flat array with entries added at its end is flat. */
  lemma AppendedFlat(a: string, t: string)
    requires IsFlatArray(a) && NoBracket(t)
    ensures IsFlatArray(a[..|a| - 1] + ", " + t + "]")
  {
    var inner := a[1..|a| - 1];
    assert a[..|a| - 1] == "[" + inner;
    NoBracketConcat(", ", t);
    BracketedFlat(inner, ", " + t);
    assert a[..|a| - 1] + ", " + t + "]" == "[" + inner + (", " + t) + "]";
  }

  /** The quoted defaults and dependencies have no bracket. */
  lemma DefaultEntries(ds: seq<string>)
    requires forall i | 0 <= i < |ds| :: NoBracket(ds[i])
    ensures forall i | 0 <= i < |Defaults + QuoteAll(ds)| :: NoBracket((Defaults + QuoteAll(ds))[i])
  {
    var qs := QuoteAll(ds);
    forall i | 0 <= i < |qs| ensures NoBracket(qs[i]) {
      assert forall j | 0 <= j < |qs[i]| :: qs[i][j] == if j == 0 || j == |qs[i]| - 1 then '\'' else ds[i][j - 1];
    }
    assert forall i | 0 <= i < |Defaults| :: NoBracket(Defaults[i]);
    assert forall i | 0 <= i < |Defaults + qs| :: (Defaults + qs)[i] == if i < 3 then Defaults[i] else qs[i - 3];
  }

  /** The new array is a flat array when the matched one is and the dependencies have no bracket. */
  lemma NewArrayFlat(arr: Option<string>, ds: seq<string>)
    requires arr.Some? ==> IsFlatArray(arr.value)
    requires forall i | 0 <= i < |ds| :: NoBracket(ds[i])
    ensures IsFlatArray(NewArray(arr, ds))
  {
    match arr
    case Some(a) =>
      if ds != [] {
        DepsTextNoBracket(ds);
        MergedFlat(a, ds);
      }
    case None =>
      DefaultEntries(ds);
      ArrayTextFlat(Defaults + QuoteAll(ds));
  }

  lemma MergedFlat(a: string, ds: seq<string>)
    requires IsFlatArray(a) && ds != [] && NoBracket(DepsText(ds))
    ensures IsFlatArray(MergedArray(a, ds))
  {
    if Blank(a[1..|a| - 1]) {
      BracketedFlat([], DepsText(ds));
      assert "[" + [] + DepsText(ds) + "]" == "[" + DepsText(ds) + "]";
    } else {
      AppendedFlat(a, DepsText(ds));
    }
  }

  /**
   * Body dependencies are added at the end of an array: merged with an
   * array of entries, the result lists those entries and then the quoted
   * dependencies, also when the array is empty.
   */
  lemma MergedArrayEntries(items: seq<string>, ds: seq<string>)
    requires items == [] || (items[0] != [] && !IsSpace(items[0][0]))
    ensures MergedArray(ArrayText(items), ds) == ArrayText(items + QuoteAll(ds))
  {
    if ds == [] {
      assert items + QuoteAll(ds) == items;
    } else if items == [] {
      MergedIntoEmpty(ds);
    } else {
      MergedIntoEntries(items, ds);
    }
  }

  lemma MergedIntoEmpty(ds: seq<string>)
    requires ds != []
    ensures MergedArray(ArrayText([]), ds) == ArrayText([] + QuoteAll(ds))
  {
    var a := ArrayText([]);
    assert a == "[]";
    assert Blank(a[1..|a| - 1]);
    assert [] + QuoteAll(ds) == QuoteAll(ds);
  }

  lemma MergedIntoEntries(items: seq<string>, ds: seq<string>)
    requires ds != [] && items != [] && items[0] != [] && !IsSpace(items[0][0])
    ensures MergedArray(ArrayText(items), ds) == ArrayText(items + QuoteAll(ds))
  {
    var j := Join(items, ", ");
    var a := ArrayText(items);
    assert a[1..|a| - 1] == j;
    assert j[0] == items[0][0];
    assert a[..|a| - 1] == "[" + j;
    JoinConcat(items, QuoteAll(ds), ", ");
    Appended(a[..|a| - 1], j, DepsText(ds), Join(items + QuoteAll(ds), ", "));
  }

  lemma Appended(p: string, j: string, t: string, q: string)
    requires p == "[" + j && q == j + ", " + t
    ensures p + ", " + t + "]" == "[" + q + "]"
  {
  }

  /** As written, an empty array becomes `[, 'a']`: a hole in front of the dependency. */
  lemma EmptyArrayHole()
    ensures MergedArrayAsWritten("[]", ["a"]) == "[, 'a']"
    ensures MergedArray("[]", ["a"]) == "['a']"
  {
    var q := QuoteAll(["a"]);
    assert |q| == 1 && q[0] == "'a'";
    assert q == ["'a'"];
    assert DepsText(["a"]) == "'a'";
    assert Blank("[]"[1..1]);
  }

  /**
   * Without an array the header gets the three defaults, followed by the
   * body dependencies when there are any, in the text the source builds.
   */
  lemma DefaultArray(ds: seq<string>)
    ensures ds == [] ==> NewArray(None, ds) == "['require', 'exports', 'module'" + "]"
    ensures ds != [] ==> NewArray(None, ds) == "['require', 'exports', 'module'" + ", " + DepsText(ds) + "]"
  {
    DefaultsJoined();
    if ds == [] {
      assert Defaults + QuoteAll(ds) == Defaults;
    } else {
      JoinConcat(Defaults, QuoteAll(ds), ", ");
    }
  }

  lemma DefaultsJoined()
    ensures "[" + Join(Defaults, ", ") == "['require', 'exports', 'module'"
  {
    JoinTwo("'exports'", "'module'");
    assert Defaults[1..] == ["'exports'", "'module'"];
    assert Join(Defaults, ", ") == "'require'" + ", " + ("'exports'" + ", " + "'module'");
  }

  lemma JoinTwo(a: string, b: string)
    ensures Join([a, b], ", ") == a + ", " + b
  {
    assert [a, b][1..] == [b];
  }

  /** `bodyDeps.join("', '")` in quotes is the list of quoted dependencies. */
  lemma {:induction false} DepsTextQuoted(ds: seq<string>)
    requires ds != []
    ensures DepsText(ds) == "'" + Join(ds, "', '") + "'"
    decreases |ds|
  {
    if |ds| > 1 {
      DepsTextQuoted(ds[1..]);
      assert QuoteAll(ds)[1..] == QuoteAll(ds[1..]);
      assert Join(ds, "', '") == ds[0] + "', '" + Join(ds[1..], "', '");
    } else {
      assert QuoteAll(ds) == ["'" + ds[0] + "'"];
    }
  }

  // ---------------------------------------------------------------------
  // What the rewrite produces

  /**
   * The rewritten module keeps everything before the first header's
   * `define(`; that header is still the first, and the pattern reads from
   * it the computed id (slash-normalised, absent when empty) and the merged
   * array; after the array comes the rest of the module as it was.
   */
  lemma RewriteReadBack(body: string, ds: seq<string>, depId: string, baseId: string, join: string -> string,
                        h: Header, r: string, x: string, a: string)
    requires FirstHeader(body, 0) < |body| && DefineOpenAt(body, FirstHeader(body, 0)) == Some(h.open)
    requires h.open <= h.end <= |body| && (h.arr.Some? ==> IsFlatArray(h.arr.value))
    requires NoIdStop(ModuleId(h.id, depId, baseId, join))
    requires forall i | 0 <= i < |ds| :: NoBracket(ds[i])
    requires r == Rewrite(body, h, ds, depId, baseId, join)
    requires x == Paths.UnixPath(ModuleId(h.id, depId, baseId, join)) && a == NewArray(h.arr, ds)
    ensures FirstHeader(r, 0) == FirstHeader(body, 0) && Agree(r, body, h.open)
    ensures HeaderAt(r, FirstHeader(body, 0)) == Some(Header(h.open, IdOf(x), Some(a), h.open + |IdText(x)| + |a|))
    ensures r[h.open + |IdText(x)| + |a|..] == (if h.arr.None? then ", " else "") + body[h.end..]
  {
    RewriteEquation(body, h, ds, depId, baseId, join, r, x, a);
    RewrittenAt(body, FirstHeader(body, 0), h, r, x, a);
  }

  /**
   * The same for `fixDefineParams` on a module with a `define(` header: the
   * rewrite of the first header, read back.
   */
  lemma FixReadBack(body: string, ds: seq<string>, depId: string, baseId: string, join: string -> string,
                    h: Header, r: string, x: string, a: string)
    requires FirstHeader(body, 0) < |body| && HeaderAt(body, FirstHeader(body, 0)) == Some(h)
    requires NoIdStop(ModuleId(h.id, depId, baseId, join))
    requires forall i | 0 <= i < |ds| :: NoBracket(ds[i])
    requires r == Fix(body, ds, depId, baseId, join)
    requires x == Paths.UnixPath(ModuleId(h.id, depId, baseId, join)) && a == NewArray(h.arr, ds)
    ensures FirstHeader(r, 0) == FirstHeader(body, 0) && Agree(r, body, h.open)
    ensures HeaderAt(r, FirstHeader(body, 0)) == Some(Header(h.open, IdOf(x), Some(a), h.open + |IdText(x)| + |a|))
    ensures r[h.open + |IdText(x)| + |a|..] == (if h.arr.None? then ", " else "") + body[h.end..]
  {
    FixRewrites(body, ds, depId, baseId, join);
    RewriteReadBack(body, ds, depId, baseId, join, h, r, x, a);
  }

  lemma RewrittenAt(body: string, k: nat, h: Header, r: string, x: string, a: string)
    requires FirstHeader(body, 0) == k < |body| && DefineOpenAt(body, k) == Some(h.open)
    requires NoIdStop(x) && IsFlatArray(a) && h.open <= h.end <= |body|
    requires r == body[..h.open] + (IdText(x) + a) + ((if h.arr.None? then ", " else "") + body[h.end..])
    ensures FirstHeader(r, 0) == k && Agree(r, body, h.open)
    ensures HeaderAt(r, k) == Some(Header(h.open, IdOf(x), Some(a), h.open + |IdText(x)| + |a|))
    ensures r[h.open + |IdText(x)| + |a|..] == (if h.arr.None? then ", " else "") + body[h.end..]
  {
    RewriteShape(r, body, k, h.open, x, a, (if h.arr.None? then ", " else "") + body[h.end..]);
  }

  lemma FixRewrites(body: string, ds: seq<string>, depId: string, baseId: string, join: string -> string)
    requires FirstHeader(body, 0) < |body|
    ensures Fix(body, ds, depId, baseId, join) == Rewrite(body, HeaderAt(body, FirstHeader(body, 0)).value, ds, depId, baseId, join)
  {
  }

  /** The rewritten text as prefix, id and array, and the rest. */
  lemma RewriteEquation(body: string, h: Header, ds: seq<string>, depId: string, baseId: string, join: string -> string,
                        r: string, x: string, a: string)
    requires h.open <= h.end <= |body| && (h.arr.Some? ==> IsFlatArray(h.arr.value))
    requires NoIdStop(ModuleId(h.id, depId, baseId, join))
    requires forall i | 0 <= i < |ds| :: NoBracket(ds[i])
    requires r == Rewrite(body, h, ds, depId, baseId, join)
    requires x == Paths.UnixPath(ModuleId(h.id, depId, baseId, join)) && a == NewArray(h.arr, ds)
    ensures r == body[..h.open] + (IdText(x) + a) + ((if h.arr.None? then ", " else "") + body[h.end..])
    ensures NoIdStop(x) && IsFlatArray(a)
  {
    UnixId(ModuleId(h.id, depId, baseId, join));
    NewArrayFlat(h.arr, ds);
    var sep := if h.arr.None? then ", " else "";
    assert DepsPart(h.arr, ds) == a + sep;
    assert r == body[..h.open] + IdText(x) + (a + sep) + body[h.end..];
    Regroup(body[..h.open], IdText(x), a, sep, body[h.end..]);
  }

  lemma RewriteShape(r: string, body: string, k: nat, open: nat, x: string, a: string, tail: string)
    requires FirstHeader(body, 0) == k < |body| && DefineOpenAt(body, k) == Some(open)
    requires NoIdStop(x) && IsFlatArray(a)
    requires r == body[..open] + (IdText(x) + a) + tail
    ensures FirstHeader(r, 0) == k && Agree(r, body, open)
    ensures HeaderAt(r, k) == Some(Header(open, IdOf(x), Some(a), open + |IdText(x)| + |a|))
    ensures r[open + |IdText(x)| + |a|..] == tail
  {
    RewriteParts(r, body[..open], IdText(x) + a, tail);
    assert Agree(r, body, open);
    FirstKept(r, body, k, open);
    ReadBack(r, k, open, x, a);
  }

  lemma Regroup(p: string, i: string, a: string, sep: string, t: string)
    ensures p + i + (a + sep) + t == p + (i + a) + (sep + t)
  {
  }

  /** A text made of three parts: each part at its place. */
  lemma RewriteParts(r: string, p: string, m: string, t: string)
    requires r == p + m + t
    ensures r[..|p|] == p && HasAt(r, |p|, m) && r[|p| + |m|..] == t
  {
  }

  /**
   * A module that has no `define(` but assigns `module.exports` is wrapped:
   * the result starts with a header the pattern reads back with the
   * computed id and the default array plus the body dependencies, and the
   * module follows inside the factory function.
   */
  lemma WrapReadBack(body: string, ds: seq<string>, depId: string, baseId: string, join: string -> string,
                     r: string, x: string, a: string)
    requires FirstHeader(body, 0) == |body| && FirstExports(body, 0) < |body|
    requires NoIdStop(ModuleId(None, depId, baseId, join))
    requires forall i | 0 <= i < |ds| :: NoBracket(ds[i])
    requires r == Fix(body, ds, depId, baseId, join)
    requires x == Paths.UnixPath(ModuleId(None, depId, baseId, join)) && a == NewArray(None, ds)
    ensures FirstHeader(r, 0) == 0
    ensures HeaderAt(r, 0) == Some(Header(7, IdOf(x), Some(a), 7 + |IdText(x)| + |a|))
    ensures r[7 + |IdText(x)| + |a|..] == ", " + Factory + body + Close
  {
    UnixId(ModuleId(None, depId, baseId, join));
    NewArrayFlat(None, ds);
    FixWraps(body, ds, depId, baseId, join, r);
    WrapEquation(body, ds, depId, baseId, join, r, x, a);
    WrappedAt(r, x, a, ", " + Factory + body + Close);
  }

  lemma WrapEquation(body: string, ds: seq<string>, depId: string, baseId: string, join: string -> string,
                     r: string, x: string, a: string)
    requires r == Wrap(body, ds, depId, baseId, join)
    requires x == Paths.UnixPath(ModuleId(None, depId, baseId, join)) && a == NewArray(None, ds)
    ensures r == "define(" + (IdText(x) + a) + (", " + Factory + body + Close)
  {
    assert IdPart(ModuleId(None, depId, baseId, join)) == IdText(x);
    assert DepsPart(None, ds) == a + ", ";
    WrapParts(r, IdText(x), a, body);
  }

  lemma FixWraps(body: string, ds: seq<string>, depId: string, baseId: string, join: string -> string, r: string)
    requires FirstHeader(body, 0) == |body| && FirstExports(body, 0) < |body|
    requires r == Fix(body, ds, depId, baseId, join)
    ensures r == Wrap(body, ds, depId, baseId, join)
  {
  }

  lemma WrapParts(r: string, i: string, a: string, body: string)
    requires r == "define(" + i + (a + ", ") + Factory + body + Close
    ensures r == "define(" + (i + a) + (", " + Factory + body + Close)
  {
  }

  lemma WrappedAt(r: string, x: string, a: string, tail: string)
    requires NoIdStop(x) && IsFlatArray(a)
    requires r == "define(" + (IdText(x) + a) + tail
    ensures FirstHeader(r, 0) == 0
    ensures HeaderAt(r, 0) == Some(Header(7, IdOf(x), Some(a), 7 + |IdText(x)| + |a|))
    ensures r[7 + |IdText(x)| + |a|..] == tail
  {
    RewriteParts(r, "define(", IdText(x) + a, tail);
    assert r[..7] == "define(";
    assert SkipSpaces(r, 6) == 6;
    assert DefineOpenAt(r, 0) == Some(7);
    ReadBack(r, 0, 7, x, a);
  }
}
