/**
 * Output paths of `tasks/yomb.js`: slash normalisation, the protected-root
 * test and the write that refuses protected paths and fills in build
 * properties (with the language code under `_lang_`) on the way out. The
 * file system is a map from path to content; `path.resolve(buildDir, …)` is
 * the parameter `resolve`.
 */
module Paths {
  import opened Strings
  import opened Json
  import opened Placeholders
  import Properties

  /** `getUnixStylePath(p)`: every backslash becomes a slash. */
  function UnixPath(p: string): (r: string)
    ensures |r| == |p|
    ensures forall i | 0 <= i < |p| :: r[i] == (if p[i] == '\\' then '/' else p[i])
  {
    if p == [] then [] else [if p[0] == '\\' then '/' else p[0]] + UnixPath(p[1..])
  }

  /** Normalising twice is normalising once, and a normalised path has no backslash. */
  lemma UnixPathIdempotent(p: string)
    ensures '\\' !in UnixPath(p)
    ensures UnixPath(UnixPath(p)) == UnixPath(p)
  {
    var q := UnixPath(p);
    assert forall i | 0 <= i < |q| :: q[i] != '\\';
  }

  /** `.replace(/\/$/, '')`: one trailing slash at the very end is dropped. */
  function DropTrailingSlash(s: string): (r: string)
    ensures s != [] && s[|s| - 1] == '/' ==> r == s[..|s| - 1]
    ensures s == [] || s[|s| - 1] != '/' ==> r == s
  {
    if s != [] && s[|s| - 1] == '/' then s[..|s| - 1] else s
  }

  /** The normalised protected root that the test compares against. */
  function Root(root: string): string {
    DropTrailingSlash(UnixPath(root))
  }

  /**
   * `isPathProtected(path, protectedPath)` with the root read as literal
   * text: the path is the root itself or lies below it.
   */
  function IsPathProtected(path: string, root: string): (b: bool)
    ensures b <==> (UnixPath(path) == Root(root) || StartsWith(UnixPath(path), Root(root) + "/"))
  {
    var u, r := UnixPath(path), Root(root);
    var b := StartsWith(u, r) && (|u| == |r| || u[|r|] == '/');
    assert b ==> |u| == |r| ==> u == r;
    assert b && |u| != |r| ==> u[..|r| + 1] == r + "/";
    assert StartsWith(u, r + "/") ==> u[..|r|] == r && u[|r|] == '/';
    b
  }

  /** A path without backslashes is already normalised. */
  lemma UnixPathPlain(p: string)
    requires '\\' !in p
    ensures UnixPath(p) == p
  {
  }

  /** For a plain root, protection is a test on the path's own text. */
  lemma PlainProtected(u: string, r: string)
    requires '\\' !in u && '\\' !in r && r != [] && r[|r| - 1] != '/'
    ensures Root(r) == r
    ensures IsPathProtected(u, r) <==> (u == r || StartsWith(u, r + "/"))
  {
    UnixPathPlain(u);
    UnixPathPlain(r);
  }

  /** A sibling that shares a prefix of the name is not protected: `/a/bc` is not under `/a/b`. */
  lemma SiblingNotProtected()
    ensures !IsPathProtected("/a/bc", "/a/b")
  {
    PlainProtected("/a/bc", "/a/b");
    assert "/a/bc"[4] != "/a/b/"[4];
  }

  /** A trailing slash on the root does not matter: `/a/b/c` is under `/a/b/`. */
  lemma TrailingSlashRoot()
    ensures IsPathProtected("/a/b/c", "/a/b/")
  {
    UnixPathPlain("/a/b/");
    assert Root("/a/b/") == "/a/b";
    PlainProtected("/a/b/c", "/a/b");
    assert "/a/b/c"[..5] == "/a/b" + "/";
  }

  /** What a regular-expression `.` accepts: any character but a line terminator. */
  predicate PatternCharMatches(pc: char, c: char) {
    if pc == '.' then !IsLineTerminator(c) else c == pc
  }

  /** The root, used unescaped as a pattern, matches at the front of `u`. */
  predicate PatternPrefix(u: string, r: string) {
    |r| <= |u| && forall i | 0 <= i < |r| :: PatternCharMatches(r[i], u[i])
  }

  /**
   * `isPathProtected` as written: `new RegExp('^' + root + '(\\/|$)')` with
   * the root unescaped, so a `.` in it stands for any character.
   */
  function IsPathProtectedAsWritten(path: string, root: string): (b: bool)
    ensures '.' !in Root(root) ==> b == IsPathProtected(path, root)
  {
    var u, r := UnixPath(path), Root(root);
    PatternWithoutDot(u, r);
    PatternPrefix(u, r) && (|u| == |r| || u[|r|] == '/')
  }

  /** A pattern without `.` matches exactly its own text. */
  lemma PatternWithoutDot(u: string, r: string)
    ensures '.' !in r ==> (PatternPrefix(u, r) <==> StartsWith(u, r))
  {
    if '.' !in r && PatternPrefix(u, r) {
      assert forall i | 0 <= i < |r| :: u[..|r|][i] == r[i];
    }
  }

  /** With a dot in the root, a different directory is reported protected as written: `/a.b` and `/axb/c`. */
  lemma DotRootCounterexample()
    ensures IsPathProtectedAsWritten("/axb/c", "/a.b")
    ensures !IsPathProtected("/axb/c", "/a.b")
  {
    PlainProtected("/axb/c", "/a.b");
    DotMatches("/axb/c", "/a.b");
    assert "/axb/c"[2] != "/a.b/"[2];
  }

  lemma DotMatches(u: string, r: string)
    requires u == "/axb/c" && r == "/a.b"
    ensures PatternPrefix(u, r) && u[|r|] == '/'
  {
    assert PatternCharMatches(r[0], u[0]) && PatternCharMatches(r[1], u[1]);
    assert PatternCharMatches(r[2], u[2]) && PatternCharMatches(r[3], u[3]);
  }

  /** The `globalProtect` setting: off (falsy or neither form), one root, or a list of roots. */
  datatype Protect = NoProtect | OneRoot(root: string) | Roots(roots: seq<string>)

  /** The resolved root that refuses `toPath`: the first protecting one in a list. */
  function Blocker(toPath: string, protect: Protect, resolve: string -> string, skip: bool): (r: Option<string>)
    ensures r.Some? ==> IsPathProtected(toPath, r.value)
  {
    if skip then None
    else match protect
      case NoProtect => None
      case OneRoot(root) =>
        if root != [] && IsPathProtected(toPath, resolve(root)) then Some(resolve(root)) else None
      case Roots(roots) => FirstBlocker(toPath, roots, resolve)
  }

  /** The index of the first root at or after `i` that protects `toPath`, or the number of roots. */
  function FirstProtecting(toPath: string, roots: seq<string>, resolve: string -> string, i: nat): (k: nat)
    requires i <= |roots|
    ensures i <= k <= |roots|
    ensures forall j | i <= j < k :: !IsPathProtected(toPath, resolve(roots[j]))
    ensures k < |roots| ==> IsPathProtected(toPath, resolve(roots[k]))
    decreases |roots| - i
  {
    if i == |roots| || IsPathProtected(toPath, resolve(roots[i])) then i
    else FirstProtecting(toPath, roots, resolve, i + 1)
  }

  /** The first root of a list that protects `toPath`, resolved. */
  function FirstBlocker(toPath: string, roots: seq<string>, resolve: string -> string): (r: Option<string>)
    ensures r.Some? ==> IsPathProtected(toPath, r.value)
    ensures r.None? <==> forall i | 0 <= i < |roots| :: !IsPathProtected(toPath, resolve(roots[i]))
    ensures r.Some? ==> exists i | 0 <= i < |roots| ::
      (r.value == resolve(roots[i]) && forall j | 0 <= j < i :: !IsPathProtected(toPath, resolve(roots[j])))
  {
    var k := FirstProtecting(toPath, roots, resolve, 0);
    if k < |roots| then Some(resolve(roots[k])) else None
  }

  /** The protect check at the head of `writeFileSync`, with its loop over a list of roots. */
  method ProtectCheck(toPath: string, protect: Protect, resolve: string -> string, skip: bool) returns (blocked: Option<string>)
    ensures blocked == Blocker(toPath, protect, resolve, skip)
  {
    blocked := None;
    if skip {
      return;
    }
    match protect
    case NoProtect =>
    case OneRoot(root) =>
      if root != [] && IsPathProtected(toPath, resolve(root)) {
        blocked := Some(resolve(root));
      }
    case Roots(roots) =>
      var i := 0;
      while i < |roots|
        invariant 0 <= i <= |roots|
        invariant FirstProtecting(toPath, roots, resolve, 0) == FirstProtecting(toPath, roots, resolve, i)
        decreases |roots| - i
      {
        if IsPathProtected(toPath, resolve(roots[i])) {
          blocked := Some(resolve(roots[i]));
          return;
        }
        i := i + 1;
      }
  }

  /** `properties._lang_ = value` on a record of properties; other values ignore the write. */
  function SetLang(props: Value, v: Value): (r: Value)
    ensures props.Obj? ==> r == Obj(props.props["_lang_" := v])
    ensures !props.Obj? ==> r == props
  {
    if props.Obj? then Obj(props.props["_lang_" := v]) else props
  }

  /** `langCode || undefined`. */
  function LangValue(langCode: string): Value {
    if langCode == [] then Undefined else Str(langCode)
  }

  /** The output files and the build properties that writes fill in. */
  class Output {
    var files: map<string, string>
    var properties: Value

    constructor (properties0: Value)
      ensures files == map[] && properties == properties0
    {
      files := map[];
      properties := properties0;
    }

    /**
     * `writeFileSync(toPath, content, encoding, langCode, skipProtectChecking)`:
     * nothing is written to a protected path; otherwise the content, with
     * the properties (and `_lang_`) substituted when there are properties,
     * and `_lang_` is reset to undefined afterwards.
     */
    method WriteFileSync(toPath: string, content: string, langCode: string, skip: bool,
                         protect: Protect, resolve: string -> string, now: nat)
      returns (blocked: Option<string>)
      modifies this
      ensures blocked == Blocker(toPath, protect, resolve, skip)
      ensures blocked.Some? ==> files == old(files) && properties == old(properties)
      ensures blocked.None? && Truthy(old(properties)) ==>
        files == old(files)[toPath := Properties.ReplaceProperties(content, SetLang(old(properties), LangValue(langCode)), now)]
        && properties == SetLang(old(properties), Undefined)
      ensures blocked.None? && !Truthy(old(properties)) ==>
        files == old(files)[toPath := content] && properties == old(properties)
    {
      blocked := ProtectCheck(toPath, protect, resolve, skip);
      if blocked.Some? {
        return;
      }
      var text := content;
      if Truthy(properties) {
        properties := SetLang(properties, LangValue(langCode));
        text := Properties.ReplaceProperties(text, properties, now);
        properties := SetLang(properties, Undefined);
      }
      files := files[toPath := text];
    }
  }

  /** During a write, `%{{_lang_}}%` stands for the language code. */
  lemma LangPlaceholderFilled(m: map<string, Value>, langCode: string, now: nat)
    requires langCode != []
    ensures Properties.ReplaceProperties(Placeholder("_lang_", '%'), SetLang(Obj(m), LangValue(langCode)), now) == langCode
  {
    var props := SetLang(Obj(m), LangValue(langCode));
    LangLookup(m, langCode);
    LangName();
    Properties.ScanPlaceholder("_lang_", [], props, now);
    assert Placeholder("_lang_", '%') + [] == Placeholder("_lang_", '%');
  }

  lemma LangName()
    ensures IsName("_lang_") && !Properties.IsTimestamp("_lang_")
  {
    assert "_lang_"[..1] == "_";
  }

  lemma LangLookup(m: map<string, Value>, langCode: string)
    requires langCode != []
    ensures Lookup(Split("_lang_", '.'), SetLang(Obj(m), LangValue(langCode))) == Str(langCode)
  {
    var props := SetLang(Obj(m), LangValue(langCode));
    SplitNone("_lang_", '.');
    assert Member(props, "_lang_") == Str(langCode);
    assert ["_lang_"][1..] == [];
  }
}
