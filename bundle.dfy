/**
 * `getBuiltAmdModContent` of `tasks/yomb.js`: the bundle of a build input.
 * The walk of `traversalGetRelativeDeps` lists the input's relative
 * dependencies; each one becomes a piece (a template compiled as an AMD
 * module, a script with its `define(` header fixed), a dependency whose
 * file is an ancestor of the build is left out, the input itself comes
 * last, and the pieces are joined by a blank line.
 */
module Bundle {
  import opened Strings
  import Define
  import Compile
  import Traversal

  const EOLEOL: string := "\n\n"

  /** `/\.tpl\.html?$/`. */
  predicate IsTemplate(id: string) {
    (|id| >= 9 && id[|id| - 9..] == ".tpl.html") || (|id| >= 8 && id[|id| - 8..] == ".tpl.htm")
  }

  /**
   * What a build reads and the foreign steps it takes: the module texts by
   * id (as the walk reads them), the walk's id arithmetic and excluded ids,
   * the file a dependency id names (`path.resolve(inputDir, depId)`, with
   * `.js` for a script), what `getIncProcessed` makes of a template, the
   * directory join of `fixDefineParams`, the uglify level and the
   * beautifier.
   */
  datatype Env = Env(
    files: map<string, string>,
    resolve: (string, string) -> string,
    exclude: set<string>,
    fileOf: string -> string,
    processed: string -> string,
    join: string -> string,
    uglifyLevel: int,
    beautify: string -> string)

  /** `opt.id`, or nothing. */
  function IdOr(id: Option<string>): string {
    if id.Some? then id.value else []
  }

  /** What one dependency contributes. */
  datatype Piece = Skipped | Text(text: string) | Unread(id: string)

  /**
   * The piece of dependency `d` in the bundle of a module whose id is
   * `rootId`: nothing when its file is an ancestor, a template compiled
   * with `d` as its id and `rootId` as its base, or the script's text with
   * its header fixed the same way.
   */
  function DepPiece(env: Env, d: string, ancestors: set<string>, rootId: Option<string>): (r: Piece)
    ensures r.Skipped? <==> env.fileOf(d) in ancestors
    ensures r.Unread? ==> r.id == d && !IsTemplate(d) && d !in env.files
  {
    if env.fileOf(d) in ancestors then Skipped
    else if IsTemplate(d) then
      Text(Compile.CompileTmpl(env.processed(d), Compile.Amd, Some(d), IdOr(rootId), env.uglifyLevel, env.join, env.beautify))
    else if d in env.files then Text(Define.FixDefineParams(env.files[d], d, IdOr(rootId), env.join))
    else Unread(d)
  }

  /** The pieces of the dependencies in order, or the first one that cannot be read. */
  datatype Gathered = Gathered(texts: seq<string>) | Failed(id: string)

  function Gather(pieceOf: string -> Piece, deps: seq<string>): Gathered
    decreases |deps|
  {
    if deps == [] then Gathered([])
    else
      match Gather(pieceOf, deps[..|deps| - 1])
      case Failed(m) => Failed(m)
      case Gathered(ts) =>
        match pieceOf(deps[|deps| - 1])
        case Skipped => Gathered(ts)
        case Text(t) => Gathered(ts + [t])
        case Unread(m) => Failed(m)
  }

  /**
   * The input's own piece: a template input is compiled again from its
   * file, with the given id and no base; a script's text gets its header
   * fixed with no base. A script whose targets need no folding and that
   * has neither `define(` nor `module.exports` is its text unchanged.
   */
  function RootPiece(env: Env, input: string, content: string, rootId: Option<string>): (r: string)
    ensures !IsTemplate(input) && Define.NeedsNoFix(content) ==> r == content
  {
    if IsTemplate(input) then Compile.CompileTmpl(env.processed(input), Compile.Amd, rootId, [], env.uglifyLevel, env.join, env.beautify)
    else Define.FixDefineParams(content, IdOr(rootId), [], env.join)
  }

  /**
   * The outcome of a bundle: its text; no callback at all, when the input
   * is already being built further up; or the id of a file the build could
   * not read.
   */
  datatype Built = Built(text: string) | NoCallback | NoFile(id: string)

  /**
   * The dependencies the queue gets through: `mergeOne` stops at the first
   * id that is empty, as it stops at the end of the list.
   */
  function Live(deps: seq<string>): (r: seq<string>)
    ensures r <= deps
    ensures forall j | 0 <= j < |r| :: r[j] != []
    ensures |r| < |deps| ==> deps[|r|] == []
  {
    if deps == [] || deps[0] == [] then [] else [deps[0]] + Live(deps[1..])
  }

  /** The bundle of the dependency list `deps` and the root piece. */
  function Bundled(pieceOf: string -> Piece, deps: seq<string>, root: string): Built {
    match Gather(pieceOf, Live(deps))
    case Failed(m) => NoFile(m)
    case Gathered(ts) => Built(Join(ts + [root], EOLEOL))
  }

  /**
   * `getBuiltAmdModContent(input, info, callback, {content, id, reverseDepMap})`,
   * where `reverseDepMap` holds the files being built further up and
   * `inputId` is the input's base name. It calls back unless the input is
   * being built further up, and a build that fails names an id without a
   * file.
   */
  function GetBuiltAmdModContent(env: Env, input: string, inputId: string, content: string,
                                 rootId: Option<string>, reverseDepMap: set<string>): (r: Built)
    ensures r.NoCallback? <==> input in reverseDepMap
    ensures r.NoFile? ==> r.id !in env.files
  {
    if input in reverseDepMap then NoCallback
    else
      match Traversal.Outcome(Traversal.Traverse(env.files, env.resolve, env.exclude, inputId, content))
      case NoFile(m) => NoFile(m)
      case Found(deps) =>
        var ancestors := reverseDepMap + {input};
        var pieceOf := d => DepPiece(env, d, ancestors, rootId);
        GatherMeaning(pieceOf, Live(deps));
        Bundled(pieceOf, deps, RootPiece(env, input, content, rootId))
  }

  /**
   * The `mergeOne` loop: the dependency queue is drained from the front,
   * the piece of each id (`DepPiece`) pushed onto `fileContent`, and the
   * input's piece pushed last.
   */
  method Assemble(pieceOf: string -> Piece, deps: seq<string>, root: string) returns (r: Built)
    ensures r == Bundled(pieceOf, deps, root)
  {
    var queue := deps;
    var fileContent: seq<string> := [];
    var i := 0;
    while |queue| > 0 && queue[0] != []
      invariant i <= |deps| && queue == deps[i..]
      invariant forall j | 0 <= j < i :: deps[j] != []
      invariant Gather(pieceOf, deps[..i]) == Gathered(fileContent)
    {
      var depId := queue[0];
      assert queue[1..] == deps[i + 1..];
      queue := queue[1..];
      GatherStep(pieceOf, deps, i);
      match pieceOf(depId) {
        case Skipped =>
        case Text(t) =>
          fileContent := fileContent + [t];
        case Unread(m) =>
          LiveFailed(pieceOf, deps, i + 1);
          return NoFile(m);
      }
      i := i + 1;
    }
    LiveIs(deps, i);
    r := Built(Join(fileContent + [root], EOLEOL));
  }

  /** One more dependency: the gathered pieces of the longer prefix. */
  lemma GatherStep(pieceOf: string -> Piece, deps: seq<string>, i: nat)
    requires i < |deps|
    ensures Gather(pieceOf, deps[..i + 1]) ==
      match Gather(pieceOf, deps[..i])
      case Failed(m) => Failed(m)
      case Gathered(ts) =>
        match pieceOf(deps[i])
        case Skipped => Gathered(ts)
        case Text(t) => Gathered(ts + [t])
        case Unread(m) => Failed(m)
  {
    assert deps[..i + 1][..i] == deps[..i];
  }

  /** The queue stops at `i` when every earlier id is non-empty and `i` ends the list or is empty. */
  lemma LiveIs(deps: seq<string>, i: nat)
    requires i <= |deps| && (forall j | 0 <= j < i :: deps[j] != [])
    requires i == |deps| || deps[i] == []
    ensures Live(deps) == deps[..i]
  {
    var r := Live(deps);
    assert r == deps[..|r|];
  }

  /** A failure on the first `n` live ids is the failure of the whole queue. */
  lemma LiveFailed(pieceOf: string -> Piece, deps: seq<string>, n: nat)
    requires n <= |deps| && (forall j | 0 <= j < n :: deps[j] != [])
    requires Gather(pieceOf, deps[..n]).Failed?
    ensures Gather(pieceOf, Live(deps)) == Gather(pieceOf, deps[..n])
  {
    var r := Live(deps);
    assert r[..n] == deps[..n];
    FailedStays(pieceOf, r, n);
  }

  /** A failure in a prefix of the list is the failure of the whole list. */
  lemma {:induction false} FailedStays(pieceOf: string -> Piece, deps: seq<string>, n: nat)
    requires n <= |deps| && Gather(pieceOf, deps[..n]).Failed?
    ensures Gather(pieceOf, deps) == Gather(pieceOf, deps[..n])
    decreases |deps| - n
  {
    if n < |deps| {
      assert deps[..n + 1][..n] == deps[..n];
      FailedStays(pieceOf, deps, n + 1);
    } else {
      assert deps[..n] == deps;
    }
  }

  /** The text one piece contributes. */
  function TextOf(p: Piece): seq<string> {
    if p.Text? then [p.text] else []
  }

  /** The texts of the pieces, read front to back. */
  function TextsOf(pieceOf: string -> Piece, deps: seq<string>): seq<string>
    decreases |deps|
  {
    if deps == [] then [] else TextOf(pieceOf(deps[0])) + TextsOf(pieceOf, deps[1..])
  }

  /** Every id of `deps` can be read. */
  predicate Readable(pieceOf: string -> Piece, deps: seq<string>) {
    forall j | 0 <= j < |deps| :: !pieceOf(deps[j]).Unread?
  }

  lemma {:induction false} TextsOfSnoc(pieceOf: string -> Piece, deps: seq<string>, d: string)
    ensures TextsOf(pieceOf, deps + [d]) == TextsOf(pieceOf, deps) + TextOf(pieceOf(d))
    decreases |deps|
  {
    if deps != [] {
      assert (deps + [d])[1..] == deps[1..] + [d];
      TextsOfSnoc(pieceOf, deps[1..], d);
    }
  }

  /**
   * What gathering means: it fails exactly when some id cannot be read, and
   * then on the first such id; otherwise it keeps the text of every piece
   * that is not skipped, in the order of the list.
   */
  lemma {:induction false} GatherMeaning(pieceOf: string -> Piece, deps: seq<string>)
    ensures Gather(pieceOf, deps).Gathered? <==> Readable(pieceOf, deps)
    ensures Gather(pieceOf, deps).Gathered? ==> Gather(pieceOf, deps).texts == TextsOf(pieceOf, deps)
    ensures Gather(pieceOf, deps).Failed? ==>
      exists j | 0 <= j < |deps| :: pieceOf(deps[j]) == Unread(Gather(pieceOf, deps).id) && Readable(pieceOf, deps[..j])
    decreases |deps|
  {
    if deps != [] {
      var init, d := deps[..|deps| - 1], deps[|deps| - 1];
      assert deps == init + [d];
      GatherMeaning(pieceOf, init);
      TextsOfSnoc(pieceOf, init, d);
      var g := Gather(pieceOf, init);
      if g.Failed? {
        var j :| 0 <= j < |init| && pieceOf(init[j]) == Unread(g.id) && Readable(pieceOf, init[..j]);
        assert deps[..j] == init[..j] && deps[j] == init[j];
        assert !pieceOf(init[j]).Unread? ==> false;
      } else if pieceOf(d).Unread? {
        assert deps[..|init|] == init;
      } else {
        forall j | 0 <= j < |deps| ensures !pieceOf(deps[j]).Unread? {
          if j < |init| { assert deps[j] == init[j]; }
        }
      }
    }
  }

  /** A dependency whose file is an ancestor leaves no trace: the bundle is as if it were not listed. */
  lemma SkippedOmitted(pieceOf: string -> Piece, a: seq<string>, d: string, b: seq<string>)
    requires pieceOf(d) == Skipped
    ensures Gather(pieceOf, a + [d] + b) == Gather(pieceOf, a + b)
  {
    var x, y := a + [d] + b, a + b;
    ReadableOmit(pieceOf, a, d, b);
    if Readable(pieceOf, x) {
      GatherMeaning(pieceOf, x);
      GatherMeaning(pieceOf, y);
      assert x == a + ([d] + b);
      TextsOfSplit(pieceOf, a, [d] + b);
      TextsOfSplit(pieceOf, a, b);
      assert ([d] + b)[1..] == b;
      assert TextsOf(pieceOf, [d] + b) == TextsOf(pieceOf, b);
    } else {
      var j := FirstUnreadIndex(pieceOf, x);
      FirstUnreadOmit(pieceOf, a, d, b, j);
    }
  }

  /** The position of the first id that cannot be read, in a list that has one. */
  function FirstUnreadIndex(pieceOf: string -> Piece, deps: seq<string>): (j: nat)
    requires !Readable(pieceOf, deps)
    ensures j < |deps| && pieceOf(deps[j]).Unread? && Readable(pieceOf, deps[..j])
    decreases |deps|
  {
    if pieceOf(deps[0]).Unread? then 0
    else
      var k := FirstUnreadIndex(pieceOf, deps[1..]);
      assert deps[1..][..k] == deps[1..k + 1];
      1 + k
  }

  lemma ReadableOmit(pieceOf: string -> Piece, a: seq<string>, d: string, b: seq<string>)
    requires pieceOf(d) == Skipped
    ensures Readable(pieceOf, a + [d] + b) <==> Readable(pieceOf, a + b)
  {
    var x, y := a + [d] + b, a + b;
    if Readable(pieceOf, y) {
      forall j | 0 <= j < |x| ensures !pieceOf(x[j]).Unread? {
        if j < |a| { assert x[j] == y[j]; } else if j > |a| { assert x[j] == y[j - 1]; }
      }
    }
    if Readable(pieceOf, x) {
      forall j | 0 <= j < |y| ensures !pieceOf(y[j]).Unread? {
        if j < |a| { assert x[j] == y[j]; } else { assert x[j + 1] == y[j]; }
      }
    }
  }

  lemma {:induction false} TextsOfSplit(pieceOf: string -> Piece, a: seq<string>, b: seq<string>)
    ensures TextsOf(pieceOf, a + b) == TextsOf(pieceOf, a) + TextsOf(pieceOf, b)
    decreases |a|
  {
    if a != [] {
      assert (a + b)[1..] == a[1..] + b;
      TextsOfSplit(pieceOf, a[1..], b);
    } else {
      assert a + b == b;
    }
  }

  /** The first unreadable id of a list is still the first one once a skipped id is taken out. */
  lemma FirstUnreadOmit(pieceOf: string -> Piece, a: seq<string>, d: string, b: seq<string>, j: nat)
    requires pieceOf(d) == Skipped
    requires j < |a + [d] + b| && pieceOf((a + [d] + b)[j]).Unread? && Readable(pieceOf, (a + [d] + b)[..j])
    ensures Gather(pieceOf, a + b).Failed?
    ensures Gather(pieceOf, a + [d] + b) == Gather(pieceOf, a + b)
  {
    var x, y := a + [d] + b, a + b;
    var k := if j < |a| then j else j - 1;
    assert x[j] == y[k];
    assert Readable(pieceOf, y[..k]) by {
      forall i | 0 <= i < k ensures !pieceOf(y[..k][i]).Unread? {
        if i < |a| { assert x[..j][i] == y[..k][i]; } else { assert x[..j][i + 1] == y[..k][i]; }
      }
    }
    FirstUnread(pieceOf, x, j);
    FirstUnread(pieceOf, y, k);
  }

  /** Gathering fails on the first id that cannot be read. */
  lemma FirstUnread(pieceOf: string -> Piece, deps: seq<string>, j: nat)
    requires j < |deps| && pieceOf(deps[j]).Unread? && Readable(pieceOf, deps[..j])
    ensures Gather(pieceOf, deps) == Failed(pieceOf(deps[j]).id)
  {
    GatherMeaning(pieceOf, deps[..j]);
    GatherStep(pieceOf, deps, j);
    FailedStays(pieceOf, deps, j + 1);
  }

  /** `a.join(sep)` with one more part after the last. */
  lemma {:induction false} JoinSnoc(parts: seq<string>, last: string, sep: string)
    ensures Join(parts + [last], sep) == if parts == [] then last else Join(parts, sep) + sep + last
    decreases |parts|
  {
    if |parts| > 1 {
      assert (parts + [last])[1..] == parts[1..] + [last];
      JoinSnoc(parts[1..], last, sep);
    }
  }

  /**
   * The bundle is the root piece after the texts of the dependencies, each
   * followed by a blank line, and it fails on the first unreadable one.
   */
  lemma BundleShape(pieceOf: string -> Piece, deps: seq<string>, root: string)
    ensures Readable(pieceOf, Live(deps)) ==>
      Bundled(pieceOf, deps, root) == Built(
        if TextsOf(pieceOf, Live(deps)) == [] then root
        else Join(TextsOf(pieceOf, Live(deps)), EOLEOL) + EOLEOL + root)
    ensures !Readable(pieceOf, Live(deps)) ==> Bundled(pieceOf, deps, root).NoFile?
  {
    GatherMeaning(pieceOf, Live(deps));
    JoinSnoc(TextsOf(pieceOf, Live(deps)), root, EOLEOL);
  }

  /** With every dependency skipped, the bundle is the root piece alone. */
  lemma {:induction false} AllSkipped(pieceOf: string -> Piece, deps: seq<string>, root: string)
    requires forall j | 0 <= j < |Live(deps)| :: pieceOf(Live(deps)[j]) == Skipped
    ensures Bundled(pieceOf, deps, root) == Built(root)
  {
    NoTexts(pieceOf, Live(deps));
    BundleShape(pieceOf, deps, root);
  }

  lemma {:induction false} NoTexts(pieceOf: string -> Piece, deps: seq<string>)
    requires forall j | 0 <= j < |deps| :: pieceOf(deps[j]) == Skipped
    ensures Readable(pieceOf, deps) && TextsOf(pieceOf, deps) == []
    decreases |deps|
  {
    if deps != [] {
      assert forall j | 0 <= j < |deps[1..]| :: deps[1..][j] == deps[j + 1];
      NoTexts(pieceOf, deps[1..]);
    }
  }

  /**
   * The outcome of `getBuiltAmdModContent`: no callback for an input that
   * is already being built; the failing id of the walk; otherwise the
   * bundle of the walk's list, whose pieces skip every file already being
   * built and the input itself.
   */
  lemma BuiltOutcome(env: Env, input: string, inputId: string, content: string,
                     rootId: Option<string>, reverseDepMap: set<string>)
    ensures GetBuiltAmdModContent(env, input, inputId, content, rootId, reverseDepMap).NoCallback? <==> input in reverseDepMap
    ensures input !in reverseDepMap ==>
      var out := Traversal.Outcome(Traversal.Traverse(env.files, env.resolve, env.exclude, inputId, content));
      var pieceOf := d => DepPiece(env, d, reverseDepMap + {input}, rootId);
      && (forall d | env.fileOf(d) in reverseDepMap || env.fileOf(d) == input :: pieceOf(d) == Skipped)
      && (out.NoFile? ==> GetBuiltAmdModContent(env, input, inputId, content, rootId, reverseDepMap) == NoFile(out.id))
      && (out.Found? ==> GetBuiltAmdModContent(env, input, inputId, content, rootId, reverseDepMap)
                           == Bundled(pieceOf, out.ids, RootPiece(env, input, content, rootId)))
  {
  }

  /**
   * `compileTmpl(input, 'AMD', info, callback, {buildRoot: true})`: the AMD
   * module text, made without an id, is the content the bundle walks for
   * dependencies (the input, a template, is compiled once more as the
   * root piece), and the bundle goes through the beautifier as a whole.
   */
  function CompileTmplBuilt(env: Env, input: string, inputId: string): (r: Built)
    ensures !r.NoCallback?
  {
    var res := Compile.ModuleText(env.processed(input), Compile.Amd, None, env.uglifyLevel);
    match GetBuiltAmdModContent(env, input, inputId, res, None, {})
    case Built(t) => Built(env.beautify(t))
    case NoFile(m) => NoFile(m)
    case NoCallback => NoCallback
  }
}
