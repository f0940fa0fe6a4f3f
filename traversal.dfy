/**
 * `traversalGetRelativeDeps` of `tasks/yomb.js`: the depth-first walk that
 * gathers every module a build input reaches through relative
 * dependencies. A shared `processed` record makes each id appear once; the
 * ids a file's own list pushes come after everything their sub-walks found.
 *
 * Module files are a map from dependency id to text; how an id and a
 * dependency name combine into the next id (`path.join`, `path.relative`)
 * is the parameter `resolve`.
 */
module Traversal {
  import opened Strings
  import opened Lists
  import Deps
  import Scan

  /**
   * The readable files by id, each with the list `getRelativeDeps` returns
   * for its text, and the id arithmetic.
   */
  datatype Graph = Graph(lists: map<string, seq<string>>, resolve: (string, string) -> string)

  /** The graph of a set of module texts, with the merged exclude records. */
  function MakeGraph(files: map<string, string>, resolve: (string, string) -> string, exclude: set<string>): (g: Graph)
    ensures g.lists.Keys == files.Keys
    ensures forall id | id in files :: g.lists[id] == Deps.RelativeDeps(files[id], exclude)
  {
    Graph(map id | id in files :: Deps.RelativeDeps(files[id], exclude), resolve)
  }

  /** An id that does not start with `.` gets a `./` in front. */
  function Dotted(x: string): (r: string)
    ensures |r| > 0 && r[0] == '.'
    ensures |x| > 0 && x[0] == '.' ==> r == x
    ensures !(|x| > 0 && x[0] == '.') ==> r == "./" + x
  {
    if |x| > 0 && x[0] == '.' then x else "./" + x
  }

  /** The relative dependencies of a file. */
  function DepsOf(g: Graph, id: string): seq<string>
    requires id in g.lists
  {
    g.lists[id]
  }

  /** The id under which a dependency of `from` is recorded. */
  function DepId(g: Graph, from: string, dep: string): string {
    Dotted(g.resolve(from, dep))
  }

  /**
   * A finished walk over the list entries of one file from some index on:
   * the ids its sub-walks put in front, the ids it pushes behind, the
   * processed record afterwards, and for each new id the file whose list
   * first named it. Or the id whose file could not be read.
   */
  datatype Trav =
    | Trav(front: seq<string>, back: seq<string>, processed: set<string>, parent: map<string, string>)
    | Missing(id: string)

  function Res(t: Trav): seq<string>
    requires t.Trav?
  {
    t.front + t.back
  }

  lemma FewerLeft(keys: set<string>, p: set<string>, q: set<string>, d: string)
    requires d in keys && d !in p && p + {d} <= q
    ensures |keys - q| < |keys - p|
  {
    assert keys - q <= (keys - p) - {d};
    SubsetSize(keys - q, (keys - p) - {d});
  }

  lemma {:induction false} SubsetSize(a: set<string>, b: set<string>)
    requires a <= b
    ensures |a| <= |b|
    decreases |a|
  {
    if a != {} {
      var x :| x in a;
      SubsetSize(a - {x}, b - {x});
    }
  }

  /**
   * The loop over the entries of `id`'s list from index `i` on, with
   * `processed` equal to `P`: a known id is skipped; a new one is pushed,
   * marked, its file read (a missing file ends the build) and its own walk
   * put in front of everything gathered so far.
   */
  function Loop(g: Graph, id: string, i: nat, P: set<string>): (r: Trav)
    requires id in g.lists && i <= |DepsOf(g, id)|
    ensures r.Trav? ==> P <= r.processed
    ensures r.Missing? ==> r.id !in g.lists
    decreases |g.lists.Keys - P|, |DepsOf(g, id)| - i
  {
    var deps := DepsOf(g, id);
    if i == |deps| then Trav([], [], P, map[])
    else
      var d := DepId(g, id, deps[i]);
      if d in P then Loop(g, id, i + 1, P)
      else if d !in g.lists then Missing(d)
      else
        var P1 := P + {d};
        FewerLeft(g.lists.Keys, P, P1, d);
        var sub := Loop(g, d, 0, P1);
        if sub.Missing? then sub
        else
          FewerLeft(g.lists.Keys, P, sub.processed, d);
          var rest := Loop(g, id, i + 1, sub.processed);
          if rest.Missing? then rest
          else Trav(rest.front + Res(sub), [d] + rest.back, rest.processed, (sub.parent + rest.parent)[d := id])
  }

  /** The graph of the walk from the build input, whose own text is `def`. */
  function Entry(files: map<string, string>, resolve: (string, string) -> string, exclude: set<string>,
                 inputId: string, def: string): Graph {
    MakeGraph(files[Dotted(inputId) := def], resolve, exclude)
  }

  /**
   * The walk from the build input. It records the input first, and it can
   * only fail on an id that has no file.
   */
  function Traverse(files: map<string, string>, resolve: (string, string) -> string, exclude: set<string>,
                    inputId: string, def: string): (r: Trav)
    ensures r.Trav? ==> Dotted(inputId) in r.processed
    ensures r.Missing? ==> r.id !in files && r.id != Dotted(inputId)
  {
    Loop(Entry(files, resolve, exclude, inputId, def), Dotted(inputId), 0, {Dotted(inputId)})
  }

  /** What the walk returns: the ids, or the id whose file is missing. */
  datatype Out = NoFile(id: string) | Found(ids: seq<string>)

  function Outcome(t: Trav): Out {
    match t
    case Missing(m) => NoFile(m)
    case Trav(_, _, _, _) => Found(Res(t))
  }

  /** The walk itself, with `processed` shared by all its recursive calls. */
  class Traverser {
    const files: map<string, string>
    const exclude: set<string>
    const g: Graph
    var processed: set<string>

    constructor (files0: map<string, string>, resolve: (string, string) -> string, exclude0: set<string>,
                 processed0: set<string>)
      ensures files == files0 && exclude == exclude0 && g == MakeGraph(files0, resolve, exclude0)
      ensures Built() && processed == processed0
    {
      files := files0;
      exclude := exclude0;
      g := MakeGraph(files0, resolve, exclude0);
      processed := processed0;
    }

    /** The record of what `MakeGraph` computed from the files. */
    ghost predicate Built()
    {
      files.Keys == g.lists.Keys && forall x | x in files :: g.lists[x] == Deps.RelativeDeps(files[x], exclude)
    }

    /** `traversalGetRelativeDeps` for the file `id` with the current record. */
    method Visit(id: string) returns (r: Out)
      requires id in files && Built()
      modifies this
      ensures r == Outcome(Loop(g, id, 0, old(processed)))
      ensures old(processed) <= processed
      ensures r.Found? ==> processed == Loop(g, id, 0, old(processed)).processed
      decreases |g.lists.Keys - processed|, 1
    {
      ghost var P0 := processed;
      ghost var L0 := Loop(g, id, 0, P0);
      var deps := ListOf(id);
      var res: seq<string> := [];
      var i := 0;
      StepStart(g, id, P0);
      while i < |deps|
        invariant deps == DepsOf(g, id) && i <= |deps|
        invariant P0 <= processed
        invariant Step(g, id, i, processed, res, L0)
        decreases |deps| - i
      {
        SubsetSize(g.lists.Keys - processed, g.lists.Keys - P0);
        var stop;
        res, stop := Next(id, deps, i, res, L0);
        if stop.Some? {
          return stop.value;
        }
        i := i + 1;
      }
      StepEnd(g, id, processed, res, L0);
      r := Found(res);
    }

    /** The list `getRelativeDeps` gives for the file `id`, as the graph records it. */
    method ListOf(id: string) returns (deps: seq<string>)
      requires id in files && Built()
      ensures deps == DepsOf(g, id)
    {
      deps := Deps.GetRelativeDeps(files[id], exclude);
    }

    /**
     * One pass of the loop over `id`'s list: an entry already in the record
     * is skipped; a new one is recorded, and its own file is walked, or the
     * walk stops when it has no file.
     */
    method Next(id: string, deps: seq<string>, i: nat, res0: seq<string>, ghost L0: Trav)
      returns (res: seq<string>, stop: Option<Out>)
      requires id in files && Built() && deps == DepsOf(g, id) && i < |deps|
      requires Step(g, id, i, processed, res0, L0)
      modifies this
      ensures old(processed) <= processed
      ensures stop.Some? ==> stop.value.NoFile? && stop.value == Outcome(L0)
      ensures stop.None? ==> Step(g, id, i + 1, processed, res, L0)
      decreases |g.lists.Keys - processed|, 0
    {
      var d := DepId(g, id, deps[i]);
      if d in processed {
        LoopSkip(g, id, i, processed);
        return res0, None;
      }
      ghost var P := processed;
      processed := processed + {d};
      if d !in files {
        StepMissing(g, id, i, P, res0, L0);
        return res0 + [d], Some(NoFile(d));
      }
      FewerLeft(g.lists.Keys, P, processed, d);
      var sub := Visit(d);
      if sub.NoFile? {
        StepSubMissing(g, id, i, P, res0, L0);
        return res0 + [d], Some(sub);
      }
      StepNew(g, id, i, P, res0, L0);
      res := sub.ids + (res0 + [d]);
      stop := None;
    }
  }

  /**
   * The loop invariant of `Visit`: the walk from index `i` with the current
   * record, appended around the ids gathered so far, is the whole walk.
   */
  ghost predicate Step(g: Graph, id: string, i: nat, P: set<string>, res: seq<string>, L0: Trav)
    requires id in g.lists && i <= |DepsOf(g, id)|
  {
    match Loop(g, id, i, P)
    case Missing(m) => L0 == Missing(m)
    case Trav(f, b, q, _) => L0.Trav? && Res(L0) == f + res + b && L0.processed == q
  }

  lemma StepStart(g: Graph, id: string, P: set<string>)
    requires id in g.lists
    ensures Step(g, id, 0, P, [], Loop(g, id, 0, P))
  {
  }

  lemma StepEnd(g: Graph, id: string, P: set<string>, res: seq<string>, L0: Trav)
    requires id in g.lists && Step(g, id, |DepsOf(g, id)|, P, res, L0)
    ensures L0 == Trav(L0.front, L0.back, P, L0.parent) && Res(L0) == res
  {
  }

  /** The next entry names a file that does not exist: the walk stops there. */
  lemma StepMissing(g: Graph, id: string, i: nat, P: set<string>, res: seq<string>, L0: Trav)
    requires id in g.lists && i < |DepsOf(g, id)| && Step(g, id, i, P, res, L0)
    requires DepId(g, id, DepsOf(g, id)[i]) !in P && DepId(g, id, DepsOf(g, id)[i]) !in g.lists
    ensures NoFile(DepId(g, id, DepsOf(g, id)[i])) == Outcome(L0)
  {
  }

  /** The walk below the next entry stops at a missing file: so does the whole walk. */
  lemma StepSubMissing(g: Graph, id: string, i: nat, P: set<string>, res: seq<string>, L0: Trav)
    requires id in g.lists && i < |DepsOf(g, id)| && Step(g, id, i, P, res, L0)
    requires var d := DepId(g, id, DepsOf(g, id)[i]);
      d !in P && d in g.lists && Loop(g, d, 0, P + {d}).Missing?
    ensures Outcome(Loop(g, DepId(g, id, DepsOf(g, id)[i]), 0, P + {DepId(g, id, DepsOf(g, id)[i])})) == Outcome(L0)
  {
  }

  /** A new entry with a file: its walk goes in front and the entry behind the ids gathered so far. */
  lemma StepNew(g: Graph, id: string, i: nat, P: set<string>, res: seq<string>, L0: Trav)
    requires id in g.lists && i < |DepsOf(g, id)| && Step(g, id, i, P, res, L0)
    requires var d := DepId(g, id, DepsOf(g, id)[i]);
      d !in P && d in g.lists && Loop(g, d, 0, P + {d}).Trav?
    ensures var d := DepId(g, id, DepsOf(g, id)[i]);
      var sub := Loop(g, d, 0, P + {d});
      Step(g, id, i + 1, sub.processed, Res(sub) + (res + [d]), L0)
  {
    var d := DepId(g, id, DepsOf(g, id)[i]);
    var sub := Loop(g, d, 0, P + {d});
    var rest := Loop(g, id, i + 1, sub.processed);
    if rest.Trav? {
      Regroup(rest.front, Res(sub), res, d, rest.back);
    }
  }

  lemma Regroup(f: seq<string>, s: seq<string>, r: seq<string>, d: string, b: seq<string>)
    ensures (f + s) + r + ([d] + b) == f + (s + (r + [d])) + b
  {
  }

  /** `traversalGetRelativeDeps(inputDir, inputId, def, exclude)` from the top. */
  method TraversalGetRelativeDeps(files: map<string, string>, resolve: (string, string) -> string,
                                  exclude: set<string>, inputId: string, def: string)
    returns (r: Out)
    ensures r == Outcome(Traverse(files, resolve, exclude, inputId, def))
  {
    var e := if |inputId| > 0 && inputId[0] == '.' then inputId else "./" + inputId;
    var t := new Traverser(files[e := def], resolve, exclude, {e});
    r := t.Visit(e);
  }

  /** `y` is the id of an entry in the list of `x`. */
  ghost predicate IsDep(g: Graph, x: string, y: string) {
    x in g.lists && exists k | 0 <= k < |DepsOf(g, x)| :: DepId(g, x, DepsOf(g, x)[k]) == y
  }

  /** Every entry of `y`'s list is in `q`. */
  ghost predicate Closed(g: Graph, y: string, q: set<string>) {
    y in g.lists && forall k | 0 <= k < |DepsOf(g, y)| :: DepId(g, y, DepsOf(g, y)[k]) in q
  }

  /** `a` comes before `b` in `xs`. */
  ghost predicate Before(xs: seq<string>, a: string, b: string) {
    exists i, j | 0 <= i < j < |xs| :: xs[i] == a && xs[j] == b
  }

  /**
   * What a finished walk over `id`'s entries from `i` on, started with record
   * `P`, has done: it added exactly the ids it returns, each once, each a file
   * whose whole list is now processed, each named by a file that comes after
   * it (or by `id`), and every remaining entry of `id` is processed.
   */
  ghost predicate LoopSpec(g: Graph, id: string, i: nat, P: set<string>, t: Trav)
    requires id in g.lists && i <= |DepsOf(g, id)|
  {
    t.Trav? ==>
      P <= t.processed
      && NoDup(Res(t)) && Elems(Res(t)) == t.processed - P
      && t.parent.Keys == Elems(Res(t))
      && (forall y | y in t.parent :: IsDep(g, t.parent[y], y) && (t.parent[y] == id || Before(Res(t), y, t.parent[y])))
      && (forall y | y in Res(t) :: Closed(g, y, t.processed))
      && (forall k | i <= k < |DepsOf(g, id)| :: DepId(g, id, DepsOf(g, id)[k]) in t.processed)
  }

  lemma {:induction false} LoopGood(g: Graph, id: string, i: nat, P: set<string>)
    requires id in g.lists && i <= |DepsOf(g, id)|
    ensures LoopSpec(g, id, i, P, Loop(g, id, i, P))
    decreases |g.lists.Keys - P|, |DepsOf(g, id)| - i
  {
    var deps := DepsOf(g, id);
    if i < |deps| {
      var d := DepId(g, id, deps[i]);
      if d in P {
        LoopGood(g, id, i + 1, P);
      } else if d in g.lists {
        var P1 := P + {d};
        FewerLeft(g.lists.Keys, P, P1, d);
        LoopGood(g, d, 0, P1);
        var sub := Loop(g, d, 0, P1);
        if sub.Trav? {
          FewerLeft(g.lists.Keys, P, sub.processed, d);
          LoopGood(g, id, i + 1, sub.processed);
          var rest := Loop(g, id, i + 1, sub.processed);
          if rest.Trav? {
            NewDep(g, id, i, P, d, sub, rest);
          }
        }
      }
    }
  }

  /** The case of a new entry: its sub-walk and the rest of the list combine. */
  lemma NewDep(g: Graph, id: string, i: nat, P: set<string>, d: string, sub: Trav, rest: Trav)
    requires id in g.lists && i < |DepsOf(g, id)| && d == DepId(g, id, DepsOf(g, id)[i])
    requires d !in P && d in g.lists && sub.Trav? && rest.Trav?
    requires LoopSpec(g, d, 0, P + {d}, sub)
    requires LoopSpec(g, id, i + 1, sub.processed, rest)
    ensures LoopSpec(g, id, i, P,
      Trav(rest.front + Res(sub), [d] + rest.back, rest.processed, (sub.parent + rest.parent)[d := id]))
  {
    var t := Trav(rest.front + Res(sub), [d] + rest.back, rest.processed, (sub.parent + rest.parent)[d := id]);
    var f, s, b := rest.front, Res(sub), rest.back;
    var n := Res(t);
    assert n == (f + s) + ([d] + b);
    assert Elems(f + b) == rest.processed - sub.processed;
    assert Elems(s) == sub.processed - (P + {d});
    forall x | x in s
      ensures x !in f + b
    {
      assert x in Elems(s);
      assert (x in f + b) == (x in Elems(f + b));
    }
    assert (d in f + b) == (d in Elems(f + b));
    assert (d in s) == (d in Elems(s));
    Splice(f, s, d, b);
    assert Elems(n) == t.processed - P;
    forall y | y in t.parent
      ensures IsDep(g, t.parent[y], y) && (t.parent[y] == id || Before(n, y, t.parent[y]))
    {
      if y == d {
      } else if y in rest.parent {
        assert t.parent[y] == rest.parent[y];
        if rest.parent[y] != id {
          BeforeOuter(f, s, d, b, y, rest.parent[y]);
        }
      } else {
        assert t.parent[y] == sub.parent[y];
        if sub.parent[y] == d {
          BeforeLast(f, s, d, b, y);
        } else {
          BeforeInner(f, s, d, b, y, sub.parent[y]);
        }
      }
    }
    forall y | y in n
      ensures Closed(g, y, t.processed)
    {
      if y in s {
        ClosedMono(g, y, sub.processed, t.processed);
      } else if y == d {
        ClosedMono(g, y, sub.processed, t.processed);
      } else {
        assert y in f + b;
      }
    }
  }

  lemma ClosedMono(g: Graph, y: string, q: set<string>, q2: set<string>)
    requires Closed(g, y, q) && q <= q2
    ensures Closed(g, y, q2)
  {
  }

  /** Putting a new id and a disjoint run into a list keeps it free of repeats, and adds them. */
  lemma Splice(f: seq<string>, s: seq<string>, d: string, b: seq<string>)
    requires NoDup(f + b) && NoDup(s) && d !in s && d !in f + b
    requires forall x | x in s :: x !in f + b
    ensures NoDup((f + s) + ([d] + b))
    ensures Elems((f + s) + ([d] + b)) == Elems(f + b) + Elems(s) + {d}
  {
    var n := (f + s) + ([d] + b);
    var fb := f + b;
    forall i, j | 0 <= i < j < |n|
      ensures n[i] != n[j]
    {
      if j < |f| {
        assert n[i] == fb[i] && n[j] == fb[j];
      } else if j < |f| + |s| {
        if i < |f| {
          assert n[i] == fb[i] && n[j] == s[j - |f|];
          assert fb[i] in fb && s[j - |f|] in s;
        } else {
          assert n[i] == s[i - |f|] && n[j] == s[j - |f|];
        }
      } else if j == |f| + |s| {
        if i < |f| {
          assert n[i] == fb[i] && fb[i] in fb;
        } else {
          assert n[i] == s[i - |f|] && s[i - |f|] in s;
        }
      } else {
        assert n[j] == fb[j - |s| - 1];
        if i < |f| {
          assert n[i] == fb[i];
        } else if i < |f| + |s| {
          assert n[i] == s[i - |f|];
          assert fb[j - |s| - 1] in fb && s[i - |f|] in s;
        } else if i > |f| + |s| {
          assert n[i] == fb[i - |s| - 1];
        }
      }
    }
    assert Elems(n) == Elems(f + b) + Elems(s) + {d} by {
      forall x ensures x in n <==> x in fb || x in s || x == d {
        if x in fb {
          var k :| 0 <= k < |fb| && fb[k] == x;
          if k < |f| { assert n[k] == x; } else { assert n[k + |s| + 1] == x; }
        }
      }
    }
  }

  lemma BeforeOuter(f: seq<string>, s: seq<string>, d: string, b: seq<string>, x: string, y: string)
    requires Before(f + b, x, y)
    ensures Before((f + s) + ([d] + b), x, y)
  {
    var n, fb := (f + s) + ([d] + b), f + b;
    var i, j :| 0 <= i < j < |fb| && fb[i] == x && fb[j] == y;
    var i2 := if i < |f| then i else i + |s| + 1;
    var j2 := if j < |f| then j else j + |s| + 1;
    assert n[i2] == x && n[j2] == y;
  }

  lemma BeforeInner(f: seq<string>, s: seq<string>, d: string, b: seq<string>, x: string, y: string)
    requires Before(s, x, y)
    ensures Before((f + s) + ([d] + b), x, y)
  {
    var n := (f + s) + ([d] + b);
    var i, j :| 0 <= i < j < |s| && s[i] == x && s[j] == y;
    assert n[i + |f|] == x && n[j + |f|] == y;
  }

  lemma BeforeLast(f: seq<string>, s: seq<string>, d: string, b: seq<string>, x: string)
    requires x in s
    ensures Before((f + s) + ([d] + b), x, d)
  {
    var n := (f + s) + ([d] + b);
    var i :| 0 <= i < |s| && s[i] == x;
    assert n[i + |f|] == x && n[|f| + |s|] == d;
  }

  /** `p` leads from `x` to `y`, each id an entry in the list of the one before it. */
  ghost predicate Path(g: Graph, x: string, y: string, p: seq<string>) {
    |p| >= 2 && p[0] == x && p[|p| - 1] == y
    && forall m | 0 <= m < |p| - 1 :: IsDep(g, p[m], p[m + 1])
  }

  ghost predicate Reaches(g: Graph, x: string, y: string) {
    exists p :: Path(g, x, y, p)
  }

  /** A new entry of a file's list with the ids its own walk found. */
  datatype NewEntry = NewEntry(id: string, walk: seq<string>)

  /**
   * The entries of `id`'s list from `i` on that the walk pushes, in list
   * order, each with the result of its sub-walk, up to the first missing file.
   */
  ghost function NewEntries(g: Graph, id: string, i: nat, P: set<string>): seq<NewEntry>
    requires id in g.lists && i <= |DepsOf(g, id)|
    decreases |g.lists.Keys - P|, |DepsOf(g, id)| - i
  {
    var deps := DepsOf(g, id);
    if i == |deps| then []
    else
      var d := DepId(g, id, deps[i]);
      if d in P then NewEntries(g, id, i + 1, P)
      else if d !in g.lists then []
      else
        var P1 := P + {d};
        FewerLeft(g.lists.Keys, P, P1, d);
        var sub := Loop(g, d, 0, P1);
        if sub.Missing? then []
        else
          FewerLeft(g.lists.Keys, P, sub.processed, d);
          [NewEntry(d, Res(sub))] + NewEntries(g, id, i + 1, sub.processed)
  }

  /** The sub-walks, the last entry's first. */
  function Walks(es: seq<NewEntry>): seq<string> {
    if es == [] then [] else Walks(es[1..]) + es[0].walk
  }

  /** The entries themselves, in list order. */
  function EntryIds(es: seq<NewEntry>): seq<string> {
    if es == [] then [] else [es[0].id] + EntryIds(es[1..])
  }

  /**
   * The order of `traversalGetRelativeDeps`: for new entries d1, ..., dn of
   * the list, the result is the walk of dn, ..., the walk of d1, then
   * d1, ..., dn, since each sub-walk is put in front of everything gathered.
   */
  lemma {:induction false} LoopOrder(g: Graph, id: string, i: nat, P: set<string>)
    requires id in g.lists && i <= |DepsOf(g, id)|
    ensures var t := Loop(g, id, i, P);
      t.Trav? ==> t.front == Walks(NewEntries(g, id, i, P)) && t.back == EntryIds(NewEntries(g, id, i, P))
    decreases |g.lists.Keys - P|, |DepsOf(g, id)| - i
  {
    var deps := DepsOf(g, id);
    if i < |deps| {
      var d := DepId(g, id, deps[i]);
      if d in P {
        LoopOrder(g, id, i + 1, P);
      } else if d in g.lists {
        var P1 := P + {d};
        FewerLeft(g.lists.Keys, P, P1, d);
        var sub := Loop(g, d, 0, P1);
        if sub.Trav? {
          FewerLeft(g.lists.Keys, P, sub.processed, d);
          LoopOrder(g, id, i + 1, sub.processed);
          var es := NewEntries(g, id, i, P);
          assert es == [NewEntry(d, Res(sub))] + NewEntries(g, id, i + 1, sub.processed);
          assert es[1..] == NewEntries(g, id, i + 1, sub.processed);
        }
      }
    }
  }

  /** Later entries' walks come before earlier ones': cut the entries anywhere. */
  lemma {:induction false} WalksSplit(es: seq<NewEntry>, k: nat)
    requires k <= |es|
    ensures Walks(es) == Walks(es[k..]) + Walks(es[..k])
    decreases k
  {
    if k == 0 {
      assert es[..0] == [] && es[0..] == es;
    } else {
      WalksSplit(es[1..], k - 1);
      assert es[1..][k - 1..] == es[k..];
      assert es[..k][1..] == es[1..][..k - 1];
      assert es[..k][0] == es[0];
    }
  }

  /** The walk from the build input, as the same decomposition over the input's own list. */
  lemma TraverseOrder(files: map<string, string>, resolve: (string, string) -> string, exclude: set<string>,
                      inputId: string, def: string)
    ensures var t, es := Traverse(files, resolve, exclude, inputId, def),
                         NewEntries(Entry(files, resolve, exclude, inputId, def), Dotted(inputId), 0, {Dotted(inputId)});
      t.Trav? ==> Res(t) == Walks(es) + EntryIds(es)
  {
    var g := Entry(files, resolve, exclude, inputId, def);
    assert Dotted(inputId) in g.lists;
    LoopOrder(g, Dotted(inputId), 0, {Dotted(inputId)});
  }

  /**
   * The walk from the build input `e` (when no file is missing) returns
   * exactly the ids reachable from `e` other than `e`, each once; each comes
   * before the file whose list first named it, unless that file is `e`.
   */
  lemma TraverseSpec(files: map<string, string>, resolve: (string, string) -> string, exclude: set<string>,
                     inputId: string, def: string)
    ensures var t, g1, e := Traverse(files, resolve, exclude, inputId, def),
                            Entry(files, resolve, exclude, inputId, def), Dotted(inputId);
      t.Trav? ==>
        NoDup(Res(t))
        && (forall y :: y in Res(t) <==> y != e && Reaches(g1, e, y))
        && (forall y | y in Res(t) :: exists x :: IsDep(g1, x, y) && (x == e || Before(Res(t), y, x)))
  {
    var t, g1, e := Traverse(files, resolve, exclude, inputId, def),
                    Entry(files, resolve, exclude, inputId, def), Dotted(inputId);
    LoopGood(g1, e, 0, {e});
    if t.Trav? {
      WalkNamers(g1, e, t);
      WalkReaches(g1, e, t);
    }
  }

  /** Every id of a complete walk from `e` was named by `e` or by a file that comes after it. */
  lemma WalkNamers(g: Graph, e: string, t: Trav)
    requires e in g.lists && t.Trav? && LoopSpec(g, e, 0, {e}, t)
    ensures forall y | y in Res(t) :: exists x :: IsDep(g, x, y) && (x == e || Before(Res(t), y, x))
  {
    forall y | y in Res(t)
      ensures exists x :: IsDep(g, x, y) && (x == e || Before(Res(t), y, x))
    {
      assert (y in Res(t)) == (y in Elems(Res(t)));
      assert y in t.parent;
    }
  }

  /** The ids of a complete walk from `e` are exactly those reachable from `e`, other than `e`. */
  lemma WalkReaches(g: Graph, e: string, t: Trav)
    requires e in g.lists && t.Trav? && LoopSpec(g, e, 0, {e}, t)
    ensures forall y :: y in Res(t) <==> y != e && Reaches(g, e, y)
  {
    var r := Res(t);
    assert t.processed == Elems(r) + {e};
    forall y
      ensures y in r <==> y != e && Reaches(g, e, y)
    {
      if y in r {
        var k :| 0 <= k < |r| && r[k] == y;
        ReachesByParents(g, e, r, t.parent, k);
      }
      if y != e && Reaches(g, e, y) {
        var p :| Path(g, e, y, p);
        ClosedContains(g, e, t.processed, p, |p| - 1);
      }
    }
  }

  /** Following the recorded parents back reaches the input. */
  lemma {:induction false} ReachesByParents(g: Graph, e: string, r: seq<string>, parent: map<string, string>, k: nat)
    requires NoDup(r) && parent.Keys == Elems(r) && k < |r|
    requires forall y | y in parent :: IsDep(g, parent[y], y) && (parent[y] == e || Before(r, y, parent[y]))
    ensures Reaches(g, e, r[k])
    decreases |r| - k
  {
    var y := r[k];
    assert y in parent;
    var x := parent[y];
    if x == e {
      assert Path(g, e, y, [e, y]);
    } else {
      var i, j :| 0 <= i < j < |r| && r[i] == y && r[j] == x;
      assert i == k;
      ReachesByParents(g, e, r, parent, j);
      var p :| Path(g, e, x, p);
      var p2 := p + [y];
      assert forall m | 0 <= m < |p| :: p2[m] == p[m];
      assert Path(g, e, y, p2);
    }
  }

  /** A set that holds `e` and is closed under the lists holds everything on a path from `e`. */
  lemma {:induction false} ClosedContains(g: Graph, e: string, q: set<string>, p: seq<string>, m: nat)
    requires e in q && forall y | y in q :: Closed(g, y, q)
    requires |p| >= 1 && p[0] == e && forall n | 0 <= n < |p| - 1 :: IsDep(g, p[n], p[n + 1])
    requires m < |p|
    ensures p[m] in q
  {
    if m > 0 {
      ClosedContains(g, e, q, p, m - 1);
      assert IsDep(g, p[m - 1], p[m]);
      assert Closed(g, p[m - 1], q);
    }
  }

  /**
   * A diamond: the input `e` lists `d1` and then `d2`; `d1` lists `a`; `d2`
   * lists `b`, which lists `a` as well.
   */
  ghost predicate Diamond(g: Graph, e: string, d1: string, d2: string, a: string, b: string) {
    |{e, d1, d2, a, b}| == 5
    && e in g.lists && d1 in g.lists && d2 in g.lists && a in g.lists && b in g.lists
    && |DepsOf(g, e)| == 2 && DepId(g, e, DepsOf(g, e)[0]) == d1 && DepId(g, e, DepsOf(g, e)[1]) == d2
    && |DepsOf(g, d1)| == 1 && DepId(g, d1, DepsOf(g, d1)[0]) == a
    && |DepsOf(g, d2)| == 1 && DepId(g, d2, DepsOf(g, d2)[0]) == b
    && |DepsOf(g, b)| == 1 && DepId(g, b, DepsOf(g, b)[0]) == a
    && DepsOf(g, a) == []
  }

  /**
   * The order is not a dependency order: on a diamond the walk returns
   * `b`, `a`, `d1`, `d2`, so `b` comes before `a`, which it depends on.
   */
  lemma NotDependencyOrder(g: Graph, e: string, d1: string, d2: string, a: string, b: string)
    requires Diamond(g, e, d1, d2, a, b)
    ensures Loop(g, e, 0, {e}).Trav? && Res(Loop(g, e, 0, {e})) == [b, a, d1, d2]
    ensures IsDep(g, b, a)
  {
    DiamondDistinct(e, d1, d2, a, b);
    DiamondLeft(g, e, d1, d2, a, b);
    DiamondRest(g, e, d1, d2, a, b);
    LoopNew(g, e, 0, {e});
    assert DepId(g, b, DepsOf(g, b)[0]) == a;
  }

  /** The walk below `d1`. */
  lemma DiamondLeft(g: Graph, e: string, d1: string, d2: string, a: string, b: string)
    requires Diamond(g, e, d1, d2, a, b)
    ensures var s1 := Loop(g, d1, 0, {e} + {d1});
      s1.Trav? && Res(s1) == [a] && s1.processed == {e} + {d1} + {a}
  {
    DiamondDistinct(e, d1, d2, a, b);
    var p1 := {e} + {d1};
    LoopEnd(g, a, p1 + {a});
    LoopEnd(g, d1, p1 + {a});
    LoopNew(g, d1, 0, p1);
  }

  /** The rest of the input's list, from `d2` on. */
  lemma DiamondRest(g: Graph, e: string, d1: string, d2: string, a: string, b: string)
    requires Diamond(g, e, d1, d2, a, b)
    ensures var r := Loop(g, e, 1, {e} + {d1} + {a});
      r.Trav? && r.front == [b] && r.back == [d2]
  {
    DiamondDistinct(e, d1, d2, a, b);
    var p2 := {e} + {d1} + {a};
    DiamondRight(g, e, d1, d2, a, b);
    LoopEnd(g, e, p2 + {d2} + {b});
    LoopNew(g, e, 1, p2);
  }

  /** The walk below `d2`, which meets `a` again under `b`. */
  lemma DiamondRight(g: Graph, e: string, d1: string, d2: string, a: string, b: string)
    requires Diamond(g, e, d1, d2, a, b)
    ensures var s2 := Loop(g, d2, 0, {e} + {d1} + {a} + {d2});
      s2.Trav? && Res(s2) == [b] && s2.processed == {e} + {d1} + {a} + {d2} + {b}
  {
    DiamondDistinct(e, d1, d2, a, b);
    var p3 := {e} + {d1} + {a} + {d2};
    var p4 := p3 + {b};
    LoopEnd(g, b, p4);
    LoopSkip(g, b, 0, p4);
    LoopEnd(g, d2, p4);
    LoopNew(g, d2, 0, p3);
  }

  lemma DiamondDistinct(e: string, d1: string, d2: string, a: string, b: string)
    requires |{e, d1, d2, a, b}| == 5
    ensures e != d1 && e != d2 && e != a && e != b && d1 != d2 && d1 != a && d1 != b
         && d2 != a && d2 != b && a != b
  {
  }

  lemma LoopEnd(g: Graph, id: string, P: set<string>)
    requires id in g.lists
    ensures Loop(g, id, |DepsOf(g, id)|, P) == Trav([], [], P, map[])
  {
  }

  lemma LoopSkip(g: Graph, id: string, i: nat, P: set<string>)
    requires id in g.lists && i < |DepsOf(g, id)| && DepId(g, id, DepsOf(g, id)[i]) in P
    ensures Loop(g, id, i, P) == Loop(g, id, i + 1, P)
  {
  }

  lemma LoopNew(g: Graph, id: string, i: nat, P: set<string>)
    requires id in g.lists && i < |DepsOf(g, id)|
    requires var d := DepId(g, id, DepsOf(g, id)[i]);
      d !in P && d in g.lists && Loop(g, d, 0, P + {d}).Trav?
      && Loop(g, id, i + 1, Loop(g, d, 0, P + {d}).processed).Trav?
    ensures var d := DepId(g, id, DepsOf(g, id)[i]);
      var sub := Loop(g, d, 0, P + {d});
      var rest := Loop(g, id, i + 1, sub.processed);
      Loop(g, id, i, P) == Trav(rest.front + Res(sub), [d] + rest.back, rest.processed, (sub.parent + rest.parent)[d := id])
  {
  }

  /** Module texts that form a diamond: each file is made of `require('…')` lines. */
  lemma DiamondTexts()
    ensures Diamond(ExampleGraph(), "./main.js", "./d1", "./d2", "./a", "./b")
  {
    var g := ExampleGraph();
    ExampleLists(g);
    ExampleDepIds(g);
    ExampleIds();
    DiamondFromLists(g, "./main.js", "./d1", "./d2", "./a", "./b");
  }

  lemma ExampleLists(g: Graph)
    requires g == ExampleGraph()
    ensures "./main.js" in g.lists && "./d1" in g.lists && "./d2" in g.lists && "./a" in g.lists && "./b" in g.lists
    ensures g.lists["./main.js"] == ["./d1", "./d2"] && g.lists["./d1"] == ["./a"] && g.lists["./d2"] == ["./b"]
    ensures g.lists["./b"] == ["./a"] && g.lists["./a"] == []
  {
    ExampleMain();
    ExampleD1();
    ExampleD2();
    ExampleB();
    ExampleLeaf();
  }

  lemma ExampleD1()
    ensures "./d1" in ExampleGraph().lists && ExampleGraph().lists["./d1"] == ["./a"]
  {
    ExampleOne("./d1", "./a");
  }

  lemma ExampleD2()
    ensures "./d2" in ExampleGraph().lists && ExampleGraph().lists["./d2"] == ["./b"]
  {
    ExampleOne("./d2", "./b");
  }

  lemma ExampleB()
    ensures "./b" in ExampleGraph().lists && ExampleGraph().lists["./b"] == ["./a"]
  {
    ExampleOne("./b", "./a");
  }

  lemma ExampleDepIds(g: Graph)
    requires g == ExampleGraph()
    ensures DepId(g, "./main.js", "./d1") == "./d1" && DepId(g, "./main.js", "./d2") == "./d2"
    ensures DepId(g, "./d1", "./a") == "./a" && DepId(g, "./d2", "./b") == "./b" && DepId(g, "./b", "./a") == "./a"
  {
    ExampleDotted(g, "./main.js", "./d1");
    ExampleDotted(g, "./main.js", "./d2");
    ExampleDotted(g, "./d1", "./a");
    ExampleDotted(g, "./d2", "./b");
    ExampleDotted(g, "./b", "./a");
  }

  /** A graph whose lists and resolved ids have the diamond's shape is a diamond. */
  lemma DiamondFromLists(g: Graph, e: string, d1: string, d2: string, a: string, b: string)
    requires |{e, d1, d2, a, b}| == 5
    requires e in g.lists && d1 in g.lists && d2 in g.lists && a in g.lists && b in g.lists
    requires g.lists[e] == [d1, d2] && g.lists[d1] == [a] && g.lists[d2] == [b] && g.lists[b] == [a] && g.lists[a] == []
    requires DepId(g, e, d1) == d1 && DepId(g, e, d2) == d2 && DepId(g, d1, a) == a
    requires DepId(g, d2, b) == b && DepId(g, b, a) == a
    ensures Diamond(g, e, d1, d2, a, b)
  {
  }

  lemma ExampleIds()
    ensures |{"./main.js", "./d1", "./d2", "./a", "./b"}| == 5
  {
    assert "./main.js"[2] == 'm' && "./d1"[2] == 'd' && "./a"[2] == 'a' && "./b"[2] == 'b';
    assert |"./d1"| == 4 && |"./d2"| == 4 && "./d1"[3] != "./d2"[3];
  }

  lemma ExampleDotted(g: Graph, from: string, x: string)
    requires g == ExampleGraph() && |x| > 0 && x[0] == '.'
    ensures DepId(g, from, x) == x
  {
  }

  function ExampleGraph(): Graph {
    MakeGraph(ExampleFiles(), (from, dep) => dep, {})
  }

  lemma ExampleMain()
    ensures "./main.js" in ExampleGraph().lists && ExampleGraph().lists["./main.js"] == ["./d1", "./d2"]
  {
    var files := ExampleFiles();
    ExampleId("./d1");
    ExampleId("./d2");
    assert files["./main.js"] == Deps.RequireText("./d1") + "\n" + Deps.RequireText("./d2");
    Deps.TwoRequires("./d1", "./d2");
  }

  lemma ExampleOne(id: string, x: string)
    requires id in ExampleFiles() && ExampleFiles()[id] == Deps.RequireText(x) && x in {"./a", "./b"}
    ensures id in ExampleGraph().lists && ExampleGraph().lists[id] == [x]
  {
    var files := ExampleFiles();
    ExampleId(x);
    assert files[id] == Deps.RequireText(x);
    Deps.OneRequire(x);
  }

  lemma ExampleLeaf()
    ensures "./a" in ExampleGraph().lists && ExampleGraph().lists["./a"] == []
  {
    var files := ExampleFiles();
    assert files["./a"] == "";
    Deps.NoDefineArray("", 0);
    assert Deps.RelativeDeps("", {}) == [];
  }

  function ExampleFiles(): map<string, string> {
    map[
      "./main.js" := Deps.RequireText("./d1") + "\n" + Deps.RequireText("./d2"),
      "./d1" := Deps.RequireText("./a"),
      "./d2" := Deps.RequireText("./b"),
      "./b" := Deps.RequireText("./a"),
      "./a" := ""]
  }

  lemma ExampleId(x: string)
    requires x in {"./d1", "./d2", "./a", "./b"}
    ensures Deps.QuoteFree(x) && Scan.IsRelative(x) && 'f' !in x && x[0] == '.'
  {
  }
}
