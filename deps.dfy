/**
 * Dependency extraction of `tasks/yomb.js`: `getBodyDeps`, which collects
 * every `require('…')` target of a module body and folds `{{x}}` in a
 * target into a string concatenation, and `getRelativeDeps`, which collects
 * the relative ids of the `define` array and of the relative `require`
 * calls, minus the excluded ones.
 */
module Deps {
  import opened Strings
  import opened Scan
  import opened Lists

  predicate IsBrace(c: char) { c == '{' || c == '}' }

  /**
   * `dep.replace(/\{\{([^{}]+)\}\}/g, "' + $1 + '")`: a placeholder in a
   * target becomes a string concatenation with the expression inside it.
   */
  function Fold(s: string): (r: string)
    decreases |s|
  {
    if s == [] then []
    else if HasAt(s, 0, "{{") then
      var k := ScanTo(s, 2, IsBrace);
      if k > 2 && HasAt(s, k, "}}") then "' + " + s[2..k] + " + '" + Fold(s[k + 2..])
      else [s[0]] + Fold(s[1..])
    else [s[0]] + Fold(s[1..])
  }

  /** A target without `{` is left as it is. */
  lemma {:induction false} FoldPlain(s: string)
    requires '{' !in s
    ensures Fold(s) == s
    decreases |s|
  {
    if s != [] {
      assert s[0] != '{';
      if |s| >= 2 {
        assert s[0..2][0] == s[0];
      }
      FoldPlain(s[1..]);
    }
  }

  /** `{{x}}` at the front of a target becomes `' + x + '`, and the rest is folded on. */
  lemma FoldPlaceholder(x: string, rest: string)
    requires x != [] && forall i | 0 <= i < |x| :: !IsBrace(x[i])
    ensures Fold("{{" + x + "}}" + rest) == "' + " + x + " + '" + Fold(rest)
  {
    var s := "{{" + x + "}}" + rest;
    assert HasAt(s, 0, "{{");
    assert forall i | 2 <= i < 2 + |x| :: s[i] == x[i - 2];
    assert s[2 + |x|] == '}';
    assert ScanTo(s, 2, IsBrace) == 2 + |x|;
    assert HasAt(s, 2 + |x|, "}}");
    assert s[2..2 + |x|] == x;
    assert s[2 + |x| + 2..] == rest;
  }

  /** Every element folded. */
  function FoldAll(xs: seq<string>): (r: seq<string>)
    ensures |r| == |xs|
    ensures forall i | 0 <= i < |xs| :: r[i] == Fold(xs[i])
  {
    seq(|xs|, i requires 0 <= i < |xs| => Fold(xs[i]))
  }

  /** Calls that follow one another in `s`, none starting before `last`. */
  predicate Chain(s: string, last: nat, calls: seq<Call>)
    decreases |calls|
  {
    calls == [] || (last <= calls[0].at < calls[0].end <= |s| && Chain(s, calls[0].end, calls[1..]))
  }

  lemma {:induction false} CallsChain(s: string, last: nat, q: nat, relative: bool)
    requires last <= q <= |s|
    ensures Chain(s, last, Calls(s, last, q, relative))
    decreases |s| - q
  {
    if q < |s| {
      match CallAt(s, q, relative)
      case Some(c) =>
        if LeadOk(s, q, last, true) {
          CallsChain(s, c.end, c.end, relative);
        } else {
          CallsChain(s, last, q + 1, relative);
        }
      case None =>
        CallsChain(s, last, q + 1, relative);
    }
  }

  /**
   * What the replace callback returns for a call: the call unchanged when
   * folding leaves its target alone, otherwise rebuilt with the folded
   * target and the same quote.
   */
  function CallText(s: string, c: Call): string
    requires c.at <= c.end <= |s|
  {
    var t := Fold(c.target);
    if t == c.target then s[c.at..c.end] else "require(" + [c.quote] + t + [c.quote] + ")"
  }

  /** `s` from `last` on with every call of the chain replaced by its callback text. */
  function Splice(s: string, last: nat, calls: seq<Call>): string
    requires last <= |s| && Chain(s, last, calls)
    decreases |calls|
  {
    if calls == [] then s[last..]
    else s[last..calls[0].at] + CallText(s, calls[0]) + Splice(s, calls[0].end, calls[1..])
  }

  /** A body whose targets need no folding comes out unchanged. */
  lemma {:induction false} SpliceIdentity(s: string, last: nat, calls: seq<Call>)
    requires last <= |s| && Chain(s, last, calls)
    requires forall i | 0 <= i < |calls| :: Fold(calls[i].target) == calls[i].target
    ensures Splice(s, last, calls) == s[last..]
    decreases |calls|
  {
    if calls != [] {
      SpliceIdentity(s, calls[0].end, calls[1..]);
      var c := calls[0];
      assert s[last..c.at] + s[c.at..c.end] + s[c.end..] == s[last..];
    }
  }

  /** The body deps and rewritten body that `getBodyDeps` produces. */
  function BodyCalls(def: string): seq<Call> {
    Calls(def, 0, 0, false)
  }

  /**
   * The deps are the folded distinct raw targets: the fold of every
   * call's target is among them, and every dep is the fold of a target.
   */
  function BodyDeps(def: string): (r: seq<string>)
    ensures forall i | 0 <= i < |BodyCalls(def)| :: Fold(BodyCalls(def)[i].target) in r
    ensures forall d | d in r :: exists i | 0 <= i < |BodyCalls(def)| :: d == Fold(BodyCalls(def)[i].target)
  {
    FoldedDistinct(Targets(BodyCalls(def)));
    FoldAll(Distinct(Targets(BodyCalls(def))))
  }

  function BodyText(def: string): string {
    CallsChain(def, 0, 0, false);
    Splice(def, 0, BodyCalls(def))
  }

  /**
   * `getBodyDeps(def)`: the global replace over the `require` calls of the
   * body; its callback pushes the folded target the first time a raw
   * target is seen (the `got` record) and rewrites calls whose target was
   * folded.
   */
  method GetBodyDeps(def: string) returns (newDef: string, deps: seq<string>)
    ensures newDef == BodyText(def)
    ensures deps == BodyDeps(def)
  {
    var got: set<string> := {};
    ghost var seen: seq<Call> := [];
    newDef, deps := [], [];
    var last: nat, q: nat := 0, 0;
    CallsChain(def, 0, 0, false);
    while q < |def|
      invariant BodyInv(def, last, q, newDef, got, deps, seen)
      decreases |def| - q
    {
      last, q, newDef, got, deps, seen := BodyStep(def, last, q, newDef, got, deps, seen);
    }
    assert Calls(def, last, q, false) == [];
    assert seen == BodyCalls(def);
    newDef := newDef + def[last..];
  }

  /** The state of the replace in `getBodyDeps` once the scan has reached `q`. */
  ghost predicate BodyInv(def: string, last: nat, q: nat, newDef: string, got: set<string>, deps: seq<string>, seen: seq<Call>) {
    last <= q <= |def|
    && Chain(def, last, Calls(def, last, q, false))
    && BodyCalls(def) == seen + Calls(def, last, q, false)
    && newDef + Splice(def, last, Calls(def, last, q, false)) == BodyText(def)
    && got == Elems(Targets(seen))
    && deps == FoldAll(Distinct(Targets(seen)))
  }

  /** One position of the scan: a call found there goes through the callback. */
  method BodyStep(def: string, last: nat, q: nat, newDef: string, got: set<string>, deps: seq<string>, ghost seen: seq<Call>)
    returns (last': nat, q': nat, newDef': string, got': set<string>, deps': seq<string>, ghost seen': seq<Call>)
    requires q < |def| && BodyInv(def, last, q, newDef, got, deps, seen)
    ensures BodyInv(def, last', q', newDef', got', deps', seen') && q < q'
  {
    var c := CallAt(def, q, false);
    if c.Some? && LeadOk(def, q, last, true) {
      last', q', newDef', got', deps', seen' := BodyCall(def, last, q, newDef, got, deps, seen, c.value);
    } else {
      last', q', newDef', got', deps', seen' := BodySkip(def, last, q, newDef, got, deps, seen);
    }
  }

  method BodySkip(def: string, last: nat, q: nat, newDef: string, got: set<string>, deps: seq<string>, ghost seen: seq<Call>)
    returns (last': nat, q': nat, newDef': string, got': set<string>, deps': seq<string>, ghost seen': seq<Call>)
    requires q < |def| && BodyInv(def, last, q, newDef, got, deps, seen)
    requires !(CallAt(def, q, false).Some? && LeadOk(def, q, last, true))
    ensures BodyInv(def, last', q', newDef', got', deps', seen') && q < q'
  {
      SkipInv(def, last, q, newDef, got, deps, seen);
      last', q', newDef', got', deps', seen' := last, q + 1, newDef, got, deps, seen;
  }

  /** A call found at `q` goes through the callback. */
  method BodyCall(def: string, last: nat, q: nat, newDef: string, got: set<string>, deps: seq<string>,
                  ghost seen: seq<Call>, call: Call)
    returns (last': nat, q': nat, newDef': string, got': set<string>, deps': seq<string>, ghost seen': seq<Call>)
    requires q < |def| && BodyInv(def, last, q, newDef, got, deps, seen)
    requires CallAt(def, q, false) == Some(call) && LeadOk(def, q, last, true)
    ensures BodyInv(def, last', q', newDef', got', deps', seen') && q < q'
  {
    got', deps' := got, deps;
    if call.target !in got {
      deps' := deps + [Fold(call.target)];
      got' := got + {call.target};
    }
    seen' := seen + [call];
    newDef' := newDef + def[last..q] + CallText(def, call);
    last', q' := call.end, call.end;
    FoundInv(def, last, q, newDef, got, deps, seen, call, newDef', got', deps', seen');
  }

  /** The state after the callback has handled the call found at `q`. */
  lemma FoundInv(def: string, last: nat, q: nat, newDef: string, got: set<string>, deps: seq<string>,
                 seen: seq<Call>, call: Call,
                 newDef': string, got': set<string>, deps': seq<string>, seen': seq<Call>)
    requires q < |def| && BodyInv(def, last, q, newDef, got, deps, seen)
    requires CallAt(def, q, false) == Some(call) && LeadOk(def, q, last, true)
    requires call.end <= |def| && newDef' == newDef + def[last..q] + CallText(def, call)
    requires got' == if call.target in got then got else got + {call.target}
    requires deps' == if call.target in got then deps else deps + [Fold(call.target)]
    requires seen' == seen + [call]
    ensures BodyInv(def, call.end, call.end, newDef', got', deps', seen')
  {
    FoundCalls(def, last, q, seen, call);
    FoundText(def, last, q, newDef, call);
    FoundRecord(got, deps, seen, call, got', deps', seen');
  }

  /** The `got` record and the deps after the callback. */
  lemma FoundRecord(got: set<string>, deps: seq<string>, seen: seq<Call>, call: Call,
                    got': set<string>, deps': seq<string>, seen': seq<Call>)
    requires got == Elems(Targets(seen)) && deps == FoldAll(Distinct(Targets(seen)))
    requires got' == if call.target in got then got else got + {call.target}
    requires deps' == if call.target in got then deps else deps + [Fold(call.target)]
    requires seen' == seen + [call]
    ensures got' == Elems(Targets(seen')) && deps' == FoldAll(Distinct(Targets(seen')))
  {
    SeenStep(seen, call);
  }

  /** The call found is the next one of the whole scan. */
  lemma FoundCalls(def: string, last: nat, q: nat, seen: seq<Call>, call: Call)
    requires last <= q < |def| && BodyCalls(def) == seen + Calls(def, last, q, false)
    requires CallAt(def, q, false) == Some(call) && LeadOk(def, q, last, true)
    ensures Chain(def, call.end, Calls(def, call.end, call.end, false))
    ensures BodyCalls(def) == (seen + [call]) + Calls(def, call.end, call.end, false)
  {
    MatchStep(def, last, q, call);
    AssocCalls(seen, [call], Calls(def, call.end, call.end, false));
  }

  /** The text up to the call and the callback's text for it go to the output. */
  lemma FoundText(def: string, last: nat, q: nat, newDef: string, call: Call)
    requires last <= q < |def| && Chain(def, last, Calls(def, last, q, false))
    requires newDef + Splice(def, last, Calls(def, last, q, false)) == BodyText(def)
    requires CallAt(def, q, false) == Some(call) && LeadOk(def, q, last, true)
    ensures Chain(def, call.end, Calls(def, call.end, call.end, false))
    ensures (newDef + def[last..q] + CallText(def, call)) + Splice(def, call.end, Calls(def, call.end, call.end, false))
         == BodyText(def)
  {
    MatchStep(def, last, q, call);
    Assoc(newDef, def[last..q], CallText(def, call), Splice(def, call.end, Calls(def, call.end, call.end, false)));
  }

  /** The scan finds `call` at `q`: it is the next call, and the text around it is copied. */
  lemma MatchStep(def: string, last: nat, q: nat, call: Call)
    requires last <= q < |def| && CallAt(def, q, false) == Some(call) && LeadOk(def, q, last, true)
    ensures Calls(def, last, q, false) == [call] + Calls(def, call.end, call.end, false)
    ensures Chain(def, call.end, Calls(def, call.end, call.end, false))
    ensures Splice(def, last, Calls(def, last, q, false))
         == def[last..q] + CallText(def, call) + Splice(def, call.end, Calls(def, call.end, call.end, false))
  {
    CallsChain(def, call.end, call.end, false);
    var rest := Calls(def, call.end, call.end, false);
    assert ([call] + rest)[0] == call && ([call] + rest)[1..] == rest;
  }

  lemma AssocCalls(a: seq<Call>, b: seq<Call>, c: seq<Call>)
    ensures a + (b + c) == (a + b) + c
  {
  }

  lemma Assoc(a: string, b: string, c: string, d: string)
    ensures a + b + c + d == a + (b + c + d)
  {
  }

  /** The state after a position where no call is accepted. */
  lemma SkipInv(def: string, last: nat, q: nat, newDef: string, got: set<string>, deps: seq<string>, seen: seq<Call>)
    requires q < |def| && BodyInv(def, last, q, newDef, got, deps, seen)
    requires !(CallAt(def, q, false).Some? && LeadOk(def, q, last, true))
    ensures BodyInv(def, last, q + 1, newDef, got, deps, seen)
  {
    SkipStep(def, last, q);
  }

  /** No call is accepted at `q`: the scan moves on by one character. */
  lemma SkipStep(def: string, last: nat, q: nat)
    requires last <= q < |def| && !(CallAt(def, q, false).Some? && LeadOk(def, q, last, true))
    ensures Calls(def, last, q, false) == Calls(def, last, q + 1, false)
  {
  }

  /** The callback state after one more call: its raw target is marked, and pushed folded when new. */
  lemma SeenStep(seen: seq<Call>, call: Call)
    ensures Targets(seen + [call]) == Targets(seen) + [call.target]
    ensures Elems(Targets(seen + [call])) == Elems(Targets(seen)) + {call.target}
    ensures FoldAll(Distinct(Targets(seen + [call])))
         == FoldAll(Distinct(Targets(seen))) + (if call.target in Elems(Targets(seen)) then [] else [Fold(call.target)])
  {
    var ts, t := Targets(seen), call.target;
    TargetsConcat(seen, [call]);
    ElemsSnoc(ts, t);
    DistinctSnoc(ts, t);
    assert (t in Elems(ts)) == (t in ts);
    if t !in ts {
      FoldAllSnoc(Distinct(ts), t);
    }
  }

  lemma ElemsSnoc(xs: seq<string>, x: string)
    ensures Elems(xs + [x]) == Elems(xs) + {x}
  {
  }

  lemma FoldAllSnoc(xs: seq<string>, x: string)
    ensures FoldAll(xs + [x]) == FoldAll(xs) + [Fold(x)]
  {
  }

  /** Folding the distinct targets keeps the fold of each target and adds nothing else. */
  lemma FoldedDistinct(ts: seq<string>)
    ensures forall i | 0 <= i < |ts| :: Fold(ts[i]) in FoldAll(Distinct(ts))
    ensures forall d | d in FoldAll(Distinct(ts)) :: exists i | 0 <= i < |ts| :: d == Fold(ts[i])
  {
    var ds := Distinct(ts);
    forall i | 0 <= i < |ts|
      ensures Fold(ts[i]) in FoldAll(ds)
    {
      DistinctMem(ts, ts[i]);
      var k :| 0 <= k < |ds| && ds[k] == ts[i];
      assert FoldAll(ds)[k] == Fold(ts[i]);
    }
    forall d | d in FoldAll(ds)
      ensures exists i | 0 <= i < |ts| :: d == Fold(ts[i])
    {
      var k :| 0 <= k < |ds| && FoldAll(ds)[k] == d;
      DistinctMem(ts, ds[k]);
      var i :| 0 <= i < |ts| && ts[i] == ds[k];
      assert d == Fold(ts[i]);
    }
  }

  /** No `require` target of the body has a `{` to fold. */
  predicate PlainTargets(def: string) {
    forall i | 0 <= i < |BodyCalls(def)| :: '{' !in BodyCalls(def)[i].target
  }

  /** A body whose targets have no `{` is returned as it is. */
  lemma BodyWithoutFoldsUnchanged(def: string)
    requires forall i | 0 <= i < |BodyCalls(def)| :: '{' !in BodyCalls(def)[i].target
    ensures BodyText(def) == def
  {
    var calls := BodyCalls(def);
    CallsChain(def, 0, 0, false);
    forall i | 0 <= i < |calls|
      ensures Fold(calls[i].target) == calls[i].target
    {
      FoldPlain(calls[i].target);
    }
    SpliceIdentity(def, 0, calls);
  }

  /**
   * `define\s*\([^\[\{]*(\[[^\[\]]*\])` at `q`: the first `[` or `{` after the
   * parenthesis must be a `[`, and the first `[` or `]` after it a `]`.
   */
  function DefineArrayAt(s: string, q: nat): (r: Option<string>)
    requires q <= |s|
    ensures r.Some? ==> |r.value| >= 2 && r.value[0] == '[' && r.value[|r.value| - 1] == ']'
  {
    if !HasAt(s, q, "define") then None
    else
      var a := SkipSpaces(s, q + 6);
      if !(a < |s| && s[a] == '(') then None
      else
        var k := ScanTo(s, a + 1, c => c == '[' || c == '{');
        if !(k < |s| && s[k] == '[') then None
        else
          var m := ScanTo(s, k + 1, IsBracket);
          if !(m < |s| && s[m] == ']') then None
          else Some(s[k..m + 1])
  }

  /** The first match of the `define` array pattern, searching from `q`. */
  function DefineArray(s: string, q: nat): Option<string>
    requires q <= |s|
    decreases |s| - q
  {
    if q == |s| then None
    else if LeadOk(s, q, 0, true) && DefineArrayAt(s, q).Some? then DefineArrayAt(s, q)
    else DefineArray(s, q + 1)
  }

  /** `(["'])(\.[^"']+?)\1` at `p`: a quoted id that starts with `.`, and where it ends. */
  function QuotedRelativeAt(arr: string, p: nat): (r: Option<(string, nat)>)
    requires p <= |arr|
    ensures r.Some? ==> p < r.value.1 <= |arr| && IsRelative(r.value.0)
  {
    if !(p + 1 < |arr| && IsQuote(arr[p]) && arr[p + 1] == '.') then None
    else
      var e := ScanTo(arr, p + 2, IsQuote);
      if !(p + 2 < e < |arr| && arr[e] == arr[p]) then None
      else Some((arr[p + 1..e], e + 1))
  }

  /** The relative ids of the array, in order, as the global replace finds them. */
  function ArrayEntries(arr: string, p: nat): (r: seq<string>)
    requires p <= |arr|
    ensures forall i | 0 <= i < |r| :: IsRelative(r[i])
    decreases |arr| - p
  {
    if p == |arr| then []
    else match QuotedRelativeAt(arr, p)
      case Some((d, e)) => [d] + ArrayEntries(arr, e)
      case None => ArrayEntries(arr, p + 1)
  }

  /** The ids of the `define` array, or none when there is no such array. */
  function ArrayDeps(def: string): (r: seq<string>)
    ensures forall i | 0 <= i < |r| :: IsRelative(r[i])
  {
    match DefineArray(def, 0)
    case Some(arr) => ArrayEntries(arr, 0)
    case None => []
  }

  /** The targets of the relative `require` calls. */
  function RequireDeps(def: string): (r: seq<string>)
    ensures forall i | 0 <= i < |r| :: IsRelative(r[i])
  {
    CallsTargets(def, 0, 0, true);
    Targets(Calls(def, 0, 0, true))
  }

  /** What `getRelativeDeps(def, exclude)` returns, the two exclude records merged into `exclude`. */
  function RelativeDeps(def: string, exclude: set<string>): (r: seq<string>)
    ensures NoDup(r)
    ensures forall d | d in r :: IsRelative(d) && d !in exclude
  {
    CandidatesShape(ArrayDeps(def) + RequireDeps(def), exclude);
    Without(Distinct(ArrayDeps(def) + RequireDeps(def)), exclude)
  }

  /**
   * The callbacks of `getRelativeDeps` over a list of candidate ids: an id
   * already seen or excluded is skipped, and every id is marked as seen.
   */
  method CollectRelative(cands: seq<string>, exclude: set<string>, got0: set<string>, deps0: seq<string>,
                         ghost seen0: seq<string>)
    returns (got: set<string>, deps: seq<string>)
    requires got0 == Elems(seen0) && deps0 == Without(Distinct(seen0), exclude)
    ensures got == Elems(seen0 + cands) && deps == Without(Distinct(seen0 + cands), exclude)
  {
    got, deps := got0, deps0;
    ghost var seen := seen0;
    for i := 0 to |cands|
      invariant seen == seen0 + cands[..i]
      invariant got == Elems(seen) && deps == Without(Distinct(seen), exclude)
    {
      var dep := cands[i];
      CollectStep(seen, dep, exclude);
      if !(dep in got || dep in exclude) {
        deps := deps + [dep];
      }
      got := got + {dep};
      PrefixSnoc(seen0, cands, i);
      seen := seen + [dep];
    }
    assert cands[..|cands|] == cands;
  }

  /** One callback: the id is pushed exactly when it is new and not excluded. */
  lemma CollectStep(seen: seq<string>, dep: string, exclude: set<string>)
    ensures (dep in Elems(seen)) == (dep in seen)
    ensures Elems(seen + [dep]) == Elems(seen) + {dep}
    ensures Without(Distinct(seen + [dep]), exclude)
         == Without(Distinct(seen), exclude) + (if dep in seen || dep in exclude then [] else [dep])
  {
    DistinctSnoc(seen, dep);
    if dep !in seen {
      WithoutSnoc(Distinct(seen), dep, exclude);
    }
  }

  lemma PrefixSnoc(a: seq<string>, b: seq<string>, i: nat)
    requires i < |b|
    ensures a + b[..i + 1] == (a + b[..i]) + [b[i]]
  {
    assert b[..i + 1] == b[..i] + [b[i]];
  }

  /** `getRelativeDeps(def, exclude)`: the array entries first, then the relative requires. */
  method GetRelativeDeps(def: string, exclude: set<string>) returns (deps: seq<string>)
    ensures deps == RelativeDeps(def, exclude)
  {
    var got: set<string> := {};
    deps := [];
    var arr := DefineArray(def, 0);
    var entries: seq<string> := [];
    if arr.Some? {
      entries := ArrayEntries(arr.value, 0);
    }
    assert entries == ArrayDeps(def);
    assert Elems([]) == {};
    got, deps := CollectRelative(entries, exclude, got, deps, []);
    assert [] + entries == entries;
    got, deps := CollectRelative(RequireDeps(def), exclude, got, deps, entries);
  }

  /** Relative candidates, deduplicated and filtered, are relative, not excluded, and each appears once. */
  lemma CandidatesShape(cands: seq<string>, exclude: set<string>)
    requires forall i | 0 <= i < |cands| :: IsRelative(cands[i])
    ensures NoDup(Without(Distinct(cands), exclude))
    ensures forall d | d in Without(Distinct(cands), exclude) :: IsRelative(d) && d !in exclude
  {
    DistinctNoDup(cands);
    WithoutNoDup(Distinct(cands), exclude);
    forall d | d in Without(Distinct(cands), exclude)
      ensures IsRelative(d) && d !in exclude
    {
      WithoutMem(Distinct(cands), exclude, d);
      DistinctMem(cands, d);
      var i :| 0 <= i < |cands| && cands[i] == d;
    }
  }

  /**
   * The order: the array's ids (first occurrences, not excluded), then the
   * relative requires that the array does not already list.
   */
  lemma RelativeDepsOrder(def: string, exclude: set<string>)
    ensures RelativeDeps(def, exclude)
         == Without(Distinct(ArrayDeps(def)), exclude)
          + Without(Distinct(RequireDeps(def)), Elems(ArrayDeps(def)) + exclude)
  {
    var a, b := ArrayDeps(def), RequireDeps(def);
    DistinctConcat(a, b);
    WithoutConcat(Distinct(a), Without(Distinct(b), Elems(a)), exclude);
    WithoutWithout(Distinct(b), Elems(a), exclude);
  }

  /** `require('x')`. */
  function RequireText(x: string): string {
    "require('" + x + "')"
  }

  predicate QuoteFree(x: string) {
    forall k | 0 <= k < |x| :: !IsQuote(x[k])
  }

  /** A word with a letter that the text lacks does not occur in it. */
  lemma AbsentLetter(s: string, p: string, c: char, q: nat)
    requires c in p && c !in s
    ensures !HasAt(s, q, p)
  {
    if q + |p| <= |s| {
      var k :| 0 <= k < |p| && p[k] == c;
      assert s[q..q + |p|][k] == s[q + k];
      assert s[q + k] in s;
    }
  }

  /** A text without the letter `f` has no `define` array. */
  lemma {:induction false} NoDefineArray(s: string, q: nat)
    requires 'f' !in s && q <= |s|
    ensures DefineArray(s, q) == None
    decreases |s| - q
  {
    if q < |s| {
      AbsentLetter(s, "define", 'f', q);
      NoDefineArray(s, q + 1);
    }
  }

  /** The parts of a literal `require('x')` at `q`. */
  lemma RequireTextParts(s: string, q: nat, x: string)
    requires HasAt(s, q, RequireText(x))
    ensures q + 11 + |x| <= |s|
    ensures s[q..q + 7] == "require" && s[q + 7] == '(' && s[q + 8] == '\''
    ensures s[q + 9..q + 9 + |x|] == x && s[q + 9 + |x|] == '\'' && s[q + 10 + |x|] == ')'
  {
    var w := RequireText(x);
    var t := s[q..q + |w|];
    assert w == "require" + "('" + x + "')";
    assert t[..7] == "require";
    assert s[q..q + 7] == t[..7];
    assert t[7] == '(' && t[8] == '\'';
    assert t[9..9 + |x|] == x;
    assert s[q + 9..q + 9 + |x|] == t[9..9 + |x|];
    assert t[9 + |x|] == '\'' && t[10 + |x|] == ')';
  }

  /** A literal `require('x')` at `q` is the call of target `x`. */
  lemma RequireTextAt(s: string, q: nat, x: string)
    requires HasAt(s, q, RequireText(x)) && QuoteFree(x) && IsRelative(x)
    ensures CallAt(s, q, true) == Some(Call(q, q + 11 + |x|, '\'', x))
  {
    RequireTextParts(s, q, x);
    var e := q + 9 + |x|;
    ScanQuoteFree(s, q + 9, x);
    RequireTextMatch(s, q, x);
  }

  /** The scan for the closing quote runs over a quote-free target. */
  lemma ScanQuoteFree(s: string, i: nat, x: string)
    requires i + |x| < |s| && s[i..i + |x|] == x && QuoteFree(x) && IsQuote(s[i + |x|])
    ensures ScanTo(s, i, IsQuote) == i + |x|
  {
    forall k | i <= k < i + |x| ensures !IsQuote(s[k]) {
      assert s[k] == s[i..i + |x|][k - i];
    }
  }

  lemma RequireTextMatch(s: string, q: nat, x: string)
    requires q + 11 + |x| <= |s| && |x| > 0
    requires s[q..q + 7] == "require" && s[q + 7] == '(' && s[q + 8] == '\''
    requires s[q + 9..q + 9 + |x|] == x && s[q + 9 + |x|] == '\'' && s[q + 10 + |x|] == ')'
    requires ScanTo(s, q + 9, IsQuote) == q + 9 + |x|
    ensures RequireAt(s, q) == Some(Call(q, q + 11 + |x|, '\'', x))
  {
    assert HasAt(s, q, "require");
    assert SkipSpaces(s, q + 7) == q + 7;
    assert SkipSpaces(s, q + 8) == q + 8;
    assert SkipSpaces(s, q + 10 + |x|) == q + 10 + |x|;
  }

  /** Without a `define` array, the relative deps are those of the relative `require` calls. */
  lemma DepsFromCalls(s: string)
    requires DefineArray(s, 0) == None
    ensures RelativeDeps(s, {}) == Without(Distinct([] + Targets(Calls(s, 0, 0, true))), {})
  {
  }

  lemma NoLetterF(x: string, s: string)
    requires 'f' !in x && s == RequireText(x)
    ensures 'f' !in s
  {
    assert s == "require('" + x + "')";
  }

  /** The relative deps of `require('x')` alone. */
  lemma OneRequire(x: string)
    requires QuoteFree(x) && IsRelative(x) && 'f' !in x
    ensures RelativeDeps(RequireText(x), {}) == [x]
  {
    var s := RequireText(x);
    NoLetterF(x, s);
    NoDefineArray(s, 0);
    assert HasAt(s, 0, s);
    RequireTextAt(s, 0, x);
    assert Calls(s, |s|, |s|, true) == [];
    assert Calls(s, 0, 0, true) == [Call(0, |s|, '\'', x)];
    DepsFromCalls(s);
    ListOfOne(x);
  }

  /** The relative deps of `require('x')`, a line break and `require('y')`. */
  lemma TwoRequires(x: string, y: string)
    requires QuoteFree(x) && IsRelative(x) && 'f' !in x
    requires QuoteFree(y) && IsRelative(y) && 'f' !in y && x != y
    ensures RelativeDeps(RequireText(x) + "\n" + RequireText(y), {}) == [x, y]
  {
    var a, b := RequireText(x), RequireText(y);
    var s := a + "\n" + b;
    NoLetterF(x, a);
    NoLetterF(y, b);
    NoDefineArray(s, 0);
    TwoCalls(s, a, b, x, y);
    DepsFromCalls(s);
    ListOfTwo(x, y);
  }

  lemma TwoCalls(s: string, a: string, b: string, x: string, y: string)
    requires a == RequireText(x) && b == RequireText(y) && s == a + "\n" + b
    requires QuoteFree(x) && IsRelative(x) && QuoteFree(y) && IsRelative(y)
    ensures Targets(Calls(s, 0, 0, true)) == [x, y]
  {
    assert |a| == 11 + |x| && |b| == 11 + |y|;
    BreakParts(a, b);
    TwoCallsAt(s, |a|, x, y);
  }

  lemma TwoCallsAt(s: string, e: nat, x: string, y: string)
    requires e == 11 + |x| && e < |s| && |s| == e + 12 + |y| && s[e] == '\n'
    requires HasAt(s, 0, RequireText(x)) && HasAt(s, e + 1, RequireText(y))
    requires QuoteFree(x) && IsRelative(x) && QuoteFree(y) && IsRelative(y)
    ensures Targets(Calls(s, 0, 0, true)) == [x, y]
  {
    var c1, c2 := Call(0, e, '\'', x), Call(e + 1, |s|, '\'', y);
    FirstCallText(s, e, x);
    SecondCallText(s, e, y);
    TargetsTwo(c1, c2);
  }

  lemma FirstCallText(s: string, e: nat, x: string)
    requires e == 11 + |x| && e <= |s| && HasAt(s, 0, RequireText(x)) && QuoteFree(x) && IsRelative(x)
    ensures Calls(s, 0, 0, true) == [Call(0, e, '\'', x)] + Calls(s, e, e, true)
  {
    var c := Call(0, e, '\'', x);
    RequireTextAt(s, 0, x);
    FirstCall(s, c);
  }

  lemma SecondCallText(s: string, e: nat, y: string)
    requires e < |s| && |s| == e + 12 + |y| && s[e] == '\n' && HasAt(s, e + 1, RequireText(y))
    requires QuoteFree(y) && IsRelative(y)
    ensures Calls(s, e, e, true) == [Call(e + 1, |s|, '\'', y)]
  {
    RequireTextAt(s, e + 1, y);
    SecondCall(s, e, Call(e + 1, |s|, '\'', y));
  }

  lemma BreakParts(a: string, b: string)
    ensures (a + "\n" + b)[|a|] == '\n' && |a + "\n" + b| == |a| + 1 + |b|
    ensures HasAt(a + "\n" + b, 0, a) && HasAt(a + "\n" + b, |a| + 1, b)
  {
    var s := a + "\n" + b;
    assert s[..|a|] == a;
    assert s[|a| + 1..] == b;
  }

  lemma TargetsTwo(c1: Call, c2: Call)
    ensures Targets([c1] + [c2]) == [c1.target, c2.target]
  {
  }

  lemma FirstCall(s: string, c: Call)
    requires c.at == 0 && c.end <= |s| && CallAt(s, 0, true) == Some(c)
    ensures Calls(s, 0, 0, true) == [c] + Calls(s, c.end, c.end, true)
  {
    assert LeadOk(s, 0, 0, true);
  }

  lemma SecondCall(s: string, e: nat, c: Call)
    requires e < |s| && s[e] == '\n' && c.at == e + 1 && c.end == |s| && CallAt(s, e + 1, true) == Some(c)
    ensures Calls(s, e, e, true) == [c]
  {
    LineBreakSkipped(s, e);
    CallAfterBreak(s, e, c);
  }

  lemma LineBreakSkipped(s: string, e: nat)
    requires e < |s| && s[e] == '\n'
    ensures Calls(s, e, e, true) == Calls(s, e, e + 1, true)
  {
    assert !HasAt(s, e, "require") by {
      if e + 7 <= |s| {
        assert s[e..e + 7][0] == '\n';
      }
    }
  }

  lemma CallAfterBreak(s: string, e: nat, c: Call)
    requires e < |s| && s[e] == '\n' && c.at == e + 1 && c.end == |s| && CallAt(s, e + 1, true) == Some(c)
    ensures Calls(s, e, e + 1, true) == [c]
  {
    assert LeadOk(s, e + 1, e, true);
    assert Calls(s, |s|, |s|, true) == [];
  }

  lemma ListOfOne(x: string)
    ensures Without(Distinct([] + [x]), {}) == [x]
  {
    assert [] + [x] == [x];
    assert Distinct([x]) == [x] by {
      assert [x][..0] == [];
    }
    assert Without([x], {}) == [x] by {
      assert [x][..0] == [];
    }
  }

  lemma ListOfTwo(x: string, y: string)
    requires x != y
    ensures Without(Distinct([] + [x, y]), {}) == [x, y]
  {
    assert [] + [x, y] == [x, y];
    assert [x, y][..1] == [x];
    ListOfOne(x);
    assert [] + [x] == [x];
    assert Distinct([x, y]) == [x, y];
    assert Without([x, y], {}) == [x, y];
  }

}
