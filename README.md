# grunt-yomb, modelled in Dafny

grunt-yomb is a Grunt task that builds front-end projects. It bundles AMD
modules, compiles micro-templates (`*.tpl.html`) into JavaScript modules,
merges includes into HTML, fills property and language placeholders, and
writes the outputs, refusing any target that lies under a protected
directory. This project models the text-processing core of the Grunt task in
Dafny and proves properties of it. The core is `tasks/yomb.js` and its
helpers in `tasks/lib/`.

The model is organised by module.

- `Paths`: path normalisation, the protection test, and the protect check
  at the head of `writeFileSync`. `Output` is a class holding the written
  files and the build properties.
- `Properties`, `Lang`, `Placeholders`, `Json`: `%{{name}}%` and `${{name}}$`
  replacement. They also model the dotted lookup loop of `getProperty` over
  JavaScript values.
- `Utils`: `arrayEach`, `extendObject`, `cloneObject`, `getHashFromString`
  and `getDefinedItem`. `extendObject` updates a `JsObject` in place.
- `Args`: the command-line reader, with the argument vector as a parameter.
- `Scan`, `Deps`: the `require(...)` and `define([...])` scanners, with
  `getBodyDeps` and `getRelativeDeps` as loop methods.
- `Traversal`: `traversalGetRelativeDeps`. `Traverser` is a class whose
  `processed` record is shared by the recursive walk.
- `Define`: `fixDefineParams`, which rewrites the first `define(` header or
  wraps a CommonJS module.
- `Template`, `TemplateShapes`: the micro-template compiler of
  `compileTmpl` and `$encodeHtml`, with what it produces for each kind of
  tag. `TemplateComposition` states what it produces for a tag between two
  texts.
- `Compile`: `getTmplObjName`, the end of `getIncProcessed` (the include
  mark queue, the strict wrapper, the line-ending rewrite), level 0 of
  `getUglified`, and the module text of `compileTmpl`.
- `Bundle`: `getBuiltAmdModContent`, and `compileTmpl` with a build root.

Regular expressions become explicit scanners over the exact token shapes
their patterns accept. This includes lazy and greedy runs, the `m` flag,
`\b`, and lead groups such as `(^|[^.]+?)`.

Everything the code hands to something this model cannot see is a
parameter:

- file contents (`files` maps);
- `path.resolve` and `path.join` (functions on strings);
- the clock (`now`);
- the uglify-js beautifier (`beautify`);
- the output of `getIncProcessed` for a template (`processed`);
- the results of the include processors (`results`).

Each sub-walk is put in front of everything gathered so far, so the walk's
order is not a dependency order. `Traversal.TraverseOrder` states the order
exactly, and `Traversal.NotDependencyOrder` exhibits a diamond where a module
comes before one it depends on.

`getBuiltAmdModContent` does not call back at all when the input is already
being built further up (`Bundle.NoCallback`). `combineOne` compiles
templates with no id, so their object is named `undefined`
(`Compile.CombinedName`). Both are modelled as written.

## Model

| member | source | states |
|---|---|---|
| Paths.UnixPath | tasks/yomb.js:99-101 | every backslash becomes a slash, every other character stays, length kept |
| Paths.UnixPathIdempotent | tasks/yomb.js:99-101 | the result has no backslash and normalising again changes nothing |
| Paths.DropTrailingSlash | tasks/yomb.js:104 | exactly one slash at the very end is removed, otherwise the text is unchanged |
| Paths.IsPathProtected | tasks/yomb.js:103-106 | protected iff the normalised path is the normalised root (trailing slash dropped) or starts with it followed by `/` |
| Paths.PlainProtected | tasks/yomb.js:103-106 | for paths without backslashes the test is "equal to the root or below it" on the text itself |
| Paths.SiblingNotProtected | tasks/yomb.js:105 | `/a/bc` is not under `/a/b`: the match needs `/` or the end after the root |
| Paths.TrailingSlashRoot | tasks/yomb.js:104 | a root written with a trailing slash protects what lies below it |
| Paths.IsPathProtectedAsWritten | tasks/yomb.js:105 | the root used unescaped as a pattern, modelled for roots whose only metacharacter is `.`; for such a root without a `.` it agrees with the literal test |
| Paths.DotRootCounterexample | tasks/yomb.js:105 | as written `/axb/c` is reported under root `/a.b`; the literal test says it is not |
| Paths.FirstBlocker | tasks/yomb.js:115-123 | None iff no root of the list protects the path; otherwise the first protecting root, resolved |
| Paths.Blocker | tasks/yomb.js:111-124 | a reported root always protects the path |
| Paths.ProtectCheck | tasks/yomb.js:109-124 | the loop over one root or a list of roots stops at the first protecting root and returns it |
| Paths.SetLang | tasks/yomb.js:130 | only a record of properties receives `_lang_`, other keys unchanged |
| Paths.Output.WriteFileSync | tasks/yomb.js:108-135 | a blocked write changes nothing; otherwise the file holds the content with placeholders filled when properties exist, and `_lang_` is reset afterwards |
| Paths.LangPlaceholderFilled | tasks/yomb.js:129-133 | during a write `%{{_lang_}}%` is replaced by the language code |
| Properties.Divisor | tasks/lib/properties.js:9 | the timestamp divisor is positive (`parseInt(...) \|\| 1000`) |
| Properties.PropertyValue | tasks/lib/properties.js:13-25 | a `TIMESTAMP` name yields a number, any other name the dotted lookup in the properties |
| Properties.GetProperty | tasks/lib/properties.js:13-25 | the shift-and-index loop computes that value |
| Properties.ReplaceProperties | tasks/lib/properties.js:27-34 | falsy properties leave the content unchanged |
| Properties.ScanPlain | tasks/lib/properties.js:31 | text without `%` is copied unchanged in front of the scan of the rest |
| Properties.ScanPlaceholder | tasks/lib/properties.js:31-34 | a placeholder is handled by the callback and scanning resumes right after it |
| Properties.SinglePassString | tasks/lib/properties.js:31-34 | a string value replaces its placeholder verbatim, even when it holds placeholders itself, and the rest is scanned separately |
| Properties.SinglePassUnresolved | tasks/lib/properties.js:33 | a value that is not a string leaves the placeholder as written |
| Properties.TimestampIsNumber | tasks/lib/properties.js:15-16 | a `TIMESTAMP` name never yields a string |
| Properties.TimestampKept | tasks/lib/properties.js:15-16 | so a `TIMESTAMP` placeholder stays as written |
| Properties.NoMarkUnchanged | tasks/lib/properties.js:31 | content without `%` is returned unchanged |
| Properties.NestedResolved | tasks/lib/properties.js:18-23 | `%{{a.b}}%` becomes `v` for `{a: {b: v}}` |
| Properties.ExampleResolved | tasks/lib/properties.js:27-34 | `%{{a.b}}%` with `{a: {b: "X"}}` becomes `X` |
| Properties.MissingKept | tasks/lib/properties.js:33 | a name that is not a key leaves the placeholder as written |
| Properties.ExampleMissing | tasks/lib/properties.js:33 | `%{{missing}}%` stays as written |
| Placeholders.MatchAt | tasks/lib/properties.js:31 | a match is a placeholder of a valid name, and its length is the name's plus six |
| Placeholders.MatchPlaceholder | tasks/lib/properties.js:31 | a placeholder is recognised as itself, whatever follows |
| Placeholders.NoPlaceholderWithoutMark | tasks/lib/lang.js:10 | text without the mark character holds no placeholder |
| Json.Member | tasks/lib/properties.js:21 | indexing a record gives the stored value or undefined; a primitive other than a string gives undefined |
| Json.Lookup | tasks/lib/lang.js:16-18 | a non-empty path reaches a truthy value only from a record, an array or a string |
| Json.LookupFalsy | tasks/lib/lang.js:16 | a falsy value ends the walk and is the result |
| Json.LookupConcat | tasks/lib/lang.js:16-18 | the walk goes left to right: a path's prefix is walked first |
| Json.LookupStopsAtFalsy | tasks/lib/lang.js:16-18 | once a prefix leads to a falsy value, that value is the whole result |
| Json.LookupNested | tasks/lib/lang.js:16-18 | a path of existing record keys reaches the value under the last one |
| Json.LookupTwoKeys | tasks/lib/properties.js:18-23 | the path `a.b` in `{a: {b: x}}` reaches `x` |
| Json.WalkPath | tasks/lib/lang.js:16-18 | the while loop computes the lookup |
| Lang.Level | tasks/lib/lang.js:23 | the level is at least 1, and a given level is kept |
| Lang.GetProperty | tasks/lib/lang.js:12-20 | the lookup loop without timestamp names |
| Lang.Resolve | tasks/lib/lang.js:27-39 | the replace callback, defined on its three cases (not a string, a string with placeholders past level 3, any other string); it carries no contract of its own, and the Lang rows below state each case |
| Lang.ReplaceLang | tasks/lib/lang.js:22-40 | falsy resources leave the content unchanged |
| Lang.ScanPlain | tasks/lib/lang.js:27 | text without `$` is copied unchanged |
| Lang.SinglePass | tasks/lib/lang.js:27-39 | the text before a placeholder is kept, the placeholder is replaced by the callback's result, and the rest is scanned at the same level |
| Lang.NotStringMarked | tasks/lib/lang.js:29-30 | a value that is not a string becomes `*name*` |
| Lang.PlainStringVerbatim | tasks/lib/lang.js:28-31 | a string without placeholders is inserted verbatim |
| Lang.NestedExpanded | tasks/lib/lang.js:34-35 | up to level 3 a string with placeholders is expanded one level deeper |
| Lang.NestedCutOff | tasks/lib/lang.js:32-33 | past level 3 it becomes `**name**` |
| Lang.CutOffIsFlat | tasks/lib/lang.js:31-37 | past level 3 no further expansion happens, which bounds the recursion |
| Lang.AloneResolves | tasks/lib/lang.js:27-39 | a placeholder alone is replaced by the callback's text at the starting level |
| Lang.SelfReferenceCutOff | tasks/lib/lang.js:31-37 | the self-referencing resource `{a: "${{a}}$"}` ends as `**a**` |
| Utils.ArrayEach | tasks/lib/utils.js:8-12 | the loop applies the callback to every item, in index order |
| Utils.VisitOrder | tasks/lib/utils.js:9-11 | the indices are visited once each, from 0 up |
| Utils.VisitPush | tasks/lib/utils.js:39-41 | a callback that pushes each item rebuilds the array |
| Utils.StartLevel | tasks/lib/utils.js:16 | `deepLevel \|\| 3` is never 0, and keeps a level that is not 0 |
| Utils.Item | tasks/lib/utils.js:18-24 | a key that is not written keeps its value; a written key that does not descend takes the extending value |
| Utils.Merge | tasks/lib/utils.js:17-25 | records stay records and arrays stay arrays; a non-object on either side leaves the origin unchanged |
| Utils.Extend | tasks/lib/utils.js:14-27 | a falsy origin becomes a record with exactly the extending keys |
| Utils.ExtendAsWritten | tasks/lib/utils.js:14-27 | the merge as written, where every nested call restarts at level 3 |
| Utils.ExtendBounded | tasks/lib/utils.js:14-27 | the merge with the level only decreasing |
| Utils.MergeRecords | tasks/lib/utils.js:17-25 | every key of either side survives; origin-only keys are kept; without `check` every extending key is written; with `check` only undefined ones are |
| Utils.ShallowWhenNoLevels | tasks/lib/utils.js:19-23 | with no levels left the merge is a key-by-key overwrite |
| Utils.MergeSameKey | tasks/lib/utils.js:19-22 | one shared key is merged or overwritten as the level and types decide |
| Utils.MergeNewKey | tasks/lib/utils.js:22 | a new key is added next to the existing one |
| Utils.DepthResetCounterexample | tasks/lib/utils.js:16-20 | as written a merge at level 1 still merges two levels down |
| Utils.DepthBoundedExample | tasks/lib/utils.js:19-20 | the bounded merge at level 1 merges one level and overwrites below it |
| Utils.PartialAll | tasks/lib/utils.js:17-25 | updating the origin key by key over all the extending keys gives the bounded merge |
| Utils.ExtendKey | tasks/lib/utils.js:18-24 | one loop turn updates that key alone |
| Utils.ExtendKeys | tasks/lib/utils.js:17-25 | the key loop leaves the object equal to the key-by-key update over every extending key |
| Utils.ExtendObject | tasks/lib/utils.js:14-27 | the origin object itself, or a fresh one for null, ends holding the bounded merge |
| Utils.CloneObject | tasks/lib/utils.js:29-52 | primitives, and everything when `deep` is negative, come back as they are; otherwise a fresh container with the same items |
| Utils.CommaTokens | tasks/lib/utils.js:59 | as many tokens as comma-separated parts, none containing a comma |
| Utils.TokensRejoin | tasks/lib/utils.js:59 | without white space the tokens are the parts, and joining them gives the text back |
| Utils.HashTokens | tasks/lib/utils.js:60-62 | the keys are exactly the tokens and each holds the value |
| Utils.GetHashFromString | tasks/lib/utils.js:54-64 | null exactly for the empty string; otherwise every token maps to `val`, or to 1 when it is undefined |
| Utils.GetDefinedItem | tasks/lib/utils.js:66-75 | undefined iff every item is; otherwise the first defined item |
| Args.DashesThenDigitAtRun | tasks/lib/args.js:9 | `/^-+\d/` holds iff the whole run of leading dashes is followed by a digit |
| Args.IsArgName | tasks/lib/args.js:8-10 | a name starts with `-` and is not dashes followed by a digit |
| Args.ParseFrom | tasks/lib/args.js:16-31 | the reading from any index only adds keys to the record it starts from |
| Args.StripDashes | tasks/lib/args.js:22 | only leading dashes are removed, all of them |
| Args.Get | tasks/lib/args.js:12-33 | the loop from index 2 computes the record of the reference reading |
| Args.KeysAreNames | tasks/lib/args.js:20-27 | every key is an argument name with its dashes stripped |
| Args.ValuesAreFlagsOrValues | tasks/lib/args.js:20-27 | every value is `true` or a later entry that is neither empty nor a name |
| Args.StopsAtEmpty | tasks/lib/args.js:17-19 | nothing after the first empty entry is read |
| Args.NegativeNumberIsValue | tasks/lib/args.js:20-27 | `-n -5` stores the value `-5`; `-v -n` stores two flags |
| Scan.RequireAt | tasks/yomb.js:196 | a call found has a non-empty target without quotes, between matching quotes |
| Scan.CallAt | tasks/yomb.js:222 | the relative scan accepts only targets that start with `.` |
| Scan.CallsTargets | tasks/yomb.js:222 | every call the global scan finds has a target, and a relative one in the relative scan |
| Scan.NoWordNoCalls | tasks/yomb.js:196 | text without the word `require` has no call |
| Scan.MemberCallNotFound | tasks/yomb.js:196 | `a.require('x')` is not a call |
| Scan.AdjacentCallNotFound | tasks/yomb.js:196 | a call glued to the previous match is not found |
| Scan.SingleCallFound | tasks/yomb.js:196 | `require('./a')` yields `./a` |
| Deps.FoldPlain | tasks/yomb.js:197 | a target without `{` is left alone |
| Deps.FoldPlaceholder | tasks/yomb.js:197 | `{{x}}` becomes the concatenation `' + x + '` |
| Deps.GetBodyDeps | tasks/yomb.js:193-210 | the replace loop yields the rewritten body and the dependency list of the reference reading |
| Deps.BodyDeps | tasks/yomb.js:196-199 | every call's folded target is a dependency, and every dependency is the fold of some call's target |
| Deps.BodyWithoutFoldsUnchanged | tasks/yomb.js:200-201 | a body whose targets need no folding comes out unchanged |
| Deps.SpliceIdentity | tasks/yomb.js:200-204 | calls whose callback text is the call itself leave the text unchanged |
| Deps.DefineArrayAt | tasks/yomb.js:215 | the captured array starts with `[` and ends with `]` |
| Deps.ArrayDeps | tasks/yomb.js:215-221 | the ids of the `define` array all start with `.` |
| Deps.RequireDeps | tasks/yomb.js:222-225 | the relative `require` targets all start with `.` |
| Deps.CollectRelative | tasks/yomb.js:219-224 | the callbacks mark every id and push exactly the new, non-excluded ones, in order |
| Deps.GetRelativeDeps | tasks/yomb.js:212-227 | the method computes the reference list |
| Deps.RelativeDeps | tasks/yomb.js:212-227 | every dependency starts with `.`, is not excluded, and appears once |
| Deps.RelativeDepsOrder | tasks/yomb.js:212-227 | the array's ids come first, then the relative requires it does not list |
| Deps.NoDefineArray | tasks/yomb.js:215 | text without the letter `f` has no `define` array |
| Deps.OneRequire | tasks/yomb.js:222-225 | `require('x')` alone yields `[x]` |
| Deps.TwoRequires | tasks/yomb.js:222-225 | two requires on two lines yield both ids in order |
| Define.DefineOpenAt | tasks/yomb.js:502 | a match is `define` followed by its parenthesis |
| Define.HeaderAt | tasks/yomb.js:509 | the header pattern matches exactly where `define(` does, and its array is flat |
| Define.FirstHeader | tasks/yomb.js:509 | the first position where the lead and `define(` both match |
| Define.FirstExports | tasks/yomb.js:502 | the first position of `module.exports` with an acceptable lead |
| Define.MergedArrayAsWritten | tasks/yomb.js:516 | no body dependencies leave the array unchanged |
| Define.MergedArray | tasks/yomb.js:516 | the corrected merge, which agrees with the code on any non-empty array |
| Define.MergedArrayEntries | tasks/yomb.js:513-519 | the body dependencies follow the array's entries, quoted, also when the array is empty |
| Define.EmptyArrayHole | tasks/yomb.js:516 | as written `[]` becomes `[, 'a']`; corrected `['a']` |
| Define.DefaultArray | tasks/yomb.js:518 | without an array the header gets `require`, `exports` and `module`, then the body dependencies |
| Define.DepsTextQuoted | tasks/yomb.js:514 | each body dependency ends up in single quotes, comma separated |
| Define.ModuleId | tasks/yomb.js:521-529 | a defined id not starting with `.` is kept; otherwise the id is empty or relative, and it is `depId` made relative when there is no base |
| Define.UnixId | tasks/yomb.js:530 | normalising an id keeps it free of quotes and spaces, and keeps it empty or not |
| Define.Fix | tasks/yomb.js:502-510 | a module with neither `define(` nor `module.exports` is unchanged |
| Define.FixReadBack | tasks/yomb.js:509-531 | the rewrite keeps everything before the first header; that header is read back with the computed id and the merged array, followed by the rest of the module |
| Define.WrapReadBack | tasks/yomb.js:503-507 | a CommonJS module is wrapped in a header read back with the computed id and the default array, then the factory, the body and `});` |
| Define.FixDefineParams | tasks/yomb.js:498-533 | a module whose `require` targets need no folding and that has neither `define(` nor `module.exports` comes out unchanged |
| Traversal.MakeGraph | tasks/yomb.js:230 | each readable file's list is its relative dependencies |
| Traversal.Dotted | tasks/yomb.js:245-247 | an id gets `./` in front unless it starts with `.` |
| Traversal.Loop | tasks/yomb.js:241-261 | the walk only adds to the processed record; a failure names a file that cannot be read |
| Traversal.Traverser.Visit | tasks/yomb.js:229-263 | the recursive method computes the walk of the reference reading and leaves the record it describes |
| Traversal.TraversalGetRelativeDeps | tasks/yomb.js:229-263 | the top-level call computes the walk from the input |
| Traversal.Traverse | tasks/yomb.js:229-240 | the input is recorded as processed from the start, and the walk fails only on an id that has no file, never on the input |
| Traversal.LoopGood | tasks/yomb.js:241-261 | a finished walk marks exactly the ids it returns, each once; each is named by the current file or by one returned after it; their lists and the rest of the current list end up processed |
| Traversal.TraverseSpec | tasks/yomb.js:229-263 | the walk returns exactly the ids reachable from the input other than itself, each once, each named by the input or by a file returned after it |
| Traversal.WalkReaches | tasks/yomb.js:229-263 | the ids of a complete walk are exactly the reachable ones |
| Traversal.NotDependencyOrder | tasks/yomb.js:260 | on a diamond the walk returns `b, a, d1, d2`, where `b` depends on `a` |
| Traversal.LoopOrder | tasks/yomb.js:241-261 | the walk of a list from any index is the sub-walks of its new entries, the last entry's first, then those entries in list order |
| Traversal.WalksSplit | tasks/yomb.js:260 | cut the entries anywhere: the later entries' sub-walks come before the earlier ones' |
| Traversal.TraverseOrder | tasks/yomb.js:229-263 | a finished walk from the input is its new entries' sub-walks, last first, followed by the entries themselves |
| Template.EncodeHtmlChars | tasks/yomb.js:446-448 | the six global replacements, `&` first, equal a one-pass mapping of each character to its entity |
| Template.EncodeHtml | tasks/yomb.js:446-448 | `$encodeHtml` is the one-pass entity mapping, so its output holds no special HTML character other than the `&` that opens each entity |
| Template.AmpersandLastEscapesTwice | tasks/yomb.js:447 | with `&` replaced last, `<` would become `&amp;lt;` |
| Template.LazyEnd | tasks/yomb.js:455 | the lazy run ends inside the text and is empty only at the end |
| Template.CloseAt | tasks/yomb.js:464 | a found close is a `%>` |
| Template.TargetAt | tasks/yomb.js:467 | a push target found after `->` ends at a `%>` |
| Template.PushCode | tasks/yomb.js:453-468 | the code of the first push: the text passes, then the tag passes; it carries no contract of its own, and the TemplateShapes and TemplateComposition rows state what it produces |
| Template.RenderBlock | tasks/yomb.js:445-471 | the render function with every empty push removed; it carries no contract of its own, and `TemplateShapes.RemovalByLine` and `TemplateShapes.EmptyTemplate` state its shape |
| TemplateShapes.EscapedTag | tasks/yomb.js:464 | `<%==e%>` compiles to an argument `$encodeHtml(e)` between two pushes |
| TemplateShapes.RawTag | tasks/yomb.js:465 | `<%=e%>` compiles to the argument `e` |
| TemplateShapes.StatementTag | tasks/yomb.js:466-468 | `<%c%>` ends the push, puts `c` on its own line and reopens a push on `_$out_` |
| TemplateShapes.BackTag | tasks/yomb.js:466 | `<%<-c%>` does the same as `<%c%>` |
| TemplateShapes.TargetTag | tasks/yomb.js:467 | `<%c->name%>` sends the following text to `name.push` |
| TemplateShapes.TagPassesFree | tasks/yomb.js:464-468 | the tag passes leave text without `%` alone |
| TemplateShapes.TextPassesTag | tasks/yomb.js:454-463 | the text passes leave a plain tag as it is |
| TemplateShapes.LiteralText | tasks/yomb.js:454-463 | text without tags is escaped with its line breaks normalised, then kept as `\n` escapes or squeezed, as the module kind decides |
| TemplateShapes.OuterFree | tasks/yomb.js:458-460 | the text callback leaves no `\v` and introduces no `%` |
| TemplateShapes.KeptRoundTrip | tasks/yomb.js:458 | with lines kept, the pushed literal reads back as the text with each line mark made a newline |
| TemplateShapes.EscapeRoundTrip | tasks/yomb.js:458 | the quote escaping reads back as the original text |
| TemplateShapes.LiteralRoundTrip | tasks/yomb.js:453-463 | a tagless template compiled for NODE at level 0 pushes a string that reads back as the template with every line break made `\n` |
| TemplateShapes.ReplaceAllJoin | tasks/yomb.js:471 | removing a pattern without line breaks from joined lines works line by line |
| TemplateShapes.RemovalByLine | tasks/yomb.js:445-471 | the render function is its lines with every empty push removed from each |
| TemplateShapes.EmptyTemplate | tasks/yomb.js:453-471 | an empty template pushes nothing and its push line is left as indentation |
| TemplateComposition.LinesConcat | tasks/yomb.js:454 | the line-break pass works on two texts separately unless a `\r\n` straddles the cut |
| TemplateComposition.TextPassesBetween | tasks/yomb.js:454-463 | between two literal texts a plain tag is left as it is, and each text is compiled on its own |
| TemplateComposition.RawTagBetween | tasks/yomb.js:453-465 | `a<%=e%>b` compiles to the code of `a`, the argument `e`, then the code of `b` |
| TemplateComposition.EscapedTagBetween | tasks/yomb.js:453-464 | `a<%==e%>b` compiles to the code of `a`, the argument `$encodeHtml(e)`, then the code of `b` |
| Compile.CamelCase | tasks/yomb.js:266 | the rewrite never grows the name and is non-empty for non-empty input |
| Compile.BackOff | tasks/yomb.js:266 | the greedy run gives back characters until a word character follows, or there is none |
| Compile.WordAfter | tasks/yomb.js:266 | a separator run is followed by a word character, and nothing starts at a non-separator |
| Compile.GetTmplObjName | tasks/yomb.js:265-269 | empty iff the id is empty; never longer; the camel-cased name with its first letter lowered |
| Compile.PlainName | tasks/yomb.js:266-267 | a name without separators only has its first letter lowered |
| Compile.TwoSegments | tasks/yomb.js:266-267 | `a-b`, `a_b`, `a.b` or `a/b` becomes `a` with `b` capitalised after it |
| Compile.RelativeSegments | tasks/yomb.js:266-267 | `./a/b` becomes `a` with `b` capitalised after it |
| Compile.DashedName | tasks/yomb.js:265-269 | `list-item` becomes `listItem` |
| Compile.RelativeName | tasks/yomb.js:265-269 | `./tpl/list` becomes `tplList` |
| Compile.CombinedName | tasks/yomb.js:440 | a template compiled with no id assigns `var undefined` |
| Compile.UsesData | tasks/yomb.js:412 | true iff `$data.` occurs at the start or after a character that is neither `.` nor a word character |
| Compile.StrictWrap | tasks/yomb.js:411-413 | a template that uses `$data.` is wrapped in the closure alone; any other also in `with($data)` |
| Compile.DataPrefixStrict | tasks/yomb.js:412 | a template starting with `$data.` is strict |
| Compile.MemberDataIgnored | tasks/yomb.js:412 | `x.$data.` and `x$data.` do not count as uses of `$data` |
| Compile.WrapperTags | tasks/yomb.js:413 | each wrapper tag compiles to its code on a line of its own, followed by a new push |
| Compile.IncFinish | tasks/yomb.js:411-415 | a script without `\r` is handed on unchanged |
| Compile.NoReturnKept | tasks/yomb.js:415 | text without `\r` is unchanged by the line-ending rewrite |
| Compile.SinglePassNormalisation | tasks/yomb.js:415 | the rewrite is single-pass: `\r\r\n` becomes `\r\n` |
| Compile.Mark | tasks/yomb.js:306 | a mark starts with `<` |
| Compile.MergeMarks | tasks/yomb.js:379-386 | draining the queue substitutes each processor's result for its mark, in queue order |
| Compile.Merged | tasks/yomb.js:379-386 | a template without `<` holds no mark and is unchanged by the merge, whatever the results |
| Compile.MarkFilled | tasks/yomb.js:384 | a mark between texts without `<` is replaced by exactly its result |
| Compile.GetUglified | tasks/yomb.js:169-178 | blank content gives the empty text; a falsy level gives the banner followed by the unchanged content; only a truthy level reaches uglify-js |
| Compile.InlineUnchanged | tasks/yomb.js:173-178 | an inline script without a banner at level 0 is returned as it is |
| Compile.NodeModule | tasks/yomb.js:430-431 | a NODE module is the render function alone |
| Compile.AmdModule | tasks/yomb.js:432-437 | an AMD module opens with its named or anonymous `define(` and closes with `})` |
| Compile.PlainModule | tasks/yomb.js:438-442 | any other module assigns a self-called function to the template's object name and returns `exports` |
| Compile.ModuleText | tasks/yomb.js:427-478 | the header, the render function and the footer joined by line breaks; it carries no contract of its own, and the three rows above state each kind |
| Compile.CompileTmpl | tasks/yomb.js:420-495 | without a build root: the module text, its AMD header fixed by `fixDefineParams`, through the beautifier; it carries no contract of its own, and the three module rows above and `Define.FixReadBack` state its parts |
| Bundle.Live | tasks/yomb.js:550-551 | the queue runs up to the first empty id |
| Bundle.DepPiece | tasks/yomb.js:552-571 | a dependency is skipped iff its file is an ancestor, and it is unread only when it is a script without a file |
| Bundle.RootPiece | tasks/yomb.js:574-582 | a script input whose targets need no folding, with neither `define(` nor `module.exports`, is its content unchanged |
| Bundle.GetBuiltAmdModContent | tasks/yomb.js:535-586 | it calls back unless the input is being built further up, and a failed build names an id without a file |
| Bundle.Assemble | tasks/yomb.js:549-582 | the `mergeOne` loop computes the bundle of the reference reading |
| Bundle.GatherMeaning | tasks/yomb.js:549-574 | gathering fails iff some id cannot be read, and then on the first one; otherwise it keeps every piece that is not skipped, in order |
| Bundle.SkippedOmitted | tasks/yomb.js:555-558 | a dependency whose file is an ancestor leaves no trace in the bundle |
| Bundle.FirstUnread | tasks/yomb.js:572 | the build fails on the first unreadable dependency |
| Bundle.BundleShape | tasks/yomb.js:575-582 | the bundle is the pieces joined by blank lines, then the input's piece, or a failure |
| Bundle.AllSkipped | tasks/yomb.js:575-582 | with every dependency skipped the bundle is the input's piece alone |
| Bundle.JoinSnoc | tasks/yomb.js:582 | joining one more part appends the separator and that part |
| Bundle.CompileTmplBuilt | tasks/yomb.js:485-488 | a template built as a root always calls back |

## Left out

- File system, `grunt.file.write`, `exec`, logging and the clock are not modelled. File contents are `files` maps and the clock is `now`.
- uglify-js, less, cssmin and coffee-script are not modelled. Levels above 0 of `getUglified` come back as None at the point where the parser would take over. The beautifier is a parameter.
- `checkCondition` and its `eval`, `getLangResource`, the directory walkers (`buildOneDir`, `copyOne`), `isSrcDir` and the Gruntfile are not part of this model.
- `getIncProcessed` before its mark queue is not modelled: the property and language passes, the `cssmin`/`uglify`/`base`/`include` comments, and the inline script pass at yomb.js:388-407. Its output for a template is the `processed` parameter of `Bundle.Env`.
- The include processors are the `results` input of `Compile.MergeMarks`. The double callback that `getIncProcessed` makes on a circular reference (yomb.js:281-284) is not modelled.
- The id arithmetic of `traversalGetRelativeDeps` (yomb.js:242-244) is the `resolve` parameter. The file read at yomb.js:254-259 is `files[id]` under the resolved id, and a missing key is the missing file. The separate `fileOf` parameter is the file lookup of `Bundle.Env` only, used for the ancestor test of `getBuiltAmdModContent`.
- Regular expressions are modelled one pattern at a time, as scanners. There is no general regular-expression engine.
- `Lang.ReplaceLang`: `langRegExp.test` on a global pattern moves `lastIndex`. The model treats the test as a plain search.
- `Strings.ToUpper`, `Strings.ToLower`: case folding covers ASCII letters only.
- `TemplateShapes.LiteralText`: stated for text without U+2028 and U+2029, which the `.` of the lazy match does not cross.
- `TemplateShapes.KeptRoundTrip`: the read-back (`Unquote`) understands only the `\n`, `\\` and `\'` escapes that the compiler writes.
- `TemplateShapes.RemovalByLine`: states the removal line by line. It does not prove that the fixed lines of `render` have no empty push.
- `Compile.GetUglified`: the level is a JavaScript value, and only its truthiness is used.
- `Utils.CloneObject`: nested values are immutable values here, so deep copying cannot be observed. This includes the `++_level` counter, which grows per property rather than per depth.
- `Json.Member`: prototype members are not modelled, and numbers are integers, so NaN is not.
- `Bundle.DepPiece`: a template dependency is always compiled. A template file that cannot be read is not modelled as a failure.
- `Paths.IsPathProtectedAsWritten`: only `.` is read as a metacharacter of the root. The others (`+ * ? ( ) [ ] { } ^ $ | \`) are read literally, and the SyntaxError that `new RegExp` throws on an unbalanced `(` or `[` is not modelled.
- `Paths.Blocker`, `Paths.FirstBlocker`, `Paths.ProtectCheck`, `Paths.Output.WriteFileSync`: these use the literal protection test `Paths.IsPathProtected`, the corrected reading of yomb.js:105, not the pattern as written. A root with a `.` or another metacharacter can therefore block differently in the code, and the throw of `new RegExp` is not modelled.
- `Define.NewArray`, `Define.FixDefineParams`: these use the corrected merge `Define.MergedArray`, so `[]` with a body dependency `a` gives `['a']` where the code writes `[, 'a']`. Define.Fix, Define.FixReadBack, Compile.CompileTmpl and Bundle.DepPiece inherit this.
- `Define.MergedArrayAsWritten`: the replacement string of `String.prototype.replace` is inserted literally. The `$&`, `` $` ``, `$'` and `$$` patterns it would expand are not modelled, so a body dependency containing `$` is not covered.
- `Utils.ExtendKey`, `Utils.ExtendKeys`, `Utils.ExtendObject`: these compute the bounded merge `Utils.ExtendBounded`, not the merge as written (`Utils.ExtendAsWritten`), where `deepLevel || 3` at utils.js:16 restarts each nested call at level 3.
- `Utils.ExtendObject`: nested records are values here. At utils.js:20 the source mutates a nested origin object in place, and at utils.js:22 it shares references. So with `origin = {a: S, b: S}`, extending both `a` and `b` updates the one object `S` twice in the source, but yields two separate copies here. An object extended into an array origin keeps only the keys that are indices below the array's length (the `Arr` case of `Utils.Merge`); JavaScript would store the others too. The program's own calls (yomb.js:1074, 752-785, 1142-1239) merge flat option records, where neither difference arises.
- `Deps.BodyDeps`: `got = {}` at yomb.js:195 inherits from `Object.prototype`, so in the source `require('constructor')` or `require('toString')` is never listed as a dependency. The model lists it like any other target.
- `TemplateComposition.RawTagBetween`, `TemplateComposition.EscapedTagBetween`, `TemplateComposition.TextPassesBetween`: composition is proved for one tag between two literal texts. Statement, back and push-target tags in context, and templates with several tags, are covered only by the one-tag lemmas of `TemplateShapes`.
- The beautifier applied twice by `compileTmpl` with a build root is modelled, but nothing is proved about its output.

## Findings

| source | as written | input that shows it | evidently intended | confidence | as-written member | corrected member |
|---|---|---|---|---|---|---|
| tasks/lib/utils.js:16-20 | the nested call receives `deepLevel - 1`, and `deepLevel \|\| 3` turns 0 back into 3, so the depth limit never takes effect | `extendObject({a: {b: {x: 1}}}, {a: {b: {y: 2}}}, false, 1)` merges `b` | the level only decreases, so merging stops below level 1 | medium, not executed | Utils.ExtendAsWritten, Utils.DepthResetCounterexample | Utils.ExtendBounded, Utils.DepthBoundedExample |
| tasks/yomb.js:105 | the protected root is put into a regular expression unescaped | root `/a.b` protects `/axb/c` | the root is compared as literal text | high, not executed | Paths.IsPathProtectedAsWritten, Paths.DotRootCounterexample | Paths.IsPathProtected, Paths.PlainProtected |
| tasks/yomb.js:516 | body dependencies are appended with `, ` before the closing bracket, also to an empty array | `define([], …)` with a body dependency `a` becomes `define([, 'a'], …)` | `['a']`, without a hole | high, not executed | Define.MergedArrayAsWritten, Define.EmptyArrayHole | Define.MergedArray, Define.MergedArrayEntries |
