# Verified model of koki/short

`short` translates between Kubernetes manifests and Koki's shorter form. This project models, in
Dafny 4.11, the parts of it whose correctness is not visible from reading one function, and proves
what they promise:

- **Modules and templates** (`Outcomes`, `Values`, `Holes`, `Templates`, `TemplateLaws`, `Stability`,
  `ModuleTrees`, `ModuleLaws`, `ImportExamples`, `Acyclic`, `PlainModules`, `Relapse`, `Evaluator`,
  `Endings`, `ModuleFiles`, `ReadingLaws`, `FileGraphs`, `Loading`). A Koki file imports other files,
  defines params and holds one template. Evaluation is lazy, memoised, mutually recursive through a resolver closure,
  and walks Go maps in arbitrary order. `ModuleTrees.EvalModule` says what a module means, with no
  state, memo or order; the methods of `Evaluator` overwrite `Module` and `Import` objects as the Go
  code does and are proved against it, in what they return, in what they leave behind after a failure,
  and in whether they end. What the denotation itself means is said one name, hole and item at a time by
  `TemplateLaws` and `ModuleLaws`, and for the repository's own example files by `ImportExamples`. Reading files into those objects, and reading and evaluating
  together, are proved on top.
- **Struct fields** (`Sorting`, `FieldOrder`, `Embedding`, `EmbeddingTheorems`, `Dominance`, `GoRule`, `Folding`,
  `FieldCache`). The breadth-first search over embedded structs, the in-place compaction by
  dominance, the specialised case-folding functions, and the cache shared by goroutines.
- **Selectors and affinity** (`Text`, `Numerals`, `Selectors`, `SelectorMeaning`,
  `SelectorRoundTrips`, `SelectorLaws`, `LabelExprs`, `Affinity`, `NodeAffinities`, `PodAffinities`,
  `AffinityRoundTrip`, `NodeConstraints`, `NodeEqualities`). A parser and a printer of a small language, and what their
  composition keeps.
- **Workloads** (`Workloads`). Selectors and template labels of replica sets and their kin.
- **Pager** (`ViewBuffers`). Scrolling and cyclic search over lines read on demand.
- **Names and modes** (`Names`, `Subjects`, `FileModes`). Escaped names, role subjects, octal modes.

How Go calls end is modelled by `Outcome`: `Ok`, `Fail` (an error) or `Crash` (a panic, or recursion
that exhausts the stack). The recursive methods take a number of `frames`, the nested imports the stack
still has room for; running out of it is `Crash`, and the theorems say how many frames rule that out.
`Safe` in `Evaluator` is that condition: enough frames, a meaning that is no crash, and, for a run that
fails, either `Calm` text and values (one of the characters `$`, `{`, `}` stands in holes only, so what is
substituted has no holes) or strings with one hole each. It follows from the text of an acyclic module
(`Endings.AcyclicIsSafe`).

Places where the code does not keep what one would expect are proved, too, with an input that shows it
and, but for the third, the exact condition under which it does:

- files that import each other in a circle are not detected: they unfold exactly when they lead to no
  circle, of any length (`FileGraphs.UnfoldsExactly`, `SelfImportCrashes`);
- nor are imports of one module that need each other: where no index is negative, a module that does not
  fail evaluates exactly if it is acyclic, all modules below it included, and recurses without end exactly
  if it is not (`Acyclic.AcyclicExactly`, `SelfReferenceCrashes`; of a run, `Endings.CircleIsDoomed`);
- a failed import keeps its substituted params, and a string with several holes goes on after the first
  one has failed: so a module without any circle, which means a failure, can recurse without end
  (`Endings.RetryRelapses`, `RetryMeansFailure`);
- a negative list index panics, and so does an empty segment in a selector or a node term
  (`Values.AtPathPanics`, `Selectors.ParsePanics`, `Affinity.NodeSegmentsPanic`, with
  `Values.MinusOnePanics`, `Selectors.AmpersandPanics`, `Affinity.OnlySoftPanics`);
- two single-value equalities on one key are lost in printing, which changes the meaning unless the rest
  cannot be met either (`SelectorRoundTrips.PrintingKeepsMeaning`, `SelectorMeaning.Hopeless`,
  `ConflictIsLost`);
- a node selector comes back as an alternative to the required node terms, not as a further condition,
  field requirements are dropped, and a required list of empty terms, which matches no node, comes back
  as no requirement at all (`NodeConstraints.NodeConstraintKept`, a condition on what the terms mean;
  `NodeEqualities.EqualitiesKept`, a check of the terms themselves where they ask for equalities only;
  `SelectorBecomesAlternative`, `EmptyTermBecomesAny`);
- template labels are lost beside an empty selector, or gained from a selector of nothing but equalities
  (`Workloads.KubeKokiKube`, `EmptySelectorLosesLabels`);
- a field that Go calls ambiguous is kept when its paths do not part in the last step
  (`GoRule.GoRuleExactly`, `AmbiguousFieldKept`);
- a search asked to stop at a line that is not there goes round for ever if there is nothing to find
  (`ViewBuffers.Endless`, `EndlessNeverEnds`), and one begun at a negative line panics unless it stops at
  once (`ViewBuffers.ViewBuffer.SearchFromLine`);
- a key with a file mode survives only with a mode of three octal digits (`FileModes.KeyWithModeRoundTrip`).

## Model

| member | source | states |
|---|---|---|
| Evaluator.EvalContext.EvaluateModule | imports/eval.go:45-71 | The params in force are the arguments and, for params not given, the defaults. On an untouched object tree, success leaves the module's raw export equal to its denotation, typed, with exactly the imports evaluated that the export's holes reach through params of reached siblings; each was substituted once from its own text. Failure means the denotation does not succeed, and if nothing substituted has holes it leaves the module as it was, every import below untouched, evaluated, or failed for good, so that evaluating again fails again. It does not crash, with frames for the module's depth and a denotation that is no crash, if it succeeds, or nothing substituted has holes, or no string has two. It overflows the stack, whatever the frames, on an export of strings whose first hole leads into a circle of siblings, or of strings that need an import again which they have left circular. A module already evaluated is left alone |
| Evaluator.EvalContext.EvaluateImport | imports/eval.go:23-43 | Keeps every import untouched, completely evaluated or (where nothing substituted has holes) failed for good, evaluates this one, and on the way only imports its params reach; an import that was evaluated is not evaluated again. A failure with params that lead back to the import leaves it trapped, and a trapped import overflows every stack |
| Evaluator.EvalContext.EvaluateExport | imports/eval.go:73-90 | The raw export becomes the filled template, and exactly the imports it needs are evaluated |
| Evaluator.EvalContext.FillMissing | imports/eval.go:50-62 | Each argument is kept, each missing param with a default other than nil gets exactly that default, and nothing else is added, in whatever order the definitions are walked |
| Evaluator.EvalContext.Resolve | imports/template_resolver.go:11-48 | Params shadow imports, the first import of a name counts; a result is the order-free lookup of the identifier while the imports still open stay open |
| Evaluator.EvalContext.ResolveImport | imports/template_resolver.go:27-43 | Triggers the evaluation and then reads the only entry of the export; the result is what lookup denotes |
| Evaluator.EvalContext.ReplaceAny | template/template.go:42-55 | Filling any value while imports get evaluated gives what filling means in the final state, and touches only imports the value's holes reach |
| Evaluator.EvalContext.ReplaceMap | template/template.go:57-68 | The same for maps: no iteration order changes the result or whether there is one |
| Evaluator.EvalContext.ReplaceInOrder | template/template.go:57-68 | The same for a given order of the keys; a first entry that names nothing makes it fail, and one that leads into a circle overflows every stack, whatever the other entries are |
| Evaluator.EvalContext.ReplaceSlice | template/template.go:70-94 | The same for lists, spreads spliced in place |
| Evaluator.EvalContext.GetSpread | template/template.go:102-123 | Recognises exactly the spread holes, touches nothing otherwise, and accepts only lists |
| Evaluator.EvalContext.ExpandString | template/template.go:140-153 | Recognises exactly the strings that are one hole, and gives the resolved value itself |
| Evaluator.EvalContext.FillString | template/template.go:155-182 | Success is text and rendered values in order. All holes are resolved even after one has failed: where nothing substituted has holes that is harmless, the run ends and the imports stay as described; where the first hole leaves an import circular that the second needs, it overflows every stack |
| Evaluator.EvalContext.EvaluatedDenotes | imports/eval.go:24-41 | The memo is right: an evaluated import's raw export is what evaluating it from scratch means |
| Endings.AcyclicIsSafe | imports/eval.go:45-71 | A check on the text that makes evaluation end, whether it succeeds or fails, with frames for the depth: sibling references without circle, no negative index, and one of the characters of a hole nowhere but in holes, in text, arguments and defaults (or at most one hole in a string) |
| Endings.CircleIsDoomed | imports/eval.go:23-43 | Siblings that lead to each other in a circle of any length meet the condition under which EvaluateExport and EvaluateModule overflow every stack |
| Endings.SelfReferenceIsCircle | imports/eval.go:29-33 | The import whose params need itself is such a circle |
| Endings.RetryRelapses | template/template.go:155-182 | An import with an unknown name, needed twice in one string: the module meets the condition under which EvaluateModule overflows every stack |
| Endings.RetryMeansFailure | imports/eval.go:29-38 | That module has no circle and no negative index, and its denotation is a failure |
| Endings.OrderDecides | template/template.go:57-68 | One and the same map, in two orders of its keys: by what ReplaceInOrder ensures it fails in one and overflows every stack in the other |
| PlainModules.ModulePlain | imports/eval.go:45-90 | If one of the characters of a hole stands only in holes, and not in arguments and defaults, what a module evaluates to lacks it |
| PlainModules.ArgsPlain | imports/eval.go:29-33 | And so have the params of its imports once substituted |
| ModuleTrees.EvalImportMonotone | imports/eval.go:23-43 | Having fewer sibling imports under way can turn a crash into a result but changes no result |
| ModuleTrees.OwnStackIrrelevant | imports/eval.go:29-33 | If an import's params can be filled at all, they do not lead back to it |
| ModuleTrees.ReachedOffStack | imports/template_resolver.go:26-43 | What was filled reached no import that was under way, through however many siblings |
| ModuleLaws.ParamsInForce | imports/eval.go:50-62 | An argument is used as given, a param that is not given has its default, if it has one, and no other name is bound |
| ModuleLaws.OneHoleExport | imports/eval.go:45-90 | A module that exports one name alone evaluates to the argument of that name, or else to its default; it fails if there is neither, nor an import |
| ModuleLaws.ParamByName | imports/template_resolver.go:16-23 | A name with a path is that path in the param of the name |
| ModuleLaws.ImportByName | imports/template_resolver.go:26-43 | Or else in the only entry of the first import of the name, failing or crashing as that import does, and failing if its export has not exactly one entry |
| ModuleLaws.UnknownName | imports/template_resolver.go:46 | A name of neither is an error |
| ModuleLaws.ImportTakesParams | imports/eval.go:29-36 | An import is its module, evaluated with the import's own params as the siblings fill them |
| ImportExamples.ImportParamsMean | testdata/imports/import_params.after.yaml:1-7 | The example evaluates to what this file says: a default used, an argument passed, a list imported whole, by index and spread |
| ImportExamples.CombinedImportsMean | testdata/imports/combined_imports.after.yaml:1-4 | So does this one, in which one import's params need another import |
| ImportExamples.ImportDepthTwoMeans | testdata/imports/import_depth_two.after.yaml:1-5 | And this one, in which an argument goes through to the params of an import's import |
| ImportExamples.ParamMissing | testdata/imports/params.yaml:1-7 | Without an argument for the param that has no default the example is an error |
| Acyclic.ModuleDoesNotCrash | imports/eval.go:45-71 | If sibling references do not go in a circle (a name bound by a param is no reference) and no identifier has a negative index, the denotation is no crash, for all arguments |
| Acyclic.SuccessIsAcyclic | imports/eval.go:23-71 | Conversely, a module that evaluates is acyclic: it, and every module below that it needs |
| Acyclic.AcyclicExactly | imports/eval.go:23-71 | Where no index is negative, a module that does not fail evaluates if and only if it is acyclic, and crashes if and only if it is not |
| Acyclic.NeededEvaluates | imports/template_resolver.go:26-43 | If a module evaluates, every import that its export needs, however indirectly, was evaluated, and does not need itself |
| Acyclic.SelfReferenceCrashes | imports/eval.go:29-33 | The smallest circle: an import whose params need itself crashes |
| ModuleFiles.Files.Parse | imports/imports.go:12-33 | Builds fresh, untouched, unshared objects whose trees are what the declarations say: for each object of the file, in order, its imports in order, each with the name, the params and the first module of the file that its declaration gives, its params with the last definition of each name, and the one entry left as export. They are the trees the files unfold to, and it fails as they do, unless a declaration has two keys each of which may be its name (then Go's map order decides which) |
| ModuleFiles.Files.ParseComponent | imports/imports.go:35-63 | One module: imports, then params, then exactly one remaining resource, or an error |
| ModuleFiles.Files.ParseImports | imports/imports.go:117-144 | The imports in order, all separate objects, or the first error |
| ModuleFiles.Files.ParseImport | imports/imports.go:146-187 | A fresh import with the name its declaration gives besides the params, the params given there or none, and the first module of the file named; a file without modules crashes |
| ModuleFiles.Files.ReadKeys | imports/imports.go:155-173 | Name, path and params from the keys of a declaration in any order |
| ModuleFiles.ParseParamDefs | imports/imports.go:65-88 | The map of definitions, the last one of each name, and no other names |
| ModuleFiles.ReadDefKeys | imports/imports.go:95-110 | Name, description and default from the keys of a definition in any order |
| ReadingLaws.TreesRead | imports/imports.go:12-187 | Whatever trees the declarations allow are read, if no map order decides |
| ReadingLaws.TreesAllowed | imports/imports.go:12-187 | And nothing else is read |
| ReadingLaws.EmptyFileCrashes | imports/imports.go:180-184 | An import of a file that holds no module is an index out of range |
| FileGraphs.UnfoldingEnds | imports/imports.go:180-184 | Files that do not import each other in a circle, nor import an empty one, unfold within as many nested imports as the first one's rank |
| FileGraphs.CircleFails | imports/imports.go:180-184 | A file on a circle of import declarations, of any length, never unfolds, whatever the room |
| FileGraphs.UnfoldingIsAcyclic | imports/imports.go:180-184 | Whatever unfolds leads to no circle, however far away |
| FileGraphs.UnfoldsExactly | imports/imports.go:180-184 | Among finitely many files that can be read, one unfolds (and then with as many frames as there are files) exactly when it leads to no circle; otherwise it crashes, whatever the room |
| FileGraphs.SelfImportCrashes | imports/imports.go:180-184 | A file that imports itself unfolds without end, whatever the room |
| Loading.LoadKokiFiles | cmd/short.go:29-61 | Returned modules are, in order, the modules of the files, each with its denotation as raw export and without a type error; and if all of them denote something that can be typed, they are returned |
| Loading.EvaluateAll | cmd/short.go:43-57 | Evaluating one module of a file leaves the others untouched; all are loaded if all can be |
| Values.AtPathConcat | util/objutil/path.go:9-43 | Following a long path is following its halves in turn |
| Values.AtPathIndex | util/objutil/path.go:17-30 | A printed index picks that item, and fails past the end |
| ModuleLaws.PartsOf | util/objutil/path.go:14-42 | A key picks the entry of a map and fails if there is none, a number picks the item of a list, and nothing else has parts |
| Values.AtPathPanics | util/objutil/path.go:17-30 | Following a path panics exactly when it gets to a list and the next segment reads as a negative number |
| Values.NegativeIndexPanics | util/objutil/path.go:17-30 | Every path with such a segment, anywhere, panics on some value |
| Holes.ParseCuts | template/template.go:96-100 | Cutting a string into text and holes loses nothing and misses no hole |
| Holes.ParseUnique | template/template.go:155-157 | There is only one way of cutting that misses no hole |
| Templates.ReplaceMonotone | template/template.go:42-55 | The result depends only on what the template's own identifiers resolve to |
| Templates.FillResolves | template/template.go:155-182 | A string is filled exactly when each of its holes resolves to a string or number |
| Templates.ReplaceResolves | template/template.go:42-55 | A filled template had every hole resolved |
| Templates.NoHolesNoChange | template/template.go:42-55 | A template without holes comes back unchanged |
| Templates.ReplaceItemsConcat | template/template.go:70-94 | Lists are flattened piecewise and in order, the first failing piece deciding |
| Templates.ReplaceCrashes | template/template.go:42-55 | Filling crashes only where resolving does |
| TemplateLaws.HoleBecomesValue | template/template.go:140-153 | A string that is one hole becomes the value it names, whatever its kind |
| TemplateLaws.TextAroundHole | template/template.go:155-182 | A hole within text is replaced by a string or by a number's digits, between the text before and after it |
| TemplateLaws.TextRejects | template/template.go:155-182 | Any other value within text is an error |
| TemplateLaws.HoleByHole | template/template.go:155-182 | With more holes: text, what fills the first, and the rest |
| TemplateLaws.ScalarsStay | template/template.go:42-55 | Text without holes and values that are no text stay as they are |
| TemplateLaws.MapByEntry | template/template.go:57-68 | A map keeps its keys, and each entry is replaced |
| TemplateLaws.SpreadSplices | template/template.go:70-94 | A spread contributes the items of its list in place, and is an error for any other value |
| TemplateLaws.ItemStays | template/template.go:70-94 | Any other item contributes exactly one value, what it is replaced by |
| Stability.FilledIsFinal | template/template.go:155-182 | If one of the characters of a hole stands only in holes, and inserted values lack it, filling again changes nothing |
| Stability.WrittenIsClean | template/template.go:155-182 | Text written with any number of holes between pieces without that character meets the condition: for one, JSON text without `$` |
| Stability.NestedHoleReappears | template/template.go:155-182 | Otherwise it does: a hole inside `${` and `}` becomes a hole |
| Embedding.Collect | yaml/fields.go:131-211 | The queue loops compute the candidate list level by level, and end on every finite type graph |
| Embedding.Scan | yaml/fields.go:157-209 | One struct's fields: recorded ones appended (twice if the struct was queued twice), embedded ones queued once and counted |
| EmbeddingTheorems.VisitsExactly | yaml/fields.go:146-155 | The search explores each reachable struct exactly once, by its least path: shortest, then first by index |
| EmbeddingTheorems.CandidatesExactly | yaml/fields.go:182-202 | Candidates are exactly the recorded fields of reachable structs by least path, following the index leads to the field, and doubled exactly when the struct is embedded again at its depth |
| EmbeddingTheorems.CandidateAt | yaml/fields.go:157-202 | Each exported struct field that its tag does not skip is a candidate under its tag's name or else its own, with its type and options, unless it is an embedded struct without a tag |
| EmbeddingTheorems.FollowStep | yaml/fields.go:204-209 | A path goes on exactly through exported embedded structs without a tag |
| EmbeddingTheorems.FieldsCount | yaml/fields.go:157-202 | One struct records exactly such fields, each once, or twice if the struct was queued twice |
| Dominance.DominantField | yaml/fields.go:255-285 | Among depth-sorted fields of one name: the one field that is less deep than each other, or as deep and alone tagged; or none if there is no such field |
| Dominance.NextGroup | yaml/fields.go:225-234 | The run of fields that share a name |
| Dominance.Compact | yaml/fields.go:218-244 | Overwriting the front of the array being read leaves exactly the survivors of the whole, each name once |
| Dominance.TypeFields | yaml/fields.go:131-250 | The result holds exactly the dominant candidates, each name once, strictly in index order; each is the struct field its index leads to, exported and not skipped, under its tag's name or else its own, with its type and options |
| Dominance.SurvivorsAreDominant | yaml/fields.go:213-244 | Surviving in the candidate list is winning, as the only one, over all reachable fields of that name |
| GoRule.GoRuleExactly | yaml/fields.go:203-207 | Go's rule over all paths selects a field exactly when typeFields keeps it and no other equally short path leads to its struct |
| GoRule.AmbiguousFieldKept | yaml/fields.go:203-207 | A diamond of embeddings in which typeFields keeps a field that Go calls ambiguous |
| GoRule.LeastExists | yaml/fields.go:131-211 | Every struct that some path reaches has a least path |
| FieldOrder.ByNameIsOrder | yaml/fields.go:90-106 | byName is a total order up to equal keys, fit for sorting |
| FieldOrder.ByIndexIsOrder | yaml/fields.go:110-126 | So is byIndex |
| FieldOrder.OrderOfFields | yaml/fields.go:90-126 | By name; then less deep first; then tagged first; then by index, where the first difference decides, the smaller first |
| FieldOrder.NameFirstDifference | yaml/fields.go:92-94 | Names are ordered by the first character in which they differ, and a prefix comes first |
| Folding.ChosenFold | yaml/fields.go:357-383 | The function chosen for a name agrees with general UTF-8 folding on every byte string, Kelvin sign, long s and malformed input included |
| Folding.FoldFunc | yaml/fields.go:357-383 | The choice meets the precondition of the function chosen |
| Folding.EqualFoldRight | yaml/fields.go:385-431 | Agrees with general folding for ASCII names |
| Folding.AsciiEqualFold | yaml/fields.go:433-455 | Agrees with it for ASCII names without k and s |
| Folding.SimpleLetterEqualFold | yaml/fields.go:457-467 | Agrees with it for letters other than k and s |
| Folding.DecodesTwo | yaml/fields.go:385-431 | What the comparison reads: a character of two bytes in UTF-8, by its number, whatever follows |
| Folding.DecodesThree | yaml/fields.go:385-431 | And of three bytes, surrogates apart |
| Folding.DecodesFour | yaml/fields.go:385-431 | And of four |
| Folding.AsciiLetters | yaml/fields.go:357-383 | Single ASCII characters fold to each other when they are the same letter in two cases, or the same |
| Folding.SpecialLetters | yaml/fields.go:345-356 | The bytes of the Kelvin sign fold to k and K, those of the long s to s and S |
| FieldCache.RunsAreCorrect | yaml/fields.go:287-315 | In every interleaving of any number of calls the lock, the cache and every call in progress are right |
| FieldCache.ReturnsOwnFields | yaml/fields.go:293-315 | Every call returns typeFields of its own type, nil as empty |
| FieldCache.WritersAreAlone | yaml/fields.go:308-313 | Nobody holds the lock while another writes the map |
| Selectors.ExprSpelling | parser/expressions/expr.go:16-50 | A parsed expression is spelled by exactly the text it came from |
| Selectors.ParseLabelSelector | parser/expressions/labelselector.go:14-77 | The loop computes the selector of the segments, errors and the panic on an empty segment included |
| Selectors.ParsePanics | parser/expressions/labelselector.go:14-30 | Parsing panics exactly at an empty segment that only segments that parse come before |
| Selectors.UnparseLabelSelector | parser/expressions/labelselector.go:79-119 | Prints labels in the order of the map iteration, then requirements |
| SelectorLaws.RequirementSpelled | parser/expressions/labelselector.go:94-116 | key=a,b and key!=a,b and key and !key; other operators are an error |
| SelectorLaws.SelectorSpelled | parser/expressions/labelselector.go:79-119 | Labels first, then requirements, with an ampersand between |
| SelectorLaws.LabelsSpelled | parser/expressions/labelselector.go:84-93 | Each label is key=value, with an ampersand between |
| SelectorLaws.SegmentsRead | parser/expressions/labelselector.go:20-62 | Each of these forms read, a single equality as a label |
| SelectorRoundTrips.ParsedTextIsStable | parser/expressions/labelselector.go:14-119 | For every string that parses, whatever its characters: printing in any label order and parsing again gives the same selector |
| SelectorRoundTrips.PrintingKeepsMeaning | parser/expressions/labelselector.go:54-62 | For every well-formed selector and label order: what parse after print gives, and that it selects the same label maps exactly when no key carries two different single-value equalities or a check of the requirements left finds one that cannot be met |
| SelectorMeaning.HopelessExactly | parser/expressions/labelselector.go:54-62 | That check (an equality that another requirement rejects, presence against absence, every value of an In rejected) finds something exactly in the selectors that select nothing |
| SelectorRoundTrips.ConflictIsLost | parser/expressions/labelselector.go:57-60 | Two different values for one key, as label and as single-valued In: such a selector changes its meaning |
| SelectorRoundTrips.RequirementReads | parser/expressions/labelselector.go:94-116 | Each printed requirement is read back, single-valued In as a label |
| SelectorRoundTrips.GatherMeans | parser/expressions/labelselector.go:20-74 | Collecting segments into a map and a list loses no condition unless labels contradict each other |
| LabelExprs.ConvertMatchLabelsToExprs | converter/converters/kube_v1_pod_to_koki.go:1526-1533 | The sorted expressions do not depend on the iteration order |
| LabelExprs.AnyKeyFirst | converter/converters/kube_v1_pod_to_koki.go:1526-1533 | Sorting in the keys in any order gives the same list |
| LabelExprs.ExprsOrder | converter/converters/kube_v1_pod_to_koki.go:1526-1533 | The list is the expressions of all labels, each once |
| LabelExprs.ExprsSorted | converter/converters/kube_v1_pod_to_koki.go:1526-1533 | The list is sorted |
| Affinity.ConvertExprs | converter/converters/kube_v1_pod_to_koki.go:1331-1348 | The expressions of a term in order, or the error for an unknown operator |
| Affinity.ParseNodeExprs | converter/converters/affinity/koki_affinity_to_kube_v1_affinity.go:258-305 | The requirements of all segments in order, or the first error or panic |
| Affinity.NodeRequirementReads | converter/converters/affinity/koki_affinity_to_kube_v1_affinity.go:262-301 | Each printed requirement, Gt and Lt included, is read back exactly |
| Affinity.NodeSegmentsPanic | converter/converters/affinity/koki_affinity_to_kube_v1_affinity.go:258-272 | Parsing a node term panics exactly at an empty segment that only segments that parse come before |
| Affinity.OnlySoftPanics | converter/converters/affinity/koki_affinity_to_kube_v1_affinity.go:214-256 | A node affinity of nothing but the mark :soft panics |
| Affinity.MarkReads | converter/converters/affinity/koki_affinity_to_kube_v1_affinity.go:217-249 | Whatever 32-bit weight marks a term, the mark is cut off and read back; no weight is the default |
| Affinity.NodeTermRoundTrip | converter/converters/kube_v1_pod_to_koki.go:1327-1387 | A node term, hard or soft, is read back exactly |
| SelectorLaws.NodeRequirementSpelled | converter/converters/kube_v1_pod_to_koki.go:1331-1348 | For nodes also key>a and key<a |
| SelectorLaws.NodeSegmentsRead | converter/converters/affinity/koki_affinity_to_kube_v1_affinity.go:258-305 | Each form of a segment of a node term, read |
| SelectorLaws.TermSpelled | converter/converters/kube_v1_pod_to_koki.go:1350-1387 | Expressions with ampersands between; :soft marks a preferred term, :soft:n one with a weight |
| SelectorLaws.NodeMarksRead | converter/converters/affinity/koki_affinity_to_kube_v1_affinity.go:214-249 | A term is hard unless marked; for nodes the mark alone is weight 0 |
| SelectorLaws.PodMarksRead | converter/converters/affinity/koki_affinity_to_kube_v1_affinity.go:132-176 | For pods it is weight 1 |
| SelectorLaws.TermsInOrder | converter/converters/kube_v1_pod_to_koki.go:1320-1390 | Required terms are walked first, then preferred ones, each list in order |
| NodeAffinities.ConvertNodeAffinity | converter/converters/kube_v1_pod_to_koki.go:1320-1390 | One text for each term with expressions, required terms first |
| NodeAffinities.SplitAndRevertNodeAffinity | converter/converters/affinity/koki_affinity_to_kube_v1_affinity.go:214-256 | Hard and soft terms in separate lists, each in order, or the first error or panic |
| NodeAffinities.NodesRoundTrip | converter/converters/kube_v1_pod_to_koki.go:1320-1390 | All node terms come back with operators, values, weights (0 included) and order; only empty terms and field requirements are dropped |
| NodeAffinities.NodeAffinityUnchanged | converter/converters/affinity/koki_affinity_to_kube_v1_affinity.go:189-212 | A node affinity comes back identical exactly when it has a term, no empty required list, no empty term and no field requirement |
| PodAffinities.ConvertPodAffinityTerms | converter/converters/kube_v1_pod_to_koki.go:1478-1523 | One entry for each required pod term that selects by something |
| PodAffinities.ConvertPodWeightedAffinityTerms | converter/converters/kube_v1_pod_to_koki.go:1428-1476 | The same for preferred terms, with their weights |
| PodAffinities.ConvertPodAffinity | converter/converters/kube_v1_pod_to_koki.go:1392-1426 | Required entries, then preferred ones, or the first error |
| PodAffinities.SplitAndRevertPodAffinity | converter/converters/affinity/koki_affinity_to_kube_v1_affinity.go:132-176 | Hard and soft terms in separate lists, each in order, or the first error or panic |
| PodAffinities.PodsRoundTrip | converter/converters/kube_v1_pod_to_koki.go:1428-1523 | Every pod term with a non-empty selector comes back in order with topology, namespaces and weight (0 becomes 1), and selects the same pods exactly when its selector has no two equalities on a key or the requirements left cannot be met |
| AffinityRoundTrip.ConvertAffinity | converter/converters/kube_v1_pod_to_koki.go:1281-1318 | Node selector, node, pod and anti-pod affinities in that order, or the first error |
| SelectorLaws.KindsInOrder | converter/converters/kube_v1_pod_to_koki.go:1281-1318 | One term of each kind becomes one Koki affinity each, node, pod, anti-pod, each in the field of its kind, with topology and namespaces |
| AffinityRoundTrip.SplitAffinities | converter/converters/affinity/koki_affinity_to_kube_v1_affinity.go:55-82 | Sorts affinities by kind, keeping order; one of no kind is an error |
| SelectorLaws.KindOf | converter/converters/affinity/koki_affinity_to_kube_v1_affinity.go:55-82 | An affinity is of the first kind it names, node before pod before anti-pod |
| AffinityRoundTrip.SortingSeparates | converter/converters/affinity/koki_affinity_to_kube_v1_affinity.go:55-82 | Takes every converted list apart again |
| AffinityRoundTrip.ConvertKokiAffinity | converter/converters/affinity/koki_affinity_to_kube_v1_affinity.go:15-45 | The three reversed parts, nothing for none, or the first error |
| AffinityRoundTrip.KubeKokiKube | converter/converters/affinity/koki_affinity_to_kube_v1_affinity.go:15-45 | Whole affinities there and back: node terms exactly, behind one more required term for the node selector; pod and anti-pod terms with the selector that printing leaves, the same pods exactly under the condition of PodsRoundTrip |
| NodeConstraints.NodeConstraintKept | converter/converters/kube_v1_pod_to_koki.go:1284-1300 | For any terms and any reading of operators, when the nodes a pod may run on stay the same, in terms of what selector and terms match: no required node affinity; or no node selector, and the terms match the same nodes by their expressions alone (or all are empty and match everywhere); or selector and terms match the same nodes, field requirements being dropped |
| NodeConstraints.BackMatches | converter/converters/kube_v1_pod_to_koki.go:1284-1300 | What the required terms match that come back: the node selector's nodes or those of the terms' expressions, whatever their fields |
| NodeConstraints.WithoutFields | converter/converters/kube_v1_pod_to_koki.go:1284-1300 | Where no term names fields, the condition is: no required node affinity; or no node selector and some non-empty required term; or selector and terms match the same nodes |
| NodeEqualities.EqualitiesKept | converter/converters/kube_v1_pod_to_koki.go:1284-1300 | Where all requirements, on labels and on fields, are equalities, a check of selector and terms that holds if and only if the nodes stay the same: with a selector, some term asks for no more than it and every term that can be met for no less; without one, no term asks for fields alone, and each one for fields besides labels is made up for by another |
| NodeConstraints.SelectorBecomesAlternative | converter/converters/kube_v1_pod_to_koki.go:1284-1300 | A node selector and a required term that come back admitting a node they did not admit |
| NodeConstraints.EmptyTermBecomesAny | converter/converters/kube_v1_pod_to_koki.go:1327-1333 | A required empty term admits no node and comes back admitting all |
| Workloads.ConvertRSLabelSelector | converter/converters/kube_replicaset_to_koki_replicaset.go:153-181 | The hoisted selector and the labels that stay, nil and empty maps told apart: a selector without expressions (or none) is hoisted as the labels that are in effect, a well-formed one with expressions as text that reads back as the same selector but for overwritten equalities; no labels stay with the template exactly when it has none, there is no selector, or the selector is the same labels and nothing else |
| Workloads.PushDown | converter/converters/koki_replicaset_to_kube_replicaset.go:176-209 | Labels are pushed down only into a template without labels and only from a selector without other requirements, and then they are the least labels it selects |
| Workloads.ApplyTemplateLabelsOverride | converter/converters/koki_replicaset_to_kube_replicaset.go:153-174 | Writes the labels into the metadata given, touches nothing else in it, and returns nil for metadata that is all zero |
| Workloads.ConvertReplicaSet | converter/converters/kube_replicaset_to_koki_replicaset.go:69-86 | The Koki selector is the labels, if there are any but no expressions, or text that reads back as the selector; the Koki template metadata is the template's without labels that were hoisted or are empty, and null if nothing is left |
| Workloads.RevertReplicaSet | converter/converters/koki_replicaset_to_kube_replicaset.go:69-96 | The Kubernetes selector is the labels or what the text reads as; the template has its own labels, or the selector's if it has none and there are no expressions, with empty maps as nil, and the rest of its metadata; the Koki metadata is rewritten to match |
| Workloads.KubeKokiKube | converter/converters/koki_replicaset_to_kube_replicaset.go:69-90 | For every workload whose selector expressions are well-formed: the exact conditions under which the template labels survive, and under which the effective selector (absent: the template labels) does; what that selector comes back as; name, namespace, cluster and annotations always do |
| Workloads.LowerTwice | converter/converters/koki_replicaset_to_kube_replicaset.go:79-80 | Converting the same Koki object again gives the same result, although the first time rewrote it |
| Workloads.LoweredIsStable | converter/converters/koki_replicaset_to_kube_replicaset.go:69-96 | Whatever a Koki object is converted to goes there and back unchanged, exactly unless its selector is present but empty, without even an empty map |
| Workloads.EmptySelectorLosesLabels | converter/converters/kube_replicaset_to_koki_replicaset.go:76-78 | An empty selector beside labelled pods: both selector and template labels are lost |
| ViewBuffers.ViewBuffer.CurrentView | pager/view_buffer.go:40-61 | Exactly min(height, lines) consecutive lines from the top line, which stays; no line is read that the page does not need |
| ViewBuffers.ViewBuffer.Scan | pager/view_buffer.go:63-79 | The lines read are always a prefix of the input |
| ViewBuffers.TopClamps | pager/view_buffer.go:40-61 | A page that fits begins where it is asked to; one too far up or down begins at the first line or shows the last |
| ViewBuffers.ViewBuffer.ScrollUp | pager/view_buffer.go:81-85 | One line up, not past the top |
| ViewBuffers.ViewBuffer.ScrollDown | pager/view_buffer.go:91-99 | One line down unless the end is in view, reading at most one line |
| ViewBuffers.ViewBuffer.ScrollDownN | pager/view_buffer.go:101-118 | n lines down, not past the end, nor past the lines already read while there are such below the page |
| ViewBuffers.ViewBuffer.ScrollToLine | pager/view_buffer.go:120-143 | The line asked for is at the top, as far as the ends allow; reads up to one line past the page |
| ViewBuffers.ViewBuffer.ScrollBottom | pager/view_buffer.go:145-152 | Reads everything and shows the last page |
| ViewBuffers.ViewBuffer.SearchFromLine | pager/view_buffer.go:154-186 | For any token, any line to start from and any line to stop at, unless the search is endless: it ends, after rounds of the loop, and finds the first match in a circle before that line (in all lines if it is not there), or that there is none; reads no further than a hit below. From a negative line it stops at once or panics |
| ViewBuffers.EndlessNeverEnds | pager/view_buffer.go:154-186 | Without a match, and with a line to stop at that is not there to be reached, the loop goes on after any number of rounds |
| ViewBuffers.ViewBuffer.Search | pager/view_buffer.go:188-206 | Goes to the next match after the last hit for this token, which the next view holds exactly if it has two lines or the hit is the first line; without a match the view stays. It panics exactly on the empty token |
| ViewBuffers.FindMeans | pager/view_buffer.go:154-186 | The cyclic search finds the first hit on the way, and none only if there is none |
| ViewBuffers.NextMatch | pager/view_buffer.go:188-206 | From the k-th match to the next, from the last to the first; a single match has no next |
| ViewBuffers.SearchesGoAround | pager/view_buffer.go:188-206 | k searches in a row go k matches further in a circle |
| ViewBuffers.EachMatchOnce | pager/view_buffer.go:188-206 | With m >= 2 matching lines, m searches in a row visit each exactly once |
| Names.EscapeName | types/name.go:11-24 | The loop computes the escaped name |
| Names.UnescapeName | types/name.go:26-44 | The loop computes the unescaped name |
| Names.SplitAtUnescapedColons | types/name.go:46-70 | The loop computes the pieces between unescaped colons |
| Names.EscapeEach | types/name.go:11-24 | A backslash before each colon and backslash, and every other character as it is, in order |
| Names.PlainEscape | types/name.go:11-24 | A name with neither is its own escape |
| Names.UnescapeEach | types/name.go:26-44 | The backslash before any character is dropped, and one at the end |
| Names.CutAfter | types/name.go:46-70 | A colon behind text without an unescaped colon or an open escape cuts there |
| Names.EscapeRoundTrip | types/name.go:11-44 | Unescaping undoes escaping for every name, and an escaped name is never cut |
| Names.JoinCut | types/name.go:46-70 | Joining the pieces by colons gives back any string |
| Names.JoinedNamesSplit | types/name.go:46-70 | Joining any names escaped and splitting gives them back |
| Subjects.Subject.Marshal | types/clusterrole.go:128-136 | A text that Unmarshal reads back as the subject exactly when its kind has no dot and neither group and kind nor namespace would be cut |
| Subjects.Subject.Unmarshal | types/clusterrole.go:138-166 | Reads the receiver from the text, leaving alone what the text does not mention, and everything on an error |
| Subjects.SubjectRoundTrip | types/clusterrole.go:120-166 | For any name, a subject is read back from its text exactly when its kind has no dot and neither group and kind nor namespace hold an unescaped colon or end in an open escape |
| Subjects.RoleRef.Marshal | types/clusterrole.go:82-93 | A text that Unmarshal reads back as the reference exactly when it has a group, its kind no dot, and neither would be cut |
| Subjects.RoleRef.Unmarshal | types/clusterrole.go:95-118 | Reads the receiver; the name is already written when a missing group is found |
| Subjects.RoleRefRoundTrip | types/clusterrole.go:82-118 | For any name, a role reference is read back exactly when it has a group, its kind no dot, and neither an unescaped colon or an open escape |
| Subjects.PlainIsUnbroken | types/name.go:46-70 | Text without colon and backslash always qualifies |
| Subjects.Written | types/clusterrole.go:82-136 | group.kind:namespace:name, without the parts that are empty |
| Subjects.ReadByPart | types/clusterrole.go:95-166 | Each of these forms read, into the fields it mentions |
| FileModes.ModeRoundTrip | types/volume.go:1231-1251 | A file mode is read back from its text exactly when it is not negative |
| FileModes.NumberIsMode | types/volume.go:1231-1248 | A number in range is the mode; one out of range, and any other value but text, is an error |
| FileModes.OctalDigits | types/volume.go:1231-1248 | Text is read in octal, digit by digit, up to the range |
| FileModes.UsualMode | types/volume.go:1250-1252 | Mode 0644 and its text, alone and behind a key |
| FileModes.KeyAndMode.Unmarshal | types/volume.go:1259-1284 | Reads key and mode; without a mode in the text the receiver keeps its own |
| FileModes.MatchedModeParses | types/volume.go:1273-1279 | What the regular expression lets through is always a number |
| FileModes.ModeRead | types/volume.go:1259-1284 | Behind a key of one line, a colon, 0 and three octal digits are the mode they write |
| FileModes.ModeKept | types/volume.go:1259-1284 | Any other text is the key, and the mode stays |
| FileModes.KeyWithModeRoundTrip | types/volume.go:1257-1292 | A key with a mode is read back exactly when the mode is between octal 100 and 777 and the key has no newline |
| FileModes.KeyAloneRoundTrip | types/volume.go:1257-1292 | A key alone is read back exactly when it does not end in a colon, 0 and three octal digits |
| Numerals.ParsePrint | types/volume.go:1231-1251 | Printing and parsing integers in base 8 and 10, over the whole signed range of a width |

## Left out

- Evaluator.EvalContext.FillString: between the conditions (nothing substituted has holes, or one hole to a string: it ends; the second hole needs an import the first left circular: it does not) nothing is promised of whether a failing run ends. Whether one run ends is no function of the input, since Go walks maps in random order and one map can fail or overflow by that order (`Endings.OrderDecides`). Whether all runs end is one, but a condition for it would have to carry out the substitutions, because identifiers can arise from pieces that are in no text, as `"${p}{a}"` with `"$"` for `p` shows.
- Evaluator.EvalContext.EvaluateModule: the same holds of it; and of the objects after a failure nothing is said where substituted values may have holes, except that an import left circular is trapped.
- ModuleFiles.Files.Parse: where a declaration has two keys each of which may be its name, the tree is what the declarations say for one of them, since Go's map order picks the name; whether there is an error elsewhere is then not promised.
- ViewBuffers.ViewBuffer.SearchFromLine: endless searches are excluded, since a method here has to end; `EndlessNeverEnds` says what the loop does on them.
- PodAffinities.PodsRoundTrip: empty and absent selectors are dropped by the code, so nothing is promised for them beyond that.
- nil and empty slices (values, namespaces, term lists) are one value, and so are nil and empty maps outside `Workloads`.
- The two queues of typeFields that share buffers are values, since the loop never appends to the one it reads; sort.Sort and sort.Strings are insertion sorts.
- Reading struct tags (parseTag, isValidTag, the options) and Unicode tables; folding between non-ASCII characters is a parameter.
- What resolving a path, reading a file and typing a raw object do: they are parameters, constant during a run.
- YAML and JSON bytes, reflect, error texts, logging, the command line, drawing and keys of the pager.
- The converters that copy fields or map enumerations, statuses, and the other workloads, whose selector code is the same as the replica set's.
- A template with neither metadata nor spec, beyond the error that it is.
- Bytes that are no UTF-8 in names; names are sequences of characters.
- How Kubernetes reads Gt, Lt and the other operators on nodes: `NodeConstraints` holds for every reading in which single-valued In is equality.
