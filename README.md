# the-philosoraptors, modelled in Dafny

The repository is a tool for checking a software architecture against its code using reflexion models.

- A user (or a language model) groups a repository's files into named modules and draws the module graph the user expects.
- The backend derives the module graph the code actually has, from the import declarations of every source file.
- The backend then reports the dependency edges that are missing from either graph.
- A language model can propose the grouping itself, and is asked to correct it until every TypeScript file belongs to a module.
- The frontend draws a module graph as a flow diagram.
- One API route splits a model's answer into "code levels".

This project models that core and proves what each part computes:

| Dafny module | Source | What it covers |
|---|---|---|
| `ReflexionBackend` | `reflexion-backend.ts` | Derives the module graph, compares two graphs, runs the module-naming loop |
| `FileStructure` | `fileStructure.ts` | The file tree: pruning, listing, rendering, and the "substantive file" filter |
| `RepoDependencies` | `repos/index.ts` | Builds the file dependency map from parsed import declarations |
| `RunnableWithRetries` | `runnableWithRetries.ts` | The validated, retrying model call and its error formatter |
| `FlowConversion` | `lib/utils.ts` | Turns a module graph into flow-diagram nodes and edges |
| `CodeLevels` | `summarized-code-levels.ts` | Extracts `<code>` blocks from an answer |

`Collections`, `Strings`, `NodePath` and `BackendTypes` hold the shared vocabulary:

- A JavaScript object used as a dictionary is a sequence of entries with distinct keys, kept in insertion order.
- `Array.prototype.includes`, `String.prototype.includes` and `join` appear as the operations they are.
- Node's `path` functions are parameters.
- `backend/types.ts` provides the data types.

Each mutating loop of the source is a `method` proved equal to a specification function. The properties are lemmas about those functions. The language model, the file system and the parser are parameters:

- An oracle indexed by call number and request stands for the language model.
- A file tree value stands for the file system.
- The import specifiers of each source file stand for the parser.

## Model

| member | source | states |
|---|---|---|
| ReflexionBackend.BuildFileToModuleMap | src/backend/reflexion-backend.ts:21-26 | the loop over the module mapping builds the reverse index of files to modules |
| ReflexionBackend.ReverseIndexLastWins | src/backend/reflexion-backend.ts:22-26 | a file has a module in the index iff some module lists it; a file listed under several modules gets the last of them in iteration order |
| ReflexionBackend.InsertEdge | src/backend/reflexion-backend.ts:37-42 | the innermost `if` creates the source's list on its first edge and appends the target only if it is not already listed |
| ReflexionBackend.AddEdgeLookup | src/backend/reflexion-backend.ts:37-42 | one insertion changes only the source module's list: it creates `[target]`, or appends the target, or leaves a list that already has it |
| ReflexionBackend.AddEdgeKeys | src/backend/reflexion-backend.ts:37-39 | one insertion adds the source as the last key when it is new, and otherwise keeps the keys |
| ReflexionBackend.AddFileDependencies | src/backend/reflexion-backend.ts:33-44 | the loop over one file's dependencies inserts exactly the edges that file's dependencies yield, in order |
| ReflexionBackend.AddFileEdges | src/backend/reflexion-backend.ts:30-44 | a file with no module, or with an empty module name, contributes nothing; any other file contributes its dependencies' edges |
| ReflexionBackend.ProjectDependencies | src/backend/reflexion-backend.ts:29-45 | the loop over the dependency map inserts the candidate edges of every file, in entry order |
| ReflexionBackend.CreateModuleGraph | src/backend/reflexion-backend.ts:17-48 | the result has no self-loop and no repeated target; S -> T is an edge iff a file of module S has a dependency that resolves to a file of module T, where both names are non-empty and differ |
| ReflexionBackend.ModuleGraphOfSpec | src/backend/reflexion-backend.ts:17-48 | a key appears only for a module with an edge, in order of its first edge; each target list holds the distinct targets in order of discovery and is never empty; edges are exactly the witnessed dependencies |
| ReflexionBackend.ModuleGraphProperties | src/backend/reflexion-backend.ts:17-48 | the derived graph has no self-loops and no repeated targets, and its edges are exactly the witnessed ones |
| ReflexionBackend.CandidateEdgesWitnessed | src/backend/reflexion-backend.ts:29-36 | an edge is tried iff some file's dependency witnesses it: the source file's module is S, the resolved path's module is T, and both are non-empty and differ |
| ReflexionBackend.DependencyEdgesMember | src/backend/reflexion-backend.ts:33-36 | the edges of one file's dependencies are exactly those one of its dependencies witnesses |
| ReflexionBackend.FileEdgesMember | src/backend/reflexion-backend.ts:30-36 | the edges one file contributes are exactly those its dependencies witness, including the skip of files without a module |
| ReflexionBackend.CandidatesIrreflexive | src/backend/reflexion-backend.ts:36 | no tried edge is a self-loop or names an empty module |
| ReflexionBackend.AddEdgesKeys | src/backend/reflexion-backend.ts:37-39 | inserting edges into `{}` gives one key per source module, in order of its first edge |
| ReflexionBackend.AddEdgesLookup | src/backend/reflexion-backend.ts:37-42 | each source's list is its distinct targets in order of first discovery; a module with no edge has no key |
| ReflexionBackend.AddEdgesFromEmpty | src/backend/reflexion-backend.ts:37-42 | the keys and every lookup of the graph built from `{}`, together |
| ReflexionBackend.GraphEntry | src/backend/reflexion-backend.ts:37-42 | every entry of the derived graph lists at least one target, never its own module, and lists the distinct targets of its edges |
| ReflexionBackend.GraphHasEdge | src/backend/reflexion-backend.ts:29-45 | `hasEdge` on the derived graph holds iff the edge is witnessed |
| ReflexionBackend.SameModuleDependencyYieldsEmptyGraph | src/backend/reflexion-backend.ts:36-39 | a dependency between two files of the same module creates no edge and no key: the graph is `{}`, not `{m: []}` |
| ReflexionBackend.CrossModuleDependencyYieldsEdge | src/backend/reflexion-backend.ts:29-45 | a file of module m1 importing a file of module m2 yields exactly the graph `{m1: [m2]}` |
| ReflexionBackend.MissingEdgesLoop | src/backend/reflexion-backend.ts:62-68 | one loop of `compareModuleGraphs` collects the edges of one graph that the other lacks, in iteration order |
| ReflexionBackend.CompareModuleGraphs | src/backend/reflexion-backend.ts:50-80 | `removedEdges` holds exactly the edges of graph1 missing from graph2, and `addedEdges` exactly those of graph2 missing from graph1 |
| ReflexionBackend.MissingEdgesMember | src/backend/reflexion-backend.ts:58-67 | an edge is kept iff it is listed and `hasEdge` fails for it in the other graph |
| ReflexionBackend.EdgeListMember | src/backend/reflexion-backend.ts:62-63 | the iterated pairs are exactly the pairs of an entry's key with a target in that entry's list |
| ReflexionBackend.EdgeListHasEdge | src/backend/reflexion-backend.ts:58-59 | in a graph with distinct keys, the iterated pairs are exactly the edges `hasEdge` sees |
| ReflexionBackend.GraphDifferenceMembers | src/backend/reflexion-backend.ts:50-80 | the two lists are the two one-sided differences of the edge sets |
| ReflexionBackend.GraphDifferenceWithItself | src/backend/reflexion-backend.ts:50-80 | comparing a graph with itself reports no edge |
| ReflexionBackend.GraphDifferenceSwapped | src/backend/reflexion-backend.ts:50-80 | swapping the arguments swaps the added and the removed edges |
| ReflexionBackend.ReplacedTargetDifference | src/backend/reflexion-backend.ts:50-80 | replacing X -> Y by X -> Z reports X -> Z as added and X -> Y as removed |
| ReflexionBackend.ComputeUnseenFiles | src/backend/reflexion-backend.ts:150-156 | the unseen set is the eligible files, each once in first-insertion order, that no module of the answer lists |
| ReflexionBackend.DeleteAssignedFiles | src/backend/reflexion-backend.ts:152-156 | after the deletions for every module, exactly the files no module lists remain, in order |
| ReflexionBackend.DeleteModuleFiles | src/backend/reflexion-backend.ts:153-155 | the deletions for one module remove exactly the files that module lists |
| ReflexionBackend.RemoveNextFile | src/backend/reflexion-backend.ts:154 | `delete` of one file removes that file and keeps the order of the rest |
| ReflexionBackend.GenerateModuleNames | src/backend/reflexion-backend.ts:133-196 | the loop makes one to four model calls; a returned partition covers every `.ts`/`.tsx` file of the tree |
| ReflexionBackend.CorrectionLoop | src/backend/reflexion-backend.ts:146-189 | the `for` loop, run from the first answer, has the outcome and makes exactly the calls of the rounds it models |
| ReflexionBackend.CorrectionRound | src/backend/reflexion-backend.ts:149-188 | a round computes the unseen set of the current answer; it calls the model only when that set is non-empty, with a correction built from that answer and the newline-joined unseen files |
| ReflexionBackend.ModuleNamingSpec | src/backend/reflexion-backend.ts:138-195 | the first call sends the readme and the rendered tree, and each correction is built from the previous answer alone. The outcome is "runner failed" iff the last call failed. A returned result is the last answer and leaves nothing unseen. The error is raised exactly when all four calls are made and the last one returns, whatever that last answer says, with the count the third answer left unseen |
| ReflexionBackend.ModuleNamingBounds | src/backend/reflexion-backend.ts:138-195 | at most four calls, at least one; a named outcome leaves no eligible file unseen |
| ReflexionBackend.NamingRoundsSpec | src/backend/reflexion-backend.ts:148-189 | from any round on, the remaining rounds extend the calls already made and keep the facts above |
| ReflexionBackend.WellChainedSnoc | src/backend/reflexion-backend.ts:181-187 | a correction built from the last answer and its unseen files keeps every call chained to the answer before it |
| ReflexionBackend.StaleUnseenCheckRejectsCoveringAnswer | src/backend/reflexion-backend.ts:148-193 | as written: with answers that leave files unseen through the second correction, and then an answer that covers everything, the loop reports the files the second correction left out |
| ReflexionBackend.OneFileRepositoryMeetsStaleCheck | src/backend/reflexion-backend.ts:150-156 | such answers exist: for the tree of a repository whose only file is `a.ts` (a root named after the repository with one child, as `getFileTree` builds it), the eligible files are that one path; an empty answer leaves it unseen and an answer that assigns it covers everything |
| ReflexionBackend.RepoNamedRepoIsEligible | src/backend/repos/fileStructure.ts:49-50 | with `path.join` giving `repo` and `repo/a.ts`, a repository named `repo` meets the requirements of the witness above |
| ReflexionBackend.ModuleNamingRecheckedSpec | src/backend/reflexion-backend.ts:148-193 | corrected: checking the final answer too, a run that does not fail is accepted iff its last answer leaves nothing unseen, and otherwise the error counts the files that answer leaves out |
| ReflexionBackend.NamingRoundsRecheckedSpec | src/backend/reflexion-backend.ts:148-193 | the same facts for the corrected rounds from any round on |
| ReflexionBackend.ModuleNamingRecheckedAgrees | src/backend/reflexion-backend.ts:148-195 | whenever the loop as written does not raise its error, the corrected loop has the same outcome and calls |
| FileStructure.GetAllFiles | src/backend/repos/fileStructure.ts:90-102 | a node the filter accepts is listed first, before its descendants |
| FileStructure.GetAllFilesCountsNodes | src/backend/repos/fileStructure.ts:90-102 | with the default filter, every node is listed: one path per node |
| FileStructure.GetAllFilesSelects | src/backend/repos/fileStructure.ts:90-102 | a filtered listing is the full pre-order listing without the rejected paths, in the same order |
| FileStructure.FilterKeepsAcceptedPaths | src/backend/repos/fileStructure.ts:53-81 | the pruned tree has exactly the accepted paths of the original, in order; the result is `null` iff no path of the tree is accepted |
| FileStructure.FilterOnlyRemoves | src/backend/repos/fileStructure.ts:53-81 | under any listing filter, every path of the pruned tree is a path of the original |
| FileStructure.FilterIdempotent | src/backend/repos/fileStructure.ts:53-81 | pruning a pruned tree again with the same filter changes nothing |
| FileStructure.RenderIsListing | src/backend/repos/fileStructure.ts:83-88 | the rendering is one line per node, in pre-order, with two spaces of indent per level, each line ending in a newline |
| FileStructure.RenderSiblingsIsListing | src/backend/repos/fileStructure.ts:85 | joining the children's renderings with a newline puts an empty line between consecutive siblings |
| FileStructure.SubstantiveIff | src/backend/repos/fileStructure.ts:110-145 | a path is substantive iff it is not a forbidden file name (compared whole), has no forbidden directory word anywhere as a substring, and ends in `.ts`, `.tsx`, `.js` or `.jsx` |
| FileStructure.IncludesAnyIffOccurs | src/backend/repos/fileStructure.ts:138-142 | the loop over forbidden directories rejects iff some word occurs in the path |
| FileStructure.DistanceIsNotSubstantive | src/backend/repos/fileStructure.ts:127-142 | the substring test rejects `distance.ts`, because it contains `dist` |
| Strings.IncludesIffOccurs | src/backend/repos/fileStructure.ts:139 | `includes` holds iff the word occurs at some position |
| Strings.NatToStringInjective | src/lib/utils.ts:20 | distinct numbers have distinct decimal texts |
| RepoDependencies.GetFileDependencies | src/backend/repos/index.ts:16-40 | every source file gets a key, even one without imports, and there is no other key, in order of first appearance; each key holds the list its file builds |
| RepoDependencies.CollectDependencies | src/backend/repos/index.ts:26-36 | one file's import loop stores the list the specifiers build, never longer than the declarations |
| RepoDependencies.DependenciesOfKeys | src/backend/repos/index.ts:21-24 | the keys are the files' relative paths, without repeats, in order of first appearance |
| RepoDependencies.DependenciesOfLookup | src/backend/repos/index.ts:21-24 | a key holds the list of the last file with that key |
| RepoDependencies.DistinctKeysHoldOwnLists | src/backend/repos/index.ts:21-37 | when relative paths are distinct, every file's key holds its own list |
| RepoDependencies.StoredInDeclarationOrder | src/backend/repos/index.ts:26-36 | the stored list is a subsequence of the resolved non-empty specifiers, in declaration order |
| RepoDependencies.EmptySpecifiersStoreNothing | src/backend/repos/index.ts:28 | empty specifiers add nothing |
| RepoDependencies.IdentityResolutionDeduplicates | src/backend/repos/index.ts:28-34 | when every specifier is its own stored form, the raw-text check does prevent repeats |
| RepoDependencies.RepeatedImportStoredTwice | src/backend/repos/index.ts:28-34 | as written: a repeated `./x` whose stored form differs from `./x` is stored twice |
| RepoDependencies.DistinctDependencyListSpec | src/backend/repos/index.ts:28-34 | corrected: comparing resolved paths stores every resolved non-empty specifier exactly once, in order of first declaration |
| RunnableWithRetries.FormatMissingValue | src/backend/llm/runnableWithRetries.ts:12-17 | a single type issue about a missing value is reported by its dotted path and its expected type |
| RunnableWithRetries.FormatLongWrongValue | src/backend/llm/runnableWithRetries.ts:18-33 | a single type issue whose value serialises to more than ten characters shows that serialisation verbatim after "You wrote" |
| RunnableWithRetries.FormatFallsBack | src/backend/llm/runnableWithRetries.ts:12-39 | several issues, another issue code, or a short wrong value each give the error's own text |
| RunnableWithRetries.FormatThrowsIff | src/backend/llm/runnableWithRetries.ts:19-31 | the formatter throws iff a single type issue with a received value has a path that walks into `undefined` or `null`, or ends at `undefined` |
| RunnableWithRetries.FormatSpecialOnlyForSingleTypeIssue | src/backend/llm/runnableWithRetries.ts:11-40 | only a lone invalid-type issue ever gets a message other than the error's text |
| RunnableWithRetries.WalkFindsField | src/backend/llm/runnableWithRetries.ts:22-27 | walking an object by one of its property names finds that property's value |
| RunnableWithRetries.RunValidated | src/backend/llm/runnableWithRetries.ts:64-129 | the method makes the calls of the modelled run and has its outcome, and that run satisfies the facts below |
| RunnableWithRetries.ValidatedRunSpec | src/backend/llm/runnableWithRetries.ts:71-128 | at most `maxAttempts + 1` calls (one when it is not positive); the first call sends the original prompt and each later one revises the previous response with its formatted error. The run returns iff the last response validates, and then returns its data. It gives up exactly when every call is spent and the last response is invalid; the formatter can throw only before the last call |
| RunnableWithRetries.DefaultRunMakesAtMostFourCalls | src/backend/llm/runnableWithRetries.ts:62-128 | with the default `maxAttempts` of 3, a run makes at most four calls and gives up only after the fourth |
| RunnableWithRetries.ReturnsFirstValid | src/backend/llm/runnableWithRetries.ts:76-123 | every response before the last is invalid: the run returns the first valid one |
| RunnableWithRetries.NoRetriesWithoutAttempts | src/backend/llm/runnableWithRetries.ts:85-88 | with `maxAttempts` not positive, there is one call and no retry |
| FlowConversion.ConvertModuleGraphToReactFlow | src/lib/utils.ts:10-38 | one node per module in entry order, with ids "1", "2", ... and the module name as label; the edges are the ones pushed, one per listed dependency |
| FlowConversion.FlowEdgesCount | src/lib/utils.ts:25-32 | there are as many edges as listed dependencies over all modules |
| FlowConversion.FlowEdgesMember | src/lib/utils.ts:18-35 | the edges are exactly the edges from node k+1 to node k+2, one for each module at position k that lists a dependency, whatever the dependency names |
| FlowConversion.NodeIdsDistinct | src/lib/utils.ts:16-34 | node ids are pairwise distinct |
| FlowConversion.LastModuleEdgeDangles | src/lib/utils.ts:25-34 | when the last module lists a dependency, an edge targets an id that no node has |
| FlowConversion.RepeatedEdgeIds | src/lib/utils.ts:25-31 | a module with two or more dependencies yields two edges with the same id |
| CodeLevels.FindFrom | src/pages/api/summarized-code-levels.ts:68 | the search returns the first occurrence of a tag at or after a position, or reports that there is none |
| CodeLevels.MatchFrom | src/pages/api/summarized-code-levels.ts:68 | one search of the lazy pattern returns an opening tag, a body without a closing tag, and the nearest closing tag, found at the leftmost start that can match, and finds none when no start can |
| CodeLevels.SpansSpec | src/pages/api/summarized-code-levels.ts:68 | the global match returns only matches, in order and without overlap, and no match could start in any stretch it skipped |
| CodeLevels.SummarizedCodeLevelsShape | src/pages/api/summarized-code-levels.ts:66-71 | one level per matched block, then the source code, which is always last |
| CodeLevels.NoBlockYieldsSourceOnly | src/pages/api/summarized-code-levels.ts:66-71 | an answer with no complete block, where `match` returns `null`, yields just the source code |
| CodeLevels.UnclosedOpenStartsNoBlock | src/pages/api/summarized-code-levels.ts:68 | an opening tag with no closing tag after it starts no block, and neither does any later opening tag |
| CodeLevels.LevelOfMatch | src/pages/api/summarized-code-levels.ts:68-69 | a block's level is the captured text between its tags, stripped and trimmed: the enclosing tags leave no residue |
| CodeLevels.StripCloseSuffix | src/pages/api/summarized-code-levels.ts:69 | a trailing closing tag is dropped without touching the text before it |
| CodeLevels.StripTagsWithoutTags | src/pages/api/summarized-code-levels.ts:69 | text with no tag in it is left unchanged |
| CodeLevels.TrimSpec | src/pages/api/summarized-code-levels.ts:69 | `trim` removes a white-space prefix and a white-space suffix, and the text it keeps neither starts nor ends with white space |
| CodeLevels.TrimIdempotent | src/pages/api/summarized-code-levels.ts:69 | trimming twice is the same as trimming once |

## Left out

- Database, file-system and network access are not modelled: `getRepoById`, `getRepoByName`, `getFileDependencyGraph`, `getFileTree`, `getReadme`, `saveFileDependencyMapToDB`, `cloneRepoToTempDir` and `cloneAndSaveRepo`.
  - The tree, the readme and the parsed source files are parameters instead.
- `compareReflexionModelWithActual` is not modelled separately. It only fetches the dependency map and then composes `createModuleGraph` with `compareModuleGraphs`, both of which are modelled.
- The language model is an oracle from call number and request to an optional answer.
  - `None` stands for the validated runner giving up.
  - The prompt texts become request datatypes, so their wording is not modelled.
  - LangChain templating, `easyRunLlm` and `zodToJsonSchema` are not part of this model.
- Parsing with ts-morph is left out. Each source file is its absolute path and the list of its import specifiers' texts.
- Node's `path` (`join`, `dirname`, `resolve`, `relative`) is an uninterpreted record of functions. Path normalisation is not modelled, so properties that need it carry it as a requirement.
- `JSON.stringify` and zod validation are parameters. JSON numbers are integers.
- Logging (`console.log` and `console.error`) is left out.
- ReverseIndex, AddEdge, HasEdge and Step: object lookups see only an object's own entries.
  - In JavaScript, `fileToModuleMap[...]`, `moduleGraph[...]`, `graph[from]` and `x[p]` also find inherited properties such as `constructor`.
    - A module named `constructor` makes `!moduleGraph[sourceModule]` false, and the following `.includes` throws.
  - Step also gives `undefined` when a string is indexed or a `length` is read.
    - JavaScript gives a character or a number there.
- `Object.entries` order is modelled as insertion order. JavaScript lists integer-like keys first, which is not modelled.
- Strings are sequences of Unicode scalar values. JavaScript strings, `String.prototype.trim` and regular expressions work on UTF-16 code units, which is not modelled.
- The HTTP handler and the `easyRunLlm` call of `summarized-code-levels.ts` (lines 14-63) are left out. Only the extraction at lines 66-71 is modelled, with the model's answer as a parameter.
- `cn` in `lib/utils.ts` is left out: it is class-name merging from external libraries.
- ConvertModuleGraphToReactFlow: the nodes carry no `position`, because positions come from `Math.random`.
- GenerateModuleNames: its outcome type does not carry the error message text, only the unseen count that the message reports.

## Behaviour that follows the code

- `getFileDependencies` resolves every specifier against the importing file's directory, bare package names included.
- Its duplicate check compares the raw specifier with the stored resolved paths.
- A correction answer replaces the whole partition. It is never merged with the previous one.
- A dependency inside one module creates neither an edge nor a key for that module.

## Findings

| source | as written | input that shows it | evidently intended | confidence | as-written member | corrected member |
|---|---|---|---|---|---|---|
| src/backend/reflexion-backend.ts:148-193 | The unseen set is recomputed only at the start of a round. The answer to the third correction is never checked, and the error reports the set left by the answer before it. | A repository with only `a.ts`. The first answer and the first two corrections assign no file; the third correction assigns `a.ts`. The function throws "Could not find modules for 1 files". | Check the final answer, and return it when it covers every file. | not executed; high | ReflexionBackend.StaleUnseenCheckRejectsCoveringAnswer | ReflexionBackend.ModuleNamingRecheckedSpec |
| src/backend/repos/index.ts:28-34 | The duplicate check looks up the raw specifier in a list of resolved, root-relative paths. | `src/a.ts` imports from `./x` twice. Both imports are stored as `src/x`. | Each dependency is stored once. | not executed; high | RepoDependencies.RepeatedImportStoredTwice | RepoDependencies.DistinctDependencyListSpec |

`GenerateModuleNames` and `GetFileDependencies` model the code as written. The corrected definitions are `ModuleNamingRechecked` and `DistinctDependencyList`. `ModuleNamingRecheckedAgrees` shows that the corrected loop differs from the written one only in runs where the written loop raises its error.
