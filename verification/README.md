# A model of the bundler's dependency graph

`bundler.js` is a minimal JavaScript bundler. It has three parts that matter here:

- `moduleAnalyser` reads one file and collects the literal specifier of every static
  `import`. It resolves each specifier to `'./' + path.join(path.dirname(file), specifier)`
  and returns `{filename, dependencies, code}`.
- `makeDependenciesGraph` walks a growing array of such records from the entry file.
  It keeps no record of modules already seen. It then folds the array into an object keyed
  by file name.
- The loader in the emitted bundle. `require(module)` runs `graph[module].code` with a
  fresh `exports` object. Inside that code, `localRequire(specifier)` maps the specifier
  through `graph[module].dependencies` and calls `require` on the result.

The Dafny project models these three parts. It has six modules:

- `Wrappers` (`wrappers.dfy`): the `Result` type that carries a value or an error.
- `Analyser` (`analyser.dfy`): the dependency map and `moduleAnalyser`.
- `ImportTree` (`imports.dfy`): the tree of import chains the worklist walks. It gives
  the bound that makes the walk finite and the count of records it produces.
- `GraphBuilder` (`graph.dfy`): the worklist loop, the fold into the graph, and
  `makeDependenciesGraph`.
- `Loader` (`loader.dfy`): the `require` and `localRequire` lookups.
- `Scenarios` (`scenarios.dfy`): a diamond and a two-module cycle, stated as lemmas about the model.

The collaborators the analyser calls are parameters of type `Analyser.Host`:

- `frontEnd` covers reading, parsing, the import visitor's list of specifiers, and the
  Babel transform. It yields the specifiers in source order plus the code, or an error.
- `dirname` and `join` stand for Node's `path.dirname` and `path.join`.

Every property of the modules `Analyser`, `ImportTree`, `GraphBuilder` and `Loader`
holds for every choice of these three functions. `Scenarios` fixes concrete front ends
over a flat directory, and its lemmas about those are stated for them only.

A JavaScript object used as a dictionary is modelled as `DependencyMap`. It is a map plus
the order `for ... in` visits its keys, which is first-insertion order. Assigning to an
existing key keeps that key's place. The worklist and the graph are `seq` and `map`
values, and the methods that build them reassign those values in their loops.

The source has no visited set. The worklist therefore walks every import chain from the
entry, not every module. Termination is proved under a ghost bound: `FiniteImports`
says that every import chain from the entry has at most `bound` modules. A two-module
cycle satisfies this for no bound. In `Scenarios`, the two modules of the cycle import
nothing else and both analyse. There the loop's start state satisfies the worklist
invariant (`Scenarios.CycleStart`), the invariant forces the array to stay one record
ahead of the index, and every iteration succeeds. `Scenarios.CycleState(n)` is the
array after `n` iterations: it holds `n + 1` records, so the array grows without bound.

## Model

| member | source | states |
|---|---|---|
| Analyser.Put | bundler.js:22 | Assigning `dependencies[s] = p` stores `p` under `s` and leaves every other key alone. A new key goes to the end of the visiting order; an existing key keeps its place. |
| Analyser.DependenciesOf | bundler.js:16-24 | The keys are exactly the distinct specifiers. Each maps to `'./' + join(dirname(filename), s)`, and so starts with `./`. |
| Analyser.CollectDependencies | bundler.js:16-24 | The visitor loop, one assignment per import in source order, builds exactly `DependenciesOf` of the specifiers. |
| Analyser.ModuleAnalyser | bundler.js:8-34 | Succeeds exactly when the front end does and otherwise passes on its error. On success the record keeps the input file name and the transformed code. Its dependency keys are the distinct specifiers, each resolved against the file's directory to a `./` path. |
| Analyser.OrderIsFirstOccurrence | bundler.js:17-23 | The dependency map visits its specifiers in the order of their first import. |
| Analyser.EntryCount | bundler.js:18-22 | The map has one entry per distinct specifier, so a repeated import adds no entry. |
| ImportTree.PendingStep | bundler.js:40-49 | Processing a pending module replaces it by the paths it pushes. The chains left to visit drop by exactly one, stay bounded, and stay error-free when they were. |
| ImportTree.FailedImportBreaksTree | bundler.js:45-47 | A module with an import that fails to analyse does not have an error-free import tree. |
| GraphBuilder.PathsInImports | bundler.js:44-48 | Every path a processed record pushes appears in what the whole run pushes. |
| GraphBuilder.PushImports | bundler.js:44-48 | Processing one record only appends: the old array is a prefix of the new one. It appends one record per key, in key order, each the analysis of that key's path. It fails exactly when one of those analyses fails, and then with the first such error. |
| GraphBuilder.StepNames | bundler.js:44-48 | After a step the array's file names are the old names followed by the pushed paths. |
| GraphBuilder.StepPreservesInv | bundler.js:40-49 | One iteration keeps the loop invariant: every record is its own file's analysis, and the names are the entry followed by what the processed records pushed. |
| GraphBuilder.DoneImpliesTreeOk | bundler.js:40-50 | When every record has been processed, every module of the import tree of any record analysed without error. |
| GraphBuilder.LoopStart | bundler.js:38-39 | The array `[entryModule]` satisfies the invariant with nothing processed, and its one pending chain accounts for the whole tree. |
| GraphBuilder.LoopStep | bundler.js:40-49 | A successful iteration keeps both parts of the invariant and strictly decreases the number of import chains left to visit. |
| GraphBuilder.LoopFails | bundler.js:45-47 | A failing analysis inside the loop means the entry's import tree is not error-free. |
| GraphBuilder.LoopEnd | bundler.js:40-50 | When the loop stops, the tree is error-free and the array holds one record per import chain, with the entry's analysis first. |
| GraphBuilder.CollectModules | bundler.js:37-50 | On a finite import tree the loop terminates. It fails exactly when some module of the tree fails to analyse, and then with the error of an analysis that failed. Otherwise it returns one record per import chain, with entry 0 the entry's analysis and every record its own file's analysis. |
| GraphBuilder.FoldGraph | bundler.js:52-58 | The graph's keys are exactly the array's file names. Each key holds the dependencies and code of the last record with that name. |
| GraphBuilder.LastOccurrence | bundler.js:53-57 | Every file name of the array has a last record, the one whose entry the fold keeps. |
| GraphBuilder.EntryIsAnalysis | bundler.js:52-58 | In the fold of a finished worklist, every key holds that file's own analysis, whichever duplicate won. |
| GraphBuilder.DependencyIsKey | bundler.js:44-58 | In the fold of a finished worklist, every path in any dependency map is itself a key. |
| GraphBuilder.FoldOfDone | bundler.js:52-59 | The fold of a finished worklist holds the entry, is closed under its dependency maps, and maps every key to its own analysis. |
| GraphBuilder.MakeDependenciesGraph | bundler.js:37-60 | On a finite import tree it terminates and fails exactly when some module of the tree fails, with the error of an analysis that failed. Otherwise the graph's keys are exactly the file names of the finished worklist, which holds one record per import chain from the entry. The graph holds the entry, is closed, and maps each key to that module's analysis. |
| Loader.Require | bundler.js:69-82 | `require(module)` succeeds exactly when `module` is a key. It runs that key's code with an empty `exports`; nothing is cached. |
| Loader.LocalRequire | bundler.js:72-74 | `localRequire(s)` from `m` is `require(graph[m].dependencies[s])`. An unlisted specifier fails. A success always starts from an empty `exports`. |
| Loader.LocalRequireTotal | bundler.js:72-74 | A graph is closed exactly when `localRequire` succeeds for every specifier of every module. |
| Loader.ClosedNeverMissesModule | bundler.js:72-79 | In a closed graph, a chain of `localRequire` calls never reaches a missing module. It can only stop at an unlisted specifier. |
| Loader.ClosedListedLoads | bundler.js:69-82 | In a closed graph, a chain of specifiers each listed by the module the previous one activated always loads, with a fresh empty `exports`. Closure is what keeps every step inside the graph. |
| Loader.LocalRequireResolves | bundler.js:72-74 | In a graph of analyses, `localRequire(s)` from `m` activates `'./' + join(dirname(m), s)`. |
| Scenarios.DiamondExample | bundler.js:16-24 | With a flat `dirname`/`join`, the concrete files `a → {b, c}`, `b → d`, `c → d` give a diamond import relation. |
| Scenarios.DiamondCount | bundler.js:40-49 | A diamond has an error-free import tree of depth three with five import chains. |
| Scenarios.DiamondWorklist | bundler.js:40-49 | The finished worklist of a diamond names `a, b, c, d, d`, so `d` is analysed twice. |
| Scenarios.DiamondGraph | bundler.js:37-60 | Building the diamond's graph gives exactly the keys `a, b, c, d`, and `d` holds its own analysis. |
| Scenarios.CycleExample | bundler.js:16-24 | The concrete files `a → b`, `b → a` give a two-module cycle. |
| Scenarios.CycleIsInfinite | bundler.js:40-49 | No bound makes a two-cycle's import tree finite. |
| Scenarios.CycleRecordPushes | bundler.js:44-48 | On the cycle, every path a worklist record pushes analyses, so processing that record cannot fail. |
| Scenarios.CycleGrowsForever | bundler.js:40-49 | On the cycle, every state satisfying the loop invariant has exactly one more record than its index, so the guard holds. Processing that record cannot fail. |
| Scenarios.CycleStart | bundler.js:38-39 | On the cycle, the start state `[moduleAnalyser('./a.js')]` with nothing processed satisfies the loop invariant. |
| Scenarios.CycleStepInto | bundler.js:40-49 | On the cycle, processing record `i` of a state one record ahead pushes exactly one record. The result satisfies the invariant after `i + 1` iterations. |
| Scenarios.CycleState | bundler.js:38-49 | For every `n`, the cycle's worklist after `n` successful iterations satisfies the loop invariant and holds `n + 1` records, so the array grows without bound. |
| Scenarios.RepeatedSpecifier | bundler.js:18-22 | Importing a specifier twice gives the same map as importing it once, with a single entry. |

## Left out

- Reading files, parsing, the AST traversal and the Babel transform are not modelled;
  they are the abstract `Host.frontEnd`. The only part of the traversal modelled is the
  ordered list of import specifiers it visits.
- Node's `path.dirname` and `path.join` are the abstract `Host.dirname` and `Host.join`.
  Their normalisation rules are not modelled. `Scenarios` uses a flat directory, where
  `dirname` is empty and `join` concatenates.
- `generateCode` is not modelled: `JSON.stringify` of the graph, the template string,
  `eval` of module code, and the entry call `require(entry)` (lines 64-85). Only the
  lookup rule of `require`/`localRequire` and the fresh `exports` per call are modelled.
- Loader.Require: the `exports` a module's code fills in is not modelled. An activation
  records the `exports` object the code starts from.
- The driver (lines 88-89), with its fixed entry path and `console.log`, is not modelled.
- The `if (dependencies)` guard (line 43) is not modelled. `moduleAnalyser` always
  returns an object there, so the guard is always true.
- JavaScript visits integer-like property names before other keys, in numeric order.
  Assigning to `__proto__` does not create a property. `DependencyMap` follows
  insertion order for every key, which matches the source for ordinary relative paths.
- Loader.LocalRequire: an unlisted specifier is modelled as `SpecifierNotFound`. In
  JavaScript the lookup yields `undefined`, and `require(undefined)` then reads
  `graph["undefined"]`. That fails unless a module is literally named `undefined`. A
  specifier naming an inherited property, such as `constructor`, `toString` or
  `__proto__`, yields an `Object.prototype` value instead. `require` of that value also
  finds no key in `graph`, so such a specifier also ends in a failed lookup.
- GraphBuilder.CollectModules: termination is proved only for a finite import tree,
  under the ghost `bound`. The walk is breadth-first and each module has finitely many
  imports, so the source loops for ever exactly when the import tree is infinite and
  every module reachable from the entry analyses. For a two-module cycle that imports
  nothing else, that is shown by `Scenarios.CycleIsInfinite` and `Scenarios.CycleState`,
  not by a non-terminating method. The requires also excludes inputs on which the source
  does stop: a cycle is reachable, but some module reachable from the entry fails to
  analyse, and the build throws when the walk reaches it. An example is `a` importing
  `b` and `c`, `b` importing `a`, and `c` failing to analyse. The model says nothing
  about such inputs.
- The code keeps no set of visited modules and no module cache, although a bundler
  usually has both. The model follows the code: a module reached along several chains
  is analysed again, a reachable cycle makes the build run for ever when every module
  reachable from the entry analyses, and every `require` runs the code afresh.
- `Host.frontEnd` is a function, so a file is assumed to read and parse the same every
  time it is analysed during one build. The source reads a module once per import chain
  that reaches it. `GraphBuilder.EntryIsAnalysis`, `GraphBuilder.FoldOfDone` and
  `GraphBuilder.MakeDependenciesGraph` rely on this when they say every key holds its
  own analysis whichever duplicate won; `GraphBuilder.FoldGraph`'s last-wins result
  holds for any array.
- Errors the front end raises are propagated as values (`Result`); JavaScript throws
  them. An error aborts the build in both.
- GraphBuilder.CollectModules: on failure the contract says only that the error is one
  some analysis returned, not that it is the first failure in worklist order.
  `GraphBuilder.PushImports` does state that for the record it processes.
- GraphBuilder.MakeDependenciesGraph: the error it returns is likewise not stated to be
  the first failure in worklist order. Its requires excludes the same inputs as
  `GraphBuilder.CollectModules`: a reachable cycle together with a module reachable from
  the entry that fails to analyse, on which the source throws. The model says nothing
  about those inputs.
