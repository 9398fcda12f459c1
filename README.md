# mini-webpack, modelled in Dafny

This project models `bundle/mini-webpack.js`, a teaching-size JavaScript
bundler. It has three parts.

- `Webpack.run` starts from one entry file. It keeps a worklist array
  (`modulesArr`) and, for every record on it, pushes one new record for
  each dependency. It then folds the array into a table keyed by module
  identifier (`modulesObj`) and hands the table to `generate`.
- `transform` builds the `dependencies` object of a file. For each
  `import` declaration it maps the raw specifier to the identifier
  `"./" + path.join(path.dirname(importer), specifier)`.
- `generate` emits a bundle. The bundle is a small runtime loader
  (`require` / `localRequire`) applied to the table, and it ends by
  requiring the entry.

The Dafny files follow that structure.

- `Wrappers.dfy`: `Option` and `Result`.
- `Paths.dfy`: paths as lists of segments, a POSIX-style normaliser that
  plays the part of `path.join`, `path.dirname`, and `Resolve`, which
  builds the identifier `transform` writes.
- `Modules.dfy`: the `dependencies` object as an insertion-ordered
  association list, with property assignment `Put`. It also holds the
  fold `DependencyMap` that `transform` performs, the record and table
  types, and the closure predicate `Closed`.
- `ImportGraph.dfy`: the order in which `run` visits modules, as a
  specification. `BuildOrder` is the breadth-first unfolding of the
  import graph, with one entry per import path. The file proves that the
  loop builds exactly that order, and when the order is finite.
- `Bundler.dfy`: the class `Webpack`, with its constructor, the
  `transform` loop, the worklist loop, the table fold and `run`, each
  proved against the functions above.
- `Loader.dfy`: the runtime loader of the emitted bundle. `require` is a
  function that returns the trace of module executions it causes, or the
  error it throws.

Reading a file, parsing it and running Babel are outside the model. They
are replaced by a compiler oracle,
`Compiler = string -> Result<Source, BuildError>`. For an identifier, the
oracle gives the file's import specifiers in traversal order and its
transpiled code, or the error that aborts the build. What a module's code
does at run time is abstracted the same way: `calls(id)` is the sequence
of specifiers the module's code passes to `require`, in order.

Two facts about the code shape much of the model.

- **No visited set.** `run` does not remember which files it has already
  compiled. A module imported along two paths is compiled and pushed twice
  (`SharedImportCompiledTwice`, `CompileCountIsPathCount`). With an import
  cycle reachable from the entry, the array grows without bound, and the
  loop can end only by a compile error thrown further down the unfolding
  (`CycleNeverTerminates`, `CycleStopsOnlyOnFailure`). Only the final
  table fold removes duplicates, and it does so last-write-wins.
- **No module cache.** The emitted `require` does not cache module
  exports. A module required twice runs twice (`SharedModuleRunsTwice`),
  and a cycle of first requires exhausts the stack
  (`FirstRequireCycleOverflows`).

`run` therefore returns exactly when `Stops` holds: either the import
paths from the entry are bounded (`Terminates`), or some file of the
breadth-first unfolding fails to compile (`ReachesFailure`). The methods
that model the loop require `Stops` and nothing more.

`generate` is modelled by `MiniWebpack.Webpack.Generate`, which pairs the
table with the entry the bundle bootstraps, and by `RuntimeLoader.Bootstrap`,
the bundle's final `require(entry)`. What a generated bundle does is stated
by `Run` (the table and the entry) and by `Bootstrap` and
`BootstrapNeverMissing` (its execution).

`transform` keeps the trailing separator that Node's `path.join` keeps.
A specifier ending in "/" gives an identifier ending in "/", so `./lib/`
and `./lib` become two different table keys.

## Model

| member | source | states |
|---|---|---|
| Paths.Target | bundle/mini-webpack.js:59 | the segments of a resolved identifier are canonical: no "." segment, no empty segment, and ".." only as a leading run; no segment contains a slash |
| Paths.Resolve | bundle/mini-webpack.js:59 | every identifier `transform` writes starts with "./", and it ends in "/" exactly when the specifier does, as `path.join` keeps a trailing separator |
| Paths.ResolveSplit | bundle/mini-webpack.js:59 | splitting a resolved identifier gives "." followed by its canonical target segments (a second "." when the target is empty), then an empty segment when the specifier ends in "/"; so the identifier determines the target and the trailing separator |
| Paths.ResolveInjective | bundle/mini-webpack.js:59 | two (importer, specifier) pairs give the same identifier if and only if they normalise to the same target path and both or neither specifier ends in "/", so the table key of a module is its normalised location plus that separator |
| Paths.ResolveTrailingExample | bundle/mini-webpack.js:59 | `./lib/` imported from `a.js` becomes `./lib/`, which differs from the identifier `./lib` that the specifier `./lib` gives |
| Paths.DirOfResolved | bundle/mini-webpack.js:59 | the directory of a resolved identifier is "." followed by the parent of its target, which is the directory its own imports resolve against |
| Paths.ResolveFromDependency | bundle/mini-webpack.js:59 | a dependency's imports resolve against the dependency's normalised directory: its target is the normalisation of the importer target's parent followed by the new specifier |
| Paths.ResolveSiblingExample | bundle/mini-webpack.js:59 | `./b.js` imported from `a.js` becomes the identifier `./b.js` |
| Paths.SplitJoin | bundle/mini-webpack.js:59 | joining slash-free segments with "/" and splitting the result gives the segments back |
| Paths.JoinSplit | bundle/mini-webpack.js:59 | splitting a path at "/" and joining the pieces gives the path back |
| Paths.NormalizeFromAppend | bundle/mini-webpack.js:59 | normalising a concatenation equals normalising the first part and then continuing with the second |
| Paths.NormalizeIdempotent | bundle/mini-webpack.js:59 | normalising twice is the same as normalising once |
| Paths.NormalizeAbsorbs | bundle/mini-webpack.js:59 | normalising a prefix first does not change the normalisation of the whole path |
| Paths.NormalizeDot | bundle/mini-webpack.js:59 | a leading "." segment does not change the normalised path |
| Modules.PutSpec | bundle/mini-webpack.js:59 | assigning a property keeps the key order and adds a new key at the end; the key then reads the new value and every other key reads what it read before |
| Modules.AssignKeys | bundle/mini-webpack.js:57-61 | after the traversal's assignments, the keys are distinct and are exactly the specifiers that were assigned |
| Modules.AssignGet | bundle/mini-webpack.js:57-61 | after the traversal's assignments, each assigned specifier reads its resolved value and any other key reads nothing |
| Modules.AssignOrder | bundle/mini-webpack.js:57-61 | after the traversal's assignments, the keys are in the order in which each specifier first occurred |
| Modules.DependencyMapSpec | bundle/mini-webpack.js:55-61 | the `dependencies` object of a file has one key per distinct import specifier, and each key maps to `Resolve(importer, specifier)`; a specifier that is not imported is absent |
| Modules.DependencyOrder | bundle/mini-webpack.js:55-61 | the `dependencies` object enumerates specifiers in order of first import, even when a specifier is imported twice |
| Modules.TargetsAreRelative | bundle/mini-webpack.js:59 | every dependency target starts with "./" |
| ImportGraph.BuildOrderIsFifo | bundle/mini-webpack.js:19-26 | the build order is the entry followed by the children of every element in order, which is the fixpoint of the FIFO worklist |
| ImportGraph.BuildOrderClosed | bundle/mini-webpack.js:20-26 | every dependency of a module in the build order is itself in the build order |
| ImportGraph.FixpointIsBuildOrder | bundle/mini-webpack.js:20-26 | a prefix of the build order that is its own FIFO fixpoint is the whole build order |
| ImportGraph.WorklistStart | bundle/mini-webpack.js:16-19 | the array holding only the entry is the entry followed by the children of no element, and is a prefix of the breadth-first unfolding |
| ImportGraph.WorklistStep | bundle/mini-webpack.js:21-25 | pushing the children of element `i` keeps the array the entry followed by the children of the first `i + 1` elements, and keeps it a prefix of the unfolding, whether the unfolding is finite or not |
| ImportGraph.WorklistDone | bundle/mini-webpack.js:20 | when `i` reaches the array length, the import paths from the entry are bounded and the array is the build order |
| ImportGraph.UnfoldedInBuildOrder | bundle/mini-webpack.js:20-26 | when the import paths are bounded, every prefix of the unfolding is a prefix of the build order |
| ImportGraph.StopBound | bundle/mini-webpack.js:20-27 | when the loop stops, there is a bound on the length of every prefix of the unfolding whose files all compile, so the loop makes finitely many compilations |
| ImportGraph.LoopExitImpliesTerminates | bundle/mini-webpack.js:20-26 | if the loop can exit at all, the breadth-first unfolding runs dry |
| ImportGraph.CycleNeverTerminates | bundle/mini-webpack.js:20-26 | if a cycle is reachable from the entry, the unfolding never runs dry and the array grows without bound, so the loop cannot exit through its condition |
| ImportGraph.CycleStopsOnlyOnFailure | bundle/mini-webpack.js:20-26 | if a cycle is reachable from the entry and the loop stops, then some file of the unfolding fails to compile, so the build ends with an error |
| ImportGraph.AcyclicTerminates | bundle/mini-webpack.js:20-26 | if the set of files with imports is finite and no cycle is reachable, the unfolding runs dry |
| ImportGraph.AcyclicBuildTerminates | bundle/mini-webpack.js:16-26 | the same, stated for the edges a compiler oracle produces |
| ImportGraph.LevelSizeIsPathCount | bundle/mini-webpack.js:20-25 | the number of records pushed at depth `k` equals the number of import paths of length `k` |
| ImportGraph.BfsSizeIsPathsBelow | bundle/mini-webpack.js:20-25 | the number of records pushed up to depth `h` equals the number of import paths shorter than `h` |
| ImportGraph.CompileCountIsPathCount | bundle/mini-webpack.js:16-25 | the number of compilations in a terminating build is the number of import paths from the entry, and no longer paths exist |
| ImportGraph.LevelInBuildOrder | bundle/mini-webpack.js:20-25 | every level of the unfolding, with multiplicity, is contained in the build order |
| ImportGraph.SharedImportCompiledTwice | bundle/mini-webpack.js:20-25 | a module imported by two different imports of the entry is compiled at least twice |
| MiniWebpack.Webpack.constructor | bundle/mini-webpack.js:8-12 | stores the entry and the output options as given |
| MiniWebpack.Webpack.Transform | bundle/mini-webpack.js:53-73 | the loop over import declarations produces exactly the record of the file: its identifier, its dependency map and its code |
| MiniWebpack.Webpack.Tabulate | bundle/mini-webpack.js:28-33 | the table has exactly one key per distinct `entryFile`, holding the last record written under it |
| MiniWebpack.Webpack.PushDependencies | bundle/mini-webpack.js:21-25 | one iteration of the outer loop, on any worklist that is a prefix of the unfolding: either every dependency is compiled and pushed in key order and the invariant holds for `i + 1`, or the first failing compilation ends the build with that error and the records of the files before it |
| MiniWebpack.Webpack.Drain | bundle/mini-webpack.js:20-27 | whenever the loop stops, it compiles a prefix of the unfolding and ends with the error of the first file that fails, or compiles the whole build order with one record per element |
| MiniWebpack.Webpack.Collect | bundle/mini-webpack.js:14-27 | the same, starting from compiling the entry; an entry that fails to compile ends the build with its error and no records |
| MiniWebpack.Webpack.Run | bundle/mini-webpack.js:13-34 | whenever `run` returns: a build fails with the error of the first failing file in unfolding order, every earlier file having compiled; a successful build means the import paths are bounded, and has the entry as bootstrap, one table key per module of the build order, the compiled record of each module, and a table closed under dependencies |
| MiniWebpack.WorklistInit | bundle/mini-webpack.js:16-19 | after the entry is compiled and pushed, the loop invariant holds with `i = 0` |
| MiniWebpack.EntryFailure | bundle/mini-webpack.js:16-17 | when the entry fails to compile, the build ends with the entry's error and no records, the first failure of the unfolding |
| MiniWebpack.OutcomeFirstFailure | bundle/mini-webpack.js:20-27 | an error outcome carries the error of the first file of the unfolding that fails to compile, all files before it having compiled |
| MiniWebpack.WorklistComplete | bundle/mini-webpack.js:20 | when the loop exits, the compiled ids are the build order |
| MiniWebpack.TableOfBuildOrder | bundle/mini-webpack.js:28-33 | folding the records of the build order gives a table whose keys are the build order, which contains the entry, maps each module to its compiled record and is closed under dependencies |
| MiniWebpack.TableKeys | bundle/mini-webpack.js:28-33 | the table keys are exactly the ids the records were compiled from |
| MiniWebpack.TableEntries | bundle/mini-webpack.js:28-33 | every table entry is the record the compiler produces for its key, whichever duplicate was written last |
| MiniWebpack.TableClosed | bundle/mini-webpack.js:28-33 | a table holding the compiled record of each build-order module is closed under dependencies |
| RuntimeLoader.Require | bundle/mini-webpack.js:83-93 | a successful `require(id)` means `id` is a table key, and the trace starts with the execution of `id` |
| RuntimeLoader.LocalResolveSpec | bundle/mini-webpack.js:84-86 | `localRequire` of a declared specifier goes to the identifier the bundler resolved for it; an undeclared one goes to the key "undefined" |
| RuntimeLoader.FirstRequireIsLocal | bundle/mini-webpack.js:84-90 | the first module executed after `id` is the local resolution of `id`'s first require |
| RuntimeLoader.SameNameDifferentTargets | bundle/mini-webpack.js:84-86 | the same specifier required from two modules with different dependency maps executes different modules |
| RuntimeLoader.EveryRequireExecutes | bundle/mini-webpack.js:87-92 | every require in a module's code executes its target, once per call |
| RuntimeLoader.SharedModuleRunsTwice | bundle/mini-webpack.js:87-92 | a module required twice runs twice, because there is no cache |
| RuntimeLoader.FirstRequireOverflows | bundle/mini-webpack.js:83-90 | if a module's first require overflows the stack, so does requiring that module |
| RuntimeLoader.FirstRequireCycleOverflows | bundle/mini-webpack.js:83-90 | on a cycle of first requires, requiring any module of the cycle overflows the stack, whatever the stack depth |
| RuntimeLoader.SelfImportOverflows | bundle/mini-webpack.js:83-90 | a module whose first require resolves to itself overflows the stack |
| RuntimeLoader.ClosedNeverMissing | bundle/mini-webpack.js:83-90 | on a table closed under dependencies, where modules require only declared specifiers, `require` never fails with a missing module, only with a stack overflow |
| RuntimeLoader.UndeclaredRequire | bundle/mini-webpack.js:85-90 | requiring an undeclared specifier first looks up the key "undefined", which fails when no module has that key |
| RuntimeLoader.Bootstrap | bundle/mini-webpack.js:94 | the bundle's `require(entry)` succeeds only if the entry is a table key, and then executes the entry first; a missing entry throws for that id, and an exhausted stack overflows |
| RuntimeLoader.BootstrapNeverMissing | bundle/mini-webpack.js:94 | for a closed bundle whose entry is a key, a successful bootstrap executes the entry first, and the only possible failure is a stack overflow |

## Left out

- File reading (`fs.readFileSync`, line 42), parsing (`parser.parse`, lines 43-45), the AST traversal (line 57) and the Babel transform (lines 64-66) are replaced by the compiler oracle. A failing read or parse is the oracle's error, which aborts the build.
- Writing the bundle (`fs.writeFileSync`, line 96) and the output path (`path.join(output.path, output.filename)`, line 80) are not modelled. `Webpack` only stores `output`.
- `JSON.stringify` and the template text of the bundle (lines 81-95) are not modelled. `Bundle` holds the table and the entry whose characters the text pastes into the bootstrap call (see the `Generate` line below).
- `eval` of module code (line 89) is not modelled. A module's run-time behaviour is only the sequence of specifiers it requires, and the fresh `exports` object of each call appears only as one trace entry per execution. Exceptions thrown by module code itself are not modelled.
- The JavaScript call-stack limit is the `depth` parameter of `Require`. The real limit depends on the engine.
- Node's `path` is modelled for relative POSIX paths only. An absolute importer (a leading "/") loses its root in the model, and Windows separators are not modelled.
- Paths.Resolve: an importer with a repeated separator before its file name (such as "a//b.js") has a directory ending in '/' in Node. With the empty specifier the source then writes an identifier ending in '/', and the model does not. Importers that `transform` itself produces are normalised and never have that form; only the entry can.
- JavaScript objects list integer-like keys before other keys. The model keeps every key in insertion order. Special keys such as `__proto__` are not modelled.
- The test `if (dependencies)` at line 22 is always true for the object `transform` returns, so the model has no branch for it.
- Runs that never return are not modelled. `Run`, `Collect` and `Drain` require `Stops`, which holds exactly when the loop of `run` ends. Otherwise the JavaScript array grows until memory runs out, and the model says nothing about that. `PushDependencies` does not require `Stops`: it accepts any worklist that is a prefix of the breadth-first unfolding.
- MiniWebpack.Webpack.Generate: the bundle's last statement is `require('${this.entry}')` (line 94), which pastes the entry's characters into a single-quoted JavaScript literal without escaping them, while the table keys are escaped by `JSON.stringify`. The model's bootstrap id is the entry itself, which is what the JavaScript parser reads back only when the entry contains no backslash, no single quote and no line terminator. Otherwise the source requires a different id (for example, `src\index.js` is read as `srcindex.js`) or emits a bundle that does not parse. The decoding of string-literal escapes is not modelled.
