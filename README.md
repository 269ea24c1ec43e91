# Custom-property resolution across `@import` chains

A Dafny model of the resolver in `src/lib/get-custom-properties-from-root.js`
(the stylelint plugin `value-no-unknown-custom-properties`). The resolver takes
a parsed stylesheet and returns a flat map from custom-property name
(`--name`) to its raw declared value. On the way it follows every `@import`
and resolves each imported file the same way. A process-wide import cache,
keyed by resolved path, makes sure each file is computed only once. The
merge policy is as follows. The imported maps are merged in `@import` order,
and a later import wins. The stylesheet's own matching declarations are then
written on top, and the last declaration of a name wins.

The model has six modules:

- `Stylesheet` (stylesheet.dfy) holds the data. A parsed stylesheet is a
  `Root`: an optional file name and its items in walk order. Each item is
  `Import(param)` or `Decl(prop, value)`. Everything outside the resolver is
  a `Host`: the module directory that stands in for `__dirname`,
  `path.dirname`, `path.resolve`, `require.resolve` (`None` when the module
  cannot be found), and a file system that maps a path to its parsed items.
  That map gives `None`, or has no entry, when the read or the parse fails.
- `PropertyName` (property_name.dfy) is the language of
  `/^--[A-z][\w-]*$/`, written as the regular expression is written. `[A-z]`
  is the code-point range 65–122. It therefore also admits `[ \ ] ^ _` and
  the backtick, and the model keeps that.
- `ImportPath` (import_path.dfy) handles one `@import` parameter. Every
  `'`, `"` and `|` is deleted from it. A leading `~` then sends the rest to
  module resolution. Anything else is resolved against the base directory.
  The base directory is the directory of the stylesheet's file, or the
  module directory when the file name is absent or empty (the source tests
  it for truthiness).
- `Resolution` (resolution.dfy) and `ResolutionFacts`
  (resolution_facts.dfy) give the specification as functions, with the
  lemmas proved about it. `ImportedMaps` is the per-import maps in document
  order. `MergeAll` is their merge into a fresh map. `Overlay` writes the
  declarations on top. `RootProps` combines these three. `FileProps` is the
  try/catch wrapper around reading, parsing and resolving an imported file.
- `Resolver` (resolver.dfy) is the imperative resolver: class
  `PropertyResolver`. It owns the import cache `importCache` and a ghost
  log `readLog` of every path whose file was read, in read order. The
  read is logged in `GetCustomPropertiesFromCSSFile`, where the file is
  read, and that method requires the path not to be in the log yet. It
  walks the imports with a loop. On a cache miss it computes the entry and
  inserts it (check-then-insert). It merges with a loop and overlays the
  declarations with a loop. Each method is proved to compute exactly the
  specification functions. The object invariant `Valid()` states three
  things: every cache entry equals `FileProps` of its path, every cached
  path is in `readLog`, and `readLog` has no duplicates. The paths read
  but not yet cached (`Pending()`) are the files whose resolution is still
  under way further up the call chain. Each method requires that their
  rank lies at or above its own walk, and this is what proves that a cache
  miss never reads a file a second time. Every method leaves `Pending()` as
  it found it, except the read itself, which adds its path until the
  caller enters it. A resolver starts with an empty log, so after every
  call from outside, the paths read are exactly the cache's keys. That no
  entry is ever replaced is not part of `Valid()`, which speaks of one
  state only. It is a two-state `ensures` of every method that changes the
  cache: each entry present before the call is present afterwards with the
  same value. Together, each file is read at most once over the object's
  lifetime, and a file's entry, once made, never changes.

Termination rests on an assumption, because the source has no cycle
detection. A rank on paths (`rank`) is passed alongside the `Host`. `Acyclic`
requires that every import of a readable file that resolves names a path of
lower rank. When the walk reaches a cycle and every file on the cycle
gets through its whole `@import` walk, the source waits forever on its own
pending promise. The model excludes that case by this precondition. The precondition is stronger than that, as "## Left out"
says.

Three behaviours of the code differ from what a quick reading suggests, and
the model follows the code in each:

- The clean-up deletes every `'`, `"` and `|` anywhere in the parameter,
  not just surrounding quotes.
- The name class is `[A-z]`, not `[A-Za-z]`.
- A `~` reference that module resolution cannot find is not always fatal.
  In the stylesheet passed to `GetCustomPropertiesFromRoot` it is an error
  (`Err(ModuleNotFound(request))`), and the caller sees it. Inside an
  imported file the same failure is caught by the file's try/catch wrapper,
  so that import gives the empty map.

## Model

| member | source | states |
|---|---|---|
| `PropertyName.IsCustomPropertyName` | src/lib/get-custom-properties-from-root.js:55 | the name filter `/^--[A-z][\w-]*$/`; what it accepts is stated by `PropertyName.MatchesAsConcatenation` and `PropertyName.Examples` |
| `PropertyName.MatchesAsConcatenation` | src/lib/get-custom-properties-from-root.js:55 | a name matches exactly when it is `--`, then one head character in `[A-z]`, then a tail drawn only from `[A-Za-z0-9_-]` |
| `PropertyName.Examples` | src/lib/get-custom-properties-from-root.js:55 | `--Abc`, `--_x`, `--[`, `--^a` and `` --` `` are captured; `--1abc`, `color`, `--`, `-x`, `--a.b` and `--{` are not |
| `ImportPath.StripQuotes` | src/lib/get-custom-properties-from-root.js:20 | the cleaned parameter is no longer than the parameter and holds no single quote, double quote or vertical bar |
| `ImportPath.StripQuotesCounts` | src/lib/get-custom-properties-from-root.js:20 | every character other than a single quote, double quote or vertical bar occurs in the cleaned parameter exactly as often as in the parameter |
| `ImportPath.StripQuotesConcat` | src/lib/get-custom-properties-from-root.js:20 | the clean-up works per character (it distributes over concatenation), so the kept characters keep their order |
| `ImportPath.StripQuotesKeepsClean` | src/lib/get-custom-properties-from-root.js:20 | a parameter without single quotes, double quotes or vertical bars is left unchanged |
| `ImportPath.StripQuotesIdempotent` | src/lib/get-custom-properties-from-root.js:20 | cleaning twice is the same as cleaning once |
| `ImportPath.QuotingIsIrrelevant` | src/lib/get-custom-properties-from-root.js:20-27 | wrapping a parameter in a pair of single quotes, double quotes or vertical bars does not change the path it resolves to, even when it starts with `~` |
| `ImportPath.SourceDir` | src/lib/get-custom-properties-from-root.js:11-15 | the base directory is the directory of the stylesheet's file when it has a non-empty file name, otherwise the module directory; `Target` resolves every relative import against it (see `ImportPath.ResolutionChoice`) |
| `ImportPath.Target` | src/lib/get-custom-properties-from-root.js:20-27 | the path an `@import` parameter resolves to; what it means for the raw parameter is stated by `ImportPath.ResolutionChoice` and `ImportPath.QuotingIsIrrelevant` |
| `ImportPath.LeadingQuotes` | src/lib/get-custom-properties-from-root.js:20 | the index of the first character the clean-up keeps: every character before it is a single quote, double quote or vertical bar, and the one at it is not |
| `ImportPath.StripQuotesAllQuotes` | src/lib/get-custom-properties-from-root.js:20 | a parameter made only of single quotes, double quotes and vertical bars is cleaned to the empty string |
| `ImportPath.StripQuotesFront` | src/lib/get-custom-properties-from-root.js:20 | the first character of the parameter is kept in front of the cleaned rest, unless it is one of the three deleted characters |
| `ImportPath.StripQuotesAtFirstKept` | src/lib/get-custom-properties-from-root.js:20 | the cleaned parameter is the first kept character followed by the cleaned remainder after it |
| `ImportPath.ModuleReferenceByFirstKept` | src/lib/get-custom-properties-from-root.js:20-24 | the cleaned parameter starts with `~` if and only if the first character of the raw parameter that is not a single quote, double quote or vertical bar is `~`; the module request is then the cleaned remainder after that `~` |
| `ImportPath.ResolutionChoice` | src/lib/get-custom-properties-from-root.js:20-27 | when the first kept character of the raw parameter is `~`, the cleaned remainder goes to module resolution, independent of the base directory, and fails exactly when module resolution fails; any other parameter resolves, cleaned, against the base directory |
| `ImportPath.CharacterBeforeTilde` | src/lib/get-custom-properties-from-root.js:20-24 | a single quote, double quote or vertical bar in front of `~` leaves a module reference whose request is the cleaned rest; any other character in front of `~`, a space say, makes a relative import |
| `Resolution.ImportedMaps` | src/lib/get-custom-properties-from-root.js:18-36 | when the walk succeeds it yields one map per `@import`, and every key in them is a custom-property name |
| `Resolution.MergeAll` | src/lib/get-custom-properties-from-root.js:38-40 | the merged map holds exactly the keys that some imported map holds |
| `Resolution.Overlay` | src/lib/get-custom-properties-from-root.js:43-48 | after the overlay, the keys are exactly the accumulator's keys plus the names of the matching declarations |
| `Resolution.RootProps` | src/lib/get-custom-properties-from-root.js:7-52 | every key of a stylesheet's resolved map is a custom-property name, imported keys included |
| `Resolution.FileProps` | src/lib/get-custom-properties-from-root.js:58-67 | every key of an imported file's map is a custom-property name |
| `ResolutionFacts.OverlayLastWins` | src/lib/get-custom-properties-from-root.js:43-48 | the last declaration of a matching name gives that name's value |
| `ResolutionFacts.OverlayKeepsOthers` | src/lib/get-custom-properties-from-root.js:43-48 | a name without a matching declaration keeps its presence and its value from before the overlay |
| `ResolutionFacts.OverlayConcat` | src/lib/get-custom-properties-from-root.js:43-48 | overlaying `a + b` is the same as overlaying `a` and then `b` |
| `ResolutionFacts.MergeAllLastWins` | src/lib/get-custom-properties-from-root.js:38-40 | for a key that several imported maps hold, the map latest in the list gives the value |
| `ResolutionFacts.MergeAllConcat` | src/lib/get-custom-properties-from-root.js:38-40 | merging `a + b` is the same as merging `a`, merging `b`, and letting `b` win |
| `ResolutionFacts.MergeAllSkipsEmpty` | src/lib/get-custom-properties-from-root.js:38-40 | an empty imported map changes the merge nowhere, wherever it stands |
| `ResolutionFacts.ImportedMapsInOrder` | src/lib/get-custom-properties-from-root.js:18-38 | the walk succeeds if and only if every `@import` resolves; then its j-th map is the properties of the file that the j-th `@import` in document order resolves to |
| `ResolutionFacts.ImportedMapsAt` | src/lib/get-custom-properties-from-root.js:18-38 | in a successful walk the j-th `@import` resolves, and the j-th map is the properties of the file it resolves to |
| `ResolutionFacts.ImportedMapsResolving` | src/lib/get-custom-properties-from-root.js:18-38 | when every `@import` resolves, the walk succeeds |
| `ResolutionFacts.ImportedMapsFirstError` | src/lib/get-custom-properties-from-root.js:19-24 | a failed walk reports the error of the first `@import` in document order whose `~` reference cannot be resolved |
| `ResolutionFacts.ImportedMapsErrPrefix` | src/lib/get-custom-properties-from-root.js:19-24 | once a prefix of the walk has failed, the whole walk fails with that same error |
| `ResolutionFacts.NoImportsNoMaps` | src/lib/get-custom-properties-from-root.js:18-36 | a stylesheet without `@import` rules yields no imported maps |
| `ResolutionFacts.ImportedMapsConcat` | src/lib/get-custom-properties-from-root.js:18-36 | the walk over `a + b` yields the maps of `a` followed by the maps of `b`, and fails with the first failure |
| `ResolutionFacts.EmptyStylesheet` | src/lib/get-custom-properties-from-root.js:9 | a stylesheet with no `@import` and no matching declaration resolves to the empty map |
| `ResolutionFacts.DeclarationCaptured` | src/lib/get-custom-properties-from-root.js:43-48 | a declaration's name is in the result if and only if it matches the pattern; the last such declaration's raw value is the result, whatever the imports hold |
| `ResolutionFacts.LastDeclWins` | src/lib/get-custom-properties-from-root.js:38-48 | a local declaration with no later declaration of its name fixes that name's value over every imported one, whether the `@import` rules stand before it or after it |
| `ResolutionFacts.LaterImportWins` | src/lib/get-custom-properties-from-root.js:18-40 | for a name the stylesheet does not declare, the value comes from the latest `@import` in document order whose file holds it (document order, not completion order) |
| `ResolutionFacts.OnlyModuleResolutionFails` | src/lib/get-custom-properties-from-root.js:23-24 | resolving a stylesheet fails if and only if one of its own `~` imports cannot be resolved, and then it fails with the first such error; unreadable or malformed imported files never make it fail |
| `ResolutionFacts.OverlaySkipsImport` | src/lib/get-custom-properties-from-root.js:43-48 | `@import` rules play no part in the declaration overlay |
| `ResolutionFacts.ImportedMapsWithEmpty` | src/lib/get-custom-properties-from-root.js:18-36 | an import whose file gives the empty map adds exactly one empty map, at its own place in the walk |
| `ResolutionFacts.FailedImportIsNoOp` | src/lib/get-custom-properties-from-root.js:58-66 | an `@import` whose file cannot be read or parsed, or whose own resolution fails, can be deleted without changing the stylesheet's result |
| `ResolutionFacts.EmptyImportIsNoOp` | src/lib/get-custom-properties-from-root.js:58-66 | deleting an `@import` whose file contributes nothing (for example a failed read or parse) leaves the result unchanged |
| `Resolver.PropertyResolver.GetCustomPropertiesFromRoot` | src/lib/get-custom-properties-from-root.js:7-52 | the result equals `RootProps`; when it succeeds, every import of the stylesheet has a cache entry afterwards; old entries are kept unchanged; the read log only grows, and every file read during the call has its entry when the call returns |
| `Resolver.PropertyResolver.WalkImports` | src/lib/get-custom-properties-from-root.js:17-36 | the collected cache entries equal `ImportedMaps`, in `@import` order, or the walk stops with the first module-resolution error |
| `Resolver.PropertyResolver.CachedImport` | src/lib/get-custom-properties-from-root.js:29-35 | a miss reads the path's file for the first time, resolves it and enters its map; a hit is served from the entry and reads nothing, so the cache and the read log do not change; no entry is ever replaced |
| `Resolver.PropertyResolver.GetCustomPropertiesFromCSSFile` | src/lib/get-custom-properties-from-root.js:58-67 | the result equals `FileProps`: read, parse and resolve the file, with the empty map on any failure; it reads only a file never read before, and logs that read |
| `Resolver.MergeImports` | src/lib/get-custom-properties-from-root.js:38-40 | the merge loop over a fresh accumulator computes `MergeAll` of the collected maps |
| `Resolver.WriteDeclarations` | src/lib/get-custom-properties-from-root.js:43-48 | the declaration loop computes `Overlay` of the merged map |

## Left out

- File reading and parsing (`fs.readFile`, `postcss.parse`) are foreign I/O and a foreign parser. They are replaced by `Host.files`, which maps a path to its parsed items, or to `None` when the read or the parse fails. An imported file's stylesheet takes the resolved path as its file name. postcss's own normalisation of the `from` option is not modelled.
- `path.dirname`, `path.resolve` and `require.resolve` are library semantics and stay uninterpreted functions of `Host`. A `require.resolve` that throws is modelled as `None`.
- The tree walks of postcss are not modelled. `walkAtRules('import')` and `walkDecls(regex)` are taken to visit exactly the `Item`s, in list order. Nesting and other node kinds are not represented. Only at-rules named exactly `import` are items.
- Asynchrony is not modelled. The model runs sequentially, so it does not capture the `async`/`await` calls, the `Promise.all` fan-out and fan-in, or the promise-valued cache entries. The cache stores the finished map, where the source stores a pending promise before it recurses. The two agree on acyclic import graphs, which `Acyclic` assumes. When the walk reaches a cycle and every file on the cycle gets through its whole `@import` walk, the source waits forever on its own pending promise.
- Cyclic imports are excluded by the `Acyclic` precondition and are not modelled as a hang.
- `Acyclic` is required of every readable file in `Host.files` and of every import in it that resolves, whether or not a walk ever reaches that import. It therefore also excludes some file systems on which the source terminates. One example is a cycle among files no walk reaches. Another is a back-edge that stands after a `~` import that cannot be resolved: the walk of that file throws before it reaches the back-edge, and the file's try/catch turns it into `{}`. A third is a back-edge that stands before a failing `~` import. The back-edge starts a second cache entry for a file already under way, but the walk then throws. The try/catch settles the file to `{}`, and the file higher up finds that settled entry.
- `./import-cache` is not part of this model. The process-wide cache is modelled as the `importCache` field of one `PropertyResolver`, which lasts as long as the object. The file system is fixed for that lifetime, because the source never invalidates an entry.
- `PropertyResolver.readLog` records a call to `fs.readFile`, whether or not the read succeeds. It does not distinguish a failed read from a failed parse.
- Strings are Dafny `seq<char>`. Character classes compare code points, as JavaScript does on UTF-16 code units. Surrogate pairs are not modelled.
