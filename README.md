# NugetDependencyChecker, modelled in Dafny

NugetDependencyChecker reads a NuGet `project.assets.json`, builds an
in-memory graph of packages, and works on that graph:

- **Package graph.** Every package has a name, a version, a list of direct
  dependency entries and a list of back-references. A back-reference is a
  `ChildPackage`: the name and version of a consumer, and the version of the
  package that the consumer declares. The package caches the number of
  back-references in `NumberOfPackagesThatUseThisPackage`, and a
  collection-changed handler keeps that count current.
- **Two parsers.** The console application's parser
  (`Implementation/ProjectAssetsJsonParser.cs`) reads every target framework.
  It keeps only packages and dependencies whose names start with a prefix,
  ignoring case, and re-indexes reverse usage after each framework. The
  library parser (`BusinessLogic/ProjectAssetsJsonParser.cs`, class `Parser`)
  reads the single target `.NETStandard,Version=v2.1` and keeps every
  package. It filters only the dependencies, then indexes reverse usage once
  for the packages whose names pass.
- **Reduction.** `Program.RemoveDirectDependenciesThatAreTransient` drops
  every direct dependency whose name also occurs among the dependencies of
  the package's resolved direct dependencies.
- **Statistics.** Read-only queries print counts, a stable descending order
  by usage, two top-10 lists, a usage histogram and a major-version "Alert".
- **Two renderers.** A Graphviz DOT text builder labels each package
  `a{i}i{in}o{out}`, colours each root family and emits node and edge
  statements. An Excel adjacency grid writes names along the first row and
  column and the word `dependency` where a row's package depends on a
  column's package.

The model keeps the source's form:

- **Mutable objects are classes.** `Package` and the two parser classes are
  classes whose methods change their fields. Their loops carry invariants
  and are proved against specification functions on values.
- **Everything else is values.** Records and dependency entries are
  datatypes. `Node` is the value of one package. Reduction, statistics and
  renderer outputs are functions over `seq<Node>`.
- **Modules follow the program.**
  - `Wrappers`: Option and Result types.
  - `Strings`: the .NET string operations the code uses.
  - `Models`: `Package.cs` and `ChildPackage.cs`.
  - `UsageIndex`: the shared index pass.
  - `AssetsJson`: the abstract JSON records.
  - `AssetsParser`: the Implementation parser.
  - `LogicParser`: the BusinessLogic parser.
  - `Reduction`: the `Program.cs` reduction pass.
  - `Statistics`: the `Program.cs` queries.
  - `DotDiagram`: the DOT diagram builder.
  - `DependencyMatrix`: the Excel matrix.

Conventions of the model:

- **Strings.** Strings are `seq<char>`, and a C# `null` string is `""`.
- **Case-insensitive comparison** folds ASCII letters only.
- **Integers** are unbounded. The counts involved are list lengths, so 32-bit
  overflow cannot arise for lists that fit in memory.
- **Dependency entries are values.** An entry is the `Package` object that a
  `Dependencies` list holds. The parsers create each one fresh for one list,
  so nothing observes its identity.
  - `List.Remove` compares references in C# and values in the model. The two
    agree here because equal entries have equal names, and the reduction loop
    removes every entry with that name. `Reduction.RemoveStep` proves the live
    list matches.
- **Usage counts.** The queries in `Program.cs` read the cached
  `NumberOfPackagesThatUseThisPackage`. The model reads the length of the
  used-by list instead, which the change handler keeps equal to the cached
  count (`Models.Package.Valid`, `Statistics.UsageKeysAreCachedCounts`).
- **Package lists hold no object twice** (`Models.Distinct`). The parsers
  only ever append fresh objects, as their `fresh` postconditions say.

## Model

| member | source | states |
|---|---|---|
| Models.NewEntry | NugetDependencyChecker.BusinessLogic/Models/Package.cs:16-19 | an entry made by the two-argument constructor has the given name and version, no dependencies and no label |
| Models.Package.WithoutDependencies | NugetDependencyChecker.BusinessLogic/Models/Package.cs:16-19 | a new package has the given name and version, no dependencies, no users and a count of 0 |
| Models.Package.constructor | NugetDependencyChecker.BusinessLogic/Models/Package.cs:26-33 | stores name, version and dependency list unchanged; the used-by list starts empty and the count at 0, so count == length holds |
| Models.Package.AddUsedBy | NugetDependencyChecker.BusinessLogic/Models/Package.cs:21-24 | `PackagesThatUseThisPackage.Add` plus the change handler: the entry is appended at the end and the count again equals the list's length |
| Models.Package.RemoveDependency | NugetDependencyChecker/Program.cs:94 | reports whether the entry was present and removes its first occurrence only |
| Models.Package.SetDependencyGuid | NugetDependencyChecker.Implementation/DotDependencyDiagramCreator.cs:60 | only the label of the k-th entry changes |
| Models.FirstDepIndex | NugetDependencyChecker.Implementation/ProjectAssetsJsonParser.cs:67 | `First(x => x.Name.Equals(n))`: an entry named n, with no earlier entry of that name |
| Models.FindPackage | NugetDependencyChecker/Program.cs:106 | `FirstOrDefault` by exact name: the first package with the name, or none exactly when no package has it |
| Models.RemoveFirst | NugetDependencyChecker/Program.cs:94 | removing a present element shortens the list by one; an absent one changes nothing |
| Models.RemoveFirstAfter | NugetDependencyChecker/Program.cs:94 | removing x where it first occurs, after a prefix without x, leaves the prefix followed by the rest |
| Strings.JoinSplit | NugetDependencyChecker.Implementation/ProjectAssetsJsonParser.cs:77 | `Split` loses nothing: joining the pieces with the separator gives back the string |
| Strings.SplitPieces | NugetDependencyChecker.Implementation/ProjectAssetsJsonParser.cs:77 | `Split` gives one piece more than there are separators, and no piece contains one |
| Strings.ConcatSplit | NugetDependencyChecker.Implementation/DotDependencyDiagramCreator.cs:90 | `string.Join("", s.Split('.'))` is s with its dots deleted |
| Strings.StartsWithIgnoreCase | NugetDependencyChecker.Implementation/ProjectAssetsJsonParser.cs:92 | `StartsWith(prefix, OrdinalIgnoreCase)` holds iff the prefix is no longer than s and agrees with it character by character after case folding |
| Strings.ExactPrefixIgnoresCase | NugetDependencyChecker.Implementation/ProjectAssetsJsonParser.cs:92 | an exact prefix also passes the case-insensitive test |
| Strings.IgnoreCaseOfPrefix | NugetDependencyChecker.Implementation/ProjectAssetsJsonParser.cs:92 | changing the case of the prefix's letters does not change the answer |
| Strings.NatToStringRoundTrip | NugetDependencyChecker.Implementation/DotDependencyDiagramCreator.cs:44 | the decimal text of a count read back gives the count |
| Strings.NatToStringInjective | NugetDependencyChecker.Implementation/DotDependencyDiagramCreator.cs:44 | different counts have different decimal texts |
| AssetsJson.GetPackageNameAndVersion | NugetDependencyChecker.Implementation/ProjectAssetsJsonParser.cs:75-79 | fails, naming the key, iff the key has no `/`; otherwise name and version hold no `/`, `name/version` begins the key, and what follows is a `/` or nothing (extra parts ignored) |
| AssetsJson.NameVersionRoundTrip | NugetDependencyChecker.Implementation/ProjectAssetsJsonParser.cs:75-79 | a key written as `name/version`, with or without more `/` parts, reads back as that name and version |
| UsageIndex.Users | NugetDependencyChecker.Implementation/ProjectAssetsJsonParser.cs:65 | the consumers that list n by exact name: all of them, only them, in ascending order |
| UsageIndex.BackRefsFollowUsers | NugetDependencyChecker.Implementation/ProjectAssetsJsonParser.cs:63-70 | one pass appends one `ChildPackage` per consumer listing n, in consumer order. Each holds the consumer's name, the version of its first entry named n, and the consumer's own version |
| UsageIndex.OneRefPerConsumer | NugetDependencyChecker.Implementation/ProjectAssetsJsonParser.cs:65-68 | with unique consumer names, a consumer listing n twice is still recorded exactly once, with its first entry's version |
| UsageIndex.NoUsersNoRefs | NugetDependencyChecker.Implementation/ProjectAssetsJsonParser.cs:65 | when no consumer lists n, the pass appends nothing |
| UsageIndex.BackRefsIgnoreUsedBy | NugetDependencyChecker.Implementation/ProjectAssetsJsonParser.cs:65-68 | the back-references depend only on the consumers' names, versions and entries, not on their used-by lists |
| UsageIndex.IndexTwiceDuplicates | NugetDependencyChecker.Implementation/ProjectAssetsJsonParser.cs:63-70 | the pass is not idempotent: a second pass appends the same batch again |
| UsageIndex.AddUsersOf | NugetDependencyChecker.Implementation/ProjectAssetsJsonParser.cs:65-69 | the inner loop appends exactly the back-references of p's name, and the count stays equal to the length |
| UsageIndex.AddBackReferences | NugetDependencyChecker.Implementation/ProjectAssetsJsonParser.cs:63-70 | each target gains the back-references computed from what the consumers declared when the pass started; names, versions, dependencies and labels are unchanged |
| AssetsParser.StringStartsWithPrefix | NugetDependencyChecker.Implementation/ProjectAssetsJsonParser.cs:86-93 | an empty prefix admits everything; otherwise the result is the case-folded prefix test, both directions |
| AssetsParser.KeptDependenciesAppend | NugetDependencyChecker.Implementation/ProjectAssetsJsonParser.cs:49-55 | filtering distributes over concatenation, so document order is kept |
| AssetsParser.KeptDependenciesMeaning | NugetDependencyChecker.Implementation/ProjectAssetsJsonParser.cs:49-55 | an entry is kept iff its key passes the prefix test; nothing is added, and kept entries have no dependencies |
| AssetsParser.ProjectAssetsJsonParser.DependencyList | NugetDependencyChecker.Implementation/ProjectAssetsJsonParser.cs:44-56 | the loop builds exactly the kept entries, in document order |
| AssetsParser.ReadPackagesKept | NugetDependencyChecker.Implementation/ProjectAssetsJsonParser.cs:36-59 | every kept package passed the prefix test, holds only passing leaf entries and has no users; at most one package per member |
| AssetsParser.ReadPackagesFailure | NugetDependencyChecker.Implementation/ProjectAssetsJsonParser.cs:36-38 | the member loop fails iff some key lacks `/`, and it fails with the first such key |
| AssetsParser.ReadPackagesAppend | NugetDependencyChecker.Implementation/ProjectAssetsJsonParser.cs:34-61 | members read one after another are kept one after another: nothing is merged or dropped at the boundary |
| AssetsParser.ReadPackagesAll | NugetDependencyChecker.Implementation/ProjectAssetsJsonParser.cs:34-61 | when every key is well formed and every name passes, each member gives one package at its own position, duplicates included |
| AssetsParser.RunTargetsExtends | NugetDependencyChecker.Implementation/ProjectAssetsJsonParser.cs:29-71 | the framework loop only appends: earlier packages keep place, name, version and dependencies, and their used-by lists only grow |
| AssetsParser.IndexedPerFramework | NugetDependencyChecker.Implementation/ProjectAssetsJsonParser.cs:29-71 | a package read from the first framework gets one batch of back-references per pass, one after each framework |
| AssetsParser.RunTargetsLeafEntries | NugetDependencyChecker.Implementation/ProjectAssetsJsonParser.cs:53 | the parser builds only dependency entries without dependencies of their own |
| AssetsParser.CaseSensitiveIndex | NugetDependencyChecker.Implementation/ProjectAssetsJsonParser.cs:65-67 | the filter folds case but the index compares exactly: `Foo.Core` passes the prefix `foo` yet gives no back-reference to `foo.core` |
| AssetsParser.ProjectAssetsJsonParser.constructor | NugetDependencyChecker.Implementation/ProjectAssetsJsonParser.cs:17-21 | stores the path and starts with no packages |
| AssetsParser.ProjectAssetsJsonParser.AddPackage | NugetDependencyChecker.Implementation/ProjectAssetsJsonParser.cs:59 | appends one fresh package with the given name, version and entries and no users; earlier packages are untouched |
| AssetsParser.ProjectAssetsJsonParser.ReadMember | NugetDependencyChecker.Implementation/ProjectAssetsJsonParser.cs:36-60 | one member: a malformed key fails, a rejected name adds nothing, and otherwise one package with the kept entries is appended |
| AssetsParser.ProjectAssetsJsonParser.ReadTargetPackages | NugetDependencyChecker.Implementation/ProjectAssetsJsonParser.cs:34-61 | the member loop appends exactly what the member specification reads, in order, stopping at the first malformed key |
| AssetsParser.ProjectAssetsJsonParser.GetAllPackages | NugetDependencyChecker.Implementation/ProjectAssetsJsonParser.cs:23-73 | the packages end as the framework loop specifies (read, then re-index all); the result is the accumulated list itself or the error that stopped it |
| LogicParser.FindTarget | NugetDependencyChecker.BusinessLogic/ProjectAssetsJsonParser.cs:23 | the first target with the framework name, or none exactly when no target has it |
| LogicParser.FilterAfterBuilding | NugetDependencyChecker.BusinessLogic/ProjectAssetsJsonParser.cs:36-44 | building every entry and then filtering gives the same list as the other parser's filter-while-reading |
| LogicParser.Parser.DependencyList | NugetDependencyChecker.BusinessLogic/ProjectAssetsJsonParser.cs:32-44 | the two loops build every entry and then keep those whose names pass the prefix, in order |
| LogicParser.ReadAllKeepsEveryMember | NugetDependencyChecker.BusinessLogic/ProjectAssetsJsonParser.cs:25-45 | with well-formed keys every member gives a package at its own position, named and versioned by its key, whatever the prefix |
| LogicParser.ReadAllLeafEntries | NugetDependencyChecker.BusinessLogic/ProjectAssetsJsonParser.cs:40 | the entries read have no dependencies of their own |
| LogicParser.Passing | NugetDependencyChecker.BusinessLogic/ProjectAssetsJsonParser.cs:62 | exactly the positions whose names pass the prefix, ascending |
| LogicParser.PassingEmptyPrefix | NugetDependencyChecker.BusinessLogic/ProjectAssetsJsonParser.cs:62 | an empty prefix selects every position |
| LogicParser.PassingNamesOnly | NugetDependencyChecker.BusinessLogic/ProjectAssetsJsonParser.cs:62 | the selection depends on the names only, so indexing does not change it |
| LogicParser.FilteredBranchesAgree | NugetDependencyChecker.BusinessLogic/ProjectAssetsJsonParser.cs:62 | both branches of `GetFilteredPackages` agree: the list itself equals the selection of all passing packages |
| LogicParser.FilteredPackagesMeaning | NugetDependencyChecker.BusinessLogic/ProjectAssetsJsonParser.cs:60-63 | the result holds no package twice and holds a listed package iff its name passes the prefix |
| LogicParser.UnfilteredConsumers | NugetDependencyChecker.BusinessLogic/ProjectAssetsJsonParser.cs:48-51 | a consumer outside the prefix still gives a back-reference to a selected package |
| LogicParser.Parser.constructor | NugetDependencyChecker.BusinessLogic/ProjectAssetsJsonParser.cs:12-17 | stores path and prefix and starts with no packages |
| LogicParser.Parser.AddPackage | NugetDependencyChecker.BusinessLogic/ProjectAssetsJsonParser.cs:45 | appends one fresh package with the given name, version and entries; earlier packages are untouched |
| LogicParser.Parser.ReadMember | NugetDependencyChecker.BusinessLogic/ProjectAssetsJsonParser.cs:27-45 | one member: a malformed key fails; otherwise one package with the filtered entries is appended, whatever its name |
| LogicParser.Parser.ReadMembers | NugetDependencyChecker.BusinessLogic/ProjectAssetsJsonParser.cs:25-46 | the member loop appends exactly what the member specification reads, stopping at the first malformed key |
| LogicParser.Parser.IndexFiltered | NugetDependencyChecker.BusinessLogic/ProjectAssetsJsonParser.cs:48-56 | the returned packages are the passing ones; each gains back-references drawn from all packages; the others are unchanged |
| LogicParser.Parser.Parse | NugetDependencyChecker.BusinessLogic/ProjectAssetsJsonParser.cs:19-58 | a missing target or a malformed key fails; otherwise every package is read, the passing ones are indexed once and the filtered list is returned |
| Reduction.TransientIsTwoHop | NugetDependencyChecker/Program.cs:101-115 | for entries without dependencies (as both parsers build them) the recursion adds nothing: the transient list is exactly the two-hop list |
| Reduction.TwoHopNames | NugetDependencyChecker/Program.cs:104-111 | a name is in the two-hop list iff some direct dependency resolves to a package that lists it |
| Reduction.ReducedMeaning | NugetDependencyChecker/Program.cs:90-96 | an entry survives iff its name is not in the transient list; the list never grows |
| Reduction.ReducedAppend | NugetDependencyChecker/Program.cs:90-96 | the removal distributes over concatenation, so survivors keep their relative order |
| Reduction.RemoveTransient | NugetDependencyChecker/Program.cs:90-96 | walking a copy and removing from the live list leaves exactly the reduced list |
| Reduction.ReduceUpToKeeps | NugetDependencyChecker/Program.cs:87-97 | the pass keeps every name, version and used-by list, shrinks dependency lists only, and leaves packages not yet handled untouched |
| Reduction.ReduceUpToSplit | NugetDependencyChecker/Program.cs:87-97 | handling later packages never revisits earlier ones: after i steps the first i are final and the rest as they started |
| Reduction.ReduceAllAt | NugetDependencyChecker/Program.cs:87-97 | each package ends with the entries not named in its transient list, computed over the already-reduced earlier packages and the untouched later ones |
| Reduction.ReduceAllTwoHop | NugetDependencyChecker/Program.cs:89-96 | for parser-built graphs, an entry survives iff it was listed and no direct dependency resolves, in that state, to a package listing its name |
| Reduction.RemoveDirectDependenciesThatAreTransient | NugetDependencyChecker/Program.cs:85-98 | the packages end as the pass specifies; usage counts and labels are unchanged |
| Reduction.DropsRedundantEdge | NugetDependencyChecker/Program.cs:85-98 | A→{B,C}, B→{C}: A keeps only B |
| Reduction.CycleLosesReachability | NugetDependencyChecker/Program.cs:85-115 | A→{B,C}, B→{C}, C→{B}: A loses both edges, so reachability is not preserved |
| Reduction.DistanceThreeKept | NugetDependencyChecker/Program.cs:101-115 | A→{B,D}, B→{C}, C→{D}: A keeps D although D is reachable through B; only two hops count |
| Statistics.DistinctStrings | NugetDependencyChecker/Program.cs:37 | first occurrences: no repeats, the same members, never longer |
| Statistics.DistinctStringsFull | NugetDependencyChecker/Program.cs:37 | nothing is dropped iff no string repeats |
| Statistics.DistinctNameCountBounds | NugetDependencyChecker/Program.cs:37 | at most one per package, and one per package iff no two packages share a name |
| Statistics.MainPackageHasTwoDots | NugetDependencyChecker/Program.cs:38 | a name has three `.`-parts iff it has exactly two dots |
| Statistics.MainPackageCountExtremes | NugetDependencyChecker/Program.cs:38 | all packages count when every name has two dots, none when no name has |
| Statistics.OrderByUsageIsStableSort | NugetDependencyChecker/Program.cs:40 | `OrderByDescending` by usage lists every package exactly once, by count from the highest down, keeping list order among equal counts |
| Statistics.UsageKeysAreCachedCounts | NugetDependencyChecker/Program.cs:40 | on valid packages the used-by length the queries sort by is the cached `NumberOfPackagesThatUseThisPackage` |
| Statistics.Take | NugetDependencyChecker/Program.cs:65 | `Take(n)`: a prefix of at most n elements, exactly n when there are enough, all of them otherwise |
| Statistics.TopUsedDominates | NugetDependencyChecker/Program.cs:65 | at most ten packages, and none left out is used more than one listed |
| Statistics.EmptyPrefixCountsAll | NugetDependencyChecker/Program.cs:43 | with an empty prefix every dependency is relevant |
| Statistics.RelevantPositions | NugetDependencyChecker/Program.cs:43 | the positions of exactly the entries whose names start with the prefix, ascending |
| Statistics.RelevantDependencyCountMeaning | NugetDependencyChecker/Program.cs:43 | the relevant-dependency count is the number of entries whose names start with the prefix |
| Statistics.UsageLinesSorted | NugetDependencyChecker/Program.cs:39-46 | one line per package in usage order, numbered from 0, with that package's name, version and reference count, the reference counts never increasing down the listing, and the number of its entries whose names start with the prefix |
| Statistics.Averages | NugetDependencyChecker/Program.cs:48-49 | `Average` fails iff there are no packages; otherwise both averages divide by the package count |
| Statistics.SumsBounded | NugetDependencyChecker/Program.cs:48-49 | the summed counts are at most count × bound, so the averages stay within a common per-package bound |
| Statistics.MaxUsage | NugetDependencyChecker/Program.cs:51 | `Max` over usage: no package exceeds it and some package attains it |
| Statistics.Histogram | NugetDependencyChecker/Program.cs:51-58 | fails iff there are no packages; otherwise the nested loops give the lines for counts 0 up to the maximum |
| Statistics.HistogramLines | NugetDependencyChecker/Program.cs:53-56 | every line reports the exact, non-zero number of packages with its usage count |
| Statistics.HistogramIncreasing | NugetDependencyChecker/Program.cs:51 | the lines come in increasing usage count |
| Statistics.HistogramComplete | NugetDependencyChecker/Program.cs:51-57 | no usage count that some package has is left out |
| Statistics.HistogramTotal | NugetDependencyChecker/Program.cs:51-57 | over the full range the reported numbers add up to the number of packages |
| Statistics.DistinctVersionBounds | NugetDependencyChecker/Program.cs:67 | distinct parent versions: at most one per user, at least one when there is a user |
| Statistics.TopByVersionsDominates | NugetDependencyChecker/Program.cs:73-75 | at most ten packages, and none left out has more distinct versions than one listed |
| Statistics.FirstSegment | NugetDependencyChecker/Program.cs:78 | `Split(".")[0]` is a dot-free prefix of the version |
| Statistics.FirstSegmentLeading | NugetDependencyChecker/Program.cs:78 | the first segment is exactly what precedes the first dot |
| Statistics.AlertFrom | NugetDependencyChecker/Program.cs:78 | "Alert" iff some user's declared version has a first segment other than the package's own |
| Statistics.MinorDifferenceNoAlert | NugetDependencyChecker/Program.cs:78 | versions 1.2.0 and 1.5.3 raise no alert |
| Statistics.MajorDifferenceAlert | NugetDependencyChecker/Program.cs:78 | versions 1.2.0 and 2.0.0 raise the alert |
| Statistics.TopUsedLines | NugetDependencyChecker/Program.cs:65-68 | at most ten lines, each with no more distinct versions than users |
| Statistics.VersionLines | NugetDependencyChecker/Program.cs:73-82 | at most ten lines, each flagged iff some user's major version differs |
| DotDiagram.TakeThree | NugetDependencyChecker.Implementation/DotDependencyDiagramCreator.cs:90 | `Take(3)`: the first three parts, or all of them when there are fewer |
| DotDiagram.RootNameHasNoDots | NugetDependencyChecker.Implementation/DotDependencyDiagramCreator.cs:88-91 | a root name contains no dot |
| DotDiagram.RootNameOfShortName | NugetDependencyChecker.Implementation/DotDependencyDiagramCreator.cs:88-91 | a name with at most three segments yields the whole name without dots |
| DotDiagram.RootNameOfLongName | NugetDependencyChecker.Implementation/DotDependencyDiagramCreator.cs:88-91 | a longer name yields its first three segments joined |
| DotDiagram.LongRootExample | NugetDependencyChecker.Implementation/DotDependencyDiagramCreator.cs:90 | `A.B.C.D` has root `ABC` |
| DotDiagram.ShortRootExamples | NugetDependencyChecker.Implementation/DotDependencyDiagramCreator.cs:90 | `A.B.C` has root `ABC` and `A.B` has root `AB` |
| DotDiagram.InCountIsBackReferenceCount | NugetDependencyChecker.Implementation/DotDependencyDiagramCreator.cs:43 | the `in` number of a label equals the number of back-references one index pass gives that name |
| DotDiagram.GuidLabelInjective | NugetDependencyChecker.Implementation/DotDependencyDiagramCreator.cs:44 | `a{i}i{in}o{out}` determines i, in and out |
| DotDiagram.LabelsDistinct | NugetDependencyChecker.Implementation/DotDependencyDiagramCreator.cs:40-44 | packages at different indices get different labels |
| DotDiagram.ColourMapKeys | NugetDependencyChecker.Implementation/DotDependencyDiagramCreator.cs:45-49 | the colour dictionary has exactly one key per root name seen |
| DotDiagram.ColourMapKeepsFirst | NugetDependencyChecker.Implementation/DotDependencyDiagramCreator.cs:46-49 | the first colour given to a root is never overwritten |
| DotDiagram.ResolveMeaning | NugetDependencyChecker.Implementation/DotDependencyDiagramCreator.cs:55-62 | resolving changes only an entry's label, to the label of the first package with its name; an entry no package matches is untouched |
| DotDiagram.ResolvedGraphKeeps | NugetDependencyChecker.Implementation/DotDependencyDiagramCreator.cs:52-62 | resolving keeps names, versions, used-by lists and the number and names of entries |
| DotDiagram.EdgesShape | NugetDependencyChecker.Implementation/DotDependencyDiagramCreator.cs:65-73 | every edge leaves the package and reaches a non-empty label |
| DotDiagram.EdgesComplete | NugetDependencyChecker.Implementation/DotDependencyDiagramCreator.cs:65-73 | every labelled entry gives an edge to its label, `gray88` within the root family and `black` across |
| DotDiagram.EdgesSound | NugetDependencyChecker.Implementation/DotDependencyDiagramCreator.cs:65-73 | every edge comes from a labelled entry and is coloured by that rule |
| DotDiagram.Labelled | NugetDependencyChecker.Implementation/DotDependencyDiagramCreator.cs:67 | the positions of exactly the entries that carry a label, ascending |
| DotDiagram.EdgesFollowLabelled | NugetDependencyChecker.Implementation/DotDependencyDiagramCreator.cs:65-73 | exactly one edge per labelled entry, in entry order, duplicates included: the j-th edge belongs to the j-th labelled entry |
| DotDiagram.DotSpec | NugetDependencyChecker.Implementation/DotDependencyDiagramCreator.cs:32-76 | the output begins with `digraph G {` and the seven fixed lines and ends with `}` |
| DotDiagram.PackageNodeStmt | NugetDependencyChecker.Implementation/DotDependencyDiagramCreator.cs:54 | the lines of one package hold exactly its own node statement |
| DotDiagram.OneNodePerPackage | NugetDependencyChecker.Implementation/DotDependencyDiagramCreator.cs:52-54 | the statements of all packages hold one node statement per package, in list order |
| DotDiagram.NodeStmtsOfOutput | NugetDependencyChecker.Implementation/DotDependencyDiagramCreator.cs:28-78 | the whole output holds exactly one node statement per package, in list order, with its label and its root's colour |
| DotDiagram.ResolveDependencies | NugetDependencyChecker.Implementation/DotDependencyDiagramCreator.cs:55-62 | the loop resolves every entry of the package in place |
| DotDiagram.EdgeLines | NugetDependencyChecker.Implementation/DotDependencyDiagramCreator.cs:64-73 | the loop emits exactly the package's edges, in entry order |
| DotDiagram.LabelPackages | NugetDependencyChecker.Implementation/DotDependencyDiagramCreator.cs:40-50 | every package gets its label `a{i}i{in}o{out}` and its root name; the dictionary is the first-come colour map of the roots; nothing else changes |
| DotDiagram.EmitPackage | NugetDependencyChecker.Implementation/DotDependencyDiagramCreator.cs:54-73 | node statement, entries resolved, then edges; only the entries change |
| DotDiagram.EmitStatements | NugetDependencyChecker.Implementation/DotDependencyDiagramCreator.cs:52-74 | the statements of every package, appended in list order, with every package's entries resolved |
| DotDiagram.GetDotOutput | NugetDependencyChecker.Implementation/DotDependencyDiagramCreator.cs:28-78 | the output is the specified DOT text, and the packages end with their entries resolved |
| DotDiagram.FamilyResolveExample | NugetDependencyChecker.Implementation/DotDependencyDiagramCreator.cs:55-62 | `A.B.C`, listed second, takes the second label; the unlisted `X` keeps no label |
| DotDiagram.FamilyColourExample | NugetDependencyChecker.Implementation/DotDependencyDiagramCreator.cs:69-70 | an edge from `A.B.C.D` to `A.B.C` is `gray88` |
| DotDiagram.SameFamilyEdge | NugetDependencyChecker.Implementation/DotDependencyDiagramCreator.cs:55-73 | `A.B.C.D` listing `A.B.C` and `X` gives one `gray88` edge, to the label of `A.B.C` |
| DependencyMatrix.CreateDependencyMatrix | NugetDependencyChecker.Implementation/ExcelDependencyMatrixCreator.cs:26-49 | the three loops write exactly the cells of the matrix specification |
| DependencyMatrix.TopHeadersAt | NugetDependencyChecker.Implementation/ExcelDependencyMatrixCreator.cs:26-29 | row 1, columns 2 to m+1, hold the package names in order; no other cell changes |
| DependencyMatrix.SideHeadersAt | NugetDependencyChecker.Implementation/ExcelDependencyMatrixCreator.cs:31-34 | column 1, rows 2 to m+1, hold the package names in order; no other cell changes |
| DependencyMatrix.RowMarksAt | NugetDependencyChecker.Implementation/ExcelDependencyMatrixCreator.cs:39-48 | a row gains `dependency` exactly in the columns its entries resolve to |
| DependencyMatrix.DependencyMarksAt | NugetDependencyChecker.Implementation/ExcelDependencyMatrixCreator.cs:36-49 | after m rows, cell (r, c) with 2 ≤ r ≤ m+1 is marked iff package r-1 has an entry resolving to column c |
| DependencyMatrix.MatrixCell | NugetDependencyChecker.Implementation/ExcelDependencyMatrixCreator.cs:26-49 | a cell is written iff it is a header or a resolved dependency, and it holds the name or `dependency` accordingly |
| DependencyMatrix.MatrixBounds | NugetDependencyChecker.Implementation/ExcelDependencyMatrixCreator.cs:26-49 | every written cell lies in rows and columns 1 to n+1, and (1, 1) is never written |
| DependencyMatrix.UnknownDependencyMarksNothing | NugetDependencyChecker.Implementation/ExcelDependencyMatrixCreator.cs:41-46 | an entry naming no listed package writes nothing; one naming the second package marks column 3 |

## What the reduction does and does not do

The name `RemoveDirectDependenciesThatAreTransient` suggests a transitive
reduction, which would keep every package reachable that was reachable
before. The code does less, and the model follows the code:

- **Only two hops count.**
  - The recursion at `Program.cs:110` runs on the dependency entry, not on the
    resolved package.
  - The parsers create entries without dependencies, so the recursion adds
    nothing (`Reduction.TransientIsTwoHop`).
  - A node three hops away does not make a direct edge redundant
    (`Reduction.DistanceThreeKept`).
  - For the same reason the walk terminates on cyclic inputs.
- **Reachability is not preserved on cycles.** `Reduction.CycleLosesReachability`
  exhibits the loss.
- **The pass is not run on a snapshot.** It runs in list order over the live
  list. A package's transient list is therefore computed from
  already-reduced earlier packages (`Reduction.ReduceAllAt`).

Two further behaviours of the parsers, also followed as written:

- **The Implementation parser re-indexes after every framework.** After each
  target framework it runs the index pass over every package read so far.
  A package read in framework k therefore gets one batch of back-references
  after framework k, and one more after every later framework
  (`AssetsParser.IndexedPerFramework`).
- **The BusinessLogic parser draws consumers from all packages.** It indexes
  only the filtered packages, but takes consumers from every package read,
  including those outside the prefix (`LogicParser.UnfilteredConsumers`).

## Left out

- **JSON reading**, `File.ReadAllText`, `JObject.Parse` and the dynamic
  traversal: the model reads abstract records (`AssetsJson.Target`,
  `AssetsJson.Record`). Their order is document order. A member without a
  `dependencies` object reads as one with no dependencies. A version value's
  `ToString()` is taken as the given string.
- **A null prefix.** A null prefix cannot arise, because strings are values.
  For the BusinessLogic parser the empty prefix stands for it, and the null
  case, in which `StartsWith(null)` throws, is not modelled.
- **Files and processes.** `CreateDependencyDiagram` writes the file, launches
  `dot` and detects the OS (`DotDependencyDiagramCreator.cs:11-26,94-212`);
  all of this is file and process I/O. The model ends at the list of DOT lines
  (`DotDiagram.DotLine`, whose `Render` gives each line's text without the
  line break).
- **`GetRandomColor`** is nondeterministic. The k-th draw is a caller-given
  `pick(k)`, and a colour is the string its `Name` gives.
- **EPPlus.** The workbook, the `Save` call, the time-stamped file name and
  the catch that turns exceptions into a faulted `Task`
  (`ExcelDependencyMatrixCreator.cs:18-24,51-58`) are library I/O. The
  worksheet is a map from (row, column) to the written text.
- **Console text and prompts.** The text that is printed, and
  `GetProjectAssetsJsonFilePath` and `GetPackageFilterPrefix`
  (`Program.cs:119-154`), are console I/O. Each query returns the values it
  would print.
- **`Main`** (`Program.cs:12-32`) only sequences the calls. It is not composed
  into one member; each step it calls is modelled.
- **`Average`** is floating point. It is modelled as the integer (sum, count)
  pair, plus its failure on an empty sequence.
- **Culture and Unicode.** The culture-sensitive `StartsWith` at
  `Program.cs:43` is an exact prefix test here. `OrdinalIgnoreCase` folds
  ASCII letters only; full Unicode case folding is not modelled.
- **`PackagesThatAreDependentOnPackage`**
  (`Implementation/ProjectAssetsJsonParser.cs:81-84`) is never called by the
  code, so it is not modelled.
- **Setters nobody calls.** The public setters of `Package.Name`,
  `Package.Version`, `ChildPackage.Name` and `ChildPackage.ParentVersion` are
  not used by the modelled code. `ChildPackage` is therefore an immutable
  datatype, and `Package` has no setter methods for these fields. The private
  setters of `Dependencies`, `PackagesThatUseThisPackage` and the count are
  kept as what the class's methods may change.
- **Not modelled for other reasons:** the Web API controller and hosting, the
  DTO classes and the two creator interfaces (no logic), and the `async`/`Task`
  wrapping (no concurrency semantics).
- GetDotOutput: its contract does not restate the labels and root names it
  leaves on the packages. `DotDiagram.LabelPackages` states them. Carrying
  them through the emission loop as well makes that proof too costly.
- Histogram: its contract does not model the `int` loop counter. Unbounded
  integers stand in.
