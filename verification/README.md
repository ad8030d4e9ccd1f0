# checkdeps analysis engine in Dafny

`checkdeps` reads a resolved `Cargo.lock` and explains why several versions of
one crate end up in a build. This project models its analysis engine, which
lives in `checkdeps.go`:

- `makePkgMap` builds a name → version → package table. It resolves every
  dependency entry, counts `incoming` entries, and sets `versions`, `popular`
  (the strict-majority version of a name), the `depOfMulti` taint and
  `depVersions` on every package.
- `trimPkgs` prunes packages that have nothing to do with a version conflict.
- The command's report loop lists the "leverage points": single-version,
  untainted packages that directly pull in a minority version.
- The drawing uses node and edge categories, the per-package hyperlink
  (`WriteUrl`) and the node id (`writeDotId`).

Layout:

- `packages.dfy` (module `Packages`): the package records and the lookup
  table. It defines what the table built from a list holds, and what
  resolving an entry against it means.
- `annotations.dfy` (module `Annotations`): the value-level meaning of each
  private field. `incoming` is an in-degree. `popular` is a strict majority
  among siblings. `depOfMulti` is the least fixed point of the taint rule
  above "no taint". `depVersions` is a maximum over non-popular dependencies.
- `trimming.dfy` (module `Trimming`): the meaning of the trimming passes over
  values. It covers entry filtering by live names, how the table shrinks, and
  the surviving positions.
- `checkdeps.dfy` (module `CheckDeps`): the class `PkgGraph`, which holds the
  package list, the table, and one array per private field. Its methods are
  the loops of `makePkgMap`, `trimPkgs` and the report, and each is proved
  against the value-level definitions above.
- `presentation.dfy` (module `Presentation`): the report lines, the node and
  edge categories, the hyperlink and the node id.

Packages are identified by their position in the list: the `Pkg` field of a
dependency entry is a position, and two packages are the same package exactly
when their positions are equal.

When two packages of the list share a key (name, version), the table keeps
the later one, as a Go map assignment does. Entries with that key resolve to
it.

An entry that names no package in the list would make the source dereference
nil. `MakePkgMap` therefore requires that every entry resolves.

Code and prose differ in two places, and the model follows the code:

- The yellow node colour (checkdeps.go:361) tests `depOfMulti && !popular`
  on a single-version package, where a plain description would say
  "single-version and tainted". Once `versions` and `popular` are set the two
  agree, because a single-version package is never popular. `Presentation.NodeCategoriesOfGraph`
  proves this agreement.
- `depVersions` reaches 1 only through a dependency that is not the popular
  version of its name. A package whose every dependency is a popular version
  keeps `depVersions == 0`. The stronger reading, "any dependency gives at
  least 1", does not hold. `Annotations.DepVersionsFloor` states the true
  form: any single-version dependency, or more generally any non-popular
  one, gives at least 1.

## Model

| member | source | states |
|---|---|---|
| `Packages.Insert` | checkdeps.go:192-197 | After storing a package under (name, version), that key maps to the package. The table gains at most the new name, and that name's inner map gains only that version. Every other name, and every other version of the same name, keeps its entry. |
| `Packages.TableOf` | checkdeps.go:190-198 | The table built by inserting the packages in list order holds every package's (name, version) key. |
| `Packages.TableOfIsTable` | checkdeps.go:190-198 | The built table holds every key of the list. Each entry points at the last package with that key, and no name has an empty inner table. |
| `Packages.InsertLast` | checkdeps.go:192-197 | Inserting one more package, creating the inner map when it is missing, turns a table of the list without it into a table of the whole list. |
| `Packages.VersionCountIsDistinctVersions` | checkdeps.go:200 | `len(pkgs[name])` equals the number of distinct versions the list holds for that name. |
| `Packages.Siblings` | checkdeps.go:210-213 | Every package kept under a name carries that name and lies in the list. |
| `Packages.SiblingsOfTable` | checkdeps.go:210-213 | The packages the popularity loop visits under a name are exactly the last package of each version of that name. |
| `Packages.Resolve` | checkdeps.go:202-204 | Looking an entry up in the table gives a resolved entry with the entry's own name and version. `Packages.TableResolves` states which package it points at. |
| `Packages.ResolveIn` | checkdeps.go:202-204 | An entry resolves to the last package of the list with its name and version, and keeps its own name and version. |
| `Packages.TableResolves` | checkdeps.go:202-204 | Looking an entry up in the built table finds the package the entry resolves to. |
| `Packages.Edges` | checkdeps.go:201-204 | The resolved lists have one list per package and one entry per dependency, each resolved to its package. |
| `Packages.TableAgrees` | checkdeps.go:190-216 | What the later loops read from the built table (lookups, version counts, siblings) agrees with the list. |
| `Annotations.Occurrences` | checkdeps.go:201-205 | The count of entries of one list resolving to a package is at most the list's length. |
| `Annotations.OccurrencesCountsEntries` | checkdeps.go:201-205 | The count of one list equals the number of positions whose entry resolves to the package, so a repeated entry is counted each time. |
| `Annotations.OccurrencesZero` | checkdeps.go:201-205 | A list adds nothing to a package's count exactly when none of its entries resolves to it. |
| `Annotations.InDegree` | checkdeps.go:201-206 | Defines `incoming` as the sum, over all lists, of the entries resolving to the package. `InDegreeZero` and `InDegreeCountsEachList` state its properties. |
| `Annotations.InDegreeZero` | checkdeps.go:201-206 | `incoming` is 0 exactly when no entry of any list resolves to the package. |
| `Annotations.InDegreeCountsEachList` | checkdeps.go:201-206 | Duplicate entries are counted each time: `incoming` is at least the number of entries of any one list that resolve to the package. |
| `Annotations.Majority` | checkdeps.go:209-217 | Defines `popular`: a multi-version package with at least one incoming entry and strictly more than every other package under its name. |
| `Annotations.MajorityIsStrict` | checkdeps.go:208-218 | Two siblings are never both popular. A sibling that another one matches or beats is not popular, so a tie at the top leaves no popular version. |
| `Annotations.EdgesShaped` | checkdeps.go:201-204 | Every resolved entry points at a package of the list. |
| `Annotations.Spreads` | checkdeps.go:226 | Defines when an edge from an untainted package taints its target: the source has several versions, and either the target has several too or the source is not popular. |
| `Annotations.LeastTaint` | checkdeps.go:220-233 | Defines the flags the taint loop must end with: closed under the rule on every edge, above the starting flags, and below every other such set. |
| `Annotations.TaintFollowsPaths` | checkdeps.go:220-233 | At the fixed point, the taint of a package reaches every package on any dependency path below it. |
| `Annotations.MinorityTaintsBeneath` | checkdeps.go:226-227 | At the fixed point, everything below a multi-version package that is not popular is tainted. |
| `Annotations.LeastTaintUnique` | checkdeps.go:220-233 | The least fixed point is unique, so the visiting order of the passes does not change the result. |
| `Annotations.ClosedStartIsFixed` | checkdeps.go:220-233 | Starting from flags that already satisfy the rule on every edge, the loop changes nothing. |
| `Annotations.TaintJustified` | checkdeps.go:224-229 | Every package tainted at the fixed point, and not at the start, has an incoming edge from a tainted package or one the rule fires on. |
| `Annotations.SingleVersionsNoTaint` | checkdeps.go:220-233 | When every name has a single version, no package is tainted. |
| `Annotations.UntaintedShrinks` | checkdeps.go:225-228 | Setting a flag that was false shrinks the set of untainted packages, which is the measure that ends the taint loop. |
| `Annotations.MaxDepVersions` | checkdeps.go:237-241 | `depVersions` is at least the version count of every non-popular dependency, and is either 0 or the count of one of them. |
| `Annotations.VersionBounds` | checkdeps.go:200 | Every package has at least one version, and a popular package has more than one. |
| `Annotations.DepVersionsFloor` | checkdeps.go:235-242 | A single-version dependency is never popular, and a non-popular dependency gives `depVersions` at least its version count, which is at least 1. |
| `Trimming.Live` | checkdeps.go:254-255 | Defines a live name: it is still in the table with at least one version. |
| `Trimming.KeepLive` | checkdeps.go:252-258 | Every kept entry is an entry of the list with a live name, and every entry with a live name is kept; the filtered list is no longer than the original. Order and multiplicity are stated by `Trimming.KeepLiveOne` and `Trimming.KeepLiveConcat`. |
| `Trimming.KeepLiveOne` | checkdeps.go:253-257 | A single entry is kept exactly when its name is live. |
| `Trimming.KeepLiveConcat` | checkdeps.go:252-258 | The filter of a concatenation is the concatenation of the filters. With `KeepLiveOne`, this says each live entry is kept once per occurrence, in list order. |
| `Trimming.KeepLiveSameLength` | checkdeps.go:259-261 | A filtered list as long as the original is the original, so replacing `Deps` only on a length change makes no difference. |
| `Trimming.KeepLiveTwice` | checkdeps.go:249-258 | Filtering again by a table with fewer names is the same as filtering once by the smaller table. |
| `Trimming.EdgesLiveInTable` | checkdeps.go:253-258 | Against the table built by `makePkgMap`, no resolved entry is filtered out. |
| `Trimming.FilterStep` | checkdeps.go:251-261 | Filtering one package's entries keeps every list equal to its start list filtered by a table holding the current names. |
| `Trimming.FilterKeeps` | checkdeps.go:251-261 | Filtering keeps every entry pointing into the list and keeps every empty list empty. |
| `Trimming.DeleteStep` | checkdeps.go:262-268 | Deleting the name of a single-version package with no entries only removes that name, and the package witnesses the deletion. |
| `Trimming.TrimSettled` | checkdeps.go:249-270 | At the end of the loop, names with two or more versions were never deleted. Every deleted name had one version and a package with no entries. Every list is its start list filtered by the final table. |
| `Trimming.KeepLiveFewer` | checkdeps.go:252-258 | Filtering by a table with fewer live names keeps no entry that filtering by the larger one drops, so an emptied list stays empty. |
| `Trimming.DeleteWithin` | checkdeps.go:262-268 | Each deletion stays inside every removal-closed set of names. Such a set must contain the deleted name, because the package's entries are all dead once the set is removed. |
| `Trimming.SettledLeast` | checkdeps.go:249-270 | When the loop stops, the deleted names are exactly the least removal-closed set. It is closed because no package is left deletable, and least because every deletion was forced. |
| `Trimming.LeastRemovalUnique` | checkdeps.go:249-270 | At most one set of names is the least removal-closed one. |
| `Trimming.TrimmedUnique` | checkdeps.go:249-270 | Two outcomes of trimming the same lists and table have the same table and the same lists, so the deleted names are fully determined. |
| `Trimming.Survives` | checkdeps.go:276 | Defines a surviving package: its (name, version) key is still in the table. |
| `Trimming.SurvivorsUpTo` | checkdeps.go:274-280 | The kept positions are increasing, and a position is kept exactly when its package's key is still in the table. |
| `Trimming.Survivors` | checkdeps.go:274-280 | The returned list is an order-preserving sublist holding exactly the packages whose key survived. |
| `Trimming.SurvivorsOfFullTable` | checkdeps.go:271-273 | When no name was deleted, the filter would keep the whole list in order, so returning the input list agrees with it. |
| `CheckDeps.PkgGraph.constructor` | checkdeps.go:17-41 | A freshly loaded package list has zero-valued private fields and unresolved entries. |
| `CheckDeps.PkgGraph.MakePkgMap` | checkdeps.go:189-244 | The table is the one built from the list, every entry is resolved, and every private field holds its value-level definition. |
| `CheckDeps.PkgGraph.Annotate` | checkdeps.go:199-242 | The four loops after the table build leave every field annotated. |
| `CheckDeps.PkgGraph.BuildTable` | checkdeps.go:190-198 | The loop builds the table of the whole list. |
| `CheckDeps.PkgGraph.ResolveAndCount` | checkdeps.go:199-207 | `versions` is the number of distinct versions of the name, each entry is resolved, and `incoming` is each package's in-degree with duplicates counted. |
| `CheckDeps.PkgGraph.ResolvePackage` | checkdeps.go:200-206 | One package's version count and resolved entries are set, and each of its entries adds one to its target's `incoming`. Nothing else changes. |
| `CheckDeps.PkgGraph.MarkPopular` | checkdeps.go:208-219 | `popular` holds exactly on a multi-version package that more entries resolve to than to any sibling, and at least one entry does. |
| `CheckDeps.MostIncomingOfOthers` | checkdeps.go:211-216 | The running maximum starts at 0 and ends at the largest `incoming` among the other siblings. |
| `CheckDeps.MajorityAgainstMost` | checkdeps.go:217 | Comparing with that maximum decides the strict majority. |
| `CheckDeps.PkgGraph.PropagateTaint` | checkdeps.go:220-233 | The repeated passes end with `depOfMulti` the least fixed point of the taint rule above the starting flags. |
| `CheckDeps.PkgGraph.TaintPass` | checkdeps.go:222-232 | One in-place pass sets flags only and never resets one. It reports a change only when it set a flag. A pass reporting none leaves the rule satisfied on every edge. It never goes beyond any closed set above its start. |
| `CheckDeps.PkgGraph.ComputeDepVersions` | checkdeps.go:235-242 | `versions` is unchanged, and `depVersions` is the largest version count among each package's non-popular dependencies. |
| `CheckDeps.DeepestDep` | checkdeps.go:237-241 | The inner loop's running maximum, starting from 0, equals the largest version count among the non-popular dependencies. |
| `CheckDeps.PkgGraph.LeverageReport` | checkdeps.go:174-182 | The lines printed are those of the report over the package list, in list and entry order. |
| `CheckDeps.PkgGraph.LiveEntries` | checkdeps.go:252-258 | The inner filter returns, in order, the entries whose name still has versions. |
| `CheckDeps.PkgGraph.TrimPkgs` | checkdeps.go:246-281 | The deleted names are exactly the least removal-closed set. A removal-closed set is one that contains the name of every single-version package none of whose starting entries stays live once the set is deleted. So names with two or more versions survive, and each deleted name had one version and a package left with no entries. Every list is its start list filtered by the final table, and no package is left deletable. The result is the surviving positions in order, and the whole list when nothing was deleted. The annotations are untouched. |
| `CheckDeps.PkgGraph.SurvivingPositions` | checkdeps.go:274-280 | The closing filter returns the positions whose key is still in the table, in order. |
| `CheckDeps.PkgGraph.TrimToFixedPoint` | checkdeps.go:247-270 | The change loop deletes exactly the least removal-closed set of names. It ends with no package deletable and every list filtered by the final table. It reports a change exactly when the table lost a name. |
| `CheckDeps.PkgGraph.TrimPass` | checkdeps.go:250-269 | A pass deletes only names that lie in every removal-closed set, and keeps every list equal to its start list filtered by an earlier table. It reports a change only when it deleted a name. A pass reporting none leaves the table unchanged and no package deletable. |
| `CheckDeps.PkgGraph.Deletable` | checkdeps.go:262-263 | Defines a deletable package: its name is still in the table with fewer than two versions, and it has no entries left. |
| `CheckDeps.PkgGraph.TrimPackage` | checkdeps.go:252-268 | One package's entries are filtered by the current table, and no other list changes. When the name is deleted, it had fewer than two versions, the filtered list is empty, and only that name leaves the table. When it is not deleted, the table is unchanged and the package is not deletable. The deleted names stay inside every removal-closed set. |
| `Presentation.IsLeveragePoint` | checkdeps.go:175 | Defines a leverage point: one version, `depVersions` above 1, and not tainted. |
| `Presentation.ReportLine` | checkdeps.go:178 | Defines the printed line: the `Println` arguments joined by single spaces. |
| `Presentation.PackageLines` | checkdeps.go:176-180 | A package prints at most one line per entry, and none when no entry's package has several versions. |
| `Presentation.Report` | checkdeps.go:174-182 | Defines the report as the lines of each leverage point in list order. `Presentation.ReportExact` states which lines it holds. |
| `Presentation.PackageLinesExact` | checkdeps.go:176-180 | A package prints a line exactly for each entry whose package has several versions. |
| `Presentation.ReportExact` | checkdeps.go:174-182 | A line is in the report exactly when some listed leverage point has an entry to a multi-version package whose line it is. |
| `Presentation.LeverageReported` | checkdeps.go:175-178 | Every leverage point has a non-popular, multi-version dependency, so it prints at least one line. |
| `Presentation.NodeCategoryOf` | checkdeps.go:355-363 | For a package with at least one version, where a popular package has several, the chain's pick satisfies that category's row of the node table. |
| `Presentation.NodeCategoryExact` | checkdeps.go:355-363 | For a package with at least one version, where a popular package has several, exactly one row of the node table applies, and it is the one the priority chain picks. |
| `Presentation.NodeCategoriesOfGraph` | checkdeps.go:355-363 | Once `versions` and `popular` are set, every package gets its row's category, and the `!popular` test never changes the outcome. |
| `Presentation.EdgeCategoryOf` | checkdeps.go:380-392 | The chain's pick always satisfies that category's row of the edge table. |
| `Presentation.EdgeCategoryExact` | checkdeps.go:380-392 | Exactly one row of the edge table applies to any edge, and it is the one the priority chain picks. |
| `Presentation.LeverageIffMinorityLink` | checkdeps.go:355-385 | A package is drawn as a leverage point exactly when one of its edges is drawn as a minority link. |
| `Presentation.PackageUrl` | checkdeps.go:51-91 | The git branch is taken exactly when the source starts with `git+http`. Every other link is a crates.io link, or, for an unsourced crate with a base URL, a link under that base and its slash. |
| `Presentation.WithSlash` | checkdeps.go:74-77 | The base URL gains a `/` only when it does not already end in one, and always ends in one afterwards. |
| `Presentation.WorkspaceUrl` | checkdeps.go:73-79 | An unsourced crate with any non-empty base URL links to the base, joined by exactly one slash, then `<name>/Cargo.toml`. The link is the same with or without a trailing slash on the base. |
| `Presentation.RegistryUrl` | checkdeps.go:80-86 | A registry crate links to its crates.io page, with `/<version>` appended exactly when the link is version-specific. The base URL plays no part. |
| `Presentation.SearchUrl` | checkdeps.go:87-90 | Any other source, and an unsourced crate without a base URL, links to the crates.io search for the name. |
| `Presentation.GitUrl` | checkdeps.go:52-53 | A `git+http` source takes the git branch whatever the other inputs, with the `git+` prefix removed. |
| `Presentation.DotId` | checkdeps.go:334-338 | The node id is the name, `@` and the version. |
| `Presentation.DotIdInjective` | checkdeps.go:334-338 | When names contain no `@`, equal node ids mean equal names and versions. |

## Left out

- `loadCrates` and the go-toml decoder (checkdeps.go:128-148): file input. The model starts from the decoded package list.
- `ParseDeps` (checkdeps.go:105-126) uses a regular expression library that is not part of this model. Dependencies arrive already split into name and version, and their source clause is dropped because resolution never reads it.
- The `git+http` branch of `WriteUrl` (checkdeps.go:54-72) depends on the `net/url` parser and printer, which are not part of this model. `PackageUrl` returns the raw URL handed to the parser as `GitLink`, and does not model the forge rewriting or the panic on a parse error.
- Flag parsing, `fmt.Println`, the stderr message of `trimPkgs` (checkdeps.go:264), and all DOT text assembly (checkdeps.go:284-332, 340-354, 364-379, 393-394) are output only. The model keeps the decisions: report lines as strings, and node and edge categories in place of colours.
- The source assigns `Pkg` into each entry of `Deps` in place. The model builds the resolved list of a package and then assigns it whole. The result is the same, since nothing reads a package's entries in between.
- `CheckDeps.PkgGraph.TrimPkgs` requires its starting state to be what `MakePkgMap` leaves (entries resolved against the built table). It says nothing about a table or entry lists in any other state.
- `Presentation.LeverageReported` and `Presentation.LeverageIffMinorityLink` are stated over any entry lists with consistent `depVersions`, so they apply to the untrimmed graph. After trimming, `depVersions` is stale by design, and these lemmas are not restated for the trimmed lists.
