# Dependency license summary, modelled in Dafny

`tools/dependency_summary.py` produces the third-party license summary of a Rust workspace.

It loads the workspace's `cargo metadata` and repairs known-bad package records with checked fixups. It computes each workspace member's dependencies from cargo build plans, adding the platform libraries that cargo does not manage. It keeps the external dependencies, picks one acceptable license for each, and finds the license text: declared, fetched, or discovered by its file name. Finally it prints a Markdown report that groups the dependencies by license text.

This project models that decision logic as Dafny functions and methods and proves what the tool promises about it. The results of cargo, the network and the file system are given as input values.

Modules, in dependency order:

- `Wrappers`: `Option` and `Result`.
- `Sorting`: Python's comparisons and its stable `sorted` (an insertion sort that keeps equal elements in input order), plus strict total orders, de-duplication and sorted sets.
- `Grouping`: a `defaultdict(list)` filled in one pass, given as keys in insertion order with the list under each key.
- `Strings`: prefix tests, `os.path.commonprefix`, Python whitespace, `strip`, whitespace removal, ASCII lower-casing, `replace`, `dirname` and path joining.
- `Metadata`: the package record, its fixable fields, the license record and the error values.
- `Targets`: the target lists, the Android and iOS suffix tests, the defaulting of the requested targets and the iOS filter.
- `Licenses`:
  - the license preference list;
  - the split of a license expression into its alternatives, and the pick of the most acceptable one;
  - the table of common license file names, built by nested loops;
  - the license-text lookup.
- `Workspace`: the static tables, fixup application, and `WorkspaceMetadata.__init__`. The loading is modelled twice: as the specification function `LoadWorkspace`, and as the method `Load`, which has the source's loops.
- `Dependencies`:
  - compatible targets, extra dependencies and per-package dependencies;
  - the workspace union with its check for unnecessary fixups;
  - external classification, license records and `get_dependency_summary`.
- `Report`: `print_dependency_summary` as structure, covering the grouping key, the section order, the table of contents, the Apache text pick, package links, the fence check, `format_license_header` and `header_to_anchor`.

Failures that the source raises as `RuntimeError`, `AssertionError` or `subprocess.CalledProcessError` become `Err` values with an `Error` constructor per cause.

## Model

| member | source | states |
|---|---|---|
| Sorting.SortBy | tools/dependency_summary.py:402 | sorting returns a permutation of its input, of the same length |
| Sorting.SortBySorted | tools/dependency_summary.py:402 | under a total preorder the sorted sequence is ordered by it |
| Sorting.SortedUnique | tools/dependency_summary.py:402 | two sequences that are permutations of each other and both sorted under a total, antisymmetric order are equal |
| Sorting.SortByPermutation | tools/dependency_summary.py:402 | sorting two permutations of one input under a total antisymmetric order gives the same result |
| Sorting.LexStrictTotal | tools/dependency_summary.py:399 | Python's lexicographic comparison of lists is a strict total order when the element order is |
| Sorting.StrLessStrictTotal | tools/dependency_summary.py:399 | string comparison is a strict total order |
| Sorting.SortedSetCanonical | tools/dependency_summary.py:433 | `sorted(set(xs))` depends only on which elements occur, and holds each once in ascending order |
| Grouping.MembersMeaning | tools/dependency_summary.py:382-392 | a group holds exactly the input elements with its key |
| Grouping.KeysMeaning | tools/dependency_summary.py:382-392 | a key is listed exactly when its group is non-empty |
| Grouping.GroupingPartitions | tools/dependency_summary.py:382-392 | every element lands in the group of its own key, and no key is listed twice |
| Grouping.GroupedNew | tools/dependency_summary.py:392 | appending an element under a new key starts its group and lists the key last |
| Grouping.GroupedJoin | tools/dependency_summary.py:392 | appending an element under a known key extends only that group |
| Grouping.MembersPermuted | tools/dependency_summary.py:382-392 | reordering the input reorders each group but keeps its members |
| Grouping.KeysPermuted | tools/dependency_summary.py:382-392 | reordering the input keeps the set of keys |
| Strings.CommonPrefix | tools/dependency_summary.py:630 | the result is a prefix of both strings and cannot be extended |
| Strings.CommonPrefixIsRoot | tools/dependency_summary.py:630-631 | the common prefix equals the root exactly when the root is a character-wise prefix of the path |
| Strings.Strip | tools/dependency_summary.py:659 | the result is a middle slice of the input: only whitespace is cut before and after it, and it neither starts nor ends with whitespace |
| Strings.StripNoSpace | tools/dependency_summary.py:659 | a string without whitespace is unchanged by stripping |
| Strings.RemoveWhitespace | tools/dependency_summary.py:390 | the result contains no whitespace, and a character occurs in it exactly when it occurs in the input and is not whitespace |
| Strings.RemoveWhitespaceOfChar | tools/dependency_summary.py:390 | one character is dropped if it is whitespace and kept otherwise |
| Strings.InsertedWhitespaceVanishes | tools/dependency_summary.py:390 | whitespace inserted anywhere in a text leaves the whitespace-free text unchanged |
| Strings.Lower | tools/dependency_summary.py:457 | lower-casing keeps the length and maps every character to one with no ASCII capital |
| Strings.Replace | tools/dependency_summary.py:457 | after replacing a character by a string without it, the character no longer occurs; every other character of the input survives; an input without the character is unchanged |
| Strings.ReplaceOfChar | tools/dependency_summary.py:457 | one character becomes the replacement if it is the replaced one and stays otherwise |
| Strings.ReplaceConcat | tools/dependency_summary.py:457 | replacing in a concatenation is replacing in each part, so with ReplaceOfChar the whole string is replaced character by character |
| Strings.BeforeFirst | tools/dependency_summary.py:450 | `split(":")[0]` is a colon-free prefix that stops at the first colon |
| Metadata.Set | tools/dependency_summary.py:487 | setting a field gives it the new value, leaves the other fields and the package's identity alone |
| Targets.AndroidTargetsClassified | tools/dependency_summary.py:32-55 | every Android target is recognised as Android and not as iOS |
| Targets.IosTargetsClassified | tools/dependency_summary.py:32-55 | every iOS target is recognised as iOS and not as Android |
| Targets.DesktopTargetsClassified | tools/dependency_summary.py:32-55 | the remaining targets are neither Android nor iOS |
| Targets.RequestedTargets | tools/dependency_summary.py:597-600 | no targets, an empty target or an empty list mean every known target; one non-empty target means just that one; a non-empty list is taken as given; the result is never empty |
| Targets.WithoutIos | tools/dependency_summary.py:605 | the filtered list is a subsequence of the input holding exactly its non-iOS targets |
| Targets.WithoutIosIdempotent | tools/dependency_summary.py:603-605 | filtering a second time, as happens for a second cdylib target, changes nothing |
| Licenses.SplitJoinRoundTrip | tools/dependency_summary.py:659 | license ids joined by `/` or `OR` separators are split back into exactly those ids, in order |
| Licenses.LicenseSetOfJoin | tools/dependency_summary.py:659 | the set of alternatives of a joined expression is the set of joined ids |
| Licenses.FirstPreferred | tools/dependency_summary.py:661-663 | the index found is the first entry of the preference list that is offered, or the list's length |
| Licenses.PreferredAmong | tools/dependency_summary.py:661-669 | the pick is the earliest preferred license offered; failing that OpenSSL, only for `ext-openssl`; otherwise an error naming the package and the expression |
| Licenses.PickIgnoresOrderOfAlternatives | tools/dependency_summary.py:659-669 | rewriting an expression with the same alternatives in another order or with other separators picks the same license |
| Licenses.PickMitOrApache | tools/dependency_summary.py:650-669 | `MIT OR Apache-2.0` and `MIT/Apache-2.0` resolve to Apache-2.0 |
| Licenses.BuildCommonLicenseFileNames | tools/dependency_summary.py:349-362 | the start-up loops give every license kind its own roots and the generic roots, each with every suffix |
| Licenses.CollectCandidateNames | tools/dependency_summary.py:358-362 | the suffix loop collects exactly the candidate names of one license kind |
| Licenses.AddWithSuffix | tools/dependency_summary.py:359-362 | one root loop adds exactly each root with the suffix |
| Licenses.GenericNamesAlwaysCandidates | tools/dependency_summary.py:687-690 | `license` and `licence` with any suffix are candidates for every license kind, known or not |
| Licenses.CandidatesStartWithLic | tools/dependency_summary.py:349-362 | every candidate license file name starts with `lic` |
| Licenses.MatchingFiles | tools/dependency_summary.py:691 | the matches are exactly the listed names whose lower-case form is a candidate |
| Licenses.SingleMatch | tools/dependency_summary.py:691-692 | there is exactly one match exactly when one listed name, and no other, is a candidate; that name is then the only match |
| Licenses.NoMatchesMeansEmpty | tools/dependency_summary.py:691 | with no candidate in the listing there are no matches |
| Licenses.DiscoverLicenseFile | tools/dependency_summary.py:686-705 | one match is read; several are an ambiguity error listing them; none is an error naming the package and repository |
| Licenses.DiscoveryNeverGuesses | tools/dependency_summary.py:684-705 | with nothing declared, a text is returned only from the one uniquely matching file, and otherwise the result is one of the two errors |
| Licenses.DeclarationsTakePrecedence | tools/dependency_summary.py:671-683 | an embedded text wins; a declared file is read next to the manifest, or fetched when it is an `https://` URL, before any search |
| Licenses.LoneLicenseFileIsFound | tools/dependency_summary.py:691-694 | a directory with one `LICENSE` among other files yields that file |
| Licenses.TwoLicenseFilesAreAmbiguous | tools/dependency_summary.py:691-700 | `LICENSE` next to `LICENSE.md` matches both, which is the ambiguity error |
| Workspace.ExtraPackage | tools/dependency_summary.py:87-120 | an extra package has no cargo record and no `source` key, and carries its name and license |
| Workspace.FixupTableWellFormed | tools/dependency_summary.py:147-344 | no fixup entry names a field twice, and no fixed-up package is excluded |
| Workspace.ApplyFixupsMeaning | tools/dependency_summary.py:480-487 | fixups succeed exactly when every checked field holds its recorded value; each fixed field gets its new value, every other field and the identity are kept; a failure names the package |
| Workspace.Adler32FixedUp | tools/dependency_summary.py:480-487 | the recorded `adler32` metadata is repaired to `BSD-3-Clause` with file `LICENSE` |
| Workspace.RingFixupGuardsUpstreamChange | tools/dependency_summary.py:483-485 | a `ring` record that already declares a license fails the fixup check |
| Workspace.ExtraTablesWellFormed | tools/dependency_summary.py:87-120 | the extra packages are listed once each and all have metadata; none is a cargo record or an excluded name; the extra-dependency table names only extra packages |
| Workspace.StaticTablesWellFormed | tools/dependency_summary.py:79-344 | the shipped tables satisfy the well-formedness the loading proofs rely on |
| Workspace.FixUpKeepsIdentity | tools/dependency_summary.py:480-487 | fixups never change a package's id, name or manifest path |
| Workspace.IndexPackageExtends | tools/dependency_summary.py:476-492 | indexing a record only adds its own id and path to the indexes |
| Workspace.IndexPackagesAgree | tools/dependency_summary.py:476-492 | after indexing, the id index and the path index hold the same fixed-up records |
| Workspace.IndexPackagesCovers | tools/dependency_summary.py:476-492 | every non-excluded record is indexed, fixed up, under its id and its path |
| Workspace.IndexPackagesOnly | tools/dependency_summary.py:476-492 | the index holds nothing but non-excluded input records |
| Workspace.IndexPackagesRejects | tools/dependency_summary.py:489-491 | two non-excluded records with the same id or the same manifest path make indexing fail, and so does a failing fixup |
| Workspace.AddExtraPackagesMeaning | tools/dependency_summary.py:494-496 | the extras are added exactly when none of their ids is taken, and then every extra and every earlier record is present |
| Workspace.IndexMembersContent | tools/dependency_summary.py:497-500 | every member id is indexed, and the name index maps each member's package name to that member and holds nothing else |
| Workspace.IndexMembersSucceeds | tools/dependency_summary.py:497-500 | member indexing succeeds exactly when every member id is known and no two members share a name |
| Workspace.LoadWorkspaceValid | tools/dependency_summary.py:471-500 | a loaded workspace satisfies the index invariants that every later query relies on |
| Workspace.ApplyFixupsInPlace | tools/dependency_summary.py:480-487 | the loop that overwrites the record field by field computes the fixup specification |
| Workspace.IndexCargoPackages | tools/dependency_summary.py:476-492 | the package loop computes the indexing specification |
| Workspace.AddExtras | tools/dependency_summary.py:494-496 | the extras loop computes the extras specification |
| Workspace.IndexWorkspaceMembers | tools/dependency_summary.py:497-500 | the member loop computes the member index specification |
| Workspace.Load | tools/dependency_summary.py:471-500 | the constructor computes the loading specification |
| Dependencies.MemberPackage | tools/dependency_summary.py:601 | looking a member up by name succeeds exactly when it is an indexed member, and then yields its record |
| Dependencies.FilterOncePerCdylib | tools/dependency_summary.py:603-605 | the per-build-target filter drops the iOS targets exactly when some build target is a cdylib |
| Dependencies.CompatibleTargetsMeaning | tools/dependency_summary.py:591-606 | the compatible targets are the requested ones, in order, less the iOS targets exactly when the package builds a cdylib |
| Dependencies.GetCompatibleTargets | tools/dependency_summary.py:591-606 | the method computes the compatible targets |
| Dependencies.PlatformExtrasMeaning | tools/dependency_summary.py:578-584 | the platform extras are JNA and protobuf when some target is Android, Swift protobuf when some target is iOS, and nothing else |
| Dependencies.NamedExtrasAdd | tools/dependency_summary.py:585-588 | each dependency adds exactly its table entry to the extras |
| Dependencies.GetExtraDependencies | tools/dependency_summary.py:572-589 | the loops compute the extras specification |
| Dependencies.ExtrasAreKnownPackages | tools/dependency_summary.py:572-589 | every extra dependency is one of the synthetic packages |
| Dependencies.AndroidNeedsJnaAndProtobuf | tools/dependency_summary.py:580-582 | an Android target brings in JNA and protobuf |
| Dependencies.NamedDependencyBringsExtras | tools/dependency_summary.py:585-588 | a dependency listed in the extra-dependency table brings in all its extras |
| Dependencies.ResolveManifestsMeaning | tools/dependency_summary.py:566-568 | resolving build-plan inputs succeeds exactly when every path is indexed, and yields exactly their ids |
| Dependencies.CargoDependenciesMeaning | tools/dependency_summary.py:561-568 | the target loop succeeds exactly when every target has a build plan whose inputs resolve, and yields the union of their ids |
| Dependencies.AddBuildPlanInputs | tools/dependency_summary.py:566-568 | the input loop adds the resolved ids or fails at the first unknown path |
| Dependencies.CollectCargoDependencies | tools/dependency_summary.py:560-568 | the target loop computes the cargo dependency specification |
| Dependencies.GetPackageDependencies | tools/dependency_summary.py:543-570 | the method computes a package's dependencies: its cargo dependencies plus their extras |
| Dependencies.PackageDependenciesIndexed | tools/dependency_summary.py:543-570 | every dependency found is an indexed package |
| Dependencies.PackageDependenciesNeverExcluded | tools/dependency_summary.py:477-478 | no excluded package name appears among a package's dependencies |
| Dependencies.IsExternalDependency | tools/dependency_summary.py:620-633 | a package is external exactly when its `source` is absent or non-null, or the workspace root is not a prefix of its manifest path |
| Dependencies.SiblingDirectoryCountsAsInternal | tools/dependency_summary.py:630-633 | because the prefix test is character-wise, a package in `/src/app-fork` counts as internal to the workspace `/src/app` |
| Dependencies.LicenseInfoMeaning | tools/dependency_summary.py:639-648 | a license record carries the package's name and repository, an offered license and any embedded text; it exists exactly when a license is picked and its text found |
| Dependencies.UnionSucceeds | tools/dependency_summary.py:528-529 | the union over members succeeds exactly when every member's dependencies do |
| Dependencies.UnionFailsFirst | tools/dependency_summary.py:528-529 | a failing union reports the first member's failure |
| Dependencies.UnionContent | tools/dependency_summary.py:528-529 | the union holds exactly the ids in some member's dependencies |
| Dependencies.UnionOfMembers | tools/dependency_summary.py:523-529 | the member loop computes the union specification |
| Dependencies.DependencyClosure | tools/dependency_summary.py:511-537 | the closure holds only indexed packages; its full meaning for the workspace is Dependencies.WorkspaceClosureMeaning |
| Dependencies.ClosureNeverExcluded | tools/dependency_summary.py:477-478 | no excluded package name appears in the closure |
| Dependencies.WorkspaceSummaryChecksFixups | tools/dependency_summary.py:520-537 | a member that fails fails the workspace closure with its error; a workspace-wide closure covers every member's dependencies and succeeds only if every fixup names a dependency |
| Dependencies.WorkspaceClosureMeaning | tools/dependency_summary.py:527-537 | the workspace closure is exactly the union of the members' dependencies; it succeeds exactly when every member resolves and every fixup entry names a package some member depends on; when every member resolves but it fails, the error lists exactly the fixup entries no member depends on |
| Dependencies.GetDependencyClosure | tools/dependency_summary.py:511-537 | the method computes the closure specification |
| Dependencies.ExternalDependencies | tools/dependency_summary.py:538-540 | the external dependencies are among the dependencies |
| Dependencies.CollectLicenseInfos | tools/dependency_summary.py:538-541 | the loop visits each external dependency once and yields its license record; it fails exactly when some record fails, with that record's error |
| Dependencies.GetDependencySummary | tools/dependency_summary.py:511-541 | the summary holds one license record per external dependency of the closure, or the closure's error, or a record's error |
| Report.SameGroupIff | tools/dependency_summary.py:382-392 | two dependencies share a group exactly when they have the same license and it is a shared-text license or their texts agree outside whitespace |
| Report.GroupKeyIgnoresWhitespace | tools/dependency_summary.py:390-391 | re-wrapping a license text does not move its dependency to another group |
| Report.KeyNamesLicense | tools/dependency_summary.py:391 | the part of a key before its first colon is the license |
| Report.GroupByLicenseText | tools/dependency_summary.py:382-392 | the loop yields the grouping: keys in order of first occurrence, each with its dependencies in input order |
| Report.Rank | tools/dependency_summary.py:396-400 | the rank is the first preference-list license the key starts with, or the list's length for a key matching none |
| Report.SortKeyLessStrictTotal | tools/dependency_summary.py:396-402 | comparing sort keys as Python tuples is a strict total order |
| Report.AsWrittenSectionsSorted | tools/dependency_summary.py:396-402 | as written, the sections are the keys, each once, ordered by rank and then by sorted names |
| Report.RankOfMit | tools/dependency_summary.py:397-398 | an MIT key ranks third |
| Report.TiedPairKeepsInputOrder | tools/dependency_summary.py:402 | two keys tied on rank and names keep the order in which they were first met |
| Report.AsWrittenOrderDependsOnInput | tools/dependency_summary.py:396-402 | as written, two MIT texts of packages called `foo` swap sections when the input order swaps |
| Report.SectionOrderSorted | tools/dependency_summary.py:396-402 | the corrected order lists each key once, by rank, then by sorted names, then by the key itself |
| Report.SectionOrderIndependent | tools/dependency_summary.py:396-402 | the corrected section order depends only on which dependencies there are, not on their order |
| Report.CollectedOrder | tools/dependency_summary.py:396-402 | sorting the collected keys with the collected groups gives the corrected order |
| Report.HeaderNamesLicense | tools/dependency_summary.py:443-453 | a header names the license and lists the sorted, de-duplicated package names |
| Report.HeaderIgnoresOrder | tools/dependency_summary.py:452-453 | the header depends only on which names occur in the group |
| Report.HeaderToAnchor | tools/dependency_summary.py:456-457 | an anchor holds no space, dot, comma, colon or ASCII capital |
| Report.AnchorCharwise | tools/dependency_summary.py:456-457 | the anchor maps the header character by character: a space becomes a dash, a dot, comma or colon is dropped, and any other character is lower-cased |
| Report.AnchorIdempotent | tools/dependency_summary.py:456-457 | turning an anchor into an anchor again changes nothing |
| Report.FirstAcceptableTextMeaning | tools/dependency_summary.py:421-429 | the text is the first one with the Apache placeholders for Apache-2.0 and the first one otherwise; it fails, with the Apache error, exactly when no text qualifies |
| Report.PickSectionText | tools/dependency_summary.py:421-429 | the for/else loop computes the text pick |
| Report.ByNameSorted | tools/dependency_summary.py:420 | a section's dependencies are a permutation of its group, sorted by name |
| Report.LinksMeaning | tools/dependency_summary.py:432-433 | the links are exactly the groups' package links, strictly ascending and so without duplicates |
| Report.LinksPermuted | tools/dependency_summary.py:432-433 | the links do not depend on the group's order |
| Report.RenderSectionText | tools/dependency_summary.py:421-438 | a rendered text belongs to a member of the group, is acceptable and has no triple backtick |
| Report.RenderSectionTextOfFirstName | tools/dependency_summary.py:420-423 | outside Apache-2.0 the text is that of a dependency with the least name |
| Report.RenderSectionErrors | tools/dependency_summary.py:421-437 | a section fails only for an Apache group without a template text or for a text containing a fence |
| Report.RenderSectionSucceeds | tools/dependency_summary.py:421-437 | a group with an acceptable text and no fences renders |
| Report.SummarySucceeds | tools/dependency_summary.py:419-440 | the report is produced exactly when every section renders |
| Report.SummaryFailsFirst | tools/dependency_summary.py:419-440 | a failing report fails with the error of its first failing section |
| Report.TocMatchesSections | tools/dependency_summary.py:412-414 | the table of contents lists every section's header and anchor, in section order |
| Report.EveryDependencyCredited | tools/dependency_summary.py:382-433 | every dependency's link appears in the section of its own key |
| Report.TableOfContentsIndependent | tools/dependency_summary.py:396-414 | the table of contents does not depend on the input order |
| Report.ListContents | tools/dependency_summary.py:412-414 | the loop computes the table of contents |
| Report.WriteSections | tools/dependency_summary.py:419-440 | the loop computes the sections, or the first section's error |
| Report.PrintDependencySummary | tools/dependency_summary.py:374-440 | the method computes the report: table of contents and sections in the corrected order |

## Left out

- Running `cargo metadata` and `cargo build --build-plan` (subprocesses and JSON) is not modelled. Their results are inputs: a `CargoMetadata` value, and a map from (package, target) to the build plan's manifest paths. A missing entry stands for a failing command.
- The network fetch, `open` and `os.listdir` are not modelled. They are the `Environment` maps of remote texts, file contents and directory listings, and a missing entry is a failure.
- SHA-256 in the grouping key is not modelled. The key uses the whitespace-free text itself, which groups texts exactly as an injective digest would.
- The regular expression that splits license expressions is replaced by a hand-written scan for `/` or a whitespace-bracketed `OR`. SPDX `AND` and parentheses are not handled, as in the source.
- Unicode case rules of `str.lower()` are not modelled. Lower-casing is ASCII only.
- The command line, the JSON dump, the `--check` comparison and the fixed prose lines of the report are not modelled. The Markdown is modelled as structure: table-of-contents entries, then sections with header, text and links.
- Report.PrintDependencySummary: the source prints the table of contents, and any sections before a failing one, before it raises. The model returns only the error.
- The static tables (`EXCLUDED_PACKAGES`, `EXTRA_PACKAGE_METADATA`, `PACKAGES_WITH_EXTRA_DEPENDENCIES`, `PACKAGE_METADATA_FIXUPS`) hold representative entries, not the full lists.
- Dependencies.GetDependencyClosure: the unnecessary-fixup error carries the set of names, not the list in table order.
- Workspace.Load: the source overwrites fields of the record dict in place and keeps it in `metadata["packages"]`, too. The model builds the fixed-up record as a new value, and nothing later reads the original list.
- Dependencies.GetDependencySummary: the source is a generator that yields records lazily. The model returns them all, or the first error.
- Dependency lookups that raise `KeyError` in the source (an unknown workspace member, a dependency id that is not indexed) are excluded by the preconditions `Queryable` and `ManifestsIndexed`, which every loaded workspace meets. An unknown build-plan input path is modelled as an error.
- Python walks a set in an unspecified order. The one set walk whose order reaches the output is the final loop of `get_dependency_summary` (tools/dependency_summary.py:538). Dependencies.CollectLicenseInfos picks an arbitrary remaining dependency there and returns the order it took as `visited`.
- Dicts are walked in insertion order. The member loop (tools/dependency_summary.py:528) runs over `memberNames` in the order the members were recorded. The sections are the keys of `depsByLicenseTextHash` sorted by a key (line 402), so their insertion order matters only where that key ties; see the finding below.
- Licenses.BuildCommonLicenseFileNames takes the license roots in an arbitrary order where the source follows the table's insertion order (line 356). It only builds a map, whose content does not depend on that order. The same holds for Dependencies.GetExtraDependencies, which walks the dependency set (line 585) and only builds a set.
- Python `assert` statements are modelled as errors. Their removal under `python -O` is not modelled.
- The `IndexError` on `deps[0]` for an empty group cannot happen, since every group has a member. The model requires a non-empty group.
- Report.DependencySummary orders sections by the corrected order of the finding below. The as-written order is modelled as `Report.AsWrittenSectionOrder`.

## Findings

| source | as written | input that shows it | evidently intended | confidence | as-written member | corrected member |
|---|---|---|---|---|---|---|
| tools/dependency_summary.py:396-402 | sections tied on rank and sorted member names keep the dict's insertion order, which follows the input order | two MIT dependencies both named `foo`, with license texts `A` and `B` | a stable order that does not depend on the input order (the comment at 394-395) | not executed | Report.AsWrittenOrderDependsOnInput | Report.SectionOrderIndependent |
