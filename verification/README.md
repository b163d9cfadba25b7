# tscmono core, modelled in Dafny

tscmono is monorepo tooling. It finds the workspace root of a repository and
lists its workspace packages, using the yarn v1 or v2 listing. It turns the
package locations into a directory tree, and writes one TypeScript
project-reference document (`tsconfig.json` and its variants) per tree node.
It also loads and validates its own configuration against JSON schemas,
collects plugins and presets from a package's dependencies, caches values
under names, and names its loggers.

This project models that core, one Dafny module per source file:

| module | source file | form |
|---|---|---|
| `PathTree` | packages/utils/src/tree.ts | functions on a `Tree` datatype |
| `WorkspaceGraph` | packages/plugin-workspace/src/graph.ts | functions over `PathTree.Tree` |
| `RepoTree` | packages/plugin-repo/src/tree.ts | methods for the pushes and the recursion, specified by functions |
| `RelativePath` | packages/utils/src/path.ts | functions |
| `YarnV1`, `YarnV2` | packages/utils/src/parsers/v1.ts, v2.ts | functions |
| `PackageFiles` | packages/utils/src/package.ts, findPackageJson.ts | functions |
| `WorkspaceRoot` | packages/utils/src/package/workspace.ts | a method for the `while` loop, specified by a function |
| `Cache` | packages/utils/src/cache.ts | classes: the shared record and the descriptor with its captured state |
| `Logger` | packages/utils/src/logger.ts | a class for the mutable separator; functions for naming and validation |
| `LoadConfig` | packages/config/src/loadConfig.ts | functions |
| `Plugins` | packages/cli/src/plugins.ts | a method for the two loops, specified by a function |
| `RepoPaths` | packages/repo/src/tree.ts | methods for the loops, specified by functions |

Shared modules:
- `Json` holds JSON values and JavaScript truthiness.
- `Records` holds JavaScript objects and `Map`s as ordered key/value lists.
- `Strings` holds `split`, `join`, `indexOf`, `substr` and related lemmas.
- `Lists` holds `map`, `filter`, `flat` and keep-first deduplication.
- `PosixPath` holds Node's `path.resolve`, `path.relative` and `path.dirname`.
- `Wrappers` holds `Option` and `Result`.

A thrown exception or a rejected promise is an `Err`. When `Promise.all`
runs several steps, they are modelled in declaration order, and the first
failing step in that order is the error. File system, `require`, JSON
parsing, `cosmiconfig`, `jsonschema`, `micromatch`, `nanoid` and the
current directory are parameters of the functions that use them. They are
written as oracles, usually grouped in an `Env` datatype.

Three behaviours of the code shape the model:
- `pathsToTree([])` returns the reduce's initial value `{}`, which is not a
  tree node. `PathTree.PathsToTree` gives `None` for it.
- When a leaf meets a node in a merge, the later value replaces the earlier
  one, and no node keeps the leaf's path. `PathTree.DeeperFirstIsLost` shows
  the consequence.
- The root filter of the yarn v2 parser keeps every entry, the root package
  included (see Findings).

## Model

| member | source | states |
|---|---|---|
| PathTree.PathToTree | packages/utils/src/tree.ts:21-47 | a tree exists exactly when the input has at least two non-empty segments; it is a node with one child, keyed by the second segment |
| PathTree.StripRootAbsent | packages/utils/src/tree.ts:26-29 | removing the `<root>` marker leaves a marker-free path unchanged |
| PathTree.CurrentPath | packages/utils/src/tree.ts:25-29 | a node's path is its parent's path, `/` and its segment (the segment alone under no parent), and it stays marker-free |
| PathTree.ChainShape | packages/utils/src/tree.ts:21-47 | one path gives a chain: the keys present are exactly the prefixes of the later segments, each path is the parent's path joined with the key, and the only leaf is the full path |
| PathTree.RootTreeShape | packages/utils/src/tree.ts:61-63 | under the `<root>` sentinel the top node has path `""`, every node carries the path of the keys leading to it, and the keys are exactly the prefixes of the input's segments |
| PathTree.PathsToTree | packages/utils/src/tree.ts:58-73 | there is no tree (the initial `{}`) exactly when the input list is empty |
| PathTree.UpsertChild | packages/utils/src/tree.ts:64-71 | assigning one key in the merge changes the child under that key only |
| PathTree.MergeChildrenChild | packages/utils/src/tree.ts:64-71 | after merging two child lists, a key present in both holds the later child merged into the earlier one; otherwise it holds whichever child exists |
| PathTree.MergeDistinct | packages/utils/src/tree.ts:64-71 | merging keeps the keys of every node distinct |
| PathTree.MergeLookup | packages/utils/src/tree.ts:64-71 | per key sequence, the merge keeps what the later tree has, takes only from the earlier tree what the later one lacks, and loses an earlier entry only under a later leaf |
| PathTree.PathsToTreeRoot | packages/utils/src/tree.ts:58-73 | the merged tree is a node with path `""` and distinct keys everywhere |
| PathTree.PathsToTreeLabeled | packages/utils/src/tree.ts:58-73 | every node and leaf of the merged tree carries the `/`-joined keys leading to it |
| PathTree.PathsToTreeSound | packages/utils/src/tree.ts:58-73 | every key sequence in the merged tree is a prefix of some input, and every leaf is a whole input |
| PathTree.PathsToTreeKeepsLast | packages/utils/src/tree.ts:64-71 | the last path of the list is always present in full |
| PathTree.PathsToTreeComplete | packages/utils/src/tree.ts:58-73 | when no path is followed by one of its own proper prefixes, every prefix of every input is in the merged tree |
| PathTree.DeeperFirstIsLost | packages/utils/src/tree.ts:64-71 | for `["a/b/c", "a/b"]`, `a/b` is a leaf and `a/b/c` is gone |
| PathTree.TwoSegments | packages/utils/src/tree.spec.ts:25-32 | `x/y` gives a node at `x` with the leaf `x/y` |
| PathTree.ThreeSegments | packages/utils/src/tree.spec.ts:34-46 | `x/y/z` gives nodes at `x` and `x/y` and the leaf `x/y/z` |
| PathTree.OneSegment | packages/utils/src/tree.spec.ts:47-50 | a single segment gives no tree |
| PathTree.UnderRootOne | packages/utils/src/tree.spec.ts:51-59 | `<root>/x` gives the node `""` with the leaf `x` |
| PathTree.UnderRootTwo | packages/utils/src/tree.spec.ts:60-73 | `<root>/x/y` gives the node `""`, the node `x` and the leaf `x/y` |
| PathTree.Siblings | packages/utils/src/tree.spec.ts:80-99 | sibling paths share their parent node and keep their order |
| WorkspaceGraph.TreeNodeToTSConfig | packages/plugin-workspace/src/graph.ts:77-94 | the document is the root's exactly when the node's path is `""`, with one reference per child |
| WorkspaceGraph.ReferencesPointAtChildren | packages/plugin-workspace/src/graph.ts:82-91 | the i-th reference resolves to the i-th child's directory, and for a node child it is the directory of that child's own document |
| WorkspaceGraph.ReduceTreeNodeToTSConfigList | packages/plugin-workspace/src/graph.ts:105-123 | the list is non-empty and starts with the node's own document |
| WorkspaceGraph.ReduceIsPreorder | packages/plugin-workspace/src/graph.ts:105-123 | the list is the document of every node of the tree, in pre-order |
| WorkspaceGraph.ChildTemplatesArePreorder | packages/plugin-workspace/src/graph.ts:111-118 | the children's lists flattened are the documents of the children's nodes in pre-order |
| WorkspaceGraph.PreorderNodes | packages/plugin-workspace/src/graph.ts:111-118 | pre-order lists only nodes, as many as the tree has |
| WorkspaceGraph.ReduceLength | packages/plugin-workspace/src/graph.ts:105-123 | one document per node of the tree |
| WorkspaceGraph.LeafChildrenGiveNothing | packages/plugin-workspace/src/graph.ts:113-115 | leaf children contribute no documents |
| RepoTree.CatAssoc | packages/plugin-repo/src/tree.ts:202-221 | concatenating results where the first error wins is associative |
| RepoTree.CatParts | packages/plugin-repo/src/tree.ts:202-221 | a concatenation succeeds exactly when both parts do, and then holds both values in order |
| RepoTree.ValidConfig | packages/plugin-repo/src/tree.ts:73-86 | true when the configuration loads; false when it fails in loose mode; otherwise the load error is rethrown |
| RepoTree.TreeNodeToTSConfig | packages/plugin-repo/src/tree.ts:97-155 | the document is the root's exactly when the path is `""`, and it lies at the project path, the node path and the chosen file name; it fails only outside loose mode when it lists children |
| RepoTree.FilesReferences | packages/plugin-repo/src/tree.ts:113-124 | the root document in files mode refers to one file per declared variant, in order |
| RepoTree.ChildReferences | packages/plugin-repo/src/tree.ts:125-142 | any other document fails exactly when some child's configuration fails outside loose mode; otherwise it refers to the kept children in order |
| RepoTree.ChildRefsOk | packages/plugin-repo/src/tree.ts:126-139 | the child references fail exactly when, outside loose mode, some child's configuration does not load |
| RepoTree.ChildRefsKept | packages/plugin-repo/src/tree.ts:126-142 | the references are those of the children with no package.json or a valid configuration, in children order |
| RepoTree.LooseChildRefs | packages/plugin-repo/src/tree.ts:80-83 | in loose mode the child references never fail |
| RepoTree.ReferenceTarget | packages/plugin-repo/src/tree.ts:130-142 | a kept reference points at the file inside the child's directory below the project path |
| RepoTree.ExtraTemplates | packages/plugin-repo/src/tree.ts:173-190 | the variant documents pushed one by one are those of the variant specification |
| RepoTree.ExtrasOk | packages/plugin-repo/src/tree.ts:174-190 | the variants succeed exactly when each variant document does |
| RepoTree.ExtrasValues | packages/plugin-repo/src/tree.ts:174-190 | the variants are the documents of the declared file names, one each, in order |
| RepoTree.ReduceTreeNodeToTSConfigList | packages/plugin-repo/src/tree.ts:166-222 | the method computes the node's document, its variants, the link document and its node children's lists, as specified |
| RepoTree.ChildTemplates | packages/plugin-repo/src/tree.ts:202-216 | the method gives the lists of the node children in children order, as specified |
| RepoTree.ReducedPreorder | packages/plugin-repo/src/tree.ts:166-222 | the list is each node's group (own document, variants, link) for the tree's nodes in pre-order |
| RepoTree.NodeGroupShape | packages/plugin-repo/src/tree.ts:172-201 | a node's group succeeds exactly when its own document, its variants and its link documents all load; it is then its own document, then the variants, then the link documents, and there is one link document, built at the root, only when the node is the root and a link file is configured |
| RepoTree.NodeGroupLength | packages/plugin-repo/src/tree.ts:172-201 | a group has one document, plus one per declared file, plus one for a configured link file at the root |
| RepoTree.LinkNeverFails | packages/plugin-repo/src/tree.ts:192-201 | the link document never fails, because the link node has no children |
| RepoTree.ReducedFirst | packages/plugin-repo/src/tree.ts:217-221 | the list starts with the node's own document |
| RepoTree.LeafChildrenGiveNothing | packages/plugin-repo/src/tree.ts:205-207 | leaf children contribute no documents |
| RepoTree.LooseNeverFails | packages/plugin-repo/src/tree.ts:80-83 | in loose mode the whole reduction succeeds |
| RepoTree.StrictChildAborts | packages/plugin-repo/src/tree.ts:80-82 | outside loose mode, one child whose configuration does not load makes the reduction fail |
| RepoTree.ReducedLength | packages/plugin-repo/src/tree.ts:166-222 | without a link file, the list has (1 + declared files) documents per tree node |
| RelativePath.NormalizePath | packages/utils/src/path.ts:13-31 | the result always starts with `.` |
| RelativePath.NormalizePathPrefix | packages/utils/src/path.ts:27-30 | a relative path that starts with `.` is returned as is; any other gets `./` in front |
| RelativePath.NormalizePathSame | packages/utils/src/path.ts:13-31 | the same root and target give `./` |
| RelativePath.NormalizePathResolves | packages/utils/src/path.ts:13-31 | without a package root, resolving the result against the root lands on the target |
| RelativePath.NormalizePathFromPackage | packages/utils/src/path.ts:22-30 | with a package root, resolving the result against it lands where the root-relative path resolves |
| RelativePath.DotSlashSameTarget | packages/utils/src/path.ts:27-29 | putting `./` in front of a relative path does not change where it resolves |
| PosixPath.ResolveSegs | packages/utils/src/path.ts:18-21 | `path.resolve` gives normalised segments: no empty, `.` or `..` segment |
| PosixPath.RelativeRoundTrip | packages/utils/src/path.ts:18-21 | resolving `from` and then `relative(from, to)` lands on `to` |
| PosixPath.RelativeEmpty | packages/utils/src/path.ts:18-21 | `relative` is `""` exactly when both paths resolve to the same place |
| PosixPath.ResolveSame | packages/plugin-repo/src/tree.ts:142 | resolving an already resolved path changes nothing |
| PosixPath.ResolveThen | packages/plugin-repo/src/tree.ts:142 | resolving after an already resolved path is the same as resolving all the arguments together |
| PosixPath.DirnameShrinks | packages/utils/src/findPackageJson.ts:21 | `dirname` stays put exactly at `/` and `.`, and otherwise strictly climbs |
| PosixPath.DirnameIterAdd | packages/utils/src/package/workspace.ts:35-38 | climbing `a` times and then `b` times is climbing `a + b` times |
| YarnV1.ObjectTextSpan | packages/utils/src/parsers/v1.ts:24-36 | the text parsed runs from the first `{` to the last `}` inclusive, with no `{` before it and no `}` after it |
| YarnV1.UnclosedGivesEmpty | packages/utils/src/parsers/v1.ts:26-34 | with no `}` after the first `{`, the text parsed is empty |
| YarnV1.NoBraceGivesLastCharacter | packages/utils/src/parsers/v1.ts:26-34 | without any `{`, the text parsed is the last character of the output |
| YarnV1.ParseDiscardsSurroundings | packages/utils/src/parsers/v1.ts:24-36 | text around the object that holds no `{` before it and no `}` after it is ignored |
| YarnV2.ArrayTextOfLines | packages/utils/src/parsers/v2.ts:34-35 | output lines ending in a newline become `[` + lines joined by `,` + `]` |
| YarnV2.Convert | packages/utils/src/parsers/v2.ts:43-51 | the stored entry keeps the location and maps every dependency path to a package name, a missing list giving `[]` |
| YarnV2.FoldKeys | packages/utils/src/parsers/v2.ts:37-54 | the keys are the entry names in order of first appearance, each once |
| YarnV2.FoldPresent | packages/utils/src/parsers/v2.ts:37-54 | a name is present exactly when some entry carries it |
| YarnV2.FoldLast | packages/utils/src/parsers/v2.ts:37-54 | a name maps to the last entry carrying it |
| YarnV2.RootFilterKeepsAll | packages/utils/src/parsers/v2.ts:36 | the root filter as written keeps every entry |
| YarnV2.RootPackageListed | packages/utils/src/parsers/v2.ts:33-36 | as written, a listed root package stays in the result |
| YarnV2.RootPackageLeftOut | packages/utils/src/parsers/v2.ts:33-54 | comparing names instead, the result holds exactly the listed names other than the root's |
| PackageFiles.FindPackageJson | packages/utils/src/package.ts:35-46 | fails when the previous directory equals the current one; a found directory has a package.json |
| PackageFiles.FindNearest | packages/utils/src/findPackageJson.ts:11-22 | the found directory is the nearest one, counting the start and its ancestors, that has a package.json |
| PackageFiles.FindFails | packages/utils/src/findPackageJson.ts:11-22 | the search fails exactly when neither the start nor any ancestor has a package.json |
| PackageFiles.FindFromStart | packages/utils/src/findPackageJson.ts:11-22 | from the start: the start itself when it has a package.json, otherwise the search from its parent, or failure at a fixed point |
| PackageFiles.ManifestName | packages/utils/src/package.ts:24-26 | the file checked is `package.json` inside the directory |
| PackageFiles.OtherManifestsIgnored | packages/utils/src/package.ts:24-26 | a directory with only `package.yml` or `package.yaml` does not count |
| PackageFiles.ManifestPathOfFile | packages/utils/src/package.ts:9-17 | a directory and its `package.json` path read the same file |
| WorkspaceRoot.HasWorkspaces | packages/utils/src/package/workspace.ts:7-10 | true exactly when the descriptor is an object with a truthy `workspaces` field |
| WorkspaceRoot.ExtractWorkspaces | packages/utils/src/package/workspace.ts:12-18 | an array of workspaces is returned as is; any other value is wrapped in a one-element list |
| WorkspaceRoot.Patterns | packages/utils/src/package/workspace.ts:29 | each workspace entry followed by `/**/*`, in order |
| WorkspaceRoot.IsRoot | packages/utils/src/package/workspace.ts:20-30 | a directory is a root exactly when it declares workspaces and the relative path matches one of their patterns |
| WorkspaceRoot.FindWorkspaceRoot | packages/utils/src/package/workspace.ts:32-40 | the loop returns what the climb specification gives |
| WorkspaceRoot.ClimbResult | packages/utils/src/package/workspace.ts:35-38 | a climb ends on an accepted candidate reached by applying `dirname` some number of times; it fails only with the root-reached error |
| WorkspaceRoot.FindRootResult | packages/utils/src/package/workspace.ts:32-40 | `find` returns the nearest of the start and its ancestors that has a package.json and is accepted as root; it fails exactly when none of them is, and then with the root-reached error |
| WorkspaceRoot.ClimbNearest | packages/utils/src/package/workspace.ts:35-38 | a climb from a package.json directory below which nothing qualifies ends on the nearest qualifying ancestor, or fails when there is none |
| WorkspaceRoot.FirstCandidate | packages/utils/src/package/workspace.ts:35-36 | an accepted nearest package.json directory is returned at once |
| WorkspaceRoot.FoundNoHigher | packages/utils/src/findPackageJson.ts:11-22 | the directory found is never further from the file-system root than the start |
| WorkspaceRoot.FindErrorMessage | packages/utils/src/findPackageJson.ts:15-17 | the search fails only with the root-reached error |
| WorkspaceRoot.AsWrittenLoopRepeats | packages/utils/src/package/workspace.ts:36-38 | as written, a non-root package.json directory at `/` or `.` is found again by the next step, so the loop repeats forever |
| Cache.Refreshed | packages/utils/src/cache.ts:31-36 | a resolved setter writes its value under the name; a rejected one writes nothing; other names are untouched |
| Cache.CacheStore.constructor | packages/utils/src/cache.ts:3 | the shared record starts empty |
| Cache.CacheDescriptor.constructor | packages/utils/src/cache.ts:23-30 | the last arguments start as the defaults, or `[]`; no setter call has been made |
| Cache.CacheDescriptor.Refresh | packages/utils/src/cache.ts:31-36 | calls the setter exactly once, remembers the arguments, stores a resolved value and returns the outcome |
| Cache.CacheDescriptor.Value | packages/utils/src/cache.ts:38-45 | a truthy slot is returned unchanged and the setter is not called; otherwise the setter is called once, with the last arguments, and the slot is refreshed |
| Cache.RefreshedHit | packages/utils/src/cache.ts:38-45 | after a refresh the slot is a hit exactly when the resolved value is truthy; a rejection leaves hits as they were |
| Cache.SameNameSharesSlot | packages/utils/src/cache.ts:3 | two registrations under one name share a slot: the second reads the first's truthy value without calling its own setter |
| Cache.FalsyIsRecomputed | packages/utils/src/cache.ts:40-42 | a falsy value is never reused: two reads give the setter's value and make two setter calls |
| Cache.TruthyIsReused | packages/utils/src/cache.ts:40-44 | a truthy value read once is read again unchanged, and the two reads make one setter call at most, none when the slot was already a hit |
| Logger.LoggerConfig.constructor | packages/utils/src/logger.ts:17-19 | the separator starts as `:` |
| Logger.LoggerConfig.AssignSeparator | packages/utils/src/logger.ts:35-37 | assigning the separator property changes nothing |
| Logger.LoggerConfig.SetSeparator | packages/utils/src/logger.ts:42-45 | `setSeparator` changes the separator and returns it |
| Logger.StripExtension | packages/utils/src/logger.ts:66 | the result is a prefix of the input; no `.` remains on the last line; a cut happens only at a `.` |
| Logger.NameSegments | packages/utils/src/logger.ts:62-64 | the kept segments are exactly the non-empty segments other than `src`, `dist` and `types` |
| Logger.NormalizePath | packages/utils/src/logger.ts:59-66 | the name is the kept segments joined by the separator, cut at the first `.` of their last line if there is one; it holds no `.` when they hold no line break, and is all of them when they hold no `.` |
| Logger.NameSegmentsConcat | packages/utils/src/logger.ts:62-64 | the kept segments of two paths joined by `/` are the kept segments of each, in order |
| Logger.NameSegmentsOne | packages/utils/src/logger.ts:62-64 | a single segment is kept exactly when it is not `src`, `dist` or `types` |
| Logger.NameSegmentsThree | packages/utils/src/logger.ts:62-64 | three kept segments joined by `/` are kept as they are |
| Logger.NameSegmentsSkipping | packages/utils/src/logger.ts:62-64 | excluded segments between kept ones are dropped, and the kept ones stay in order |
| Logger.NormalizeThree | packages/utils/src/logger.ts:59-66 | a path of three kept segments without `.` becomes them joined by the separator |
| Logger.NormalizeExtension | packages/utils/src/logger.ts:59-66 | an extension on the last segment, dots included, is removed |
| Logger.NormalizeSkipping | packages/utils/src/logger.ts:59-66 | excluded segments vanish from the name |
| Logger.NormalizePlainExample | packages/utils/src/logger.spec.ts:84-86 | `this/is/awesome` gives `this:is:awesome` |
| Logger.NormalizeExtensionExample | packages/utils/src/logger.spec.ts:87-89 | `this/is/awesome.my.extensions` gives `this:is:awesome` |
| Logger.NormalizeExcludedExample | packages/utils/src/logger.spec.ts:90-92 | `this/is/src/dist/awesome` gives `this:is:awesome` |
| Logger.NormalizeLoggingNaming | packages/utils/src/logger.ts:74-78 | a non-empty prefix is joined in front of the name and dropped; anything else is returned unchanged |
| Logger.NormalizeIdempotent | packages/utils/src/logger.ts:74-78 | normalising twice is normalising once |
| Logger.GetLoggingNamingFromPackageName | packages/utils/src/logger.ts:85-98 | a scoped name splits into a scope prefix and a name that rebuild it; any other name is used whole |
| Logger.ScopedRoundTrip | packages/utils/src/logger.ts:88-93 | every `@scope/name` with both parts non-empty and free of `/` splits back into its parts |
| Logger.ScopedPackageName | packages/utils/src/logger.ts:74-98 | a scoped package's logger is named scope, separator, name |
| Logger.NameValidator | packages/utils/src/logger.ts:154-161 | a message exactly when no name is given |
| Logger.FileNameValidator | packages/utils/src/logger.ts:166-173 | a message exactly when no file name is given |
| Logger.Reasons | packages/utils/src/logger.ts:182 | every kept message is non-empty, every non-empty message is kept, and nothing is kept exactly when no validator gives a message |
| Logger.Validate | packages/utils/src/logger.ts:178-188 | fails exactly when some validator gives a message, and then lists every message |
| Logger.ValidateMentionsReason | packages/utils/src/logger.ts:184-186 | each message appears, bulleted, in the error text |
| Logger.ExtendDropsPrefix | packages/utils/src/logger.ts:230-236 | as written, the extended naming is name, separator, input, and a prefix never reaches it |
| Logger.ExtendNaming | packages/utils/src/logger.spec.ts:340-352 | the extension puts the full name, prefix included, before the separator and the input |
| Logger.ExtendAgreesWithoutPrefix | packages/utils/src/logger.ts:230-236 | without a prefix, the corrected and the written extension agree |
| Logger.ExtendTwice | packages/utils/src/logger.spec.ts:340-352 | extending twice appends both inputs in order |
| LoadConfig.ResolveRef | packages/config/src/loadConfig.ts:15-24 | the bundled schema if it exists, else the one under the root directory, else none |
| LoadConfig.GetSubSchemas | packages/config/src/loadConfig.ts:26-49 | a falsy or string value gives nothing; a relative `$ref` is replaced; a `$ref` that is not a string fails; the entries carry the ids handed out in order |
| LoadConfig.ReplaceRef | packages/config/src/loadConfig.ts:33-44 | succeeds exactly when the reference resolves and loads; the `$ref` becomes the new id and every other property of the object reads as before; the one entry is named by the id and is the loaded schema with its `id` set to it, every other property as loaded |
| LoadConfig.WalkFields | packages/config/src/loadConfig.ts:46-48 | walking an object's values keeps its keys and collects ids in order |
| LoadConfig.WalkItems | packages/config/src/loadConfig.ts:46-48 | walking an array keeps its length and collects ids in order |
| LoadConfig.IdsConcat | packages/config/src/loadConfig.ts:46-48 | the ids of consecutive walks concatenate |
| LoadConfig.WalkRewrites | packages/config/src/loadConfig.ts:26-49 | the schema is changed only where a relative `$ref` was |
| LoadConfig.WalkFieldsKeepsLeaves | packages/config/src/loadConfig.ts:30-31 | a property holding a falsy value or a string reads the same after the walk |
| LoadConfig.RewalkId | packages/config/src/loadConfig.ts:33 | an object whose only property is a `$ref` holding an id is walked to itself, with no entry |
| LoadConfig.RewalkFindsNothing | packages/config/src/loadConfig.ts:26-49 | when every relative `$ref` stands alone in its object, walking the rewritten schema again gives it back unchanged and collects no entry |
| LoadConfig.Registered | packages/config/src/loadConfig.ts:74-79 | the kept entries have distinct paths, come from the collected ones, cover every collected path, and are exactly the collected entries at the positions where their path first appears, in order |
| LoadConfig.FreshIdsKeepAll | packages/config/src/loadConfig.ts:74-79 | with distinct ids, no collected entry is dropped |
| LoadConfig.LoadConfig | packages/config/src/loadConfig.ts:60-99 | a missing or empty configuration fails with the not-found error; success returns the configuration, exactly when the walk succeeds and validation reports nothing |
| LoadConfig.InvalidListsViolations | packages/config/src/loadConfig.ts:88-96 | an invalid configuration fails with a text naming every violation |
| Plugins.Sort | packages/cli/src/plugins.ts:37 | sorting is a permutation |
| Plugins.SortSorted | packages/cli/src/plugins.ts:37 | the sorted list is in JavaScript's default string order |
| Plugins.BelowTotal | packages/cli/src/plugins.ts:37 | the sort order is total |
| Plugins.BelowTrans | packages/cli/src/plugins.ts:37 | the sort order is transitive |
| Plugins.DedupeSorted | packages/cli/src/plugins.ts:37-38 | keeping the first of each name keeps the list sorted |
| Plugins.DepsProperties | packages/cli/src/plugins.ts:30-38 | `deps` is sorted, has no repeated name, and holds exactly the names of both dependency sections |
| Plugins.Presets | packages/cli/src/plugins.ts:44-45 | a dependency is a preset exactly when it matches the preset pattern |
| Plugins.PluginNames | packages/cli/src/plugins.ts:61-62 | a dependency is a plugin exactly when it matches the plugin pattern |
| Plugins.GetPlugins | packages/cli/src/plugins.ts:22-76 | the two loops compute the presets' maps merged in, then each plugin set, as specified |
| Plugins.LoadPresets | packages/cli/src/plugins.ts:49-57 | the loop merges every preset's map into the result in order, stopping at the first preset that fails to load |
| Plugins.SetEachPlugin | packages/cli/src/plugins.ts:66-71 | the loop sets every plugin to its loaded module in order, stopping at the first plugin that fails to load |
| Plugins.SetAllGet | packages/cli/src/plugins.ts:55 | setting distinct entries gives their values and leaves other keys alone |
| Plugins.SetAllConcat | packages/cli/src/plugins.ts:55 | setting `a` then `b` is setting `a + b` |
| Plugins.MergeGet | packages/cli/src/plugins.ts:55 | a preset's map wins over what was merged before |
| Plugins.SetPluginsGet | packages/cli/src/plugins.ts:66-71 | each plugin set maps to its loaded module |
| Plugins.SetPluginsOthers | packages/cli/src/plugins.ts:66-71 | setting plugins leaves every other key as it was |
| Plugins.PluginsOverride | packages/cli/src/plugins.ts:44-71 | every plugin among the dependencies is in the result with its own module, whatever a preset gave |
| RepoPaths.Suffixes | packages/repo/src/tree.ts:16-22 | the loop lists the location, then each shorter tail of its segments |
| RepoPaths.SuffixesFirst | packages/repo/src/tree.ts:18-19 | the first string listed is the location itself |
| RepoPaths.SuffixesStep | packages/repo/src/tree.ts:18-20 | each later string is the one before with its leading segment removed |
| RepoPaths.SuffixesEndLocation | packages/repo/src/tree.ts:16-22 | every string listed ends the location, and later strings are shorter |
| RepoPaths.TreePaths | packages/repo/src/tree.ts:12-26 | the loop gathers the strings of every location, in order, and keeps the first of each; `TreePathsProperties` states what that keeps |
| RepoPaths.AllSuffixesMember | packages/repo/src/tree.ts:14-24 | a string is gathered exactly when it is listed for some location |
| RepoPaths.TreePathsProperties | packages/repo/src/tree.ts:12-26 | the paths are pairwise distinct, are exactly the strings listed for the locations, and are the gathered strings at the positions of their first appearance, in increasing order |
| Lists.DedupeByProperties | packages/config/src/loadConfig.ts:74-79 | keeping the first of each key keeps distinct keys, invents nothing, and loses no key |
| Lists.FirstIndices | packages/config/src/loadConfig.ts:76-78 | the first-appearance positions are in range and strictly increasing |
| Lists.FirstIndicesFirst | packages/config/src/loadConfig.ts:76-78 | a position is listed exactly when its key does not occur before it, as `findIndex(...) === idx` tests |
| Lists.DedupeByFirst | packages/config/src/loadConfig.ts:74-79 | keeping the first of each key gives exactly the elements at the first-appearance positions, in order |
| Lists.FilterConcat | packages/utils/src/logger.ts:63-64 | filtering a concatenation filters each part |
| Lists.FilterOne | packages/utils/src/logger.ts:63-64 | a single element is kept exactly when it passes |
| Lists.FilterDropsMiddle | packages/utils/src/logger.ts:63-64 | elements that fail are dropped and the passing ones around them kept, in order |
| Strings.JoinSplit | packages/repo/src/tree.ts:16-19 | joining the pieces of a split with the same separator gives back the string |

## Left out

- I/O is not modelled. Reading files, `require`, `fs.existsSync`, spawned commands, `cosmiconfig`, `jsonschema`, `micromatch`, `nanoid` and `process.cwd()` become parameters. Their results are taken as given.
- Asynchrony is not modelled. Every `Promise.all` runs in declaration order. In the `plugin-repo` variants and the preset merge of `getPlugins`, the real order follows completion order.
- Concurrent reads of one cache name are not modelled. Two `value` reads before the first settles would both call the setter.
- Debug logging is not modelled (`makeLogger`, `debug.extend`, the `debug` calls). Neither are `bindNameParsers`, the `parseLoggingNameBy*` parsers and `makeLogger`, which build loggers and read the file system. The naming functions they call are modelled.
- `repo/src/tree.ts`: `getTree` only logs the paths it computes and returns nothing. The model returns the paths. `findRoot` and `parseWorkspaces` are not part of this model.
- The template content of the documents (`merge(tpl, {references})`) is not modelled, and neither is the `template.json` file. The documents carry their path, root flag and references.
- `ts-deepmerge` is not part of this model. `PathTree` assumes its law: objects merge key by key, and any other later value replaces the earlier one.
- PathTree.PathsToTree: requires every path to hold a non-empty segment, because merging an `undefined` tree depends on the library's behaviour for `undefined`.
- Numeric object keys are not modelled. JavaScript lists integer-like keys first in `Object.keys`; the model keeps insertion order for every key.
- Sort order: `sort()` compares UTF-16 code units; the model compares Dafny characters (code points). The two differ only for characters outside the Basic Multilingual Plane.
- JSON numbers are integers in the model. Floating point is not modelled.
- LoadConfig.GetSubSchemas: the in-place write of `schema.$ref` is modelled on values. The rewritten schema is returned. A write made before a later throw is not observable.
- LoadConfig.LoadConfig: returns only the configuration. The source leaves the caller's schema object with its relative `$ref`s replaced by ids (packages/config/src/loadConfig.ts:37); the model does not hand that schema back. `GetSubSchemas` returns it as its node, and `RewalkFindsNothing` states what a second walk of it finds.
- LoadConfig.RewalkFindsNothing: assumes every relative `$ref` stands alone in its object. The first walk skips the other properties of such an object; a second walk visits them and can find references there.
- LoadConfig.ReplaceRef: a loaded schema is taken to be an object. Spreading a non-object schema is not modelled.
- Error messages thrown by Node itself (a missing file, a `TypeError`) are plain `Err` values. Only the messages the source writes are spelled out.
- Logger.StripExtension: states the regular-expression cut by its properties (prefix, position of the cut) rather than by a regular-expression engine.
- WorkspaceRoot.FindWorkspaceRoot: models the corrected loop, which stops where `dirname` stops (see Findings). The loop as written is modelled by one step, `AsWrittenStep`.

## Findings

| source | as written | input that shows it | evidently intended | confidence | as-written member | corrected member |
|---|---|---|---|---|---|---|
| packages/utils/src/parsers/v2.ts:33-36 | the root filter compares each entry's `name` with the whole root `package.json` object, so it never removes anything | a listing whose entries include the root package's own name | leave out the entry whose name is the root package's name | high, not executed | YarnV2.RootPackageListed | YarnV2.RootPackageLeftOut |
| packages/utils/src/logger.ts:230-236 | `extendLoggingNaming` uses the naming's name as the new prefix and drops its own prefix | `{ name: 'awesome', prefix: 'some' }` extended by `'thing'` gives `awesome:thing` | `some:awesome:thing`, as the test at packages/utils/src/logger.spec.ts:347-350 expects | high, not executed | Logger.ExtendDropsPrefix | Logger.ExtendNaming |
| packages/utils/src/package/workspace.ts:35-38 | the next candidate is searched from `dirname(pwd)` with no previous directory, so at `/` the search finds `/` again | a `/` that has a package.json but is not a workspace root | stop with the root-reached error once `dirname` no longer moves | medium, not executed | WorkspaceRoot.AsWrittenLoopRepeats | WorkspaceRoot.FindRootResult |
