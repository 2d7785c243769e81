# llm-context-builder, modelled in Dafny

llm-context-builder is a Next.js and Electron application. It lets a user
browse a project directory and select files and folders. The selection is
then bundled into one `<files>` XML document, to be pasted into a
large-language-model prompt. Under the user interface sit a few small,
deterministic engines. This project models them and proves properties of
them:

- two incompatible gitignore dialects:
  - the glob rewriter of `lib/exclude-patterns.ts`, duplicated in the desktop
    build (`ExcludePatterns`, `ElectronWalk`);
  - the ad-hoc matcher of `lib/utils.ts` (`IgnoreUtils`).
  Both are modelled over one token matcher (`Glob`) rather than a regular
  expression engine.
- the file-type classifier of `lib/file-types.ts` (`FileTypes`);
- the page's selection engine, tree filter, expand, toggle-all, paste and
  statistics logic of `app/page.tsx` (`Selection`, `PageView`, over the
  shared tree of `FileNodes`);
- the desktop bundle, its ASCII file map and its directory walk in
  `electron/main.js` (`ElectronBundle`, `FileMap`, `ElectronWalk`);
- the two API routes of the web build (`GetFiles`, `ListDirectory`);
- the persisted recent-paths list (`RecentPaths`, a class over an abstract
  store) and its relative-time view (`RecentPathsView`);
- the tree ordering, node row, extension filter and keyboard shortcut rules
  of the components (`FileTree`, `FileNodeView`, `FileTypeFilter`,
  `KeyboardShortcuts`).

The model follows the code as written, quirks included. The quirks, each a
proved property, are:

- in the first dialect, `**` means "one character, then characters other
  than `/`";
- the second dialect's directory branch compares against the pattern minus
  one more character;
- the file map drops the first line of every nested subtree;
- a segment's directory flag in the file map is fixed when the segment is
  first inserted.

I/O is replaced by parameters:

- a file-system tree of `Entry` values whose `stat` or `readdir` may fail;
- a `Probe` function for `stat` and `readFile`;
- the outcome of reading `.gitignore`;
- a mock-content map;
- an abstract stored value for `localStorage`;
- `now` and `Date.now()` as integers.

Library semantics the code relies on are also parameters:

- `localeCompare` is any total preorder on names;
- `toLocaleDateString` is a function from a timestamp to a string;
- `decodeURIComponent` is a partial function from a string to a string.

Helper modules:

- `Strings`: the JavaScript string methods used (`split`, `join`, `trim`,
  `startsWith`, `endsWith`, `includes`, `toLowerCase`, `replace` of one
  character);
- `Sorting`: a stable insertion sort by a comparator, standing for
  `Array.prototype.sort`;
- `Sets`: set toggling;
- `Optional`: an option type;
- `FileSystem`: the abstract file system and the shared XML elements.

## Model

| member | source | states |
|---|---|---|
| ExcludePatterns.AnyMatches | lib/exclude-patterns.ts:6-12 | the loop is true exactly when some pattern in the list matches the normalised path |
| ExcludePatterns.MatchesPatterns | lib/exclude-patterns.ts:3-13 | `matchesPatterns` holds iff some pattern's compiled glob matches the path with `\` turned into `/`, so an empty pattern list never matches |
| ExcludePatterns.ShouldExcludeFileByGitignore | lib/exclude-patterns.ts:34-36 | holds iff some pattern matches, which is exactly `matchesPatterns` |
| ExcludePatterns.ReplaceTwice | lib/exclude-patterns.ts:3-19 | normalising the path again inside `matchesGlob` changes nothing: turning backslashes into `/` is idempotent |
| ExcludePatterns.ParseLinesAppend | lib/exclude-patterns.ts:40-63 | the per-line filter and rewrite keep input order: the patterns of two line lists are the patterns of the first, then those of the second |
| ExcludePatterns.ParseConcat | lib/exclude-patterns.ts:39-64 | parsing two texts joined by a newline gives the first text's patterns followed by the second's |
| ExcludePatterns.ParseOneLine | lib/exclude-patterns.ts:40-63 | a single line yields nothing when, trimmed, it is empty or starts with `#` or `!`, and otherwise exactly one pattern: its rewritten form |
| ExcludePatterns.RootedDirectoryLine | lib/exclude-patterns.ts:46-53 | a line `/X`, with X a plain name without `.`, becomes `X/**`, which matches an entry directly inside X but not X itself |
| ExcludePatterns.CompilePlain | lib/exclude-patterns.ts:22-26 | a pattern prefix without `*` or `?` compiles to literal characters, a dot included |
| ExcludePatterns.GlobDot | lib/exclude-patterns.ts:22-29 | `.` in a glob matches only a literal dot |
| ExcludePatterns.GlobQuestion | lib/exclude-patterns.ts:22-29 | `?` matches any one character, `/` included (line terminators excepted) |
| ExcludePatterns.GlobStar | lib/exclude-patterns.ts:22-29 | a lone `*` matches exactly a run of characters containing no `/` |
| ExcludePatterns.GlobDoubleStar | lib/exclude-patterns.ts:22-29 | `**` matches exactly one character (not a line terminator) followed by characters other than `/` |
| ExcludePatterns.DirDoubleStar | lib/exclude-patterns.ts:22-29 | `L/**` matches a path iff the path starts with `L/` and the remainder is one such `**` word |
| ExcludePatterns.DirGlobSkipsItself | lib/exclude-patterns.ts:22-29 | `L/**` does not match `L` itself |
| ExcludePatterns.DirGlobMatchesChild | lib/exclude-patterns.ts:22-29 | `L/**` matches every non-empty entry name directly below `L` |
| ExcludePatterns.DirGlobSkipsGrandchild | lib/exclude-patterns.ts:22-29 | `L/**` matches nothing two levels below `L` |
| ExcludePatterns.BareNameGlob | lib/exclude-patterns.ts:55-58 | a bare name `n` (no `/`, `.` or `*`) becomes `**/n/**`, which matches iff the path is a `**` word, then `/n/`, then a `**` word |
| ExcludePatterns.BareNameMissesTopLevel | lib/exclude-patterns.ts:55-58 | because `**` needs a character before the slash, `**/n/**` never matches `n/f` for a top-level `n` |
| ExcludePatterns.BareNameMatchesNested | lib/exclude-patterns.ts:55-58 | `**/n/**` does match `d/n/f` for one-word `d` and `f` |
| Glob.Lits | lib/exclude-patterns.ts:22-26 | a word compiled as literals has one literal token per character, in order |
| Glob.MatchRun | lib/exclude-patterns.ts:22-29 | a run token followed by the rest matches iff some prefix is all accepted by the run and the rest matches the remainder |
| Glob.MatchRunAlone | lib/utils.ts:57-66 | a lone run token matches exactly the strings it accepts throughout |
| Glob.MatchLits | lib/exclude-patterns.ts:22-29 | literal tokens then the rest match iff the string starts with that word and the rest matches what follows |
| ElectronWalk.ReadGitignorePatterns | electron/main.js:398-417 | a failed read gives the six default patterns; a successful one gives the parsed patterns |
| ElectronWalk.AnyPatternMatches | electron/main.js:449-455 | the loop is true iff some pattern matches the normalised path |
| ElectronWalk.ShouldIgnoreFile | electron/main.js:446-456 | holds iff some pattern matches the path with `\` turned into `/`; never with no patterns |
| ElectronWalk.ShouldIgnoreAgreesWithLib | electron/main.js:446-468 | on patterns without backslashes the desktop matcher equals `matchesPatterns` of the first dialect |
| ElectronWalk.DefaultPatternsAreSafe | electron/main.js:408-415 | the six defaults contain no regular-expression metacharacter and no backslash |
| ElectronWalk.WordPatternIsSafe | electron/main.js:408-415 | a pattern of lower-case letters, `_`, `.`, `/` and `*` is free of metacharacters |
| ElectronWalk.NodeModulesDefault | electron/main.js:458-468 | the default `node_modules/**` hides direct children of `node_modules`, but neither the directory itself nor anything two levels down |
| ElectronWalk.WalkLoop | electron/main.js:230-259 | the loop over one directory's entries computes the walk specification |
| ElectronWalk.GetDirectoryContentsRecursive | electron/main.js:222-265 | computes the recursive listing, which is empty on any failure inside the subdirectory |
| ElectronWalk.GetDirectoryContents | electron/main.js:175-220 | computes the top-level listing, with the patterns from `readGitignorePatterns`; `None` stands for the thrown error |
| ElectronWalk.WalkIsClean | electron/main.js:230-259 | every listed entry is visible, not ignored, has the joined relative path, and a directory lists its own contents |
| ElectronWalk.RecursiveIsClean | electron/main.js:222-265 | the recursive listing is clean relative to its own path |
| ElectronWalk.ListingIsClean | electron/main.js:186-216 | top-level entries have their bare name as path; no node anywhere in the result has a name starting with `.` or an ignored path |
| ElectronWalk.CleanFlatten | electron/main.js:230-259 | in a clean listing no node at any depth is hidden or ignored |
| ElectronWalk.CleanFlattenOne | electron/main.js:230-259 | the same for one node and all its descendants |
| ElectronWalk.WalkFailsIff | electron/main.js:186-219 | a directory's walk fails iff one of its entries that reaches `stat` cannot be `stat`ed |
| ElectronWalk.BrokenSubdirectoryIsEmpty | electron/main.js:226-264 | such a failure aborts the top level, but one level down only empties that directory's children |
| ElectronWalk.WalkKeepsOrder | electron/main.js:230-259 | the listed names are the visible, non-ignored entry names, in `readdir` order |
| IgnoreUtils.ParseGitignore | lib/utils.ts:9-14 | no returned pattern is empty or starts with `#` |
| IgnoreUtils.KeptLine | lib/utils.ts:12-13 | one trimmed line survives only when non-empty and not a comment |
| IgnoreUtils.KeptLines | lib/utils.ts:12-13 | the filter over all lines keeps only non-empty, non-comment lines |
| IgnoreUtils.KeptLinesAppend | lib/utils.ts:10-13 | the filter keeps input order: two line lists give the kept lines of the first, then of the second |
| IgnoreUtils.ParseGitignoreConcat | lib/utils.ts:9-14 | parsing two texts joined by a newline gives the first's patterns then the second's |
| IgnoreUtils.ParseGitignoreOneLine | lib/utils.ts:9-14 | one line yields its trimmed text, unchanged and `!` lines included, unless it is empty or starts with `#` |
| IgnoreUtils.StripLeadingSlashes | lib/utils.ts:31 | the result does not start with `/` |
| IgnoreUtils.LeadingSlashes | lib/utils.ts:30-31 | counts exactly the leading run of slashes |
| IgnoreUtils.StripTrailingSlashes | lib/utils.ts:30 | the result does not end with `/` |
| IgnoreUtils.TrailingSlashes | lib/utils.ts:30 | counts exactly the trailing run of slashes |
| IgnoreUtils.DropLast | lib/utils.ts:35 | `slice(0, -1)` removes exactly the last character, and leaves an empty string empty |
| IgnoreUtils.CompileB | lib/utils.ts:57-62 | the second dialect's glob has one token per pattern character |
| IgnoreUtils.AnyPatternMatchesSpec | lib/utils.ts:19-25 | the loop of `isIgnored` is true iff some pattern matches |
| IgnoreUtils.IsIgnored | lib/utils.ts:16-26 | holds iff some pattern matches the path with `\` turned into `/`; never with an empty list |
| IgnoreUtils.DirPatternMissesOwnDir | lib/utils.ts:30-37 | the pattern `n/` matches neither `n` nor anything under `n/`, because one character too many is dropped |
| IgnoreUtils.DirPatternMatchesShorterName | lib/utils.ts:30-37 | `n/` instead matches `n` minus its last character, and everything under it |
| IgnoreUtils.LeadingSlashDoesNotAnchor | lib/utils.ts:30-54 | a plain pattern `/p` matches `d/p` in any directory `d`: the leading slash does not anchor |
| IgnoreUtils.LeadingSlashFacts | lib/utils.ts:30-31 | stripping the slashes of `/p` gives `p`, and the path `d/p` needs no stripping and ends with `/p` |
| IgnoreUtils.PlainSuffixMatches | lib/utils.ts:51-54 | a plain pattern matches every path that ends with `/` plus the cleaned pattern |
| IgnoreUtils.NegationNeverMatches | lib/utils.ts:45-48 | a `!` pattern without `*` and not ending in `/` never matches |
| IgnoreUtils.CompilePlainB | lib/utils.ts:59-62 | in the second dialect a word without `*` or `?` compiles to literals |
| IgnoreUtils.StarSuffix | lib/utils.ts:57-65 | `*w` matches a string iff it ends with `w` and its other characters are not line terminators: `*` crosses `/` |
| IgnoreUtils.StarMatches | lib/utils.ts:57-64 | `*w` matches iff some prefix is a run of any characters and the rest is exactly `w` |
| IgnoreUtils.RunThenWord | lib/utils.ts:61-64 | that split exists iff the string ends with `w` and the part before it has no line terminator |
| IgnoreUtils.StarCompiles | lib/utils.ts:59-62 | `*w` compiles to a run of any characters followed by the literals of `w` |
| IgnoreUtils.LitsExactly | lib/utils.ts:64 | literal tokens alone match exactly their own word |
| IgnoreUtils.GlobMatchesLastSegment | lib/utils.ts:41-43 | a glob pattern that matches an entry's name matches that entry in any directory, through the last-segment test |
| FileTypes.ExtensionWithoutDot | lib/file-types.ts:62-64 | a name without `.` has the empty extension |
| FileTypes.ExtensionOfDotFile | lib/file-types.ts:66-69 | `.b`, with no other dot, has extension `b`, not lowercased |
| FileTypes.ExtensionAfterLastDot | lib/file-types.ts:62-72 | otherwise the extension is the lowercased text after the last dot |
| FileTypes.LowerAroundDot | lib/file-types.ts:63 | lowercasing a name works piecewise around a dot |
| FileTypes.SplitAroundLastDot | lib/file-types.ts:63 | the last dot-piece of `a.b` lowercased is `b` lowercased |
| FileTypes.LeadingDotSplits | lib/file-types.ts:63-67 | a name starting with `.` splits into at least two pieces |
| FileTypes.FirstPresetSpec | lib/file-types.ts:74-81 | the preset search returns the first preset, in declaration order, that lists the extension, and none iff no preset lists it |
| FileTypes.SharedExtensionsAreConfig | lib/file-types.ts:74-81 | `json` and `XML` both give `config`, not `data` |
| FileTypes.JsonAndXmlListing | lib/file-types.ts:8-45 | of the presets before `config`, none lists `json` or `xml`, and `config` lists both |
| FileTypes.ExtensionList | lib/file-types.ts:92-96 | the counted extensions are non-empty, at most one per path |
| FileTypes.CountMap | lib/file-types.ts:98 | a count map holds exactly the counted keys, each with its number of occurrences |
| FileTypes.CountOneMore | lib/file-types.ts:98 | counting one more occurrence is `set(key, (get(key) or 0) + 1)` |
| FileTypes.ExtensionListStep | lib/file-types.ts:92-97 | one more path adds its extension to the counted list exactly when the extension is non-empty |
| FileTypes.PresetListStep | lib/file-types.ts:100-103 | one more extension adds its preset exactly when it has one |
| FileTypes.ExtensionStep | lib/file-types.ts:96-98 | the loop's update of the extension map keeps it equal to the count of the extensions so far |
| FileTypes.PresetStep | lib/file-types.ts:100-103 | the loop's update of the preset map keeps it equal to the count of the presets so far |
| FileTypes.AnalyzeCounts | lib/file-types.ts:83-108 | the analysis counts each extension and preset occurrence, and its total is the number of paths with a non-empty extension |
| FileTypes.AnalyzeFileTypes | lib/file-types.ts:83-108 | the loop computes those two count maps and that total |
| FileTypes.PresetsWithinTotal | lib/file-types.ts:96-104 | preset counts add up to at most the total |
| FileTypes.FilterOnDotlessName | lib/file-types.ts:110-115 | a dot-less name passes iff no extension is selected or the empty extension is |
| FileTypes.FilterOnExtension | lib/file-types.ts:110-115 | with a non-empty selection, `a.b` passes iff `b` lowercased is selected |
| FileNodes.FlattenOne | app/page.tsx:245-255 | a node's pre-order listing starts with the node itself |
| FileNodes.Paths | app/page.tsx:483-491 | one path per node |
| FileNodes.Elems | app/page.tsx:313 | the set of a list holds exactly its members |
| FileNodes.FlattenAppend | app/page.tsx:483-491 | the pre-order listing of two forests is the first's followed by the second's |
| FileNodes.PathsSpec | app/page.tsx:483-491 | the i-th path is the i-th node's path, and a path is listed iff some node has it |
| FileNodes.PathsAppend | app/page.tsx:483-491 | paths of a concatenation are the concatenated paths |
| FileNodes.FirstWithPathAppend | app/page.tsx:231-243 | the first node with a path in two lists is found in the first list if it is there |
| FileNodes.FirstWithPathSpec | app/page.tsx:231-243 | the search answers the first node with that path, and none iff no node has it |
| FileNodes.FindNodeIsPreorder | app/page.tsx:231-243 | `findNode` returns the first node with the path in a pre-order walk of the forest |
| FileNodes.FindNodeSpec | app/page.tsx:231-243 | `findNode` fails iff no node of the forest has the path, and otherwise returns a node of the forest with that path |
| FileNodes.SubtreeListed | app/page.tsx:231-243 | every descendant of a node of the forest is in the forest's listing |
| FileNodes.SubtreeListedOne | app/page.tsx:245-255 | every descendant of a descendant is a descendant |
| Selection.RootName | app/page.tsx:294 | the synthetic root's name is the last `/`-piece of `dirPath`, or `dirPath` itself when that piece is empty |
| Selection.GetAllDescendants | app/page.tsx:245-255 | the loop computes the node's path followed by all its descendants' paths, pre-order |
| Selection.AncestorsUpTo | app/page.tsx:257-268 | no collected ancestor is empty or equal to the target path |
| Selection.GetAllAncestors | app/page.tsx:257-268 | the loop computes the ancestor list |
| Selection.AbsolutePathIsNoAncestor | app/page.tsx:257-268 | an absolute path is never an ancestor of anything |
| Selection.AncestorsNoLeadingSlash | app/page.tsx:259-265 | no ancestor starts with `/` |
| Selection.AncestorsOfCleanPath | app/page.tsx:257-268 | for a path without empty segments, the ancestors are the joins of the first 1 to n-1 segments, each a proper `/`-prefix of the path |
| Selection.AncestorsProperPrefixes | app/page.tsx:261-266 | the loop's first n ancestors are those joins, in increasing order |
| Selection.JoinAt | app/page.tsx:262 | joining with `/` splits at any segment boundary |
| Selection.JoinStartsWithFirst | app/page.tsx:262 | a join starts with its first segment |
| Selection.AllChildrenSelectedMeansSubtree | app/page.tsx:270-287 | `areAllChildrenSelected` on a listed directory holds iff every descendant path is selected |
| Selection.EveryChildSelected | app/page.tsx:277-286 | every child passes the per-child test iff every path below is selected |
| Selection.AllChildrenSelectedSplit | app/page.tsx:277-286 | `every` over the children is the head's test and `every` over the rest |
| Selection.PromoteBounds | app/page.tsx:316-321 | promotion only adds, and only ancestors |
| Selection.DeleteAll | app/page.tsx:306-310 | the `forEach` of deletes removes exactly the listed paths |
| Selection.AddAll | app/page.tsx:312-313 | the `forEach` of adds adds exactly the listed paths |
| Selection.PromoteAncestors | app/page.tsx:315-321 | the loop tests ancestors shortest-first against the set as updated so far |
| Selection.ToggleSelect | app/page.tsx:222-329 | the update computes the toggle specification |
| Selection.ClickedNodeSpec | app/page.tsx:289-303 | the clicked node is absent iff the path is not `dirPath` and no tree node has it; otherwise it carries the path, and its descendants lie in the tree |
| Selection.ToggleWithoutNode | app/page.tsx:229-303 | with no tree, or no node for the path, the selection is unchanged |
| Selection.ToggleOff | app/page.tsx:305-310 | toggling a selected path removes exactly its descendants and its ancestors, and adds nothing |
| Selection.ToggleOn | app/page.tsx:311-322 | toggling an unselected path adds all its descendants, removes nothing, and adds nothing else but ancestors |
| Selection.ToggleFlips | app/page.tsx:305-322 | for a path the tree knows, toggling flips its own membership |
| Selection.ToggleLeavesAbsoluteRoot | app/page.tsx:257-322 | an absolute `dirPath` is never added or removed by toggling another path |
| Selection.PromoteOnABC | app/page.tsx:316-321 | in `a/b/c`, selecting `c` promotes `a/b` but not `a`, since `a` is tested before `a/b` is added |
| Selection.PromotionIsShortestFirst | app/page.tsx:222-329 | the whole toggle on that tree yields exactly `a/b/c` and `a/b` |
| Selection.SegmentsOfABC | app/page.tsx:259 | `a/b/c` splits into `a`, `b` and `c` |
| Selection.AncestorsOfABC | app/page.tsx:257-268 | the ancestors of `a/b/c` are `a` then `a/b` |
| Selection.JoinABC | app/page.tsx:262 | the joins of those segments |
| PageView.DirPathsAreDirectories | app/page.tsx:334-344 | `getAllDirPaths` lists a path iff some directory of the tree has it |
| PageView.ExpandAllSpec | app/page.tsx:331-349 | without a tree nothing changes; otherwise the expanded set is `dirPath` plus every directory path of the unfiltered tree |
| PageView.CollapseAll | app/page.tsx:351-353 | collapsing leaves nothing expanded |
| PageView.SelectedFileCount | app/page.tsx:356-377 | the count is at most the number of selections, and 0 without a tree |
| PageView.AllSelectedAreFiles | app/page.tsx:356-377 | the count equals the number of selections iff every selected path resolves to a file |
| PageView.SubsetSize | app/page.tsx:357-376 | a filtered subset is no larger, and equally large only when equal |
| PageView.FolderCount | app/page.tsx:891-899 | the folder figure counts the selections that the tree does not resolve to a file |
| PageView.FolderCountIsDirectories | app/page.tsx:891-899 | when every selection is the root or a path of the tree, the folder figure is the number of selected directories of the tree, plus one for a selected root |
| PageView.DefaultGitignorePatternsAreSafe | app/page.tsx:519-526 | the six patterns the page installs contain no regular-expression metacharacter, so the filter's precondition holds for them |
| PageView.NotExcluded | app/page.tsx:415-421 | the children shown unfiltered are children that no pattern excludes |
| PageView.FilterSpecAppend | app/page.tsx:394-433 | the filter works node by node: two lists give the first's result followed by the second's |
| PageView.FilterNodes | app/page.tsx:385-438 | the loop computes the filter specification, kept nodes and paths to expand |
| PageView.FilterNode | app/page.tsx:395-432 | one iteration computes one node's contribution |
| PageView.FilterOneSpec | app/page.tsx:395-432 | an excluded node contributes nothing; a file or unlisted directory is kept iff name and type match; a listed directory is kept iff its filtered children are non-empty, then expands after its descendants, and shows all non-excluded children for an empty query and filter |
| PageView.FilterKeepsOrder | app/page.tsx:394-433 | the kept nodes are input nodes, not excluded, in input order |
| PageView.EmptyDirectoryIsHidden | app/page.tsx:407-412 | a directory with an empty children list is dropped even for an empty query |
| PageView.AvailableFilesAppend | app/page.tsx:444-459 | the collected files of two lists are the first's then the second's |
| PageView.CollectFiles | app/page.tsx:444-459 | the loop computes the available-files specification |
| PageView.AllAvailableFiles | app/page.tsx:441-462 | no tree gives no files; otherwise the files collected from its children |
| PageView.AvailableFilesAreFiles | app/page.tsx:444-459 | every available path is a non-excluded file of the tree |
| PageView.AvailableFilesWithoutPatterns | app/page.tsx:444-459 | without patterns the available files are all file paths, in pre-order |
| PageView.FilesOfAppend | app/page.tsx:452-453 | selecting the files of a listing works piecewise |
| PageView.GatherIsPreorder | app/page.tsx:483-491 | `gather` lists the paths of all nodes in pre-order |
| PageView.ToggleAllSpec | app/page.tsx:477-497 | a non-empty selection becomes empty; an empty one becomes `dirPath` plus every path of the filtered tree |
| PageView.ToggleAllTwice | app/page.tsx:477-497 | two toggles from empty return to empty |
| PageView.NotIn | app/page.tsx:503-505 | the new paths are the ones to expand that are not yet expanded |
| PageView.AutoExpandIsUnion | app/page.tsx:500-512 | with a query the expanded set becomes its union with the paths to expand; without one it is unchanged |
| PageView.StripQuotes | app/page.tsx:115 | removing surrounding quotes never lengthens the text |
| PageView.HandlePasteSpec | app/page.tsx:109-130 | the cleaned text has no backslash and no surrounding whitespace; without `file://` the path is set iff the text changed |
| PageView.CleanPastedHasNoBackslash | app/page.tsx:114-117 | cleaning removes every backslash |
| PageView.CleanPathIsKept | app/page.tsx:114-127 | an already clean path is pasted unchanged |
| PageView.TrimClean | app/page.tsx:117 | trimming leaves a text without surrounding whitespace unchanged |
| PageView.LineCountCountsNewlines | app/page.tsx:907 | the line count is the number of newlines plus one |
| PageView.TokenEstimate | app/page.tsx:916-918 | the estimate is the length divided by 4, rounded up |
| ElectronBundle.Elements | electron/main.js:284-298 | one element per selection, none skipped |
| ElectronBundle.ReadFiles | electron/main.js:268-302 | the handler computes the bundle: header, map block, elements in order, footer |
| ElectronBundle.AppendElements | electron/main.js:284-298 | the loop appends the elements of all selections, in order |
| ElectronBundle.MapBlockHoldsMap | electron/main.js:278-282 | the map block is empty iff the map is, and otherwise wraps the map in `file_map` tags |
| ElectronBundle.BundleWithoutSelections | electron/main.js:273-308 | with no selections the bundle is just the empty `files` element |
| ElectronBundle.MapPresent | electron/main.js:305-350 | with selections and a non-empty root path the map block is present |
| ElectronBundle.SelectionInBundle | electron/main.js:284-298 | each selection's element, and a readable file's content, appears in the bundle |
| FileMap.PathParts | electron/main.js:322 | path segments are non-empty and contain no separator |
| FileMap.FindChild | electron/main.js:330 | the lookup returns the first child with that name, or the end when there is none |
| FileMap.FindChildUnique | electron/main.js:330 | any index with those properties is the lookup's answer |
| FileMap.Insert | electron/main.js:325-343 | inserting below a node keeps its name, path and directory flag |
| FileMap.InsertFinds | electron/main.js:325-343 | after insertion the path's segments lead to a node |
| FileMap.InsertKeeps | electron/main.js:330-340 | insertion keeps every existing node reachable, with the same name, path and directory flag: a node's flag is fixed at first insertion |
| FileMap.InsertLookup | electron/main.js:325-343 | how a lookup below a node sees one insertion: through the inserted child, or an untouched one |
| FileMap.LookupStep | electron/main.js:330 | a lookup descends through the first child with the segment's name |
| FileMap.InsertShape | electron/main.js:330-340 | insertion keeps existing children and their order, changes at most the matching child, and only appends |
| FileMap.SortedPaths | electron/main.js:319 | the sorted copy is a permutation of the selected paths |
| FileMap.BuildTree | electron/main.js:311-344 | the loop inserts the sorted paths one by one under the root |
| FileMap.InsertAllKeeps | electron/main.js:321-344 | nodes already in the tree survive all later insertions unchanged in name, path and flag |
| FileMap.InsertAllFinds | electron/main.js:321-344 | every selected path is reachable in the built tree |
| FileMap.SortEach | electron/main.js:363-365 | sorting each child keeps the number of children |
| FileMap.DirsFirstIsTotalPreorder | electron/main.js:354-360 | directories first, then the name order, is a total preorder when the name order is |
| FileMap.SortTreeOrders | electron/main.js:353-366 | each sorted level is a permutation, with directories before non-directories and names in order within each group |
| FileMap.NonBlank | electron/main.js:387 | dropping blank lines never adds lines |
| FileMap.ChildLinesStep | electron/main.js:377-391 | one loop iteration appends the child's line, its subtree lines, then the rest |
| FileMap.RenderTreeNode | electron/main.js:368-394 | the renderer computes its lines joined by newlines |
| FileMap.RenderSubtree | electron/main.js:385-390 | the nested call's lines, split, filtered and without the first |
| FileMap.ChildLinesAreDrawing | electron/main.js:377-391 | the rendered children are the drawing: each child's connector line, then its subtree without its first line |
| FileMap.SubtreeIsDrawing | electron/main.js:385-390 | a nested subtree contributes the drawing of its children minus the first line |
| FileMap.RenderIsDrawing | electron/main.js:368-394 | the whole map is the root path line followed by the drawing |
| FileMap.ResplitUnbroken | electron/main.js:386-387 | joining non-blank lines without line breaks and splitting again gives them back |
| FileMap.NonBlankKeeps | electron/main.js:387 | lines that are not blank all survive the filter |
| FileMap.LineIsUnbroken | electron/main.js:383 | a child line has no line break and is not blank |
| FileMap.ConnectorDrawn | electron/main.js:380 | both connectors are four characters, starting with a non-blank box character |
| FileMap.PrefixUnbroken | electron/main.js:381 | a child prefix is non-empty and has no line break |
| FileMap.PathPartsPair | electron/main.js:322 | `d/x` splits into the segments `d` and `x` |
| FileMap.LexLeCommonPrefix | electron/main.js:319 | a common prefix keeps the default string order |
| FileMap.TwoFilesBuilt | electron/main.js:311-344 | the selections `d/x` and `d/y` build a root holding directory `d` with the files `x` then `y` |
| FileMap.TwoFilesSorted | electron/main.js:353-366 | sorting leaves that tree unchanged when `x` comes before `y` |
| FileMap.TwoFilesLines | electron/main.js:368-394 | that tree is drawn as the root path, `d`, and `y` alone |
| FileMap.NestedFirstLineDropped | electron/main.js:305-394 | the map of `d/x` and `d/y` has three lines, root path, `d` and `y`: the line of the first file in a nested directory is lost |
| FileMap.GenerateFileMap | electron/main.js:305-351 | computes the map text |
| FileMap.FileMapStartsWithRoot | electron/main.js:305-373 | no selections give an empty map; otherwise the map starts with the root path |
| GetFiles.Patterns | app/api/get-files/route.ts:339-350 | no patterns without a file system or when `.gitignore` cannot be read |
| GetFiles.SourceOf | app/api/get-files/route.ts:370 | the skip test is exactly: `.gitignore`, or ignored by a non-empty pattern list |
| GetFiles.PostRequest | app/api/get-files/route.ts:327-417 | the handler computes the response specification |
| GetFiles.BuildFiles | app/api/get-files/route.ts:364-409 | the loop computes the header, the elements of the selections that are not skipped, in order, and the footer |
| GetFiles.ElementsStep | app/api/get-files/route.ts:366-407 | one iteration appends the selection's element unless it is skipped |
| GetFiles.ElementsAppend | app/api/get-files/route.ts:366-407 | the elements of two selection lists are the first's then the second's |
| GetFiles.PostBranches | app/api/get-files/route.ts:352-416 | 500 iff the body is not JSON; 400 iff `dirPath` is missing or empty or `selections` is not an array; otherwise the `files` document without a map block, from mocks exactly when there is no file system or `dirPath` is the sample project |
| GetFiles.GitignoreLeftOut | app/api/get-files/route.ts:369-373 | a `.gitignore` selection contributes nothing |
| GetFiles.SkippedAlone | app/api/get-files/route.ts:370-373 | a skipped selection emits nothing |
| GetFiles.MockIgnoresDisk | app/api/get-files/route.ts:376-385 | in the mock branch the file system is never consulted |
| GetFiles.NothingSkipped | app/api/get-files/route.ts:366-407 | with nothing skipped, element k belongs to selection k |
| ListDirectory.ReadGitignore | app/api/list-directory/route.ts:66-74 | a failed read gives no patterns, otherwise the parsed ones |
| ListDirectory.WalkDirectory | app/api/list-directory/route.ts:76-104 | the recursive walk computes its specification, failing as a whole on any error |
| ListDirectory.GetBranches | app/api/list-directory/route.ts:49-115 | without fs the test tree, even without `dirPath`; with fs, 400 for a missing `dirPath`, 500 iff the walk fails, else the walked tree |
| ListDirectory.WalkIsClean | app/api/list-directory/route.ts:76-104 | no listed node is hidden or ignored; paths are base joined with name; directories carry their own walk |
| ListDirectory.WalkEntriesIsClean | app/api/list-directory/route.ts:80-102 | the same for the loop over one directory's entries |
| ListDirectory.WalkFailsIff | app/api/list-directory/route.ts:76-104 | the walk fails iff some reached entry cannot be `stat`ed or some descended subdirectory's walk fails |
| RecentPaths.Loaded | lib/recent-paths.ts:10-23 | missing or unparseable storage gives no entries; otherwise a permutation of the stored ones |
| RecentPaths.Without | lib/recent-paths.ts:33 | the filter keeps only entries of the list whose path differs |
| RecentPaths.Store.constructor | lib/recent-paths.ts:7-8 | a fresh store holds nothing |
| RecentPaths.Store.Get | lib/recent-paths.ts:10-23 | entries come back sorted by last access, newest first |
| RecentPaths.Store.Add | lib/recent-paths.ts:25-45 | stores the new head followed by the loaded list without the path, cut to 10 |
| RecentPaths.Store.Remove | lib/recent-paths.ts:47-57 | stores the loaded list without the path |
| RecentPaths.Store.Clear | lib/recent-paths.ts:59-67 | removes the stored value |
| RecentPaths.NewerIsTotalPreorder | lib/recent-paths.ts:18 | descending last access is a total preorder |
| RecentPaths.LoadedIsSortedPermutation | lib/recent-paths.ts:10-23 | the loaded list is sorted newest first and is a permutation of what was stored, or empty when nothing usable was stored |
| RecentPaths.LoadedKeepsTies | lib/recent-paths.ts:10-23 | entries accessed at the same time come back in the order they were stored |
| RecentPaths.Occurrences | lib/recent-paths.ts:33-39 | a path occurs at most as often as there are entries |
| RecentPaths.WithoutHasNone | lib/recent-paths.ts:33 | the path no longer occurs after the filter |
| RecentPaths.WithoutKeepsOthers | lib/recent-paths.ts:33 | every entry with another path survives |
| RecentPaths.OccurrencesPrefix | lib/recent-paths.ts:39 | a prefix holds no more occurrences than the list |
| RecentPaths.AddedShape | lib/recent-paths.ts:25-45 | after adding, the head is the path with its last segment and `now`; the path occurs once; at most 10 entries; the rest keep their loaded order |
| RecentPaths.HeadThenPrefix | lib/recent-paths.ts:36-39 | cutting the prepended list keeps the head and a prefix of the rest |
| RecentPaths.RemovedShape | lib/recent-paths.ts:47-57 | after removing, the path does not occur and every other entry remains |
| RecentPathsView.Decimal | components/recent-paths.tsx:47-50 | a number is shown as a non-empty string of decimal digits |
| RecentPathsView.DecimalRoundTrip | components/recent-paths.tsx:47-50 | reading those digits back gives the number |
| RecentPathsView.FormatBuckets | components/recent-paths.tsx:39-52 | under a minute (the future included) `Just now`; then floor minutes, hours, `Yesterday` for one day, floor days under a week, and the locale date from a week on |
| RecentPathsView.FloorBounds | components/recent-paths.tsx:42-44 | the floor quotient brackets the difference |
| RecentPathsView.Render | components/recent-paths.tsx:23-37 | an empty list renders only the empty state; otherwise one row per path, in order |
| FileTree.SortedNodes | components/file-tree.tsx:57-64 | the sorted copy is a permutation of the nodes |
| FileTree.DirsFirstIsTotalPreorder | components/file-tree.tsx:57-64 | the type-then-name comparator is a total preorder |
| FileTree.SortedNodesOrder | components/file-tree.tsx:57-64 | the sorted nodes are a permutation with every directory before every file and names in order within each type |
| FileTree.RenderBranches | components/file-tree.tsx:38-100 | no nodes give the empty state, even with a root path; a root path gives one synthetic directory named after its last segment holding the sorted nodes; otherwise the sorted nodes |
| FileNodeView.IconForKey | components/file-node.tsx:31-62 | every key falls into the code, image, video, archive or text category |
| FileNodeView.IconKeyIsLastPiece | components/file-node.tsx:29 | the icon key is a suffix of the lowercased name, and the whole name without a dot |
| FileNodeView.UpperCaseExtensionKey | components/file-node.tsx:29 | `x.TSX` has key `tsx` |
| FileNodeView.TsxIsCode | components/file-node.tsx:35 | `tsx` is a code file |
| FileNodeView.ToggleExpanded | components/file-node.tsx:86-96 | flips membership of the node's path and of nothing else |
| FileNodeView.RowOf | components/file-node.tsx:82-162 | checked iff selected; highlighted iff the query is non-empty and contained in the name ignoring case; children shown iff an expanded directory has a list |
| FileNodeView.KeptLeafIsHighlighted | components/file-node.tsx:82-84 | under a non-empty query every file the page's filter keeps is highlighted; with no type filter, a file no pattern excludes is kept iff it is highlighted |
| FileNodeView.ToggledRowFlips | components/file-node.tsx:137-142 | clicking the checkbox of a row of the tree flips what the row shows as checked |
| FileNodeView.VisibleOne | components/file-node.tsx:162 | a node's visible rows start with its own row |
| FileNodeView.AllExpandedShowsAll | components/file-node.tsx:162 | with every directory expanded, all nodes show, in pre-order |
| FileNodeView.AllExpandedShowsAllOne | components/file-node.tsx:162 | the same for one node |
| FileNodeView.NothingExpandedShowsTop | components/file-node.tsx:162 | with nothing expanded only the top level shows |
| FileTypeFilter.Distinct | components/file-type-filter.tsx:28 | the distinct keys hold the same members without repeats |
| FileTypeFilter.AvailableExtensionsSpec | components/file-type-filter.tsx:22-29 | the available extensions are exactly the analysed extensions, non-empty, without repeats, sorted |
| FileTypeFilter.ToggleExtension | components/file-type-filter.tsx:31-41 | flips the extension's membership and nothing else |
| FileTypeFilter.SelectAll | components/file-type-filter.tsx:43-45 | selects exactly the available extensions |
| FileTypeFilter.ClearAll | components/file-type-filter.tsx:47-49 | selects nothing |
| FileTypeFilter.SelectAllThenAllSelected | components/file-type-filter.tsx:43-66 | after Select All everything counts as selected; after Clear All nothing is |
| FileTypeFilter.DistinctCard | components/file-type-filter.tsx:65 | a list without repeats has as many members as its set |
| FileTypeFilter.AllSelectedBySize | components/file-type-filter.tsx:65 | `allSelected` compares sizes only: one unrelated selected extension counts as all of one available |
| FileTypeFilter.Render | components/file-type-filter.tsx:51-66 | the empty state iff no extension is available; otherwise Select All is disabled iff all are selected, Clear All iff none is |
| KeyboardShortcuts.Dispatch | hooks/use-keyboard-shortcuts.ts:14-40 | modifier+a and modifier+c fire outside inputs only, modifier+f always, Escape fires its callback; default prevented exactly for the three shortcuts that fire |
| KeyboardShortcuts.ControlOnMacIsNoShortcut | hooks/use-keyboard-shortcuts.ts:15-16 | on a Mac, Ctrl is not the modifier |
| KeyboardShortcuts.MacIntelIsMac | hooks/use-keyboard-shortcuts.ts:15 | the platform string `MacIntel` counts as a Mac |
| Sets.Toggled | components/file-node.tsx:88-94 | toggling flips membership of one element and keeps every other |
| Sets.ToggleTwice | components/file-node.tsx:86-96 | toggling twice restores the set |
| Sorting.Insert | lib/recent-paths.ts:18 | insertion adds exactly one element |
| Sorting.SortBy | lib/recent-paths.ts:18 | sorting is a permutation |
| Sorting.InsertSorted | lib/recent-paths.ts:18 | inserting into a sorted list keeps it sorted |
| Sorting.SortBySorted | lib/recent-paths.ts:18 | the result of sorting is sorted under a total preorder |
| Sorting.InsertTies | lib/recent-paths.ts:18 | inserting into a sorted list puts the element behind every element it ties with |
| Sorting.SortByStable | lib/recent-paths.ts:18 | the sort is stable: elements that tie come out in the order they went in |
| Sorting.SortByLength | lib/recent-paths.ts:18 | sorting keeps the length |
| Sorting.LexLeIsTotalPreorder | components/file-type-filter.tsx:28 | default string order, character by character, is a total preorder |
| Strings.Trim | lib/utils.ts:12 | the trimmed text is no longer and has no surrounding whitespace |
| Strings.TrimSlice | lib/utils.ts:12 | the trimmed text is the part between leading and trailing whitespace |
| Strings.TrimKeepsAbsent | lib/exclude-patterns.ts:42 | trimming introduces no character |
| Strings.TrimKeepsNonBlank | lib/utils.ts:13 | a line with a non-whitespace character stays non-empty when trimmed |
| Strings.LeadingSpace | lib/utils.ts:12 | counts exactly the leading whitespace |
| Strings.TrailingSpace | lib/utils.ts:12 | counts exactly the trailing whitespace |
| Strings.Lower | lib/file-types.ts:63 | lowercasing maps each character and keeps the length |
| Strings.LowerKeepsChar | lib/file-types.ts:63 | lowercasing neither adds nor removes a non-letter |
| Strings.ReplaceChar | lib/utils.ts:17 | one-character replacement changes exactly the matching characters |
| Strings.ReplaceCharRemoves | lib/utils.ts:17 | after replacing a character none is left |
| Strings.Split | lib/utils.ts:11 | splitting gives at least one piece |
| Strings.SplitPieces | lib/utils.ts:11 | no piece contains the separator |
| Strings.SplitNoSeparator | lib/utils.ts:11 | a text without the separator is one piece |
| Strings.SplitAround | lib/utils.ts:11 | splitting `a`, separator, `b` gives the pieces of `a` then those of `b` |
| Strings.JoinSplit | app/page.tsx:259-262 | joining the pieces with the separator gives the text back |
| Strings.SplitJoin | app/page.tsx:259-262 | splitting a join of separator-free pieces gives the pieces back |
| Strings.LastPiece | lib/file-types.ts:93 | the last piece is a separator-free suffix, preceded by the separator when shorter than the text |
| Strings.LastPieceIsSuffix | lib/file-types.ts:93 | the last element of the split is such a suffix |
| Strings.LastPieceAfter | lib/file-types.ts:93 | the last piece of `a`, separator, `b` is `b` when `b` has no separator |
| Strings.Segments | app/page.tsx:259 | the non-empty `/`-segments contain no `/` |
| Strings.NonEmpty | app/page.tsx:259 | `filter(Boolean)` keeps exactly the non-empty pieces, and a list without empty pieces unchanged |
| Strings.NonEmptyAppend | app/page.tsx:259 | the filter works piece by piece, so the kept pieces keep their order |
| Strings.BaseName | lib/recent-paths.ts:30 | the name is empty only for an empty path |
| Strings.BaseNameIsLastSegment | lib/recent-paths.ts:30 | the name is a suffix of the path: its last segment, or the whole path when that is empty or there is no `/` |
| Strings.Upper | hooks/use-keyboard-shortcuts.ts:15 | upper-casing maps each character and keeps the length |
| FileSystem.JoinPath | app/api/list-directory/route.ts:85 | `path.join` with an empty base is the name; otherwise base, `/`, name |
| FileSystem.ConcatAppend | electron/main.js:284-298 | appending elements in two batches gives the same text as in one |
| FileSystem.ConcatAround | electron/main.js:284-298 | each element stands whole in the concatenation, between those before and those after it |

## Left out

- Everything that is user interface only: the JSX markup, styling, animation and `cn`, the preview renderer, and the components for the file browser, workspace sidebar, filter popup and preview panel.
- The Electron window, menu, dialog and IPC bootstrapping, and `electron/preload.js`: these are process plumbing.
- Real I/O. `readdir`, `stat` and `readFile` become the `Entry`/`Listing` tree and the `Probe` function. `fetch`, `navigator.clipboard` and `router.push` of `hooks/use-file-operations.ts` are not modelled. `localStorage` becomes the `Stored` value of `RecentPaths.Store`, and `Date.now` becomes the `now` parameter.
- The `typeof window === 'undefined'` guards of `lib/recent-paths.ts`: the model is always in the browser.
- JSON. A stored list is either `Missing`, `Unparseable` or its parsed entries, so `JSON.stringify` followed by `JSON.parse` is taken to give the list back. The `get-files` body is parsed into `RequestBody`: a non-string `dirPath` is not distinguished from a string one.
- Async, timers and concurrency: the preview reload effect, the error auto-dismiss timer, the copy-success timer, and React closure and memo staleness, such as `dirPath` missing from the dependencies of `toggleSelect`.
- `console.log` and `console.error` calls.
- Floating point: `formatFileSize` and the progress-bar width.
- `localeCompare` is any total preorder on names, not the locale's collation with numeric ordering. `toLocaleDateString` and `decodeURIComponent` are function parameters.
- `path.join` is base + `/` + name. Its platform normalisation (of `..`, `.` and duplicate separators) is not modelled.
- The JavaScript regular-expression engine. Each glob dialect is a token matcher. Patterns are required to contain no regular-expression metacharacter other than `.`, `*` and `?`:
  - `ExcludePatterns.SafeGlob` for the first dialect;
  - `ElectronWalk.SafePattern`, which also excludes backslashes, for the desktop copy;
  - `IgnoreUtils.Compilable` for the second dialect.
  Any other metacharacter passes through unescaped and may change the meaning of the pattern or throw. The regex `.` refuses line terminators, and the token matcher does the same.
- `toLowerCase` and `toUpperCase` map only ASCII letters. Characters are Unicode code points, not UTF-16 code units, so `length`, `split` and the default `sort` differ from JavaScript only for characters outside the Basic Multilingual Plane.
- The mock contents table of `app/api/get-files/route.ts` is the `mock` map parameter. Keys inherited from a JavaScript object prototype (such as `constructor`) are not modelled.
- The desktop file map's tree is built on immutable values: the mutable `currentNode` walk and `children.push` are recursion over `MapNode`. `sortTreeNode` returns a sorted copy rather than sorting in place.
- The fixture tree of `hooks/use-file-operations.ts` (`loadTestData`) is not part of this model. The fixture of `app/api/list-directory/route.ts` is `ListDirectory.TestTree`.
- The keyboard listener registration is plumbing. The page registers only `onSearch`, and the model covers the dispatch decision for all four callbacks.
- `handleKeyDown` of the directory input, `handleBrowseDirectory`, `handleSelectRecentPath`, `loadDirectory` and `copyToClipboard`: they only forward to I/O and to state setters.
- FileTree.SortedNodesOrder: the name order is an abstract total preorder. The `numeric: true, sensitivity: 'base'` collation is not modelled.
- FileTypeFilter.AvailableExtensionsSpec: the sort order is code-point order, which agrees with JavaScript's default UTF-16 order only inside the Basic Multilingual Plane.
- RecentPaths.Store.Add: `JSON.stringify` throwing, and the `catch` that then keeps the old list, are not modelled.
- PageView.HandlePasteSpec: for a `file://` path, the result is stated only through the `decode` parameter that stands for `decodeURIComponent`.
