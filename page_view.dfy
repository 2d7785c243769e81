/** The tree view state of the page (app/page.tsx) around the selection:
    the gitignore and search filter with its list of directories to expand,
    the list of files offered to the extension filter, "select all",
    expand/collapse all, the selected-file count, the cleanup of a pasted
    path, and the line and token figures shown for the preview. */
module PageView {
  import opened Strings
  import opened Optional
  import opened FileNodes
  import ExcludePatterns
  import FileTypes

  /** Every pattern can be compiled by the first gitignore dialect. */
  predicate SafePatterns(patterns: seq<string>) {
    forall k | 0 <= k < |patterns| :: ExcludePatterns.SafeGlob(patterns[k])
  }

  /** The patterns the page installs once a tree is loaded. */
  const DefaultGitignorePatterns: seq<string> :=
    ["node_modules/**", "dist/**", "build/**", ".next/**", "coverage/**", ".git/**"]

  /** The default patterns compile in the first dialect. */
  lemma DefaultGitignorePatternsAreSafe()
    ensures SafePatterns(DefaultGitignorePatterns)
  {
    WordIsSafe("node_modules/**");
    WordIsSafe("dist/**");
    WordIsSafe("build/**");
    WordIsSafe(".next/**");
    WordIsSafe("coverage/**");
    WordIsSafe(".git/**");
  }

  lemma WordIsSafe(p: string)
    requires forall i | 0 <= i < |p| :: 'a' <= p[i] <= 'z' || p[i] in "_./*"
    ensures ExcludePatterns.SafeGlob(p)
  {
  }

  predicate Excluded(path: string, patterns: seq<string>)
    requires SafePatterns(patterns)
  {
    ExcludePatterns.ShouldExcludeFileByGitignore(path, patterns)
  }

  // ----- expand all / collapse all -----

  /** `getAllDirPaths(nodes)`: every directory, before the directories below
      it. */
  function DirPaths(nodes: seq<Node>): seq<string> {
    if nodes == [] then [] else DirPathsOne(nodes[0]) + DirPaths(nodes[1..])
  }

  function DirPathsOne(node: Node): seq<string> {
    match node
    case File(_, _) => []
    case Dir(_, path, Unlisted) => [path]
    case Dir(_, path, Listed(children)) => [path] + DirPaths(children)
  }

  /** The directory paths are exactly the paths of the directories of the
      pre-order listing. */
  lemma {:induction false} DirPathsAreDirectories(nodes: seq<Node>, x: string)
    ensures x in DirPaths(nodes) <==> exists n | n in Flatten(nodes) :: n.Dir? && n.path == x
  {
    if nodes != [] {
      var n := nodes[0];
      DirPathsAreDirectories(nodes[1..], x);
      assert forall m | m in Flatten(nodes) :: m in FlattenOne(n) || m in Flatten(nodes[1..]);
      assert forall m | m in Flatten(nodes[1..]) :: m in Flatten(nodes);
      assert forall m | m in FlattenOne(n) :: m in Flatten(nodes);
      if n.Dir? && n.children.Listed? {
        DirPathsAreDirectories(n.children.nodes, x);
        assert forall m | m in FlattenOne(n) :: m == n || m in Flatten(n.children.nodes);
      }
    }
  }

  /** `expandAll()`: the root and every directory of the unfiltered tree;
      nothing happens without a tree. */
  function ExpandAll(tree: Option<TreeData>, dirPath: string, expanded: set<string>): set<string> {
    if tree.None? then expanded
    else Elems([dirPath] + DirPaths(tree.value.children))
  }

  lemma ExpandAllSpec(tree: Option<TreeData>, dirPath: string, expanded: set<string>, x: string)
    ensures tree.None? ==> ExpandAll(tree, dirPath, expanded) == expanded
    ensures tree.Some? ==>
      (x in ExpandAll(tree, dirPath, expanded) <==>
       x == dirPath || exists n | n in Flatten(tree.value.children) :: n.Dir? && n.path == x)
  {
    if tree.Some? {
      DirPathsAreDirectories(tree.value.children, x);
    }
  }

  /** `collapseAll()` */
  function CollapseAll(): (r: set<string>)
    ensures forall x :: x !in r
  {
    {}
  }

  // ----- selected file count -----

  /** The selected path names a file: the pre-order search of the tree finds
      a file node with that path. */
  predicate IsFileIn(nodes: seq<Node>, path: string) {
    var node := FindNode(nodes, path);
    node.Some? && node.value.File?
  }

  /** `selectedFileCount`: the selected paths that the tree resolves to
      files; 0 without a tree. */
  function SelectedFileCount(tree: Option<TreeData>, selections: set<string>): (r: nat)
    ensures r <= |selections|
    ensures tree.None? ==> r == 0
  {
    if tree.None? then 0
    else
      var files := set p | p in selections && IsFileIn(tree.value.children, p);
      assert files <= selections;
      SubsetSize(files, selections);
      |files|
  }

  lemma SubsetSize(a: set<string>, b: set<string>)
    requires a <= b
    ensures |a| <= |b| && (|a| == |b| ==> a == b)
  {
    assert b == a + (b - a);
    assert |b| == |a| + |b - a|;
    if |a| == |b| {
      assert |b - a| == 0;
      assert b - a == {};
    }
  }

  /** Every selection counts as a file exactly when the tree resolves each
      selected path to a file. */
  lemma AllSelectedAreFiles(tree: TreeData, selections: set<string>)
    ensures SelectedFileCount(Some(tree), selections) == |selections| <==>
      forall p | p in selections :: IsFileIn(tree.children, p)
  {
    var files := set p | p in selections && IsFileIn(tree.children, p);
    SubsetSize(files, selections);
  }

  /** The number of selected folders shown next to the file count: the
      selections that the tree does not resolve to a file. */
  function FolderCount(tree: Option<TreeData>, selections: set<string>): (r: nat)
    ensures r == |set p | p in selections && !(tree.Some? && IsFileIn(tree.value.children, p))|
  {
    var others := set p | p in selections && !(tree.Some? && IsFileIn(tree.value.children, p));
    if tree.Some? then
      var files := set p | p in selections && IsFileIn(tree.value.children, p);
      assert selections == files + others && files * others == {};
      |selections| - SelectedFileCount(tree, selections)
    else
      assert others == selections;
      |selections| - SelectedFileCount(tree, selections)
  }

  /** The selected path names a directory of the tree. */
  predicate IsDirIn(nodes: seq<Node>, path: string) {
    var node := FindNode(nodes, path);
    node.Some? && node.value.Dir?
  }

  /** When every selection is the root or a path of the tree, as selecting
      and "select all" keep it, the folder figure counts the selected
      directories of the tree, plus one for a selected root. */
  lemma FolderCountIsDirectories(tree: TreeData, dirPath: string, selections: set<string>)
    requires forall p | p in selections :: p == dirPath || FindNode(tree.children, p).Some?
    requires FindNode(tree.children, dirPath).None?
    ensures FolderCount(Some(tree), selections) ==
      |set p | p in selections && IsDirIn(tree.children, p)| + (if dirPath in selections then 1 else 0)
  {
    var t := Some(tree);
    var others := set p | p in selections && !(t.Some? && IsFileIn(t.value.children, p));
    assert FolderCount(t, selections) == |others|;
    var dirs := set p | p in selections && IsDirIn(tree.children, p);
    var root := if dirPath in selections then {dirPath} else {};
    forall p | p in others ensures p in dirs + root {
      if p != dirPath {
        assert FindNode(tree.children, p).Some?;
      }
    }
    assert others == dirs + root;
    assert dirs * root == {};
    assert |dirs + root| == |dirs| + |root|;
  }

  // ----- the filter -----

  datatype FilterResult = FilterResult(filtered: seq<Node>, pathsToExpand: seq<string>)

  function Concat(a: FilterResult, b: FilterResult): FilterResult {
    FilterResult(a.filtered + b.filtered, a.pathsToExpand + b.pathsToExpand)
  }

  /** The name contains the query, ignoring case, or the query is empty. */
  predicate NameMatches(name: string, query: string) {
    query == "" || Contains(Lower(name), Lower(query))
  }

  predicate TypeMatches(node: Node, fileTypeFilter: set<string>) {
    node.Dir? || |fileTypeFilter| == 0 || FileTypes.ShouldIncludeFile(node.name, fileTypeFilter)
  }

  /** `children.filter(child => !shouldExcludeFileByGitignore(child.path, …))` */
  function NotExcluded(children: seq<Node>, patterns: seq<string>): (r: seq<Node>)
    requires SafePatterns(patterns)
    ensures forall k | 0 <= k < |r| :: r[k] in children && !Excluded(r[k].path, patterns)
  {
    if children == [] then []
    else if Excluded(children[0].path, patterns) then NotExcluded(children[1..], patterns)
    else [children[0]] + NotExcluded(children[1..], patterns)
  }

  /** What one round of the loop of `filterNodes` contributes for `node`. */
  function FilterOne(node: Node, query: string, fileTypeFilter: set<string>, patterns: seq<string>): FilterResult
    requires SafePatterns(patterns)
  {
    if Excluded(node.path, patterns) then FilterResult([], [])
    else
      var nameMatches := NameMatches(node.name, query);
      var typeMatches := TypeMatches(node, fileTypeFilter);
      if node.Dir? && node.children.Listed? then
        var result := FilterSpec(node.children.nodes, query, fileTypeFilter, patterns);
        var hasMatchingChildren := |result.filtered| > 0;
        if (nameMatches && hasMatchingChildren) || hasMatchingChildren then
          var childrenToShow :=
            if nameMatches && query == "" && |fileTypeFilter| == 0
            then NotExcluded(node.children.nodes, patterns)
            else result.filtered;
          FilterResult(
            [Dir(node.name, node.path, Listed(childrenToShow))],
            result.pathsToExpand + (if nameMatches || hasMatchingChildren then [node.path] else []))
        else FilterResult([], [])
      else if nameMatches && typeMatches then FilterResult([node], [])
      else FilterResult([], [])
  }

  /** What `filterNodes(nodes, query, fileTypeFilter)` returns. */
  function FilterSpec(nodes: seq<Node>, query: string, fileTypeFilter: set<string>, patterns: seq<string>): FilterResult
    requires SafePatterns(patterns)
  {
    if nodes == [] then FilterResult([], [])
    else Concat(FilterOne(nodes[0], query, fileTypeFilter, patterns),
                FilterSpec(nodes[1..], query, fileTypeFilter, patterns))
  }

  lemma {:induction false} FilterSpecAppend(a: seq<Node>, b: seq<Node>, query: string, fileTypeFilter: set<string>, patterns: seq<string>)
    requires SafePatterns(patterns)
    ensures FilterSpec(a + b, query, fileTypeFilter, patterns) ==
      Concat(FilterSpec(a, query, fileTypeFilter, patterns), FilterSpec(b, query, fileTypeFilter, patterns))
  {
    if a == [] {
      assert a + b == b;
    } else {
      var ab := a + b;
      assert ab[0] == a[0] && ab[1..] == a[1..] + b;
      FilterSpecAppend(a[1..], b, query, fileTypeFilter, patterns);
      var one := FilterOne(a[0], query, fileTypeFilter, patterns);
      assert FilterSpec(ab, query, fileTypeFilter, patterns) ==
        Concat(one, FilterSpec(ab[1..], query, fileTypeFilter, patterns));
      assert FilterSpec(a, query, fileTypeFilter, patterns) ==
        Concat(one, FilterSpec(a[1..], query, fileTypeFilter, patterns));
      ConcatAssociative(one, FilterSpec(a[1..], query, fileTypeFilter, patterns),
        FilterSpec(b, query, fileTypeFilter, patterns));
    }
  }

  lemma ConcatAssociative(x: FilterResult, y: FilterResult, z: FilterResult)
    ensures Concat(Concat(x, y), z) == Concat(x, Concat(y, z))
  {
    assert (x.filtered + y.filtered) + z.filtered == x.filtered + (y.filtered + z.filtered);
    assert (x.pathsToExpand + y.pathsToExpand) + z.pathsToExpand ==
      x.pathsToExpand + (y.pathsToExpand + z.pathsToExpand);
  }

  /** `filterNodes(nodes, query, fileTypeFilter)`: the loop pushes the kept
      nodes into `filtered` and the directories to open into
      `pathsToExpand`. */
  method FilterNodes(nodes: seq<Node>, query: string, fileTypeFilter: set<string>, patterns: seq<string>)
    returns (filtered: seq<Node>, pathsToExpand: seq<string>)
    requires SafePatterns(patterns)
    ensures FilterResult(filtered, pathsToExpand) == FilterSpec(nodes, query, fileTypeFilter, patterns)
    decreases nodes, 1
  {
    filtered := [];
    pathsToExpand := [];
    var i := 0;
    while i < |nodes|
      invariant 0 <= i <= |nodes|
      invariant FilterResult(filtered, pathsToExpand) == FilterSpec(nodes[..i], query, fileTypeFilter, patterns)
    {
      var node := nodes[i];
      assert nodes[..i + 1] == nodes[..i] + [node];
      FilterSpecAppend(nodes[..i], [node], query, fileTypeFilter, patterns);
      assert FilterSpec([node], query, fileTypeFilter, patterns) == FilterOne(node, query, fileTypeFilter, patterns);
      var kept, expand := FilterNode(node, query, fileTypeFilter, patterns);
      filtered := filtered + kept;
      pathsToExpand := pathsToExpand + expand;
      i := i + 1;
    }
    assert nodes[..i] == nodes;
  }

  /** The body of the loop of `filterNodes` for one node: what it pushes. */
  method FilterNode(node: Node, query: string, fileTypeFilter: set<string>, patterns: seq<string>)
    returns (kept: seq<Node>, expand: seq<string>)
    requires SafePatterns(patterns)
    ensures FilterResult(kept, expand) == FilterOne(node, query, fileTypeFilter, patterns)
    decreases node, 0
  {
    kept, expand := [], [];
    if Excluded(node.path, patterns) {
      return;
    }
    var nameMatches := NameMatches(node.name, query);
    var typeMatches := TypeMatches(node, fileTypeFilter);
    if node.Dir? && node.children.Listed? {
      var childFiltered, childPaths := FilterNodes(node.children.nodes, query, fileTypeFilter, patterns);
      var hasMatchingChildren := |childFiltered| > 0;
      if (nameMatches && hasMatchingChildren) || hasMatchingChildren {
        var childrenToShow :=
          if nameMatches && query == "" && |fileTypeFilter| == 0
          then NotExcluded(node.children.nodes, patterns)
          else childFiltered;
        kept := [Dir(node.name, node.path, Listed(childrenToShow))];
        expand := childPaths;
        if nameMatches || hasMatchingChildren {
          expand := expand + [node.path];
        }
      }
    } else if nameMatches && typeMatches {
      kept := [node];
    }
  }

  /** One input node: an excluded node is dropped with its subtree; a file,
      or a directory without a children list, is kept as it is iff its name
      and type match; a directory with a children list is kept iff some
      child survives the filter, whatever its own name, and its path then
      follows its descendants' paths in `pathsToExpand`. With no query and
      no type filter, such a directory shows its direct children filtered
      only by the patterns. */
  lemma FilterOneSpec(node: Node, query: string, fileTypeFilter: set<string>, patterns: seq<string>)
    requires SafePatterns(patterns)
    ensures var r := FilterOne(node, query, fileTypeFilter, patterns);
      && (Excluded(node.path, patterns) ==> r == FilterResult([], []))
      && (!Excluded(node.path, patterns) && !(node.Dir? && node.children.Listed?) ==>
            r == (if NameMatches(node.name, query) && TypeMatches(node, fileTypeFilter)
                  then FilterResult([node], []) else FilterResult([], [])))
      && (!Excluded(node.path, patterns) && node.Dir? && node.children.Listed? ==>
            var sub := FilterSpec(node.children.nodes, query, fileTypeFilter, patterns);
            && (|r.filtered| == 1 <==> |sub.filtered| > 0)
            && (|r.filtered| == 0 ==> r.pathsToExpand == [])
            && (|r.filtered| == 1 ==>
                  && r.filtered[0].name == node.name && r.filtered[0].path == node.path
                  && r.pathsToExpand == sub.pathsToExpand + [node.path]
                  && r.filtered[0].children == Listed(
                       if query == "" && |fileTypeFilter| == 0
                       then NotExcluded(node.children.nodes, patterns)
                       else sub.filtered)))
  {
  }

  /** `Kept` lists the input nodes the filter keeps. */
  predicate Kept(node: Node, query: string, fileTypeFilter: set<string>, patterns: seq<string>)
    requires SafePatterns(patterns)
  {
    |FilterOne(node, query, fileTypeFilter, patterns).filtered| > 0
  }

  function KeptNodes(nodes: seq<Node>, query: string, fileTypeFilter: set<string>, patterns: seq<string>): seq<Node>
    requires SafePatterns(patterns)
  {
    if nodes == [] then []
    else
      var head := if Kept(nodes[0], query, fileTypeFilter, patterns) then [nodes[0]] else [];
      head + KeptNodes(nodes[1..], query, fileTypeFilter, patterns)
  }

  /** The kept nodes keep their input order and their paths, and none of
      them is excluded by the patterns. */
  lemma {:induction false} FilterKeepsOrder(nodes: seq<Node>, query: string, fileTypeFilter: set<string>, patterns: seq<string>)
    requires SafePatterns(patterns)
    ensures Paths(FilterSpec(nodes, query, fileTypeFilter, patterns).filtered) ==
      Paths(KeptNodes(nodes, query, fileTypeFilter, patterns))
    ensures forall k | 0 <= k < |KeptNodes(nodes, query, fileTypeFilter, patterns)| ::
      var n := KeptNodes(nodes, query, fileTypeFilter, patterns)[k];
      n in nodes && !Excluded(n.path, patterns)
  {
    if nodes != [] {
      var n := nodes[0];
      FilterKeepsOrder(nodes[1..], query, fileTypeFilter, patterns);
      var one := FilterOne(n, query, fileTypeFilter, patterns);
      var rest := FilterSpec(nodes[1..], query, fileTypeFilter, patterns);
      FilterOneSpec(n, query, fileTypeFilter, patterns);
      PathsAppend(one.filtered, rest.filtered);
      var head := if Kept(n, query, fileTypeFilter, patterns) then [n] else [];
      PathsAppend(head, KeptNodes(nodes[1..], query, fileTypeFilter, patterns));
      assert Paths(one.filtered) == Paths(head);
    }
  }

  /** With no query, no type filter and no patterns, a directory whose list
      of children is empty disappears from the view. */
  lemma EmptyDirectoryIsHidden(name: string, path: string)
    ensures FilterSpec([Dir(name, path, Listed([]))], "", {}, []).filtered == []
  {
    assert FilterSpec([], "", {}, []).filtered == [];
  }

  // ----- files offered to the type filter -----

  /** What `collectFiles(nodes)` returns: the paths of the files of the
      tree, skipping excluded nodes and everything below them. */
  function AvailableFiles(nodes: seq<Node>, patterns: seq<string>): seq<string>
    requires SafePatterns(patterns)
  {
    if nodes == [] then [] else AvailableOne(nodes[0], patterns) + AvailableFiles(nodes[1..], patterns)
  }

  function AvailableOne(node: Node, patterns: seq<string>): seq<string>
    requires SafePatterns(patterns)
  {
    if Excluded(node.path, patterns) then []
    else match node
      case File(_, path) => [path]
      case Dir(_, _, Listed(children)) => AvailableFiles(children, patterns)
      case Dir(_, _, Unlisted) => []
  }

  lemma {:induction false} AvailableFilesAppend(a: seq<Node>, b: seq<Node>, patterns: seq<string>)
    requires SafePatterns(patterns)
    ensures AvailableFiles(a + b, patterns) == AvailableFiles(a, patterns) + AvailableFiles(b, patterns)
  {
    if a == [] {
      assert a + b == b;
    } else {
      assert (a + b)[1..] == a[1..] + b;
      AvailableFilesAppend(a[1..], b, patterns);
    }
  }

  /** `collectFiles(nodes)` */
  method CollectFiles(nodes: seq<Node>, patterns: seq<string>) returns (files: seq<string>)
    requires SafePatterns(patterns)
    ensures files == AvailableFiles(nodes, patterns)
    decreases nodes
  {
    files := [];
    var i := 0;
    while i < |nodes|
      invariant 0 <= i <= |nodes|
      invariant files == AvailableFiles(nodes[..i], patterns)
    {
      var node := nodes[i];
      assert nodes[..i + 1] == nodes[..i] + [node];
      AvailableFilesAppend(nodes[..i], [node], patterns);
      assert AvailableFiles([node], patterns) == AvailableOne(node, patterns);
      if Excluded(node.path, patterns) {
        i := i + 1;
        continue;
      }
      if node.File? {
        files := files + [node.path];
      } else if node.children.Listed? {
        var more := CollectFiles(node.children.nodes, patterns);
        files := files + more;
      }
      i := i + 1;
    }
    assert nodes[..i] == nodes;
  }

  /** `allAvailableFiles`: nothing without a tree. */
  method AllAvailableFiles(tree: Option<TreeData>, patterns: seq<string>) returns (files: seq<string>)
    requires SafePatterns(patterns)
    ensures files == if tree.None? then [] else AvailableFiles(tree.value.children, patterns)
  {
    if tree.None? {
      return [];
    }
    files := CollectFiles(tree.value.children, patterns);
  }

  /** The files of the pre-order listing. */
  function FilesOf(ns: seq<Node>): seq<Node> {
    if ns == [] then []
    else (if ns[0].File? then [ns[0]] else []) + FilesOf(ns[1..])
  }

  lemma {:induction false} FilesOfAppend(a: seq<Node>, b: seq<Node>)
    ensures FilesOf(a + b) == FilesOf(a) + FilesOf(b)
  {
    if a == [] {
      assert a + b == b;
    } else {
      var head := if a[0].File? then [a[0]] else [];
      calc {
        FilesOf(a + b);
      == { assert (a + b)[0] == a[0] && (a + b)[1..] == a[1..] + b; }
        head + FilesOf(a[1..] + b);
      == { FilesOfAppend(a[1..], b); }
        head + (FilesOf(a[1..]) + FilesOf(b));
      ==
        (head + FilesOf(a[1..])) + FilesOf(b);
      }
    }
  }

  /** Every offered path is the path of a file of the tree that the patterns
      do not exclude. */
  lemma {:induction false} AvailableFilesAreFiles(nodes: seq<Node>, patterns: seq<string>, x: string)
    requires SafePatterns(patterns)
    requires x in AvailableFiles(nodes, patterns)
    ensures exists n | n in Flatten(nodes) :: n.File? && n.path == x && !Excluded(x, patterns)
  {
    var n := nodes[0];
    if x in AvailableOne(n, patterns) {
      assert forall m | m in FlattenOne(n) :: m in Flatten(nodes);
      if n.File? {
        assert n in Flatten(nodes);
      } else {
        AvailableFilesAreFiles(n.children.nodes, patterns, x);
        assert forall m | m in Flatten(n.children.nodes) :: m in FlattenOne(n);
      }
    } else {
      AvailableFilesAreFiles(nodes[1..], patterns, x);
      assert forall m | m in Flatten(nodes[1..]) :: m in Flatten(nodes);
    }
  }

  /** Without patterns, the offered files are all files of the tree, in
      pre-order. */
  lemma {:induction false} AvailableFilesWithoutPatterns(nodes: seq<Node>)
    ensures AvailableFiles(nodes, []) == Paths(FilesOf(Flatten(nodes)))
  {
    if nodes != [] {
      var n := nodes[0];
      AvailableFilesWithoutPatterns(nodes[1..]);
      FilesOfAppend(FlattenOne(n), Flatten(nodes[1..]));
      PathsAppend(FilesOf(FlattenOne(n)), FilesOf(Flatten(nodes[1..])));
      assert FilesOf([n]) == (if n.File? then [n] else []) by {
        assert [n][1..] == [];
      }
      assert !Excluded(n.path, []);
      if n.Dir? && n.children.Listed? {
        var ch := n.children.nodes;
        AvailableFilesWithoutPatterns(ch);
        FilesOfAppend([n], Flatten(ch));
        assert FilesOf(FlattenOne(n)) == FilesOf(Flatten(ch));
        assert AvailableOne(n, []) == AvailableFiles(ch, []);
      } else {
        assert FlattenOne(n) == [n];
        assert AvailableOne(n, []) == Paths(FilesOf([n]));
      }
    }
  }

  // ----- select all -----

  /** `gather(nodes)`: each node's path, then the paths below it. */
  function Gather(nodes: seq<Node>): seq<string> {
    if nodes == [] then []
    else
      var n := nodes[0];
      [n.path] + (if n.Dir? && n.children.Listed? then Gather(n.children.nodes) else [])
        + Gather(nodes[1..])
  }

  /** `gather` lists the pre-order listing's paths. */
  lemma {:induction false} GatherIsPreorder(nodes: seq<Node>)
    ensures Gather(nodes) == Paths(Flatten(nodes))
  {
    if nodes != [] {
      var n := nodes[0];
      GatherIsPreorder(nodes[1..]);
      PathsAppend(FlattenOne(n), Flatten(nodes[1..]));
      if n.Dir? && n.children.Listed? {
        GatherIsPreorder(n.children.nodes);
        PathsAppend([n], Flatten(n.children.nodes));
      }
    }
  }

  /** `toggleAll()`: with a filtered tree, a non-empty selection is cleared
      and an empty one becomes the root plus every visible node. */
  function ToggleAll(filteredTree: Option<TreeData>, selections: set<string>, dirPath: string): set<string> {
    if filteredTree.None? then selections
    else if |selections| > 0 then {}
    else Elems([dirPath] + Gather(filteredTree.value.children))
  }

  lemma ToggleAllSpec(filteredTree: TreeData, selections: set<string>, dirPath: string, x: string)
    ensures |selections| > 0 ==> ToggleAll(Some(filteredTree), selections, dirPath) == {}
    ensures |selections| == 0 ==>
      (x in ToggleAll(Some(filteredTree), selections, dirPath) <==>
       x == dirPath || x in Paths(Flatten(filteredTree.children)))
  {
    GatherIsPreorder(filteredTree.children);
  }

  /** Two consecutive "select all" from nothing come back to nothing. */
  lemma ToggleAllTwice(filteredTree: TreeData, dirPath: string)
    ensures var once := ToggleAll(Some(filteredTree), {}, dirPath);
      ToggleAll(Some(filteredTree), once, dirPath) == {}
  {
    var once := ToggleAll(Some(filteredTree), {}, dirPath);
    assert dirPath in once;
  }

  // ----- auto-expand -----

  /** The effect that opens the directories holding search matches. */
  function AutoExpand(searchQuery: string, pathsToExpand: seq<string>, prev: set<string>): set<string> {
    if searchQuery != "" && |pathsToExpand| > 0 then
      var newPaths := NotIn(pathsToExpand, prev);
      if |newPaths| > 0 then prev + Elems(newPaths) else prev
    else prev
  }

  /** `paths.filter(path => !prev.has(path))` */
  function NotIn(paths: seq<string>, prev: set<string>): (r: seq<string>)
    ensures forall x :: x in r <==> x in paths && x !in prev
  {
    if paths == [] then []
    else (if paths[0] in prev then [] else [paths[0]]) + NotIn(paths[1..], prev)
  }

  /** With a search query the expanded set grows by the paths to expand;
      without one it stays. */
  lemma AutoExpandIsUnion(searchQuery: string, pathsToExpand: seq<string>, prev: set<string>)
    ensures AutoExpand(searchQuery, pathsToExpand, prev) ==
      if searchQuery != "" then prev + Elems(pathsToExpand) else prev
  {
    var newPaths := NotIn(pathsToExpand, prev);
    if searchQuery != "" && |newPaths| == 0 {
      forall x | x in pathsToExpand ensures x in prev {
        assert x !in newPaths;
      }
    }
  }

  // ----- pasted paths -----

  predicate IsQuote(c: char) {
    c == '"' || c == '\''
  }

  /** `.replace(/^["']|["']$/g, "")`: one quote at the start and one at the
      end are removed. */
  function StripQuotes(s: string): (r: string)
    ensures |r| <= |s|
  {
    var a := if s != [] && IsQuote(s[0]) then s[1..] else s;
    if a != [] && IsQuote(a[|a| - 1]) then a[..|a| - 1] else a
  }

  /** The text before the `file://` test. */
  function CleanPasted(pastedText: string): string {
    Trim(ReplaceChar(StripQuotes(pastedText), '\\', '/'))
  }

  datatype PasteOutcome =
    | KeepPaste            // the default paste goes ahead
    | SetPath(path: string) // the default is prevented and the path replaced
    | DecodeFailed          // `decodeURIComponent` threw

  /** `handlePaste`; `decode` stands for `decodeURIComponent`, `None` for a
      malformed escape. */
  function HandlePaste(pastedText: string, decode: string -> Option<string>): PasteOutcome {
    var cleanPath := CleanPasted(pastedText);
    var decoded :=
      if StartsWith(cleanPath, "file://") then decode(cleanPath[7..]) else Some(cleanPath);
    if decoded.None? then DecodeFailed
    else if decoded.value != pastedText then SetPath(decoded.value)
    else KeepPaste
  }

  /** The path is replaced exactly when cleaning changed it; a cleaned
      path that is not a `file://` URL has no backslash and no surrounding
      whitespace. */
  lemma HandlePasteSpec(pastedText: string, decode: string -> Option<string>)
    ensures var c := CleanPasted(pastedText);
      && !HasChar(c, '\\')
      && (c == [] || (!IsJsWhitespace(c[0]) && !IsJsWhitespace(c[|c| - 1])))
      && (!StartsWith(c, "file://") ==>
            HandlePaste(pastedText, decode) == (if c != pastedText then SetPath(c) else KeepPaste))
  {
    CleanPastedHasNoBackslash(pastedText);
  }

  lemma CleanPastedHasNoBackslash(pastedText: string)
    ensures !HasChar(CleanPasted(pastedText), '\\')
  {
    var t := ReplaceChar(StripQuotes(pastedText), '\\', '/');
    ReplaceCharRemoves(StripQuotes(pastedText), '\\', '/');
    TrimKeepsAbsent(t, '\\');
  }

  /** A path with no quotes at its ends, no backslash, no surrounding
      whitespace and no `file://` prefix is pasted as it is. */
  lemma CleanPathIsKept(pastedText: string, decode: string -> Option<string>)
    requires pastedText == [] || (!IsQuote(pastedText[0]) && !IsQuote(pastedText[|pastedText| - 1]))
    requires pastedText == [] || (!IsJsWhitespace(pastedText[0]) && !IsJsWhitespace(pastedText[|pastedText| - 1]))
    requires !HasChar(pastedText, '\\') && !StartsWith(pastedText, "file://")
    ensures HandlePaste(pastedText, decode) == KeepPaste
  {
    assert StripQuotes(pastedText) == pastedText;
    assert ReplaceChar(pastedText, '\\', '/') == pastedText;
    TrimClean(pastedText);
  }

  lemma TrimClean(s: string)
    requires s == [] || (!IsJsWhitespace(s[0]) && !IsJsWhitespace(s[|s| - 1]))
    ensures Trim(s) == s
  {
    if s != [] {
      assert LeadingSpace(s) == 0 && TrailingSpace(s) == 0;
      assert s[0..|s|] == s;
    }
  }

  // ----- preview figures -----

  /** `previewContent.split("\n").length` */
  function LineCount(content: string): nat {
    |Split(content, '\n')|
  }

  /** The number of newline characters in a text. */
  function Newlines(s: string): nat {
    if s == [] then 0 else (if s[0] == '\n' then 1 else 0) + Newlines(s[1..])
  }

  /** The line figure is one more than the number of newlines. */
  lemma {:induction false} LineCountCountsNewlines(content: string)
    ensures LineCount(content) == Newlines(content) + 1
  {
    if content != [] {
      LineCountCountsNewlines(content[1..]);
    }
  }

  /** `Math.ceil(previewContent.length / 4)` */
  function TokenEstimate(content: string): (r: nat)
    ensures 4 * r >= |content| && 4 * r < |content| + 4
  {
    (|content| + 3) / 4
  }
}
