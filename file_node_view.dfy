/** One row of the tree panel (components/file-node.tsx): the icon chosen
    from the file's extension, the two-state checkbox, the search
    highlight, the expand toggle of a directory, and the children shown
    below an expanded directory. */
module FileNodeView {
  import opened Strings
  import opened FileNodes
  import opened Optional
  import Sets
  import PageView
  import Selection

  /** The icon families of `getFileIcon`. */
  datatype Icon = Code | Image | Video | Archive | Text | Folder | FolderOpen

  /** `fileName.split(".").pop()?.toLowerCase()`: the lowered text after the
      last dot, which is the whole name when it has no dot. */
  function IconKey(fileName: string): string {
    Lower(LastPiece(fileName, '.'))
  }

  /** The `switch` of `getFileIcon` on the key. */
  function IconForKey(key: string): (i: Icon)
    ensures i in {Code, Image, Video, Archive, Text}
  {
    if key in {"js", "jsx", "ts", "tsx", "py", "java", "cpp", "c", "go", "rs"} then Code
    else if key in {"png", "jpg", "jpeg", "gif", "svg", "webp"} then Image
    else if key in {"mp4", "avi", "mov", "webm"} then Video
    else if key in {"zip", "tar", "gz", "rar"} then Archive
    else Text
  }

  /** The icon of a row: a folder, open when expanded, or the file's icon. */
  function NodeIcon(node: Node, expanded: set<string>): Icon {
    if node.Dir? then (if node.path in expanded then FolderOpen else Folder)
    else IconForKey(IconKey(node.name))
  }

  /** The key is the lowered text after the last dot; a name without a dot
      is its own key, lowered. */
  lemma IconKeyIsLastPiece(fileName: string)
    ensures EndsWith(Lower(fileName), IconKey(fileName))
    ensures !HasChar(fileName, '.') ==> IconKey(fileName) == Lower(fileName)
  {
    var last := LastPiece(fileName, '.');
    var n := |fileName| - |last|;
    assert fileName == fileName[..n] + last;
    LowerAppend(fileName[..n], last);
    if !HasChar(fileName, '.') {
      SplitNoSeparator(fileName, '.');
    }
  }

  /** A file named `x.TSX` has the key `tsx`, the key of the code icon. */
  lemma UpperCaseExtensionKey()
    ensures IconKey("x.TSX") == "tsx"
  {
    assert "x.TSX" == "x" + "." + "TSX";
    LastPieceAfter("x", '.', "TSX");
    assert Lower("TSX") == "tsx";
  }

  lemma TsxIsCode()
    ensures IconForKey("tsx") == Code
  {
    assert "tsx" in {"js", "jsx", "ts", "tsx", "py", "java", "cpp", "c", "go", "rs"};
  }

  /** `toggleExpanded`: the expanded set with the row's path flipped, and
      nothing else changed. */
  function ToggleExpanded(expanded: set<string>, node: Node): (r: set<string>)
    ensures node.path in r <==> node.path !in expanded
    ensures forall p | p != node.path :: p in r <==> p in expanded
  {
    Sets.Toggled(expanded, node.path)
  }

  /** What a row shows. */
  datatype Row = Row(icon: Icon, checked: bool, highlighted: bool, showsChildren: bool)

  /** The row of `node` for the current selection, expanded directories
      and search query. */
  function RowOf(node: Node, selections: set<string>, expanded: set<string>, searchQuery: string): (r: Row)
    ensures r.checked <==> node.path in selections
    ensures r.highlighted <==> searchQuery != "" && Contains(Lower(node.name), Lower(searchQuery))
    ensures r.showsChildren <==> node.Dir? && node.path in expanded && node.children.Listed?
  {
    Row(NodeIcon(node, expanded),
        node.path in selections,
        searchQuery != "" && Contains(Lower(node.name), Lower(searchQuery)),
        node.Dir? && node.path in expanded && node.children.Listed?)
  }

  /** Under a non-empty query, every file or unlisted directory that the
      page's filter keeps is highlighted; a file under no type filter that
      no pattern excludes is kept exactly when it is highlighted. */
  lemma KeptLeafIsHighlighted(node: Node, query: string, fileTypeFilter: set<string>, patterns: seq<string>,
                              selections: set<string>, expanded: set<string>)
    requires PageView.SafePatterns(patterns)
    requires query != "" && !(node.Dir? && node.children.Listed?)
    ensures PageView.Kept(node, query, fileTypeFilter, patterns) ==>
      RowOf(node, selections, expanded, query).highlighted
    ensures node.File? && |fileTypeFilter| == 0 && !PageView.Excluded(node.path, patterns) ==>
      (PageView.Kept(node, query, fileTypeFilter, patterns) <==> RowOf(node, selections, expanded, query).highlighted)
  {
    PageView.FilterOneSpec(node, query, fileTypeFilter, patterns);
  }

  /** Clicking the checkbox of a row of the tree flips what the row shows
      as checked. */
  lemma ToggledRowFlips(tree: TreeData, dirPath: string, prev: set<string>, node: Node,
                        expanded: set<string>, query: string)
    requires node in Flatten(tree.children)
    ensures RowOf(node, Selection.Toggled(Some(tree), dirPath, prev, node.path), expanded, query).checked
      <==> !RowOf(node, prev, expanded, query).checked
  {
    PathsSpec(Flatten(tree.children));
    Selection.ToggleFlips(tree, dirPath, prev, node.path);
  }

  /** The nodes the panel shows, in order: each node, then, below an
      expanded directory with a children list, the nodes shown for its
      children. */
  function Visible(ns: seq<Node>, expanded: set<string>): seq<Node>
    decreases ns, 1
  {
    if ns == [] then [] else VisibleOne(ns[0], expanded) + Visible(ns[1..], expanded)
  }

  function VisibleOne(n: Node, expanded: set<string>): (r: seq<Node>)
    ensures |r| >= 1 && r[0] == n
    decreases n, 0
  {
    match n
    case Dir(_, path, Listed(ch)) => [n] + (if path in expanded then Visible(ch, expanded) else [])
    case _ => [n]
  }

  /** The directories of a forest, at any depth, have their paths in the set. */
  predicate AllExpanded(ns: seq<Node>, expanded: set<string>) {
    forall k | 0 <= k < |Flatten(ns)| :: Flatten(ns)[k].Dir? ==> Flatten(ns)[k].path in expanded
  }

  /** With every directory expanded, the panel shows the whole pre-order
      listing of the tree. */
  lemma {:induction false} AllExpandedShowsAll(ns: seq<Node>, expanded: set<string>)
    requires AllExpanded(ns, expanded)
    ensures Visible(ns, expanded) == Flatten(ns)
    decreases ns, 1
  {
    if ns != [] {
      FlattenAppend([ns[0]], ns[1..]);
      assert [ns[0]] + ns[1..] == ns;
      assert Flatten([ns[0]]) == FlattenOne(ns[0]);
      AllExpandedPart(ns, [ns[0]], ns[1..], expanded);
      AllExpandedShowsAll(ns[1..], expanded);
      AllExpandedShowsAllOne(ns[0], expanded);
    }
  }

  lemma {:induction false} AllExpandedShowsAllOne(n: Node, expanded: set<string>)
    requires AllExpanded([n], expanded)
    ensures VisibleOne(n, expanded) == FlattenOne(n)
    decreases n, 0
  {
    assert Flatten([n]) == FlattenOne(n) + Flatten([]);
    if n.Dir? && n.children.Listed? {
      var ch := n.children.nodes;
      assert Flatten([n]) == [n] + Flatten(ch);
      forall k | 0 <= k < |Flatten(ch)| ensures Flatten(ch)[k].Dir? ==> Flatten(ch)[k].path in expanded {
        assert Flatten(ch)[k] == Flatten([n])[k + 1];
      }
      AllExpandedShowsAll(ch, expanded);
    }
  }

  /** Both parts of a forest whose listing is the two parts' listings keep
      the property. */
  lemma AllExpandedPart(ns: seq<Node>, a: seq<Node>, b: seq<Node>, expanded: set<string>)
    requires Flatten(ns) == Flatten(a) + Flatten(b)
    requires AllExpanded(ns, expanded)
    ensures AllExpanded(a, expanded) && AllExpanded(b, expanded)
  {
    forall k | 0 <= k < |Flatten(b)| ensures Flatten(b)[k].Dir? ==> Flatten(b)[k].path in expanded {
      assert Flatten(b)[k] == Flatten(ns)[|Flatten(a)| + k];
    }
    forall k | 0 <= k < |Flatten(a)| ensures Flatten(a)[k].Dir? ==> Flatten(a)[k].path in expanded {
      assert Flatten(a)[k] == Flatten(ns)[k];
    }
  }

  /** With nothing expanded, only the top-level nodes are shown. */
  lemma {:induction false} NothingExpandedShowsTop(ns: seq<Node>)
    ensures Visible(ns, {}) == ns
  {
    if ns != [] {
      NothingExpandedShowsTop(ns[1..]);
      assert VisibleOne(ns[0], {}) == [ns[0]];
      assert [ns[0]] + ns[1..] == ns;
    }
  }
}
