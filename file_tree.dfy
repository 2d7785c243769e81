/** The tree panel (components/file-tree.tsx): the nodes sorted with
    directories first and by name within each kind, shown under one
    synthetic root directory when a root path is known, and an empty state
    when there is nothing to show. */
module FileTree {
  import opened Strings
  import opened Sorting
  import opened FileNodes
  import opened Optional

  /** The comparator of `sortedNodes`: a directory before a file, and by
      `le` (`localeCompare` on names) within one kind. */
  function DirsFirst(le: (string, string) -> bool): (Node, Node) -> bool {
    (a: Node, b: Node) => (a.Dir? && b.File?) || (a.Dir? == b.Dir? && le(a.name, b.name))
  }

  /** `[...nodes].sort(…)`: a sorted copy, the input is left as it is. */
  function SortedNodes(nodes: seq<Node>, le: (string, string) -> bool): (r: seq<Node>)
    ensures multiset(r) == multiset(nodes)
  {
    SortBy(nodes, DirsFirst(le))
  }

  lemma DirsFirstIsTotalPreorder(le: (string, string) -> bool)
    requires TotalPreorder(le)
    ensures TotalPreorder(DirsFirst(le))
  {
    var f := DirsFirst(le);
    forall a: Node, b: Node ensures f(a, b) || f(b, a) {
      assert le(a.name, b.name) || le(b.name, a.name);
    }
    forall a: Node, b: Node, c: Node | f(a, b) && f(b, c) ensures f(a, c) {
      if a.Dir? == b.Dir? && b.Dir? == c.Dir? {
        assert le(a.name, b.name) && le(b.name, c.name);
      }
    }
  }

  /** The sorted nodes are the same nodes, every directory before every
      file, and ordered by name within each kind. */
  lemma SortedNodesOrder(nodes: seq<Node>, le: (string, string) -> bool)
    requires TotalPreorder(le)
    ensures var s := SortedNodes(nodes, le);
      && multiset(s) == multiset(nodes)
      && (forall i, j | 0 <= i < j < |s| :: !(s[i].File? && s[j].Dir?))
      && (forall i, j | 0 <= i < j < |s| && s[i].Dir? == s[j].Dir? :: le(s[i].name, s[j].name))
  {
    DirsFirstIsTotalPreorder(le);
    SortBySorted(nodes, DirsFirst(le));
  }

  /** What the panel shows: the empty state (with or without a search), one
      synthetic root node, or the sorted nodes themselves. */
  datatype View =
    | EmptyState(searching: bool)
    | Rooted(root: Node)
    | Plain(nodes: seq<Node>)

  /** The panel for `nodes`; `rootPath` is `None` when not given, and an
      empty root path counts as none. */
  function Render(nodes: seq<Node>, rootPath: Option<string>, searchQuery: string,
                  le: (string, string) -> bool): (v: View)
  {
    if |nodes| == 0 then EmptyState(searchQuery != "")
    else if rootPath.Some? && rootPath.value != "" then
      Rooted(Dir(BaseName(rootPath.value), rootPath.value, Listed(SortedNodes(nodes, le))))
    else Plain(SortedNodes(nodes, le))
  }

  /** No nodes give the empty state even with a root path; with a root path
      exactly one directory is shown, named by the path's last segment and
      holding the sorted nodes; without one the sorted nodes are shown. */
  lemma RenderBranches(nodes: seq<Node>, rootPath: Option<string>, searchQuery: string,
                       le: (string, string) -> bool)
    ensures var v := Render(nodes, rootPath, searchQuery, le);
      && (v.EmptyState? <==> |nodes| == 0)
      && (v.EmptyState? ==> (v.searching <==> searchQuery != ""))
      && (v.Rooted? <==> |nodes| > 0 && rootPath.Some? && rootPath.value != "")
      && (v.Rooted? ==>
            && v.root.Dir? && v.root.path == rootPath.value
            && EndsWith(rootPath.value, v.root.name)
            && v.root.children == Listed(SortedNodes(nodes, le)))
      && (v.Plain? ==> v.nodes == SortedNodes(nodes, le) && |v.nodes| == |nodes|)
  {
    if rootPath.Some? {
      BaseNameIsLastSegment(rootPath.value);
    }
    var s := SortedNodes(nodes, le);
    assert |s| == |multiset(s)| == |multiset(nodes)| == |nodes|;
  }
}
