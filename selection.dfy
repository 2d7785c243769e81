/** The selection engine of the page (`toggleSelect` in app/page.tsx): the
    selection is a set of paths; toggling a path removes or adds the clicked
    node's whole subtree, removes or promotes its ancestor directories. */
module Selection {
  import opened Strings
  import opened Optional
  import opened FileNodes

  /** `dirPath.split("/").pop() || dirPath`: the last segment of the root
      path, or the whole path when that segment is empty. */
  function RootName(dirPath: string): (r: string)
    ensures r == dirPath || (r != [] && EndsWith(dirPath, r) && !HasChar(r, '/'))
  {
    var last := LastPiece(dirPath, '/');
    if last != "" then last else dirPath
  }

  /** The synthetic node standing for the root directory. */
  function RootNode(dirPath: string, children: seq<Node>): Node {
    Dir(RootName(dirPath), dirPath, Listed(children))
  }

  /** The node a click on `path` refers to: the synthetic root for `dirPath`,
      and otherwise the result of the pre-order search of the tree. */
  function ClickedNode(tree: TreeData, dirPath: string, path: string): Option<Node> {
    if path == dirPath then Some(RootNode(dirPath, tree.children))
    else FindNode(tree.children, path)
  }

  // ----- descendants -----

  /** What `getAllDescendants` lists: the node's own path, then the paths of
      its subtree in pre-order. */
  function Descendants(node: Node): seq<string> {
    Paths(FlattenOne(node))
  }

  /** `getAllDescendants(node)` */
  method GetAllDescendants(node: Node) returns (descendants: seq<string>)
    ensures descendants == Descendants(node)
    decreases node
  {
    if node.File? {
      return [node.path];
    }
    descendants := [node.path];
    if node.children.Listed? {
      var children := node.children.nodes;
      var i := 0;
      while i < |children|
        invariant 0 <= i <= |children|
        invariant descendants == [node.path] + Paths(Flatten(children[..i]))
      {
        var more := GetAllDescendants(children[i]);
        PathsPrefix(children, i);
        descendants := descendants + more;
        i := i + 1;
      }
      assert children[..i] == children;
      PathsAppend([node], Flatten(children));
    }
  }

  // ----- ancestors -----

  /** The ancestor list built by the first `n` rounds of the loop of
      `getAllAncestors`: round `i` joins the first `i` segments and keeps
      the result unless it is empty or the path itself. */
  function AncestorsUpTo(parts: seq<string>, p: string, n: nat): (r: seq<string>)
    requires n <= |parts|
    ensures forall k | 0 <= k < |r| :: r[k] != p && r[k] != ""
  {
    if n == 0 then []
    else
      var a := Join(parts[..n], "/");
      AncestorsUpTo(parts, p, n - 1) + (if a != "" && a != p then [a] else [])
  }

  function Ancestors(p: string): seq<string> {
    AncestorsUpTo(Segments(p), p, |Segments(p)|)
  }

  /** `getAllAncestors(targetPath)` */
  method GetAllAncestors(targetPath: string) returns (ancestors: seq<string>)
    ensures ancestors == Ancestors(targetPath)
  {
    ancestors := [];
    var pathParts := Segments(targetPath);
    var i := 1;
    while i <= |pathParts|
      invariant 1 <= i <= |pathParts| + 1
      invariant ancestors == AncestorsUpTo(pathParts, targetPath, i - 1)
    {
      var ancestorPath := Join(pathParts[..i], "/");
      if ancestorPath != "" && ancestorPath != targetPath {
        ancestors := ancestors + [ancestorPath];
      }
      i := i + 1;
    }
  }

  /** A join of segments starts with the first segment. */
  lemma JoinStartsWithFirst(parts: seq<string>, sep: string)
    requires |parts| >= 1
    ensures StartsWith(Join(parts, sep), parts[0])
  {
    if |parts| > 1 {
      assert Join(parts, sep) == parts[0] + (sep + Join(parts[1..], sep));
    }
  }

  /** No ancestor begins with `/`, so an absolute path is never among the
      ancestors of any path. */
  lemma AbsolutePathIsNoAncestor(p: string, d: string)
    requires StartsWith(d, "/")
    ensures d !in Ancestors(p)
  {
    var parts := Segments(p);
    AncestorsNoLeadingSlash(parts, p, |parts|);
  }

  lemma {:induction false} AncestorsNoLeadingSlash(parts: seq<string>, p: string, n: nat)
    requires n <= |parts|
    requires forall k | 0 <= k < |parts| :: parts[k] != "" && !HasChar(parts[k], '/')
    ensures forall k | 0 <= k < |AncestorsUpTo(parts, p, n)| :: !StartsWith(AncestorsUpTo(parts, p, n)[k], "/")
  {
    if n > 0 {
      AncestorsNoLeadingSlash(parts, p, n - 1);
      var a := Join(parts[..n], "/");
      JoinStartsWithFirst(parts[..n], "/");
      assert a[0] == parts[0][0];
      assert !HasChar(parts[0], '/');
    }
  }

  /** Joining a list of segments splits at any inner position. */
  lemma {:induction false} JoinAt(parts: seq<string>, i: nat)
    requires 1 <= i < |parts|
    ensures Join(parts, "/") == Join(parts[..i], "/") + "/" + Join(parts[i..], "/")
  {
    if i > 1 {
      JoinAt(parts[1..], i - 1);
      assert parts[1..][..i - 1] == parts[..i][1..];
      assert parts[1..][i - 1..] == parts[i..];
    } else {
      assert parts[..1] == [parts[0]];
    }
  }

  /** For a path written without empty segments (no leading, trailing or
      doubled `/`), the ancestors are exactly its proper directory prefixes,
      shortest first. */
  lemma AncestorsOfCleanPath(p: string)
    requires p == Join(Segments(p), "/")
    ensures var parts := Segments(p);
      && |Ancestors(p)| == (if parts == [] then 0 else |parts| - 1)
      && forall k | 0 <= k < |Ancestors(p)| ::
           Ancestors(p)[k] == Join(parts[..k + 1], "/") && StartsWith(p, Ancestors(p)[k] + "/")
  {
    var parts := Segments(p);
    if parts != [] {
      var n := |parts|;
      AncestorsProperPrefixes(parts, p, n - 1);
      assert parts[..n] == parts;
    }
  }

  lemma {:induction false} AncestorsProperPrefixes(parts: seq<string>, p: string, n: nat)
    requires n < |parts|
    requires forall k | 0 <= k < |parts| :: parts[k] != ""
    requires p == Join(parts, "/")
    ensures |AncestorsUpTo(parts, p, n)| == n
    ensures forall k | 0 <= k < n ::
      AncestorsUpTo(parts, p, n)[k] == Join(parts[..k + 1], "/") &&
      StartsWith(p, Join(parts[..k + 1], "/") + "/")
  {
    if n > 0 {
      AncestorsProperPrefixes(parts, p, n - 1);
      var a := Join(parts[..n], "/");
      JoinAt(parts, n);
      assert StartsWith(p, a + "/") by {
        assert p == (a + "/") + Join(parts[n..], "/");
      }
      assert a != "" by {
        JoinStartsWithFirst(parts[..n], "/");
        assert parts[..n][0] == parts[0] && parts[0] != "";
      }
      assert |p| > |a|;
    }
  }

  // ----- promotion -----

  /** `areAllChildrenSelected(node, selections)`: a file must be selected; a
      directory without a children list passes; otherwise every child must
      be selected and, when it is a directory, pass the same test. */
  predicate AllChildrenSelected(node: Node, selections: set<string>)
    decreases node, 1
  {
    match node
    case File(_, path) => path in selections
    case Dir(_, _, Unlisted) => true
    case Dir(_, _, Listed(children)) =>
      forall i | 0 <= i < |children| :: ChildSelected(children[i], selections)
  }

  predicate ChildSelected(child: Node, selections: set<string>)
    decreases child, 2
  {
    if child.File? then child.path in selections
    else child.path in selections && AllChildrenSelected(child, selections)
  }

  /** A directory with a children list passes the test exactly when every
      node below it is selected. */
  lemma AllChildrenSelectedMeansSubtree(node: Node, selections: set<string>)
    requires node.Dir? && node.children.Listed?
    ensures AllChildrenSelected(node, selections) <==>
      Elems(Paths(Flatten(node.children.nodes))) <= selections
  {
    EveryChildSelected(node.children.nodes, selections);
  }

  lemma {:induction false} EveryChildSelected(children: seq<Node>, selections: set<string>)
    ensures (forall i | 0 <= i < |children| :: ChildSelected(children[i], selections)) <==>
      Elems(Paths(Flatten(children))) <= selections
  {
    if children != [] {
      var c := children[0];
      EveryChildSelected(children[1..], selections);
      PathsAppend(FlattenOne(c), Flatten(children[1..]));
      if c.Dir? && c.children.Listed? {
        EveryChildSelected(c.children.nodes, selections);
        PathsAppend([c], Flatten(c.children.nodes));
      }
      assert ChildSelected(c, selections) <==> Elems(Paths(FlattenOne(c))) <= selections;
      AllChildrenSelectedSplit(children, selections);
    }
  }

  lemma AllChildrenSelectedSplit(children: seq<Node>, selections: set<string>)
    requires children != []
    ensures (forall i | 0 <= i < |children| :: ChildSelected(children[i], selections)) <==>
      ChildSelected(children[0], selections) &&
      forall i | 0 <= i < |children[1..]| :: ChildSelected(children[1..][i], selections)
  {
    if ChildSelected(children[0], selections) &&
       forall i | 0 <= i < |children[1..]| :: ChildSelected(children[1..][i], selections)
    {
      forall i | 0 <= i < |children| ensures ChildSelected(children[i], selections) {
        if i > 0 { assert children[i] == children[1..][i - 1]; }
      }
    }
  }

  /** One round of the promotion loop: the ancestor is added when the search
      finds it and all of its children are in the set built so far. */
  function PromoteStep(children: seq<Node>, selections: set<string>, ancestorPath: string): set<string> {
    var ancestorNode := FindNode(children, ancestorPath);
    if ancestorNode.Some? && AllChildrenSelected(ancestorNode.value, selections)
    then selections + {ancestorPath}
    else selections
  }

  /** The promotion loop over `ancestors`, shortest first, each round seeing
      the additions of the earlier ones. */
  function Promote(children: seq<Node>, ancestors: seq<string>, selections: set<string>): set<string> {
    if ancestors == [] then selections
    else
      var n := |ancestors| - 1;
      PromoteStep(children, Promote(children, ancestors[..n], selections), ancestors[n])
  }

  /** Promotion only adds, and only ancestors. */
  lemma {:induction false} PromoteBounds(children: seq<Node>, ancestors: seq<string>, selections: set<string>)
    ensures selections <= Promote(children, ancestors, selections) <= selections + Elems(ancestors)
  {
    if ancestors != [] {
      var n := |ancestors| - 1;
      PromoteBounds(children, ancestors[..n], selections);
      assert ancestors == ancestors[..n] + [ancestors[n]];
    }
  }

  // ----- the toggle -----

  /** The new selection computed by `toggleSelect(path)` from `prev`. */
  function Toggled(tree: Option<TreeData>, dirPath: string, prev: set<string>, path: string): set<string> {
    if tree.None? then prev
    else
      var clicked := ClickedNode(tree.value, dirPath, path);
      if clicked.None? then prev
      else if path in prev then
        prev - Elems(Descendants(clicked.value)) - Elems(Ancestors(path))
      else
        Promote(tree.value.children, Ancestors(path), prev + Elems(Descendants(clicked.value)))
  }

  lemma ElemsPrefix(s: seq<string>, i: nat)
    requires i < |s|
    ensures Elems(s[..i + 1]) == Elems(s[..i]) + {s[i]}
  {
    assert s[..i + 1] == s[..i] + [s[i]];
  }

  /** `list.forEach(p => next.delete(p))` */
  method DeleteAll(selections: set<string>, paths: seq<string>) returns (next: set<string>)
    ensures next == selections - Elems(paths)
  {
    next := selections;
    var i := 0;
    while i < |paths|
      invariant 0 <= i <= |paths|
      invariant next == selections - Elems(paths[..i])
    {
      ElemsPrefix(paths, i);
      next := next - {paths[i]};
      i := i + 1;
    }
    assert paths[..i] == paths;
  }

  /** `list.forEach(p => next.add(p))` */
  method AddAll(selections: set<string>, paths: seq<string>) returns (next: set<string>)
    ensures next == selections + Elems(paths)
  {
    next := selections;
    var i := 0;
    while i < |paths|
      invariant 0 <= i <= |paths|
      invariant next == selections + Elems(paths[..i])
    {
      ElemsPrefix(paths, i);
      next := next + {paths[i]};
      i := i + 1;
    }
    assert paths[..i] == paths;
  }

  /** The promotion loop of `toggleSelect`. */
  method PromoteAncestors(children: seq<Node>, ancestors: seq<string>, selections: set<string>)
    returns (next: set<string>)
    ensures next == Promote(children, ancestors, selections)
  {
    next := selections;
    var i := 0;
    while i < |ancestors|
      invariant 0 <= i <= |ancestors|
      invariant next == Promote(children, ancestors[..i], selections)
    {
      assert ancestors[..i + 1][..i] == ancestors[..i];
      var ancestorNode := FindNode(children, ancestors[i]);
      if ancestorNode.Some? && AllChildrenSelected(ancestorNode.value, next) {
        next := next + {ancestors[i]};
      }
      i := i + 1;
    }
    assert ancestors[..i] == ancestors;
  }

  /** `toggleSelect(path)`, as the state updater applied to `prev`. */
  method ToggleSelect(tree: Option<TreeData>, dirPath: string, prev: set<string>, path: string)
    returns (next: set<string>)
    ensures next == Toggled(tree, dirPath, prev, path)
  {
    next := prev;
    if tree.None? {
      return;
    }
    var clickedNode := ClickedNode(tree.value, dirPath, path);
    if clickedNode.None? {
      return;
    }
    var descendants := GetAllDescendants(clickedNode.value);
    var ancestors := GetAllAncestors(path);
    if path in prev {
      next := DeleteAll(prev, descendants);
      next := DeleteAll(next, ancestors);
    } else {
      next := AddAll(prev, descendants);
      next := PromoteAncestors(tree.value.children, ancestors, next);
    }
  }

  /** The clicked node is the synthetic root or a node of the tree, carries
      the clicked path, and its subtree lies in the tree. */
  lemma ClickedNodeSpec(tree: TreeData, dirPath: string, path: string)
    ensures var c := ClickedNode(tree, dirPath, path);
      && (c.None? <==> path != dirPath && path !in Paths(Flatten(tree.children)))
      && (c.Some? ==> c.value.path == path && path in Descendants(c.value))
      && (c.Some? && path != dirPath ==>
            Elems(Descendants(c.value)) <= Elems(Paths(Flatten(tree.children))))
  {
    FindNodeSpec(tree.children, path);
    var c := ClickedNode(tree, dirPath, path);
    if c.Some? {
      PathsSpec(FlattenOne(c.value));
      if path != dirPath {
        SubtreeListed(tree.children, c.value);
        PathsSpec(Flatten(tree.children));
        forall x | x in Descendants(c.value) ensures x in Paths(Flatten(tree.children)) {
          var n :| n in FlattenOne(c.value) && n.path == x;
          assert n in Flatten(tree.children);
        }
      }
    }
  }

  /** Without a tree, or when the path is neither the root nor found in the
      tree, the selection comes back unchanged. */
  lemma ToggleWithoutNode(tree: Option<TreeData>, dirPath: string, prev: set<string>, path: string)
    requires tree.None? || (path != dirPath && path !in Paths(Flatten(tree.value.children)))
    ensures Toggled(tree, dirPath, prev, path) == prev
  {
    if tree.Some? {
      ClickedNodeSpec(tree.value, dirPath, path);
    }
  }

  /** Toggling a selected path adds nothing and removes exactly the paths of
      the clicked subtree and the path's ancestors; the path itself ends up
      unselected. */
  lemma ToggleOff(tree: TreeData, dirPath: string, prev: set<string>, path: string, clicked: Node)
    requires path in prev
    requires ClickedNode(tree, dirPath, path) == Some(clicked)
    ensures var next := Toggled(Some(tree), dirPath, prev, path);
      && next <= prev
      && (forall x | x in prev :: x !in next <==> x in Descendants(clicked) || x in Ancestors(path))
      && path !in next
  {
    ClickedNodeSpec(tree, dirPath, path);
  }

  /** Toggling an unselected path keeps everything selected, adds the whole
      clicked subtree, and adds nothing else but ancestors of the path. */
  lemma ToggleOn(tree: TreeData, dirPath: string, prev: set<string>, path: string, clicked: Node)
    requires path !in prev
    requires ClickedNode(tree, dirPath, path) == Some(clicked)
    ensures var next := Toggled(Some(tree), dirPath, prev, path);
      && prev + Elems(Descendants(clicked)) <= next
      && next <= prev + Elems(Descendants(clicked)) + Elems(Ancestors(path))
      && path in next
  {
    ClickedNodeSpec(tree, dirPath, path);
    PromoteBounds(tree.children, Ancestors(path), prev + Elems(Descendants(clicked)));
  }

  /** The checkbox of a path that is the root or in the tree flips. */
  lemma ToggleFlips(tree: TreeData, dirPath: string, prev: set<string>, path: string)
    requires path == dirPath || path in Paths(Flatten(tree.children))
    ensures path in Toggled(Some(tree), dirPath, prev, path) <==> path !in prev
  {
    ClickedNodeSpec(tree, dirPath, path);
    var clicked := ClickedNode(tree, dirPath, path).value;
    if path in prev {
      ToggleOff(tree, dirPath, prev, path, clicked);
    } else {
      ToggleOn(tree, dirPath, prev, path, clicked);
    }
  }

  /** Toggling a path below an absolute root never adds or removes the root
      itself, as long as no node of the tree carries the root's path. */
  lemma ToggleLeavesAbsoluteRoot(tree: TreeData, dirPath: string, prev: set<string>, path: string)
    requires StartsWith(dirPath, "/") && path != dirPath
    requires dirPath !in Paths(Flatten(tree.children))
    ensures dirPath in Toggled(Some(tree), dirPath, prev, path) <==> dirPath in prev
  {
    ClickedNodeSpec(tree, dirPath, path);
    AbsolutePathIsNoAncestor(path, dirPath);
    var c := ClickedNode(tree, dirPath, path);
    if c.Some? && path !in prev {
      PromoteBounds(tree.children, Ancestors(path), prev + Elems(Descendants(c.value)));
    }
  }

  lemma SegmentsOfABC()
    ensures Segments("a/b/c") == ["a", "b", "c"]
  {
    var parts := ["a", "b", "c"];
    JoinABC();
    assert forall k | 0 <= k < |parts| :: |parts[k]| == 1 && parts[k][0] != '/';
    SplitJoin(parts, '/');
    assert Split("a/b/c", '/') == parts;
  }

  lemma AncestorsOfABC()
    ensures Ancestors("a/b/c") == ["a", "a/b"]
  {
    SegmentsOfABC();
    var parts := ["a", "b", "c"];
    JoinABC();
    AncestorsOfCleanPath("a/b/c");
    assert parts[..1] == ["a"] && parts[..2] == ["a", "b"];
  }

  lemma JoinABC()
    ensures Join(["a", "b", "c"], "/") == "a/b/c"
    ensures Join(["a", "b"], "/") == "a/b"
  {
    assert ["a", "b", "c"][1..] == ["b", "c"];
    assert ["b", "c"][1..] == ["c"];
    assert ["a", "b"][1..] == ["b"];
  }

  /** The promotion loop on the tree `a/b/c`, starting from `{a/b/c}`. */
  lemma PromoteOnABC(c: Node, b: Node, a: Node)
    requires c == File("c", "a/b/c")
    requires b == Dir("b", "a/b", Listed([c]))
    requires a == Dir("a", "a", Listed([b]))
    ensures Promote([a], ["a", "a/b"], {"a/b/c"}) == {"a/b/c", "a/b"}
    ensures ClickedNode(TreeData("root", [a]), "/root", "a/b/c") == Some(c)
  {
    assert FindNode([c], "a/b/c") == Some(c);
    assert FindNode([b], "a/b/c") == Some(c);
    var s0 := {"a/b/c"};
    assert FindNode([a], "a") == Some(a);
    assert FindNode([a], "a/b") == Some(b);
    assert !AllChildrenSelected(a, s0) by {
      assert [b][0] == b && "a/b" !in s0;
      assert !ChildSelected(b, s0);
    }
    assert AllChildrenSelected(b, s0) by {
      assert ChildSelected(c, s0);
    }
    assert Promote([a], ["a"], s0) == s0 by {
      assert ["a"][..0] == [];
    }
    assert ["a", "a/b"][..1] == ["a"];
  }

  /** Promotion tests ancestors shortest first against the set built so
      far: selecting the only file of `a/b` promotes `a/b`, but not `a`,
      whose test ran before `a/b` was added. */
  lemma PromotionIsShortestFirst()
    ensures var c := File("c", "a/b/c");
      var b := Dir("b", "a/b", Listed([c]));
      var tree := TreeData("root", [Dir("a", "a", Listed([b]))]);
      Toggled(Some(tree), "/root", {}, "a/b/c") == {"a/b/c", "a/b"}
  {
    var c := File("c", "a/b/c");
    var b := Dir("b", "a/b", Listed([c]));
    var a := Dir("a", "a", Listed([b]));
    AncestorsOfABC();
    PromoteOnABC(c, b, a);
    var empty: set<string> := {};
    assert Descendants(c) == ["a/b/c"];
    assert empty + Elems(["a/b/c"]) == {"a/b/c"};
    assert Toggled(Some(TreeData("root", [a])), "/root", empty, "a/b/c") ==
      Promote([a], ["a", "a/b"], {"a/b/c"});
  }
}
