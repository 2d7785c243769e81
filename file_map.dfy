/** The ASCII file map of the desktop bundle (electron/main.js,
    `generateFileMapNode`, `sortTreeNode` and `renderTreeNode`): the
    selected paths are sorted and inserted one by one into a tree of
    segments, every level is sorted with directories first, and the tree is
    drawn with box characters under a header line. */
module FileMap {
  import opened Strings
  import opened Optional
  import opened Sorting

  /** A node of the map tree. Whether it is a directory is decided when it
      is created and never revised. */
  datatype MapNode = MapNode(name: string, path: string, isDirectory: bool, children: seq<MapNode>)

  // ----- building the tree -----

  /** `fullPath.split(/[\/\\]/).filter(Boolean)`: splitting on either
      separator is splitting on `/` once `\` has become `/`. */
  function PathParts(fullPath: string): (r: seq<string>)
    ensures forall k | 0 <= k < |r| :: r[k] != "" && !HasChar(r[k], '/')
  {
    Segments(ReplaceChar(fullPath, '\\', '/'))
  }

  /** The root's name: the last `/`-piece, else the last `\`-piece, else the
      whole root path. It is never drawn. */
  function RootName(rootPath: string): string {
    var slash := LastPiece(rootPath, '/');
    var backslash := LastPiece(rootPath, '\\');
    if slash != "" then slash else if backslash != "" then backslash else rootPath
  }

  /** `currentNode.children.find(child => child.name === part)`, as an
      index: the first child with that name, or `|children|`. */
  function FindChild(children: seq<MapNode>, name: string): (k: nat)
    ensures k <= |children|
    ensures k < |children| ==> children[k].name == name
    ensures forall j | 0 <= j < k :: children[j].name != name
  {
    if children == [] then 0
    else if children[0].name == name then 0
    else 1 + FindChild(children[1..], name)
  }

  /** Any index with the properties of `FindChild` is `FindChild`. */
  lemma FindChildUnique(children: seq<MapNode>, name: string, k: nat)
    requires k <= |children|
    requires k < |children| ==> children[k].name == name
    requires forall j | 0 <= j < k :: children[j].name != name
    ensures FindChild(children, name) == k
  {
  }

  /** The inner loop of `generateFileMapNode` for one path, from segment
      `i` on: descend into the child named `parts[i]`, creating it (a
      directory unless it is the last segment) when there is none. The
      loop's walk down the mutable tree is the recursion here. */
  function Insert(node: MapNode, parts: seq<string>, i: nat): (r: MapNode)
    requires i <= |parts|
    ensures r.name == node.name && r.path == node.path && r.isDirectory == node.isDirectory
    decreases |parts| - i
  {
    if i == |parts| then node
    else
      var k := FindChild(node.children, parts[i]);
      if k < |node.children| then
        node.(children := node.children[k := Insert(node.children[k], parts, i + 1)])
      else
        var created := MapNode(parts[i], Join(parts[..i + 1], "/"), i != |parts| - 1, []);
        node.(children := node.children + [Insert(created, parts, i + 1)])
  }

  /** Following a list of names from a node down the tree. */
  function Lookup(node: MapNode, names: seq<string>): Option<MapNode>
    decreases |names|
  {
    if names == [] then Some(node)
    else
      var k := FindChild(node.children, names[0]);
      if k < |node.children| then Lookup(node.children[k], names[1..]) else None
  }

  /** After the insertion, the inserted path can be followed down the
      tree. */
  lemma {:induction false} InsertFinds(node: MapNode, parts: seq<string>, i: nat)
    requires i <= |parts|
    ensures Lookup(Insert(node, parts, i), parts[i..]).Some?
    decreases |parts| - i
  {
    if i < |parts| {
      var r := Insert(node, parts, i);
      var ch := node.children;
      var k := FindChild(ch, parts[i]);
      assert parts[i..][0] == parts[i] && parts[i..][1..] == parts[i + 1..];
      if k < |ch| {
        FindChildUnique(r.children, parts[i], k);
        InsertFinds(ch[k], parts, i + 1);
      } else {
        var created := MapNode(parts[i], Join(parts[..i + 1], "/"), i != |parts| - 1, []);
        FindChildUnique(r.children, parts[i], |ch|);
        InsertFinds(created, parts, i + 1);
      }
    }
  }

  /** A node keeps its name, path and directory flag. */
  predicate SameNode(a: MapNode, b: MapNode) {
    a.name == b.name && a.path == b.path && a.isDirectory == b.isDirectory
  }

  /** Inserting never removes a node nor changes one that was there: in
      particular a node's directory flag is the one it was created with,
      whatever is inserted below it later. */
  lemma {:induction false} InsertKeeps(node: MapNode, parts: seq<string>, i: nat, names: seq<string>)
    requires i <= |parts| && Lookup(node, names).Some?
    ensures Lookup(Insert(node, parts, i), names).Some?
    ensures SameNode(Lookup(Insert(node, parts, i), names).value, Lookup(node, names).value)
    decreases |names|
  {
    if i == |parts| {
      assert Insert(node, parts, i) == node;
    } else if names != [] {
      var ch := node.children;
      var k0 := FindChild(ch, names[0]);
      InsertLookup(node, parts, i, names);
      if k0 == FindChild(ch, parts[i]) {
        InsertKeeps(ch[k0], parts, i + 1, names[1..]);
        assert Lookup(Insert(node, parts, i), names) == Lookup(Insert(ch[k0], parts, i + 1), names[1..]);
        assert Lookup(node, names) == Lookup(ch[k0], names[1..]);
      } else {
        assert Lookup(Insert(node, parts, i), names) == Lookup(node, names);
      }
    }
  }

  /** A lookup after one insertion step goes to the same child as before:
      into the child the insertion descended into, or an unchanged one. */
  lemma InsertLookup(node: MapNode, parts: seq<string>, i: nat, names: seq<string>)
    requires i < |parts| && names != [] && Lookup(node, names).Some?
    ensures var ch := node.children;
      var k0 := FindChild(ch, names[0]);
      && k0 < |ch|
      && Lookup(node, names) == Lookup(ch[k0], names[1..])
      && Lookup(Insert(node, parts, i), names) ==
         (if k0 == FindChild(ch, parts[i]) then Lookup(Insert(ch[k0], parts, i + 1), names[1..])
          else Lookup(ch[k0], names[1..]))
  {
    var r := Insert(node, parts, i);
    var k0 := FindChild(node.children, names[0]);
    InsertShape(node, parts, i);
    FindChildUnique(r.children, names[0], k0);
    LookupStep(node, names);
    LookupStep(r, names);
  }

  lemma LookupStep(node: MapNode, names: seq<string>)
    requires names != [] && FindChild(node.children, names[0]) < |node.children|
    ensures Lookup(node, names) == Lookup(node.children[FindChild(node.children, names[0])], names[1..])
  {
  }

  /** One insertion step: the existing children keep their names and
      stay as they were, except the one descended into. */
  lemma InsertShape(node: MapNode, parts: seq<string>, i: nat)
    requires i < |parts|
    ensures var r := Insert(node, parts, i);
      var ch := node.children;
      var kp := FindChild(ch, parts[i]);
      && |ch| <= |r.children|
      && (forall j | 0 <= j < |ch| :: r.children[j].name == ch[j].name)
      && (forall j | 0 <= j < |ch| && j != kp :: r.children[j] == ch[j])
      && (kp < |ch| ==> r.children[kp] == Insert(ch[kp], parts, i + 1))
  {
  }

  /** The outer loop of `generateFileMapNode` over the sorted paths. */
  function InsertAll(root: MapNode, paths: seq<string>): MapNode
    decreases |paths|
  {
    if paths == [] then root
    else InsertAll(Insert(root, PathParts(paths[0]), 0), paths[1..])
  }

  /** The initial root node. */
  function Root(rootPath: string): MapNode {
    MapNode(RootName(rootPath), rootPath, true, [])
  }

  /** `[...selectedPaths].sort()`: code-unit order. */
  function SortedPaths(selectedPaths: seq<string>): (r: seq<string>)
    ensures multiset(r) == multiset(selectedPaths)
  {
    SortBy(selectedPaths, (a: string, b: string) => LexLe(a, b))
  }

  method BuildTree(rootPath: string, sortedPaths: seq<string>) returns (root: MapNode)
    ensures root == InsertAll(Root(rootPath), sortedPaths)
  {
    root := Root(rootPath);
    var i := 0;
    while i < |sortedPaths|
      invariant 0 <= i <= |sortedPaths|
      invariant InsertAll(Root(rootPath), sortedPaths) == InsertAll(root, sortedPaths[i..])
    {
      assert sortedPaths[i..][0] == sortedPaths[i] && sortedPaths[i..][1..] == sortedPaths[i + 1..];
      root := Insert(root, PathParts(sortedPaths[i]), 0);
      i := i + 1;
    }
  }

  /** Every path inserted stays in the tree, and no later insertion changes
      a node that is already there. */
  lemma {:induction false} InsertAllKeeps(root: MapNode, paths: seq<string>, names: seq<string>)
    requires Lookup(root, names).Some?
    ensures Lookup(InsertAll(root, paths), names).Some?
    ensures SameNode(Lookup(InsertAll(root, paths), names).value, Lookup(root, names).value)
    decreases |paths|
  {
    if paths != [] {
      var next := Insert(root, PathParts(paths[0]), 0);
      InsertKeeps(root, PathParts(paths[0]), 0, names);
      InsertAllKeeps(next, paths[1..], names);
    }
  }

  lemma InsertAllFinds(root: MapNode, paths: seq<string>, k: nat)
    requires k < |paths|
    ensures Lookup(InsertAll(root, paths), PathParts(paths[k])).Some?
    decreases |paths|
  {
    var next := Insert(root, PathParts(paths[0]), 0);
    if k == 0 {
      InsertFinds(root, PathParts(paths[0]), 0);
      assert PathParts(paths[0])[0..] == PathParts(paths[0]);
      InsertAllKeeps(next, paths[1..], PathParts(paths[0]));
    } else {
      assert paths[1..][k - 1] == paths[k];
      InsertAllFinds(next, paths[1..], k - 1);
    }
  }

  // ----- sorting -----

  /** The comparator of `sortTreeNode`: directories first, then the name
      comparison `le` (standing for `localeCompare`). */
  function DirsFirst(le: (string, string) -> bool): (MapNode, MapNode) -> bool {
    (a: MapNode, b: MapNode) =>
      (a.isDirectory && !b.isDirectory) || (a.isDirectory == b.isDirectory && le(a.name, b.name))
  }

  /** `sortTreeNode(node)`: the children are sorted, and each is sorted in
      turn. */
  function SortTree(node: MapNode, le: (string, string) -> bool): MapNode
    decreases node, 1
  {
    node.(children := SortBy(SortEach(node.children, le), DirsFirst(le)))
  }

  function SortEach(ns: seq<MapNode>, le: (string, string) -> bool): (r: seq<MapNode>)
    ensures |r| == |ns|
    decreases ns, 0
  {
    if ns == [] then [] else [SortTree(ns[0], le)] + SortEach(ns[1..], le)
  }

  lemma DirsFirstIsTotalPreorder(le: (string, string) -> bool)
    requires TotalPreorder(le)
    ensures TotalPreorder(DirsFirst(le))
  {
    var f := DirsFirst(le);
    forall a: MapNode, b: MapNode ensures f(a, b) || f(b, a) {
      assert le(a.name, b.name) || le(b.name, a.name);
    }
    forall a: MapNode, b: MapNode, c: MapNode | f(a, b) && f(b, c) ensures f(a, c) {
      if a.isDirectory == b.isDirectory && b.isDirectory == c.isDirectory {
        assert le(a.name, b.name) && le(b.name, c.name);
      }
    }
  }

  /** At every level the children are a reordering of the (sorted)
      children, every directory comes before every non-directory, and
      within each kind the names are in `le` order. */
  lemma SortTreeOrders(node: MapNode, le: (string, string) -> bool)
    requires TotalPreorder(le)
    ensures var ch := SortTree(node, le).children;
      && multiset(ch) == multiset(SortEach(node.children, le))
      && (forall i, j | 0 <= i < j < |ch| :: !(!ch[i].isDirectory && ch[j].isDirectory))
      && (forall i, j | 0 <= i < j < |ch| && ch[i].isDirectory == ch[j].isDirectory :: le(ch[i].name, ch[j].name))
  {
    DirsFirstIsTotalPreorder(le);
    SortBySorted(SortEach(node.children, le), DirsFirst(le));
  }

  // ----- rendering -----

  function Connector(isLastChild: bool): string {
    if isLastChild then "└── " else "├── "
  }

  function ChildPrefix(prefix: string, isLastChild: bool): string {
    prefix + (if isLastChild then "    " else "│   ")
  }

  /** `.filter(line => line.trim())` */
  function NonBlank(lines: seq<string>): (r: seq<string>)
    ensures |r| <= |lines|
  {
    if lines == [] then []
    else (if Trim(lines[0]) != "" then [lines[0]] else []) + NonBlank(lines[1..])
  }

  /** `.slice(1)` */
  function DropFirst(lines: seq<string>): seq<string> {
    if lines == [] then [] else lines[1..]
  }

  /** Whether a child is descended into. */
  predicate Descends(child: MapNode) {
    child.isDirectory && |child.children| > 0
  }

  /** The `lines` array of `renderTreeNode(node, rootPath, prefix)`: the
      header when the prefix is empty, then the children from index `0`. */
  function RenderLines(node: MapNode, rootPath: string, prefix: string): seq<string>
    decreases node, 0
  {
    (if prefix == "" then [rootPath] else []) + ChildLines(node.children, 0, rootPath, prefix)
  }

  /** The loop body for children `i..`: the child's line, then its
      subtree's lines, then the later children. */
  function ChildLines(ch: seq<MapNode>, i: nat, rootPath: string, prefix: string): seq<string>
    decreases ch, |ch| - i
  {
    if i >= |ch| then []
    else
      var isLastChild := i == |ch| - 1;
      [ChildLine(prefix, isLastChild, ch[i].name)]
        + SubtreeLines(ch[i], rootPath, ChildPrefix(prefix, isLastChild))
        + ChildLines(ch, i + 1, rootPath, prefix)
  }

  /** `prefix + connector + child.name` */
  function ChildLine(prefix: string, isLastChild: bool, name: string): string {
    prefix + Connector(isLastChild) + name
  }

  lemma ChildLinesStep(ch: seq<MapNode>, i: nat, rootPath: string, prefix: string, done: seq<string>)
    requires i < |ch|
    ensures var isLastChild := i == |ch| - 1;
      done + ChildLines(ch, i, rootPath, prefix) ==
        (done + [ChildLine(prefix, isLastChild, ch[i].name)] + SubtreeLines(ch[i], rootPath, ChildPrefix(prefix, isLastChild)))
          + ChildLines(ch, i + 1, rootPath, prefix)
  {
    var isLastChild := i == |ch| - 1;
    var line := [ChildLine(prefix, isLastChild, ch[i].name)];
    var sub := SubtreeLines(ch[i], rootPath, ChildPrefix(prefix, isLastChild));
    var rest := ChildLines(ch, i + 1, rootPath, prefix);
    assert ChildLines(ch, i, rootPath, prefix) == line + sub + rest;
    AppendThree(done, line + sub, rest);
    AppendThree(done, line, sub);
  }

  lemma AppendThree(a: seq<string>, b: seq<string>, c: seq<string>)
    ensures a + (b + c) == a + b + c
  {
  }

  /** For a directory with children: its rendering as a string, split
      again, stripped of blank lines and of its first line. */
  function SubtreeLines(child: MapNode, rootPath: string, childPrefix: string): seq<string>
    decreases child, 1
  {
    if Descends(child) then
      var subtree := Join(RenderLines(child, rootPath, childPrefix), "\n");
      DropFirst(NonBlank(Split(subtree, '\n')))
    else []
  }

  method RenderTreeNode(node: MapNode, rootPath: string, prefix: string) returns (text: string)
    ensures text == Join(RenderLines(node, rootPath, prefix), "\n")
    decreases node, 0
  {
    var lines: seq<string> := [];
    if prefix == "" {
      lines := [rootPath];
    }
    var ch := node.children;
    var i := 0;
    assert RenderLines(node, rootPath, prefix) == lines + ChildLines(ch, 0, rootPath, prefix);
    while i < |ch|
      invariant 0 <= i <= |ch|
      invariant RenderLines(node, rootPath, prefix) == lines + ChildLines(ch, i, rootPath, prefix)
    {
      var isLastChild := i == |ch| - 1;
      var child := ch[i];
      var line := ChildLine(prefix, isLastChild, child.name);
      var sub := RenderSubtree(child, rootPath, ChildPrefix(prefix, isLastChild));
      ChildLinesStep(ch, i, rootPath, prefix, lines);
      lines := lines + [line] + sub;
      assert RenderLines(node, rootPath, prefix) == lines + ChildLines(ch, i + 1, rootPath, prefix);
      i := i + 1;
    }
    assert lines + [] == lines;
    text := Join(lines, "\n");
  }

  /** The lines the loop adds below a child: for a directory with
      children, its rendering split again, without blank lines and without
      its first line. */
  method RenderSubtree(child: MapNode, rootPath: string, childPrefix: string) returns (sub: seq<string>)
    ensures sub == SubtreeLines(child, rootPath, childPrefix)
    decreases child, 1
  {
    sub := [];
    if child.isDirectory && |child.children| > 0 {
      var subtree := RenderTreeNode(child, rootPath, childPrefix);
      sub := DropFirst(NonBlank(Split(subtree, '\n')));
    }
  }

  /** The drawing as meant to be read, stated directly: each child's line,
      then, for a directory with children, its subtree's lines without the
      first one. */
  function Drawing(ch: seq<MapNode>, i: nat, prefix: string): seq<string>
    decreases ch, |ch| - i
  {
    if i >= |ch| then []
    else
      var isLastChild := i == |ch| - 1;
      [ChildLine(prefix, isLastChild, ch[i].name)]
        + SubDrawing(ch[i], ChildPrefix(prefix, isLastChild))
        + Drawing(ch, i + 1, prefix)
  }

  /** No name in the tree holds a line break. */
  predicate NoBreaks(node: MapNode)
    decreases node, 1
  {
    forall k | 0 <= k < |node.children| :: NoBreaksChild(node.children[k])
  }

  predicate NoBreaksChild(child: MapNode)
    decreases child, 2
  {
    !HasChar(child.name, '\n') && NoBreaks(child)
  }

  /** The loop's re-split of the subtree string changes nothing but the
      first line: `renderTreeNode` draws `Drawing`, every nested directory
      missing the line of its first child. */
  lemma {:induction false} ChildLinesAreDrawing(ch: seq<MapNode>, i: nat, rootPath: string, prefix: string)
    requires forall k | 0 <= k < |ch| :: NoBreaksChild(ch[k])
    requires !HasChar(prefix, '\n')
    ensures ChildLines(ch, i, rootPath, prefix) == Drawing(ch, i, prefix)
    ensures forall k | 0 <= k < |Drawing(ch, i, prefix)| :: Unbroken(Drawing(ch, i, prefix)[k])
    decreases ch, |ch| - i
  {
    if i < |ch| {
      var isLastChild := i == |ch| - 1;
      var c := ch[i];
      var cp := ChildPrefix(prefix, isLastChild);
      ChildLinesAreDrawing(ch, i + 1, rootPath, prefix);
      LineIsUnbroken(prefix, isLastChild, c.name);
      PrefixUnbroken(prefix, isLastChild);
      SubtreeIsDrawing(c, rootPath, cp);
      DrawingUnbroken(ChildLine(prefix, isLastChild, c.name), SubDrawing(c, cp), Drawing(ch, i + 1, prefix));
    }
  }

  /** What `Drawing` puts below a child. */
  function SubDrawing(child: MapNode, childPrefix: string): seq<string>
    decreases child, 1
  {
    if Descends(child) then DropFirst(Drawing(child.children, 0, childPrefix)) else []
  }

  lemma {:induction false} SubtreeIsDrawing(c: MapNode, rootPath: string, cp: string)
    requires NoBreaksChild(c) && !HasChar(cp, '\n') && cp != ""
    ensures SubtreeLines(c, rootPath, cp) == SubDrawing(c, cp)
    ensures forall k | 0 <= k < |SubDrawing(c, cp)| :: Unbroken(SubDrawing(c, cp)[k])
    decreases c, 1
  {
    if Descends(c) {
      ChildLinesAreDrawing(c.children, 0, rootPath, cp);
      var lines := Drawing(c.children, 0, cp);
      assert RenderLines(c, rootPath, cp) == [] + lines;
      assert [] + lines == lines;
      ResplitUnbroken(lines);
    }
  }

  lemma DrawingUnbroken(line: string, sub: seq<string>, rest: seq<string>)
    requires Unbroken(line)
    requires forall k | 0 <= k < |sub| :: Unbroken(sub[k])
    requires forall k | 0 <= k < |rest| :: Unbroken(rest[k])
    ensures forall k | 0 <= k < |[line] + sub + rest| :: Unbroken(([line] + sub + rest)[k])
  {
    AppendUnbroken([line], sub);
    AppendUnbroken([line] + sub, rest);
  }

  lemma AppendUnbroken(a: seq<string>, b: seq<string>)
    requires forall k | 0 <= k < |a| :: Unbroken(a[k])
    requires forall k | 0 <= k < |b| :: Unbroken(b[k])
    ensures forall k | 0 <= k < |a + b| :: Unbroken((a + b)[k])
  {
    forall k | 0 <= k < |a + b| ensures Unbroken((a + b)[k]) {
      if k < |a| {
        assert (a + b)[k] == a[k];
      } else {
        assert (a + b)[k] == b[k - |a|];
      }
    }
  }

  /** A line without a break and with something other than whitespace. */
  predicate Unbroken(line: string) {
    !HasChar(line, '\n') && Trim(line) != ""
  }

  lemma LineIsUnbroken(prefix: string, isLastChild: bool, name: string)
    requires !HasChar(prefix, '\n') && !HasChar(name, '\n')
    ensures Unbroken(ChildLine(prefix, isLastChild, name))
  {
    var c := Connector(isLastChild);
    ConnectorDrawn(isLastChild);
    var line := prefix + c + name;
    assert line[|prefix|] == c[0];
    TrimKeepsNonBlank(line, |prefix|);
    HasCharConcat(prefix, c, '\n');
    HasCharConcat(prefix + c, name, '\n');
  }

  /** A connector starts with a box-drawing character and breaks no line. */
  lemma ConnectorDrawn(isLastChild: bool)
    ensures var c := Connector(isLastChild);
      |c| == 4 && !IsJsWhitespace(c[0]) && !HasChar(c, '\n')
  {
    var c := Connector(isLastChild);
    assert c[0] == '└' || c[0] == '├';
  }

  lemma PrefixUnbroken(prefix: string, isLastChild: bool)
    requires !HasChar(prefix, '\n')
    ensures !HasChar(ChildPrefix(prefix, isLastChild), '\n') && ChildPrefix(prefix, isLastChild) != ""
  {
    var tail := if isLastChild then "    " else "│   ";
    assert !HasChar(tail, '\n');
    HasCharConcat(prefix, tail, '\n');
  }

  /** Joining unbroken lines and splitting them again, without the blank
      ones, gives the lines back. */
  lemma ResplitUnbroken(lines: seq<string>)
    requires forall k | 0 <= k < |lines| :: Unbroken(lines[k])
    ensures NonBlank(Split(Join(lines, "\n"), '\n')) == lines
  {
    if lines == [] {
      assert Split("", '\n') == [""];
      assert Trim("") == "";
    } else {
      assert "\n" == ['\n'];
      SplitJoin(lines, '\n');
      NonBlankKeeps(lines);
    }
  }

  lemma {:induction false} NonBlankKeeps(lines: seq<string>)
    requires forall k | 0 <= k < |lines| :: Trim(lines[k]) != ""
    ensures NonBlank(lines) == lines
  {
    if lines != [] {
      NonBlankKeeps(lines[1..]);
    }
  }

  /** The whole map as drawn: the root path on the first line, then the
      drawing of the root's children. */
  lemma RenderIsDrawing(node: MapNode, rootPath: string)
    requires NoBreaks(node)
    ensures RenderLines(node, rootPath, "") == [rootPath] + Drawing(node.children, 0, "")
  {
    ChildLinesAreDrawing(node.children, 0, rootPath, "");
  }

  // ----- the whole map -----

  /** `generateFileMapNode(rootPath, selectedPaths)`. */
  function FileMapText(rootPath: string, selectedPaths: seq<string>, le: (string, string) -> bool): string {
    if |selectedPaths| == 0 then ""
    else
      var tree := InsertAll(Root(rootPath), SortedPaths(selectedPaths));
      Join(RenderLines(SortTree(tree, le), rootPath, ""), "\n")
  }

  method GenerateFileMap(rootPath: string, selectedPaths: seq<string>, le: (string, string) -> bool)
    returns (text: string)
    ensures text == FileMapText(rootPath, selectedPaths, le)
  {
    if |selectedPaths| == 0 {
      return "";
    }
    var tree := BuildTree(rootPath, SortedPaths(selectedPaths));
    text := RenderTreeNode(SortTree(tree, le), rootPath, "");
  }

  /** The map is empty without selections and otherwise starts with the
      root path. */
  lemma FileMapStartsWithRoot(rootPath: string, selectedPaths: seq<string>, le: (string, string) -> bool)
    ensures |selectedPaths| == 0 ==> FileMapText(rootPath, selectedPaths, le) == ""
    ensures |selectedPaths| > 0 ==> StartsWith(FileMapText(rootPath, selectedPaths, le), rootPath)
  {
    if |selectedPaths| > 0 {
      var tree := SortTree(InsertAll(Root(rootPath), SortedPaths(selectedPaths)), le);
      var lines := RenderLines(tree, rootPath, "");
      assert lines[0] == rootPath;
      JoinStartsWithHead(lines, "\n");
    }
  }

  // ----- a directory with two files -----

  /** A segment name as the map tree holds it. */
  predicate PlainName(s: string) {
    s != [] && !HasChar(s, '/') && !HasChar(s, '\\') && !HasChar(s, '\n')
  }

  /** The name order `localeCompare` stands for here: code-point order. */
  function CodePointOrder(): (string, string) -> bool {
    (a: string, b: string) => LexLe(a, b)
  }

  /** The tree built for the selections `d/x` and `d/y`. */
  function TwoFileTree(rootPath: string, d: string, x: string, y: string): MapNode {
    MapNode(RootName(rootPath), rootPath, true,
      [MapNode(d, d + "/" + x, true, []).(path := d,
         children := [MapNode(x, d + "/" + x, false, []), MapNode(y, d + "/" + y, false, [])])])
  }

  lemma PathPartsPair(d: string, x: string)
    requires PlainName(d) && PlainName(x)
    ensures PathParts(d + "/" + x) == [d, x]
  {
    var p := d + "/" + x;
    assert ReplaceChar(p, '\\', '/') == p;
    assert p == d + ['/'] + x;
    SplitAround(d, '/', x);
    SplitNoSeparator(d, '/');
    SplitNoSeparator(x, '/');
  }

  lemma {:induction false} LexLeCommonPrefix(p: string, x: string, y: string)
    requires LexLe(x, y)
    ensures LexLe(p + x, p + y)
  {
    if p != [] {
      LexLeCommonPrefix(p[1..], x, y);
      assert (p + x)[0] == p[0] == (p + y)[0];
      assert (p + x)[1..] == p[1..] + x && (p + y)[1..] == p[1..] + y;
    } else {
      assert p + x == x && p + y == y;
    }
  }

  lemma JoinPair(d: string, x: string)
    ensures Join([d, x], "/") == d + "/" + x
  {
    assert [d, x][1..] == [x];
  }

  lemma SortedPair(p: string, q: string)
    requires LexLe(p, q)
    ensures SortedPaths([p, q]) == [p, q]
  {
    var le := (a: string, b: string) => LexLe(a, b);
    assert [p, q][..1] == [p];
    assert SortBy([p], le) == [p];
    assert Sorting.Insert(q, [p], le) == [p, q];
  }

  /** Inserting `d/x` into the empty root. */
  lemma FirstInsert(rootPath: string, d: string, x: string)
    requires PlainName(d) && PlainName(x)
    ensures Insert(Root(rootPath), PathParts(d + "/" + x), 0) ==
      MapNode(RootName(rootPath), rootPath, true, [MapNode(d, d, true, [MapNode(x, d + "/" + x, false, [])])])
  {
    PathPartsPair(d, x);
    JoinPair(d, x);
    var parts := [d, x];
    assert parts[..1] == [d] && parts[..2] == parts;
    var fx := MapNode(x, d + "/" + x, false, []);
    assert Insert(fx, parts, 2) == fx;
    assert Insert(MapNode(d, d, true, []), parts, 1) == MapNode(d, d, true, [fx]);
  }

  /** Inserting `d/y` next to `d/x`. */
  lemma SecondInsert(rootPath: string, d: string, x: string, y: string)
    requires PlainName(d) && PlainName(y) && x != y
    ensures Insert(MapNode(RootName(rootPath), rootPath, true,
                     [MapNode(d, d, true, [MapNode(x, d + "/" + x, false, [])])]),
                   PathParts(d + "/" + y), 0) == TwoFileTree(rootPath, d, x, y)
  {
    PathPartsPair(d, y);
    JoinPair(d, y);
    var parts := [d, y];
    assert parts[..2] == parts;
    var fx := MapNode(x, d + "/" + x, false, []);
    var fy := MapNode(y, d + "/" + y, false, []);
    assert Insert(fy, parts, 2) == fy;
    assert FindChild([fx], y) == 1;
    assert Insert(MapNode(d, d, true, [fx]), parts, 1) == MapNode(d, d, true, [fx, fy]);
  }

  lemma TwoFilesBuilt(rootPath: string, d: string, x: string, y: string)
    requires PlainName(d) && PlainName(x) && PlainName(y) && x != y && LexLe(x, y)
    ensures InsertAll(Root(rootPath), SortedPaths([d + "/" + x, d + "/" + y])) == TwoFileTree(rootPath, d, x, y)
  {
    var px, py := d + "/" + x, d + "/" + y;
    calc {
      InsertAll(Root(rootPath), SortedPaths([px, py]));
    == { PrefixedPairSorted(d, x, y); }
      InsertAll(Root(rootPath), [px, py]);
    == { InsertAllTwo(Root(rootPath), px, py); }
      Insert(Insert(Root(rootPath), PathParts(px), 0), PathParts(py), 0);
    == { FirstInsert(rootPath, d, x); SecondInsert(rootPath, d, x, y); }
      TwoFileTree(rootPath, d, x, y);
    }
  }

  lemma PrefixedPairSorted(d: string, x: string, y: string)
    requires LexLe(x, y)
    ensures SortedPaths([d + "/" + x, d + "/" + y]) == [d + "/" + x, d + "/" + y]
  {
    LexLeCommonPrefix(d + "/", x, y);
    assert (d + "/") + x == d + "/" + x && (d + "/") + y == d + "/" + y;
    SortedPair(d + "/" + x, d + "/" + y);
  }

  lemma InsertAllTwo(root: MapNode, p: string, q: string)
    ensures InsertAll(root, [p, q]) == Insert(Insert(root, PathParts(p), 0), PathParts(q), 0)
  {
    var r1 := Insert(root, PathParts(p), 0);
    var r2 := Insert(r1, PathParts(q), 0);
    assert [p, q][0] == p && [p, q][1..] == [q];
    assert InsertAll(root, [p, q]) == InsertAll(r1, [q]);
    assert [q][0] == q && [q][1..] == [];
    assert InsertAll(r1, [q]) == InsertAll(r2, []);
  }

  /** A file sorts to itself. */
  lemma SortFile(f: MapNode, le: (string, string) -> bool)
    requires f.children == []
    ensures SortTree(f, le) == f
  {
  }

  lemma TwoFilesSorted(rootPath: string, d: string, x: string, y: string)
    requires LexLe(x, y)
    ensures SortTree(TwoFileTree(rootPath, d, x, y), CodePointOrder()) == TwoFileTree(rootPath, d, x, y)
  {
    var le := CodePointOrder();
    var t := TwoFileTree(rootPath, d, x, y);
    var dir := t.children[0];
    var fx, fy := dir.children[0], dir.children[1];
    SortFile(fx, le);
    SortFile(fy, le);
    assert SortEach([fy], le) == [fy];
    assert [fx, fy][1..] == [fy];
    assert SortEach([fx, fy], le) == [fx, fy];
    assert [fx, fy][..1] == [fx];
    assert DirsFirst(le)(fx, fy);
    assert SortBy([fx, fy], DirsFirst(le)) == [fx, fy];
    assert SortTree(dir, le) == dir;
    assert SortEach([dir], le) == [dir];
    assert SortBy([dir], DirsFirst(le)) == [dir];
  }

  /** The drawing of the directory's two files, below the prefix `cp`. */
  lemma TwoFilesDrawn(d: string, x: string, y: string, cp: string)
    ensures Drawing([MapNode(x, d + "/" + x, false, []), MapNode(y, d + "/" + y, false, [])], 0, cp)
      == [cp + "├── " + x, cp + "└── " + y]
  {
    var ch := [MapNode(x, d + "/" + x, false, []), MapNode(y, d + "/" + y, false, [])];
    assert Drawing(ch, 2, cp) == [];
    assert Drawing(ch, 1, cp) == [cp + "└── " + y];
  }

  /** The drawing below the root: the directory's line, then its
      subtree without its first line. */
  lemma TwoFilesRootDrawing(rootPath: string, d: string, x: string, y: string)
    ensures Drawing(TwoFileTree(rootPath, d, x, y).children, 0, "") == ["└── " + d, "    └── " + y]
  {
    var t := TwoFileTree(rootPath, d, x, y);
    var dir := t.children[0];
    TwoFilesDrawn(d, x, y, "    ");
    assert "    " + "└── " == "    └── ";
    assert SubDrawing(dir, "    ") == ["    └── " + y];
    assert |t.children| == 1 && Drawing(t.children, 1, "") == [];
    assert ChildPrefix("", true) == "    ";
    assert ChildLine("", true, d) == "└── " + d;
  }

  /** The lines drawn for that tree. */
  lemma TwoFilesLines(rootPath: string, d: string, x: string, y: string)
    requires PlainName(d) && PlainName(x) && PlainName(y)
    ensures RenderLines(TwoFileTree(rootPath, d, x, y), rootPath, "") ==
      [rootPath, "└── " + d, "    └── " + y]
  {
    var t := TwoFileTree(rootPath, d, x, y);
    var dir := t.children[0];
    assert NoBreaksChild(dir.children[0]) && NoBreaksChild(dir.children[1]);
    assert NoBreaksChild(dir);
    RenderIsDrawing(t, rootPath);
    TwoFilesRootDrawing(rootPath, d, x, y);
  }

  /** Selecting two files `x` and `y` of one directory `d` draws three
      lines: the root path, `d`, and only its last file `y`. The line of
      the first child of a nested directory is lost. */
  lemma NestedFirstLineDropped(rootPath: string, d: string, x: string, y: string)
    requires PlainName(d) && PlainName(x) && PlainName(y) && x != y && LexLe(x, y)
    ensures FileMapText(rootPath, [d + "/" + x, d + "/" + y], CodePointOrder()) ==
      Join([rootPath, "└── " + d, "    └── " + y], "\n")
  {
    var sel := [d + "/" + x, d + "/" + y];
    var le := CodePointOrder();
    TwoFilesBuilt(rootPath, d, x, y);
    TwoFilesSorted(rootPath, d, x, y);
    assert SortTree(InsertAll(Root(rootPath), SortedPaths(sel)), le) == TwoFileTree(rootPath, d, x, y);
    TwoFilesLines(rootPath, d, x, y);
  }

  lemma JoinStartsWithHead(parts: seq<string>, sep: string)
    requires |parts| >= 1
    ensures StartsWith(Join(parts, sep), parts[0])
  {
    if |parts| > 1 {
      var j := Join(parts, sep);
      assert j == parts[0] + (sep + Join(parts[1..], sep));
      assert j[..|parts[0]|] == parts[0];
    }
  }
}
