/** The file tree the page works on (`FileNodeType` in app/page.tsx): a node
    is a file or a directory, and a directory may or may not carry its list
    of children. The pre-order listing of a forest is the reference against
    which the page's searches, gathers and counts are stated. */
module FileNodes {
  import opened Optional

  datatype Node =
    | File(name: string, path: string)
    | Dir(name: string, path: string, children: Children)

  /** `children?: FileNodeType[]`: absent, or a list. */
  datatype Children = Unlisted | Listed(nodes: seq<Node>)

  /** The tree state of the page: `TreeData`, whose `children` list is always
      present. */
  datatype TreeData = TreeData(name: string, children: seq<Node>)

  /** The pre-order listing of a forest: each node, then (for a directory
      with a children list) the listing of its children. */
  function Flatten(ns: seq<Node>): seq<Node> {
    if ns == [] then [] else FlattenOne(ns[0]) + Flatten(ns[1..])
  }

  function FlattenOne(n: Node): (r: seq<Node>)
    ensures |r| >= 1 && r[0] == n
  {
    match n
    case Dir(_, _, Listed(ch)) => [n] + Flatten(ch)
    case _ => [n]
  }

  function Paths(ns: seq<Node>): (r: seq<string>)
    ensures |r| == |ns|
  {
    if ns == [] then [] else [ns[0].path] + Paths(ns[1..])
  }

  /** The elements of a list, as a set (`new Set(list)`). */
  function Elems(s: seq<string>): (r: set<string>)
    ensures forall x :: x in r <==> x in s
  {
    set x | x in s
  }

  lemma {:induction false} FlattenAppend(a: seq<Node>, b: seq<Node>)
    ensures Flatten(a + b) == Flatten(a) + Flatten(b)
  {
    if a == [] {
      assert a + b == b;
    } else {
      assert (a + b)[1..] == a[1..] + b;
      FlattenAppend(a[1..], b);
    }
  }

  /** `Paths` lists the paths of the nodes, position by position. */
  lemma {:induction false} PathsSpec(ns: seq<Node>)
    ensures forall i | 0 <= i < |ns| :: Paths(ns)[i] == ns[i].path
    ensures forall x :: x in Paths(ns) <==> exists n | n in ns :: n.path == x
  {
    if ns != [] {
      PathsSpec(ns[1..]);
      assert forall n | n in ns :: n == ns[0] || n in ns[1..];
    }
  }

  lemma {:induction false} PathsAppend(a: seq<Node>, b: seq<Node>)
    ensures Paths(a + b) == Paths(a) + Paths(b)
  {
    if a == [] {
      assert a + b == b;
    } else {
      assert (a + b)[1..] == a[1..] + b;
      PathsAppend(a[1..], b);
    }
  }

  /** Extending a prefix of a forest by one node extends its listing by that
      node's listing. */
  lemma FlattenPrefix(ns: seq<Node>, i: nat)
    requires i < |ns|
    ensures Flatten(ns[..i + 1]) == Flatten(ns[..i]) + FlattenOne(ns[i])
  {
    assert ns[..i + 1] == ns[..i] + [ns[i]];
    FlattenAppend(ns[..i], [ns[i]]);
    assert Flatten([ns[i]]) == FlattenOne(ns[i]) + Flatten([]);
  }

  lemma PathsPrefix(ns: seq<Node>, i: nat)
    requires i < |ns|
    ensures Paths(Flatten(ns[..i + 1])) == Paths(Flatten(ns[..i])) + Paths(FlattenOne(ns[i]))
  {
    FlattenPrefix(ns, i);
    PathsAppend(Flatten(ns[..i]), FlattenOne(ns[i]));
  }

  /** The `findNode` helper of app/page.tsx: a depth-first search that tests
      a node, then searches its children when it is a directory that has a
      list, before moving on to its siblings. */
  function FindNode(nodes: seq<Node>, targetPath: string): Option<Node> {
    if nodes == [] then None
    else if nodes[0].path == targetPath then Some(nodes[0])
    else
      var found :=
        if nodes[0].Dir? && nodes[0].children.Listed?
        then FindNode(nodes[0].children.nodes, targetPath) else None;
      if found.Some? then found else FindNode(nodes[1..], targetPath)
  }

  /** The first node of a list that has the given path. */
  function FirstWithPath(s: seq<Node>, t: string): Option<Node> {
    if s == [] then None
    else if s[0].path == t then Some(s[0])
    else FirstWithPath(s[1..], t)
  }

  lemma {:induction false} FirstWithPathAppend(a: seq<Node>, b: seq<Node>, t: string)
    ensures FirstWithPath(a + b, t) ==
      if FirstWithPath(a, t).Some? then FirstWithPath(a, t) else FirstWithPath(b, t)
  {
    if a == [] {
      assert a + b == b;
    } else {
      assert (a + b)[1..] == a[1..] + b;
      FirstWithPathAppend(a[1..], b, t);
    }
  }

  /** `FirstWithPath` finds nothing iff no element has the path, and
      otherwise the earliest element that has it. */
  lemma {:induction false} FirstWithPathSpec(s: seq<Node>, t: string)
    ensures var r := FirstWithPath(s, t);
      && (r.None? <==> forall k | 0 <= k < |s| :: s[k].path != t)
      && (r.Some? ==> exists i | 0 <= i < |s| ::
            s[i] == r.value && r.value.path == t && forall k | 0 <= k < i :: s[k].path != t)
  {
    if s != [] && s[0].path != t {
      FirstWithPathSpec(s[1..], t);
      var r := FirstWithPath(s[1..], t);
      if r.Some? {
        var i :| 0 <= i < |s[1..]| && s[1..][i] == r.value && r.value.path == t &&
          forall k | 0 <= k < i :: s[1..][k].path != t;
        assert s[i + 1] == r.value;
        forall k | 0 <= k < i + 1 ensures s[k].path != t {
          if k > 0 { assert s[k] == s[1..][k - 1]; }
        }
      } else {
        forall k | 0 <= k < |s| ensures s[k].path != t {
          if k > 0 { assert s[k] == s[1..][k - 1]; }
        }
      }
    } else if s != [] {
      assert s[0] == FirstWithPath(s, t).value;
    }
  }

  /** The search is a pre-order search: it returns the first node of the
      pre-order listing that has the target path. */
  lemma {:induction false} FindNodeIsPreorder(nodes: seq<Node>, targetPath: string)
    ensures FindNode(nodes, targetPath) == FirstWithPath(Flatten(nodes), targetPath)
  {
    if nodes != [] {
      var n := nodes[0];
      FirstWithPathAppend(FlattenOne(n), Flatten(nodes[1..]), targetPath);
      FindNodeIsPreorder(nodes[1..], targetPath);
      if n.Dir? && n.children.Listed? {
        FindNodeIsPreorder(n.children.nodes, targetPath);
        FirstWithPathAppend([n], Flatten(n.children.nodes), targetPath);
      }
    }
  }

  /** What the search finds: nothing iff no node of the forest has the path,
      and otherwise a node of the forest with exactly that path. */
  lemma FindNodeSpec(nodes: seq<Node>, targetPath: string)
    ensures var r := FindNode(nodes, targetPath);
      && (r.None? <==> targetPath !in Paths(Flatten(nodes)))
      && (r.Some? ==> r.value in Flatten(nodes) && r.value.path == targetPath)
  {
    FindNodeIsPreorder(nodes, targetPath);
    FirstWithPathSpec(Flatten(nodes), targetPath);
    PathsSpec(Flatten(nodes));
  }

  /** Every node of a listing brings its whole subtree with it. */
  lemma {:induction false} SubtreeListed(ns: seq<Node>, m: Node)
    requires m in Flatten(ns)
    ensures forall x | x in FlattenOne(m) :: x in Flatten(ns)
  {
    var n := ns[0];
    if m in FlattenOne(n) {
      SubtreeListedOne(n, m);
    } else {
      SubtreeListed(ns[1..], m);
    }
  }

  lemma {:induction false} SubtreeListedOne(n: Node, m: Node)
    requires m in FlattenOne(n)
    ensures forall x | x in FlattenOne(m) :: x in FlattenOne(n)
  {
    if m != n {
      SubtreeListed(n.children.nodes, m);
    }
  }

  /** `Some(r)` is `r` put behind `done`; a failure stays a failure. */
  function Prepend(done: seq<Node>, rest: Option<seq<Node>>): Option<seq<Node>> {
    match rest
    case None => None
    case Some(ns) => Some(done + ns)
  }

  lemma PrependNothing(x: Option<seq<Node>>)
    ensures Prepend([], x) == x
  {
    if x.Some? {
      assert [] + x.value == x.value;
    }
  }

  lemma PrependTwice(done: seq<Node>, node: Node, rest: Option<seq<Node>>)
    ensures Prepend(done, Prepend([node], rest)) == Prepend(done + [node], rest)
  {
    if rest.Some? {
      assert done + ([node] + rest.value) == (done + [node]) + rest.value;
    }
  }
}
