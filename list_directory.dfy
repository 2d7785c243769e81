/** The web build's directory listing (app/api/list-directory/route.ts): a
    `GET` handler that answers with a fixed test tree when no file system
    is available, and otherwise walks the directory recursively, skipping
    hidden entries and entries the second gitignore dialect ignores. Unlike
    the desktop walk, any failure anywhere aborts the whole request. */
module ListDirectory {
  import opened Strings
  import opened Optional
  import opened FileNodes
  import opened FileSystem
  import IgnoreUtils

  predicate AllCompilable(patterns: seq<string>) {
    forall k | 0 <= k < |patterns| :: IgnoreUtils.Compilable(patterns[k])
  }

  /** `readGitignore(dir)`, given the outcome of reading `.gitignore`: a
      failed read gives no patterns. */
  function ReadGitignore(gitignore: Option<string>): (r: seq<string>)
    ensures gitignore.None? ==> r == []
    ensures gitignore.Some? ==> r == IgnoreUtils.ParseGitignore(gitignore.value)
  {
    match gitignore
    case None => []
    case Some(content) => IgnoreUtils.ParseGitignore(content)
  }

  predicate Hidden(name: string) {
    StartsWith(name, ".")
  }

  /** The skip test of the walk: only a non-empty pattern list can ignore. */
  predicate Skipped(rel: string, patterns: seq<string>)
    requires AllCompilable(patterns)
  {
    |patterns| > 0 && IgnoreUtils.IsIgnored(rel, patterns)
  }

  /** `walk(dir, base, patterns)`; `None` stands for a thrown error. */
  function Walk(listing: Listing, base: string, patterns: seq<string>): Option<seq<Node>>
    requires AllCompilable(patterns)
    decreases listing, 1
  {
    match listing
    case Unreadable => None
    case Entries(es) => WalkEntries(es, base, patterns)
  }

  /** The loop of `walk` over the entries `readdir` returned. */
  function WalkEntries(es: seq<Entry>, base: string, patterns: seq<string>): Option<seq<Node>>
    requires AllCompilable(patterns)
    decreases es, 0
  {
    if es == [] then Some([])
    else
      var e := es[0];
      var rel := JoinPath(base, e.name);
      if Hidden(e.name) && e.name != ".gitignore" then WalkEntries(es[1..], base, patterns)
      else if e.BrokenEntry? then None
      else if e.name == ".gitignore" then WalkEntries(es[1..], base, patterns)
      else if Skipped(rel, patterns) then WalkEntries(es[1..], base, patterns)
      else if e.DirEntry? then
        match Walk(e.listing, rel, patterns)
        case None => None
        case Some(children) => Prepend([Dir(e.name, rel, Listed(children))], WalkEntries(es[1..], base, patterns))
      else Prepend([File(e.name, rel)], WalkEntries(es[1..], base, patterns))
  }

  method WalkDirectory(listing: Listing, base: string, patterns: seq<string>)
    returns (result: Option<seq<Node>>)
    requires AllCompilable(patterns)
    ensures result == Walk(listing, base, patterns)
    decreases listing, 1
  {
    if listing.Unreadable? {
      return None;
    }
    var es := listing.entries;
    var acc: seq<Node> := [];
    var i := 0;
    assert es[0..] == es;
    PrependNothing(WalkEntries(es, base, patterns));
    while i < |es|
      invariant 0 <= i <= |es|
      invariant WalkEntries(es, base, patterns) == Prepend(acc, WalkEntries(es[i..], base, patterns))
    {
      var e := es[i];
      assert es[i..][0] == e;
      assert es[i..][1..] == es[i + 1..];
      var rel := JoinPath(base, e.name);
      if Hidden(e.name) && e.name != ".gitignore" {
        i := i + 1;
        continue;
      }
      if e.BrokenEntry? {
        return None;
      }
      if e.name == ".gitignore" || Skipped(rel, patterns) {
        i := i + 1;
        continue;
      }
      var node: Node;
      if e.DirEntry? {
        var children := WalkDirectory(e.listing, rel, patterns);
        if children.None? {
          return None;
        }
        node := Dir(e.name, rel, Listed(children.value));
      } else {
        node := File(e.name, rel);
      }
      PrependTwice(acc, node, WalkEntries(es[i + 1..], base, patterns));
      acc := acc + [node];
      i := i + 1;
    }
    assert es[i..] == [];
    assert acc + [] == acc;
    return Some(acc);
  }

  /** The body of a JSON response. */
  datatype Body = Tree(nodes: seq<Node>) | Error(message: string)

  datatype Response = Response(status: int, body: Body)

  /** What the handler answers: `dirPath` is the query parameter (`None`
      when absent), `fsAvailable` whether `fs/promises` could be loaded,
      `gitignore` the outcome of reading `.gitignore` and `root` the outcome
      of reading the directory. */
  function Get(dirPath: Option<string>, fsAvailable: bool, gitignore: Option<string>, root: Listing): Response
    requires AllCompilable(ReadGitignore(gitignore))
  {
    if !fsAvailable then Response(200, Tree(TestTree))
    else if dirPath.None? || dirPath.value == "" then Response(400, Error("dirPath missing"))
    else
      match Walk(root, "", ReadGitignore(gitignore))
      case None => Response(500, Error("Unable to read directory"))
      case Some(tree) => Response(200, Tree(tree))
  }

  /** The handler's branches: the test tree without a file system, even
      when `dirPath` is missing; 400 for a missing `dirPath`; otherwise the
      walk's tree, or 500 when it fails. An unreadable `.gitignore` only
      means no patterns. */
  lemma GetBranches(dirPath: Option<string>, fsAvailable: bool, gitignore: Option<string>, root: Listing)
    requires AllCompilable(ReadGitignore(gitignore))
    ensures var r := Get(dirPath, fsAvailable, gitignore, root);
      && (!fsAvailable ==> r == Response(200, Tree(TestTree)))
      && (fsAvailable && (dirPath == None || dirPath == Some("")) ==> r.status == 400)
      && (fsAvailable && dirPath.Some? && dirPath.value != "" ==>
            (r.status == 500 <==> Walk(root, "", ReadGitignore(gitignore)).None?)
            && (r.status == 200 ==> r.body == Tree(Walk(root, "", ReadGitignore(gitignore)).value)))
      && (gitignore.None? ==> ReadGitignore(gitignore) == [])
  {
  }

  // ----- what the walk promises -----

  /** Every listed node is visible, is not skipped, has `path.join(base,
      name)` as its path, and a directory carries the listing of its own
      contents. */
  predicate Clean(ns: seq<Node>, base: string, patterns: seq<string>)
    requires AllCompilable(patterns)
    decreases ns
  {
    forall k | 0 <= k < |ns| :: CleanNode(ns[k], base, patterns)
  }

  predicate CleanNode(n: Node, base: string, patterns: seq<string>)
    requires AllCompilable(patterns)
    decreases n
  {
    && !Hidden(n.name)
    && n.path == JoinPath(base, n.name)
    && !Skipped(n.path, patterns)
    && (n.Dir? ==> n.children.Listed? && CleanChildren(n, patterns))
  }

  predicate CleanChildren(n: Node, patterns: seq<string>)
    requires AllCompilable(patterns) && n.Dir? && n.children.Listed?
    decreases n, 0
  {
    forall k | 0 <= k < |n.children.nodes| :: CleanNode(n.children.nodes[k], n.path, patterns)
  }

  lemma {:induction false} WalkIsClean(listing: Listing, base: string, patterns: seq<string>)
    requires AllCompilable(patterns)
    requires Walk(listing, base, patterns).Some?
    ensures Clean(Walk(listing, base, patterns).value, base, patterns)
    decreases listing, 1
  {
    WalkEntriesIsClean(listing.entries, base, patterns);
  }

  lemma {:induction false} WalkEntriesIsClean(es: seq<Entry>, base: string, patterns: seq<string>)
    requires AllCompilable(patterns)
    requires WalkEntries(es, base, patterns).Some?
    ensures Clean(WalkEntries(es, base, patterns).value, base, patterns)
    decreases es, 0
  {
    if es != [] {
      var e := es[0];
      var rel := JoinPath(base, e.name);
      WalkEntriesIsClean(es[1..], base, patterns);
      if e.name == ".gitignore" {
        assert Hidden(e.name);
      }
      if e.DirEntry? && !Hidden(e.name) && !Skipped(rel, patterns) {
        WalkIsClean(e.listing, rel, patterns);
      }
    }
  }

  /** A walk fails exactly when its directory cannot be read, or one of its
      entries whose `stat` is reached cannot be `stat`ed, or the walk of
      one of its listed subdirectories fails. */
  lemma {:induction false} WalkFailsIff(es: seq<Entry>, base: string, patterns: seq<string>)
    requires AllCompilable(patterns)
    ensures WalkEntries(es, base, patterns).None? <==>
      exists k | 0 <= k < |es| :: FailsAt(es[k], base, patterns)
  {
    if es != [] {
      WalkFailsIff(es[1..], base, patterns);
      if exists k | 0 <= k < |es[1..]| :: FailsAt(es[1..][k], base, patterns) {
        var k :| 0 <= k < |es[1..]| && FailsAt(es[1..][k], base, patterns);
        assert es[k + 1] == es[1..][k];
      }
      if exists k | 0 <= k < |es| :: FailsAt(es[k], base, patterns) {
        var k :| 0 <= k < |es| && FailsAt(es[k], base, patterns);
        if k > 0 {
          assert es[1..][k - 1] == es[k];
        }
      }
    }
  }

  /** Entry `e` makes the walk of its directory fail. */
  predicate FailsAt(e: Entry, base: string, patterns: seq<string>)
    requires AllCompilable(patterns)
  {
    var reached := !(Hidden(e.name) && e.name != ".gitignore");
    var rel := JoinPath(base, e.name);
    || (reached && e.BrokenEntry?)
    || (e.DirEntry? && !Hidden(e.name) && !Skipped(rel, patterns) && Walk(e.listing, rel, patterns).None?)
  }

  /** The fixed tree answered without a file system. */
  const TestTree: seq<Node> := [
    Dir("src", "src", Listed([
      Dir("components", "src/components", Listed([
        File("Button.tsx", "src/components/Button.tsx"),
        File("Card.tsx", "src/components/Card.tsx"),
        File("Modal.tsx", "src/components/Modal.tsx"),
        Dir("ui", "src/components/ui", Listed([
          File("Input.tsx", "src/components/ui/Input.tsx"),
          File("Select.tsx", "src/components/ui/Select.tsx")
        ]))
      ])),
      Dir("utils", "src/utils", Listed([
        File("helpers.ts", "src/utils/helpers.ts"),
        File("constants.ts", "src/utils/constants.ts"),
        File("api.ts", "src/utils/api.ts")
      ])),
      File("App.tsx", "src/App.tsx"),
      File("index.tsx", "src/index.tsx")
    ]))
  ]
}
