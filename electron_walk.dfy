/** The desktop build's directory listing (electron/main.js): the
    `get-directory-contents` handler, its recursive helper
    `getDirectoryContentsRecursive`, and the gitignore handling they use,
    which duplicates the first gitignore dialect except that patterns keep
    their backslashes. */
module ElectronWalk {
  import opened Strings
  import opened Optional
  import opened FileNodes
  import opened FileSystem
  import ExcludePatterns

  // ----- gitignore patterns -----

  /** The six patterns used when `.gitignore` cannot be read. */
  const DefaultPatterns: seq<string> :=
    ["node_modules/**", "dist/**", "build/**", ".next/**", "coverage/**", ".git/**"]

  /** `readGitignorePatterns(dirPath)`, given the outcome of reading
      `.gitignore` (`None` when the read throws). The parser is the one of
      lib/exclude-patterns.ts, character for character. */
  function ReadGitignorePatterns(gitignore: Option<string>): (r: seq<string>)
    ensures gitignore.None? ==> r == DefaultPatterns
    ensures gitignore.Some? ==> r == ExcludePatterns.ParseGitignorePatterns(gitignore.value)
  {
    match gitignore
    case None => DefaultPatterns
    case Some(content) => ExcludePatterns.ParseGitignorePatterns(content)
  }

  /** This copy of the matcher never rewrites `\` in a pattern, so a
      backslash would reach the regular expression as an escape: patterns
      must be free of it as well as of the other metacharacters. */
  predicate SafePattern(p: string) {
    ExcludePatterns.SafeGlob(p) && !HasChar(p, '\\')
  }

  predicate AllSafe(patterns: seq<string>) {
    forall k | 0 <= k < |patterns| :: SafePattern(patterns[k])
  }

  /** `matchesGitignorePattern(filePath, pattern)`: the same rewrite chain
      as the first dialect, on the pattern as given. */
  predicate MatchesGitignorePattern(filePath: string, pattern: string)
    requires SafePattern(pattern)
  {
    ExcludePatterns.MatchA(pattern, filePath)
  }

  function AnyPatternMatches(normalizedPath: string, patterns: seq<string>): (r: bool)
    requires AllSafe(patterns)
    ensures r <==> exists k | 0 <= k < |patterns| :: MatchesGitignorePattern(normalizedPath, patterns[k])
  {
    if patterns == [] then false
    else
      MatchesGitignorePattern(normalizedPath, patterns[0]) || AnyPatternMatches(normalizedPath, patterns[1..])
  }

  /** `shouldIgnoreFile(filePath, patterns)`: backslashes in the path become
      `/`, then some pattern must match. */
  function ShouldIgnoreFile(filePath: string, patterns: seq<string>): (r: bool)
    requires AllSafe(patterns)
    ensures r <==> exists k | 0 <= k < |patterns| ::
      MatchesGitignorePattern(ReplaceChar(filePath, '\\', '/'), patterns[k])
    ensures patterns == [] ==> !r
  {
    AnyPatternMatches(ReplaceChar(filePath, '\\', '/'), patterns)
  }

  /** On patterns without a backslash the desktop matcher and the one of
      lib/exclude-patterns.ts agree. */
  lemma ShouldIgnoreAgreesWithLib(filePath: string, patterns: seq<string>)
    requires AllSafe(patterns)
    ensures ShouldIgnoreFile(filePath, patterns) == ExcludePatterns.MatchesPatterns(filePath, patterns)
  {
    var n := ReplaceChar(filePath, '\\', '/');
    ExcludePatterns.ReplaceTwice(filePath);
    forall k | 0 <= k < |patterns|
      ensures MatchesGitignorePattern(n, patterns[k]) == ExcludePatterns.MatchesGlob(filePath, patterns[k])
    {
      ExcludePatterns.ReplaceAbsent(patterns[k], '\\', '/');
    }
  }

  /** A pattern made of lower-case letters, `_`, `.`, `/` and `*` is safe. */
  lemma WordPatternIsSafe(p: string)
    requires forall i | 0 <= i < |p| :: 'a' <= p[i] <= 'z' || p[i] in "_./*"
    ensures SafePattern(p)
  {
  }

  /** The defaults contain no metacharacter and no backslash. */
  lemma DefaultPatternsAreSafe()
    ensures AllSafe(DefaultPatterns)
  {
    WordPatternIsSafe("node_modules/**");
    WordPatternIsSafe("dist/**");
    WordPatternIsSafe("build/**");
    WordPatternIsSafe(".next/**");
    WordPatternIsSafe("coverage/**");
    WordPatternIsSafe(".git/**");
  }

  // `node_modules/**`, the first default, hides the entries directly
  // inside `node_modules` but neither the directory itself nor anything
  // deeper.
  lemma NodeModulesDefault(name: string, a: string, b: string)
    requires name != [] && !HasChar(name, '/') && !IsLineTerminator(name[0])
    requires a != []
    ensures MatchesGitignorePattern("node_modules/" + name, DefaultPatterns[0])
    ensures !MatchesGitignorePattern("node_modules", DefaultPatterns[0])
    ensures !MatchesGitignorePattern("node_modules/" + a + "/" + b, DefaultPatterns[0])
  {
    WordPatternIsSafe("node_modules/**");
    var l := "node_modules";
    assert ExcludePatterns.Plain(l) by {
      assert forall i | 0 <= i < |l| :: l[i] != '*' && l[i] != '?';
    }
    assert DefaultPatterns[0] == l + "/**";
    assert "node_modules/" == l + "/";
    assert "node_modules/" + name == l + "/" + name;
    assert "node_modules/" + a + "/" + b == l + "/" + a + "/" + b;
    ExcludePatterns.DirGlobMatchesChild(l, name);
    ExcludePatterns.DirGlobSkipsItself(l);
    ExcludePatterns.DirGlobSkipsGrandchild(l, a, b);
  }

  // ----- the walks -----

  /** Names starting with `.` are skipped before anything else, except
      `.gitignore`, which is `stat`ed and only then skipped. */
  predicate Hidden(name: string) {
    StartsWith(name, ".")
  }

  /** The path an entry is tested and listed under: the bare name at the
      top level, and `path.join(relativePath, entry)` with `\` turned into
      `/` below it. */
  function EntryPath(base: Option<string>, name: string): string {
    match base
    case None => name
    case Some(rel) => ReplaceChar(JoinPath(rel, name), '\\', '/')
  }

  /** The loop over one directory's entries, front to back: `None` when a
      `stat` throws (the rest of the listing is then lost). */
  function WalkEntries(es: seq<Entry>, base: Option<string>, patterns: seq<string>): Option<seq<Node>>
    requires AllSafe(patterns)
    decreases es, 1
  {
    if es == [] then Some([])
    else
      var e := es[0];
      if Hidden(e.name) && e.name != ".gitignore" then WalkEntries(es[1..], base, patterns)
      else if e.BrokenEntry? then None
      else if e.name == ".gitignore" then WalkEntries(es[1..], base, patterns)
      else
        var p := EntryPath(base, e.name);
        if ShouldIgnoreFile(p, patterns) then WalkEntries(es[1..], base, patterns)
        else
          var node :=
            if e.DirEntry? then Dir(e.name, p, Listed(RecursiveContents(e.listing, p, patterns)))
            else File(e.name, p);
          match WalkEntries(es[1..], base, patterns)
          case None => None
          case Some(ns) => Some([node] + ns)
  }

  /** `getDirectoryContentsRecursive`: any failure inside a subdirectory,
      its own `readdir` included, gives an empty list for it. */
  function RecursiveContents(listing: Listing, relativePath: string, patterns: seq<string>): seq<Node>
    requires AllSafe(patterns)
    decreases listing, 0
  {
    match listing
    case Unreadable => []
    case Entries(es) =>
      match WalkEntries(es, Some(relativePath), patterns)
      case None => []
      case Some(ns) => ns
  }

  /** The `get-directory-contents` handler: `None` stands for the thrown
      `Unable to read directory: …` error. */
  function DirectoryContents(root: Listing, patterns: seq<string>): Option<seq<Node>>
    requires AllSafe(patterns)
  {
    match root
    case Unreadable => None
    case Entries(es) => WalkEntries(es, None, patterns)
  }

  method WalkLoop(es: seq<Entry>, base: Option<string>, patterns: seq<string>)
    returns (result: Option<seq<Node>>)
    requires AllSafe(patterns)
    ensures result == WalkEntries(es, base, patterns)
    decreases es, 1
  {
    var acc: seq<Node> := [];
    var i := 0;
    assert es[0..] == es;
    PrependNothing(WalkEntries(es, base, patterns));
    while i < |es|
      invariant 0 <= i <= |es|
      invariant WalkEntries(es, base, patterns) == Prepend(acc, WalkEntries(es[i..], base, patterns))
    {
      var e := es[i];
      assert es[i..][0] == e;
      assert es[i..][1..] == es[i + 1..];
      if Hidden(e.name) && e.name != ".gitignore" {
        i := i + 1;
        continue;
      }
      if e.BrokenEntry? {
        return None;
      }
      if e.name == ".gitignore" {
        i := i + 1;
        continue;
      }
      var p := EntryPath(base, e.name);
      if ShouldIgnoreFile(p, patterns) {
        i := i + 1;
        continue;
      }
      var node: Node;
      if e.DirEntry? {
        var children := GetDirectoryContentsRecursive(e.listing, p, patterns);
        node := Dir(e.name, p, Listed(children));
      } else {
        node := File(e.name, p);
      }
      PrependTwice(acc, node, WalkEntries(es[i + 1..], base, patterns));
      acc := acc + [node];
      i := i + 1;
    }
    assert es[i..] == [];
    assert acc + [] == acc;
    return Some(acc);
  }

  method GetDirectoryContentsRecursive(listing: Listing, relativePath: string, patterns: seq<string>)
    returns (result: seq<Node>)
    requires AllSafe(patterns)
    ensures result == RecursiveContents(listing, relativePath, patterns)
    decreases listing, 0
  {
    if listing.Unreadable? {
      return [];
    }
    var r := WalkLoop(listing.entries, Some(relativePath), patterns);
    result := if r.Some? then r.value else [];
  }

  /** The handler reads `.gitignore` first and then lists the directory. */
  method GetDirectoryContents(gitignore: Option<string>, root: Listing)
    returns (result: Option<seq<Node>>)
    requires AllSafe(ReadGitignorePatterns(gitignore))
    ensures result == DirectoryContents(root, ReadGitignorePatterns(gitignore))
  {
    var patterns := ReadGitignorePatterns(gitignore);
    if root.Unreadable? {
      return None;
    }
    result := WalkLoop(root.entries, None, patterns);
  }

  // ----- what the walk promises -----

  /** Every listed node is visible, has the path its position gives it,
      is not ignored, and a directory carries the listing of its own
      contents. */
  predicate Clean(ns: seq<Node>, base: Option<string>, patterns: seq<string>)
    requires AllSafe(patterns)
    decreases ns
  {
    forall k | 0 <= k < |ns| :: CleanNode(ns[k], base, patterns)
  }

  predicate CleanNode(n: Node, base: Option<string>, patterns: seq<string>)
    requires AllSafe(patterns)
    decreases n
  {
    && !Hidden(n.name)
    && n.path == EntryPath(base, n.name)
    && !ShouldIgnoreFile(n.path, patterns)
    && (n.Dir? ==> n.children.Listed? && CleanChildren(n, patterns))
  }

  predicate CleanChildren(n: Node, patterns: seq<string>)
    requires AllSafe(patterns) && n.Dir? && n.children.Listed?
    decreases n, 0
  {
    forall k | 0 <= k < |n.children.nodes| ::
      CleanNode(n.children.nodes[k], Some(n.path), patterns)
  }

  lemma {:induction false} WalkIsClean(es: seq<Entry>, base: Option<string>, patterns: seq<string>)
    requires AllSafe(patterns)
    requires WalkEntries(es, base, patterns).Some?
    ensures Clean(WalkEntries(es, base, patterns).value, base, patterns)
    decreases es, 1
  {
    if es != [] {
      var e := es[0];
      var rest := WalkEntries(es[1..], base, patterns);
      if !(Hidden(e.name) && e.name != ".gitignore") && e.name != ".gitignore" {
        var p := EntryPath(base, e.name);
        WalkIsClean(es[1..], base, patterns);
        if !ShouldIgnoreFile(p, patterns) {
          var ns := rest.value;
          if e.DirEntry? {
            RecursiveIsClean(e.listing, p, patterns);
          }
          assert !Hidden(e.name) by {
            assert e.name != ".gitignore";
          }
        }
      } else {
        WalkIsClean(es[1..], base, patterns);
      }
    }
  }

  lemma {:induction false} RecursiveIsClean(listing: Listing, relativePath: string, patterns: seq<string>)
    requires AllSafe(patterns)
    ensures Clean(RecursiveContents(listing, relativePath, patterns), Some(relativePath), patterns)
    decreases listing, 0
  {
    if listing.Entries? && WalkEntries(listing.entries, Some(relativePath), patterns).Some? {
      WalkIsClean(listing.entries, Some(relativePath), patterns);
    }
  }

  /** Whatever the handler lists, at any depth, is visible (so never
      `.gitignore`) and not ignored by the patterns. */
  lemma ListingIsClean(root: Listing, patterns: seq<string>)
    requires AllSafe(patterns)
    requires DirectoryContents(root, patterns).Some?
    ensures var ns := DirectoryContents(root, patterns).value;
      && Clean(ns, None, patterns)
      && (forall k | 0 <= k < |ns| :: ns[k].path == ns[k].name)
      && (forall n | n in Flatten(ns) :: !Hidden(n.name) && !ShouldIgnoreFile(n.path, patterns))
  {
    var ns := DirectoryContents(root, patterns).value;
    WalkIsClean(root.entries, None, patterns);
    CleanFlatten(ns, None, patterns);
  }

  lemma {:induction false} CleanFlatten(ns: seq<Node>, base: Option<string>, patterns: seq<string>)
    requires AllSafe(patterns) && Clean(ns, base, patterns)
    ensures forall n | n in Flatten(ns) :: !Hidden(n.name) && !ShouldIgnoreFile(n.path, patterns)
    decreases ns, 1
  {
    if ns != [] {
      CleanFlattenOne(ns[0], base, patterns);
      CleanFlatten(ns[1..], base, patterns);
    }
  }

  lemma {:induction false} CleanFlattenOne(n: Node, base: Option<string>, patterns: seq<string>)
    requires AllSafe(patterns) && CleanNode(n, base, patterns)
    ensures forall m | m in FlattenOne(n) :: !Hidden(m.name) && !ShouldIgnoreFile(m.path, patterns)
    decreases n, 0
  {
    if n.Dir? {
      CleanFlatten(n.children.nodes, Some(n.path), patterns);
    }
  }

  /** An entry whose `stat` is reached: it is not skipped for being
      hidden. */
  predicate Statted(e: Entry) {
    !(Hidden(e.name) && e.name != ".gitignore")
  }

  /** A directory's listing fails exactly when some entry whose `stat` is
      reached cannot be `stat`ed, wherever it stands in the listing, and
      even when that entry would have been ignored. */
  lemma {:induction false} WalkFailsIff(es: seq<Entry>, base: Option<string>, patterns: seq<string>)
    requires AllSafe(patterns)
    ensures WalkEntries(es, base, patterns).None? <==>
      exists k | 0 <= k < |es| :: es[k].BrokenEntry? && Statted(es[k])
  {
    if es != [] {
      WalkFailsIff(es[1..], base, patterns);
      if exists k | 0 <= k < |es[1..]| :: es[1..][k].BrokenEntry? && Statted(es[1..][k]) {
        var k :| 0 <= k < |es[1..]| && es[1..][k].BrokenEntry? && Statted(es[1..][k]);
        assert es[k + 1] == es[1..][k];
      }
      if exists k | 0 <= k < |es| :: es[k].BrokenEntry? && Statted(es[k]) {
        var k :| 0 <= k < |es| && es[k].BrokenEntry? && Statted(es[k]);
        if k > 0 {
          assert es[1..][k - 1] == es[k];
        }
      }
    }
  }

  /** So an unreadable subdirectory, or one holding an entry whose `stat`
      throws, is listed as an empty directory, while the same trouble at the
      top level fails the whole request. */
  lemma BrokenSubdirectoryIsEmpty(name: string, es: seq<Entry>, k: nat, patterns: seq<string>)
    requires AllSafe(patterns)
    requires k < |es| && es[k].BrokenEntry? && Statted(es[k])
    requires !Hidden(name) && !ShouldIgnoreFile(name, patterns)
    ensures DirectoryContents(Entries(es), patterns).None?
    ensures DirectoryContents(Entries([DirEntry(name, Entries(es))]), patterns) ==
      Some([Dir(name, name, Listed([]))])
  {
    WalkFailsIff(es, None, patterns);
    WalkFailsIff(es, Some(name), patterns);
    var top := [DirEntry(name, Entries(es))];
    assert top[0] == DirEntry(name, Entries(es)) && top[1..] == [];
    assert name != ".gitignore" by { assert !StartsWith(name, "."); }
    assert EntryPath(None, name) == name;
    assert RecursiveContents(Entries(es), name, patterns) == [];
    assert WalkEntries(top[1..], None, patterns) == Some([]);
    var node := Dir(name, name, Listed([]));
    assert [node] + [] == [node];
    assert WalkEntries(top, None, patterns) == Some([node]);
  }

  /** The names listed for a directory, in `readdir` order: the entries
      that are neither hidden, `.gitignore`, nor ignored. */
  function VisibleNames(es: seq<Entry>, base: Option<string>, patterns: seq<string>): seq<string>
    requires AllSafe(patterns)
  {
    if es == [] then []
    else
      var e := es[0];
      var keep := !Hidden(e.name) && !ShouldIgnoreFile(EntryPath(base, e.name), patterns);
      (if keep then [e.name] else []) + VisibleNames(es[1..], base, patterns)
  }

  function Names(ns: seq<Node>): (r: seq<string>)
    ensures |r| == |ns|
  {
    if ns == [] then [] else [ns[0].name] + Names(ns[1..])
  }

  /** When the listing succeeds it holds exactly the visible, unignored
      entries, in the order `readdir` gave them. */
  lemma {:induction false} WalkKeepsOrder(es: seq<Entry>, base: Option<string>, patterns: seq<string>)
    requires AllSafe(patterns)
    requires WalkEntries(es, base, patterns).Some?
    ensures Names(WalkEntries(es, base, patterns).value) == VisibleNames(es, base, patterns)
  {
    if es != [] {
      var e := es[0];
      WalkKeepsOrder(es[1..], base, patterns);
      if e.name == ".gitignore" {
        assert Hidden(e.name);
      }
    }
  }
}
