/** The file-type classifier (lib/file-types.ts): extensions of file names,
    the preset table, the per-extension and per-preset counts, and the
    extension filter. */
module FileTypes {
  import opened Strings
  import opened Optional

  /** The keys of `FILE_TYPE_PRESETS`, in declaration order. */
  datatype Preset = Frontend | Backend | Config | Docs | Scripts | Data

  const PresetOrder: seq<Preset> := [Frontend, Backend, Config, Docs, Scripts, Data]

  function PresetName(p: Preset): string {
    match p
    case Frontend => "frontend"
    case Backend => "backend"
    case Config => "config"
    case Docs => "docs"
    case Scripts => "scripts"
    case Data => "data"
  }

  /** The `extensions` list of each preset. */
  function Extensions(p: Preset): seq<string> {
    match p
    case Frontend => ["tsx", "jsx", "ts", "js", "vue", "svelte", "html", "css", "scss", "sass", "less", "styl"]
    case Backend => ["py", "java", "go", "rs", "rb", "php", "cs", "cpp", "c", "kt", "scala", "clj"]
    case Config => ["json", "yaml", "yml", "toml", "ini", "env", "conf", "config", "xml", "properties"]
    case Docs => ["md", "txt", "rst", "adoc", "tex", "rtf"]
    case Scripts => ["sh", "bash", "zsh", "fish", "ps1", "bat", "cmd"]
    case Data => ["csv", "tsv", "json", "xml", "sql", "db", "sqlite"]
  }

  /** The `extensions` list of preset `p` includes `e`. */
  predicate Lists(p: Preset, e: string) {
    e in Extensions(p)
  }

  /** `getFileExtension(filename)` */
  function GetFileExtension(filename: string): string {
    var parts := Split(Lower(filename), '.');
    if |parts| == 1 then ""
    else if StartsWith(filename, ".") && |parts| == 2 then filename[1..]
    else parts[|parts| - 1]
  }

  /** A name without a dot has the empty extension. */
  lemma ExtensionWithoutDot(name: string)
    requires !HasChar(name, '.')
    ensures GetFileExtension(name) == ""
  {
    LowerKeepsChar(name, '.');
    SplitNoSeparator(Lower(name), '.');
  }

  /** A dot file with a single dot gives the rest of its name, with its
      case kept (`.ENV` gives `ENV`). */
  lemma ExtensionOfDotFile(b: string)
    requires !HasChar(b, '.')
    ensures GetFileExtension("." + b) == b
  {
    LowerAppend(".", b);
    LowerKeepsChar(b, '.');
    assert Lower(".") == ".";
    SplitAround([], '.', Lower(b));
    assert [] + ['.'] + Lower(b) == "." + Lower(b);
    SplitNoSeparator(Lower(b), '.');
    assert ("." + b)[1..] == b;
  }

  lemma LowerAroundDot(a: string, b: string)
    ensures Lower(a + "." + b) == Lower(a) + ['.'] + Lower(b)
  {
    LowerAppend(a + ".", b);
    LowerAppend(a, ".");
    assert Lower(".") == ".";
  }

  lemma SplitAroundLastDot(a: string, b: string)
    requires !HasChar(b, '.')
    ensures Split(Lower(a + "." + b), '.') == Split(Lower(a), '.') + [Lower(b)]
  {
    LowerAroundDot(a, b);
    LowerKeepsChar(b, '.');
    SplitAround(Lower(a), '.', Lower(b));
    SplitNoSeparator(Lower(b), '.');
  }

  lemma LeadingDotSplits(a: string)
    requires StartsWith(a, ".")
    ensures |Split(Lower(a), '.')| > 1
  {
    assert a[0] == '.';
    LowerKeepsChar(a, '.');
    SplitNoSeparatorConverse(Lower(a), '.');
  }

  /** Otherwise the extension is the lowercased text after the last dot
      (`a.b.tsx` and `X.TSX` give `tsx`, `a.` gives the empty string). */
  lemma ExtensionAfterLastDot(a: string, b: string)
    requires a != [] && !HasChar(b, '.')
    ensures GetFileExtension(a + "." + b) == Lower(b)
  {
    var name := a + "." + b;
    var parts := Split(Lower(name), '.');
    SplitAroundLastDot(a, b);
    assert parts[|parts| - 1] == Lower(b);
    if StartsWith(name, ".") {
      assert a[0] == name[0];
      assert StartsWith(a, ".");
      LeadingDotSplits(a);
      assert |parts| > 2;
    }
  }

  /** The first preset of `order` whose list holds `e`. */
  function FirstPreset(order: seq<Preset>, e: string): Option<Preset> {
    if order == [] then None
    else if Lists(order[0], e) then Some(order[0])
    else FirstPreset(order[1..], e)
  }

  /** `FirstPreset` finds a preset listing `e` exactly when there is one,
      and no earlier preset lists `e`. */
  lemma {:induction false} FirstPresetSpec(order: seq<Preset>, e: string)
    ensures var r := FirstPreset(order, e);
      && (r.None? <==> forall k | 0 <= k < |order| :: !Lists(order[k], e))
      && (r.Some? ==> exists i | 0 <= i < |order| ::
            (order[i] == r.value && Lists(order[i], e)
             && forall k | 0 <= k < i :: !Lists(order[k], e)))
  {
    if order != [] && !Lists(order[0], e) {
      FirstPresetSpec(order[1..], e);
      var r := FirstPreset(order[1..], e);
      if r.Some? {
        var i :| 0 <= i < |order[1..]| && order[1..][i] == r.value && Lists(order[1..][i], e) &&
          forall k | 0 <= k < i :: !Lists(order[1..][k], e);
        assert order[i + 1] == r.value;
        forall k | 0 <= k < i + 1 ensures !Lists(order[k], e) {
          if k > 0 { assert order[k] == order[1..][k - 1]; }
        }
      } else {
        forall k | 0 <= k < |order| ensures !Lists(order[k], e) {
          if k > 0 { assert order[k] == order[1..][k - 1]; }
        }
      }
    } else if order != [] {
      assert order[0] == FirstPreset(order, e).value;
    }
  }

  /** `getFileTypePreset(extension)`: the first preset, in declaration
      order, that lists the lowercased extension. */
  function GetFileTypePreset(extension: string): Option<Preset> {
    FirstPreset(PresetOrder, Lower(extension))
  }

  /** `json` and `xml` are listed by both config and data; config wins. */
  lemma SharedExtensionsAreConfig()
    ensures GetFileTypePreset("json") == Some(Config)
    ensures GetFileTypePreset("XML") == Some(Config)
  {
    JsonAndXmlListing();
    assert Lower("json") == "json";
    assert Lower("XML") == "xml";
  }

  lemma JsonAndXmlListing()
    ensures !Lists(Frontend, "json") && !Lists(Backend, "json") && Lists(Config, "json")
    ensures !Lists(Frontend, "xml") && !Lists(Backend, "xml") && Lists(Config, "xml")
  {
  }

  /** The extension `analyzeFileTypes` computes for one path: that of its
      last `/`-segment. */
  function PathExtension(path: string): string {
    GetFileExtension(LastPiece(path, '/'))
  }

  /** The non-empty extensions of `paths`, in order. */
  function ExtensionList(paths: seq<string>): (r: seq<string>)
    ensures |r| <= |paths|
    ensures forall k | 0 <= k < |r| :: r[k] != ""
  {
    if paths == [] then []
    else
      var e := PathExtension(paths[|paths| - 1]);
      ExtensionList(paths[..|paths| - 1]) + (if e != "" then [e] else [])
  }

  /** The presets of those extensions that have one, in order. */
  function PresetList(exts: seq<string>): seq<string> {
    if exts == [] then []
    else
      var p := GetFileTypePreset(exts[|exts| - 1]);
      PresetList(exts[..|exts| - 1]) + (if p.Some? then [PresetName(p.value)] else [])
  }

  /** Each element of `b` mapped to its number of occurrences. */
  ghost function CountMap(b: multiset<string>): (m: map<string, nat>)
    ensures forall e :: e in m <==> e in b
    ensures forall e | e in m :: m[e] == b[e]
  {
    map e | e in b :: b[e]
  }

  /** `m` with one more occurrence of `x`: `m.set(x, (m.get(x) || 0) + 1)`. */
  function Bump(m: map<string, nat>, x: string): map<string, nat> {
    m[x := (if x in m then m[x] else 0) + 1]
  }

  /** Bumping the count of `x` counts one more `x`. */
  lemma CountOneMore(b: multiset<string>, x: string)
    ensures CountMap(b + multiset{x}) == Bump(CountMap(b), x)
  {
  }

  lemma ExtensionListStep(paths: seq<string>, i: nat)
    requires i < |paths|
    ensures var e := PathExtension(paths[i]);
      ExtensionList(paths[..i + 1]) == ExtensionList(paths[..i]) + (if e != "" then [e] else [])
  {
    assert paths[..i + 1][..i] == paths[..i];
  }

  lemma PresetListStep(exts: seq<string>, e: string)
    ensures var p := GetFileTypePreset(e);
      PresetList(exts + [e]) == PresetList(exts) + (if p.Some? then [PresetName(p.value)] else [])
  {
    assert (exts + [e])[..|exts|] == exts;
  }

  /** One path's effect on the extension counts. */
  lemma ExtensionStep(paths: seq<string>, i: nat, extensions: map<string, nat>)
    requires i < |paths|
    requires extensions == CountMap(multiset(ExtensionList(paths[..i])))
    ensures var e := PathExtension(paths[i]);
      (if e != "" then Bump(extensions, e) else extensions) == CountMap(multiset(ExtensionList(paths[..i + 1])))
  {
    var e := PathExtension(paths[i]);
    var before := ExtensionList(paths[..i]);
    ExtensionListStep(paths, i);
    if e != "" {
      assert multiset(before + [e]) == multiset(before) + multiset{e};
      CountOneMore(multiset(before), e);
    }
  }

  /** One path's effect on the preset counts. */
  lemma PresetStep(paths: seq<string>, i: nat, presets: map<string, nat>)
    requires i < |paths|
    requires presets == CountMap(multiset(PresetList(ExtensionList(paths[..i]))))
    ensures var e := PathExtension(paths[i]);
      var p := GetFileTypePreset(e);
      (if e != "" && p.Some? then Bump(presets, PresetName(p.value)) else presets)
        == CountMap(multiset(PresetList(ExtensionList(paths[..i + 1]))))
  {
    var e := PathExtension(paths[i]);
    var before := ExtensionList(paths[..i]);
    var after := ExtensionList(paths[..i + 1]);
    ExtensionListStep(paths, i);
    if e != "" {
      assert after == before + [e];
      PresetListStep(before, e);
      var p := GetFileTypePreset(e);
      if p.Some? {
        var name := PresetName(p.value);
        assert PresetList(after) == PresetList(before) + [name];
        assert multiset(PresetList(before) + [name]) == multiset(PresetList(before)) + multiset{name};
        CountOneMore(multiset(PresetList(before)), name);
      } else {
        assert PresetList(after) == PresetList(before);
      }
    } else {
      assert after == before;
    }
  }

  /** The three results of `analyzeFileTypes`. */
  datatype Analysis = Analysis(extensions: map<string, nat>, presets: map<string, nat>, total: nat)

  /** What one path adds to the analysis. */
  function Tallied(path: string, a: Analysis): Analysis {
    var e := PathExtension(path);
    if e == "" then a
    else
      var p := GetFileTypePreset(e);
      Analysis(Bump(a.extensions, e),
               if p.Some? then Bump(a.presets, PresetName(p.value)) else a.presets,
               a.total + 1)
  }

  /** The analysis of a list of paths, one path after another. */
  function Analyze(paths: seq<string>): Analysis {
    if paths == [] then Analysis(map[], map[], 0)
    else Tallied(paths[|paths| - 1], Analyze(paths[..|paths| - 1]))
  }

  /** The analysis counts every non-empty extension and every preset of
      those extensions, and `total` is the number of such extensions. */
  lemma {:induction false} AnalyzeCounts(paths: seq<string>)
    ensures var exts := ExtensionList(paths);
      Analyze(paths) == Analysis(CountMap(multiset(exts)), CountMap(multiset(PresetList(exts))), |exts|)
  {
    if paths != [] {
      var n := |paths| - 1;
      var prefix := paths[..n];
      AnalyzeCounts(prefix);
      assert paths[..n + 1] == paths;
      var a := Analyze(prefix);
      ExtensionListStep(paths, n);
      ExtensionStep(paths, n, a.extensions);
      PresetStep(paths, n, a.presets);
    }
  }

  /** `analyzeFileTypes(filePaths)`. `total` is the number of paths with a
      non-empty extension, and each map counts the occurrences of its keys. */
  method AnalyzeFileTypes(filePaths: seq<string>)
    returns (extensions: map<string, nat>, presets: map<string, nat>, total: nat)
    ensures total == |ExtensionList(filePaths)|
    ensures extensions == CountMap(multiset(ExtensionList(filePaths)))
    ensures presets == CountMap(multiset(PresetList(ExtensionList(filePaths))))
  {
    extensions, presets, total := map[], map[], 0;
    var i := 0;
    while i < |filePaths|
      invariant 0 <= i <= |filePaths|
      invariant Analysis(extensions, presets, total) == Analyze(filePaths[..i])
    {
      assert filePaths[..i + 1][..i] == filePaths[..i];
      var filename := LastPiece(filePaths[i], '/');
      var ext := GetFileExtension(filename);
      if ext != "" {
        total := total + 1;
        extensions := Bump(extensions, ext);
        var preset := GetFileTypePreset(ext);
        if preset.Some? {
          presets := Bump(presets, PresetName(preset.value));
        }
      }
      i := i + 1;
    }
    assert filePaths[..i] == filePaths;
    AnalyzeCounts(filePaths);
  }

  /** Extension counts account for exactly `total` paths, and preset counts
      for at most that many: an extension has at most one preset. */
  lemma {:induction false} PresetsWithinTotal(exts: seq<string>)
    ensures |PresetList(exts)| <= |exts|
  {
    if exts != [] {
      PresetsWithinTotal(exts[..|exts| - 1]);
    }
  }

  /** `shouldIncludeFile(filename, selectedExtensions)` */
  predicate ShouldIncludeFile(filename: string, selectedExtensions: set<string>) {
    |selectedExtensions| == 0 || GetFileExtension(filename) in selectedExtensions
  }

  /** An empty filter admits every file; a non-empty one admits a file
      without a dot only if it holds the empty extension. */
  lemma FilterOnDotlessName(name: string, selected: set<string>)
    requires !HasChar(name, '.')
    ensures ShouldIncludeFile(name, selected) <==> selected == {} || "" in selected
  {
    ExtensionWithoutDot(name);
  }

  /** A non-empty filter admits `a.b` iff it holds the lowercased `b`. */
  lemma FilterOnExtension(a: string, b: string, selected: set<string>)
    requires a != [] && !HasChar(b, '.') && selected != {}
    ensures ShouldIncludeFile(a + "." + b, selected) <==> Lower(b) in selected
  {
    ExtensionAfterLastDot(a, b);
  }
}
