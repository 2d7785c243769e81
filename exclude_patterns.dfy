/** The first gitignore dialect (lib/exclude-patterns.ts): gitignore lines are
    normalised into globs, and a glob is turned into an anchored regular
    expression by a chain of textual rewrites. The chain turns `**` into `.*`
    and then rewrites that `*` again, so `**` ends up as `.[^/]*`: one
    arbitrary character followed by characters other than `/`. */
module ExcludePatterns {
  import opened Strings
  import opened Glob

  /** Characters that would change the meaning of the generated regular
      expression (or make it throw) if they appeared in a glob; the rewrite
      chain escapes only `.`. A backslash is fine here: this dialect turns
      it into `/` before compiling. */
  predicate IsRegexMeta(c: char) {
    c in "^$+()[]{}|"
  }

  predicate SafeGlob(p: string) {
    forall i | 0 <= i < |p| :: !IsRegexMeta(p[i])
  }

  /** `.replace(/\./g, '\\.').replace(/\*\*\/g, '.*').replace(/\*\/g, '[^/]*')
      .replace(/\?/g, '.')`, read as tokens: `.` is a literal dot, `**` becomes
      `.` followed by `[^/]*`, a lone `*` becomes `[^/]*`, `?` becomes `.`. */
  function CompileA(p: string): seq<Token>
    decreases |p|
  {
    if p == [] then []
    else if p[0] == '*' && |p| >= 2 && p[1] == '*' then [AnyChar, RunNoSlash] + CompileA(p[2..])
    else if p[0] == '*' then [RunNoSlash] + CompileA(p[1..])
    else if p[0] == '?' then [AnyChar] + CompileA(p[1..])
    else [Lit(p[0])] + CompileA(p[1..])
  }

  /** Whether the (already normalised) path matches the glob as compiled. */
  predicate MatchA(p: string, s: string) {
    Match(CompileA(p), s)
  }

  /** `matchesGlob(filePath, pattern)`: both sides have `\` turned into `/`,
      and the compiled glob must match the whole path. */
  predicate MatchesGlob(filePath: string, pattern: string)
    requires SafeGlob(pattern)
  {
    MatchA(ReplaceChar(pattern, '\\', '/'), ReplaceChar(filePath, '\\', '/'))
  }

  /** The loop of `matchesPatterns`: true as soon as one pattern matches. */
  function AnyMatches(normalizedPath: string, patterns: seq<string>): (r: bool)
    requires forall k | 0 <= k < |patterns| :: SafeGlob(patterns[k])
    ensures r <==> exists k | 0 <= k < |patterns| :: MatchesGlob(normalizedPath, patterns[k])
  {
    if patterns == [] then false
    else MatchesGlob(normalizedPath, patterns[0]) || AnyMatches(normalizedPath, patterns[1..])
  }

  /** `matchesPatterns(filePath, patterns)` */
  function MatchesPatterns(filePath: string, patterns: seq<string>): (r: bool)
    requires forall k | 0 <= k < |patterns| :: SafeGlob(patterns[k])
    ensures r <==> exists k | 0 <= k < |patterns| :: MatchesGlob(filePath, patterns[k])
    ensures patterns == [] ==> !r
  {
    var normalized := ReplaceChar(filePath, '\\', '/');
    ReplaceTwice(filePath);
    AnyMatches(normalized, patterns)
  }

  /** `shouldExcludeFileByGitignore` only forwards to `matchesPatterns`. */
  function ShouldExcludeFileByGitignore(filePath: string, gitignorePatterns: seq<string>): (r: bool)
    requires forall k | 0 <= k < |gitignorePatterns| :: SafeGlob(gitignorePatterns[k])
    ensures r <==> exists k | 0 <= k < |gitignorePatterns| :: MatchesGlob(filePath, gitignorePatterns[k])
  {
    MatchesPatterns(filePath, gitignorePatterns)
  }

  lemma ReplaceTwice(s: string)
    ensures ReplaceChar(ReplaceChar(s, '\\', '/'), '\\', '/') == ReplaceChar(s, '\\', '/')
  {
  }

  /** A line survives the filter when it is non-empty and starts with neither
      `#` nor `!`. */
  predicate KeepLine(line: string) {
    line != "" && !StartsWith(line, "#") && !StartsWith(line, "!")
  }

  /** The per-line rewrite of `parseGitignorePatterns`. */
  function NormalizeLine(line: string): string {
    if StartsWith(line, "/") then
      var pattern := line[1..];
      if EndsWith(pattern, "/") || (!HasChar(pattern, '.') && !HasChar(pattern, '*')) then
        pattern + "/**"
      else pattern
    else if !HasChar(line, '/') then
      if !HasChar(line, '.') && !HasChar(line, '*') then "**/" + line + "/**"
      else "**/" + line
    else line
  }

  /** What one raw line contributes: nothing, or its normalised form. */
  function LinePatterns(raw: string): seq<string> {
    var line := Trim(raw);
    if KeepLine(line) then [NormalizeLine(line)] else []
  }

  function ParseLines(lines: seq<string>): seq<string> {
    if lines == [] then [] else LinePatterns(lines[0]) + ParseLines(lines[1..])
  }

  /** `parseGitignorePatterns(content)` */
  function ParseGitignorePatterns(content: string): seq<string> {
    ParseLines(Split(content, '\n'))
  }

  lemma {:induction false} ParseLinesAppend(a: seq<string>, b: seq<string>)
    ensures ParseLines(a + b) == ParseLines(a) + ParseLines(b)
  {
    if a != [] {
      assert (a + b)[0] == a[0];
      assert (a + b)[1..] == a[1..] + b;
      ParseLinesAppend(a[1..], b);
      assert ParseLines(a + b) == LinePatterns(a[0]) + ParseLines(a[1..] + b);
    } else {
      assert a + b == b;
    }
  }

  /** Parsing works line by line: the patterns of two texts joined by a
      newline are the patterns of the first followed by those of the second. */
  lemma ParseConcat(a: string, b: string)
    ensures ParseGitignorePatterns(a + "\n" + b) == ParseGitignorePatterns(a) + ParseGitignorePatterns(b)
  {
    SplitAround(a, '\n', b);
    ParseLinesAppend(Split(a, '\n'), Split(b, '\n'));
  }

  /** A single line yields no pattern when, once trimmed, it is empty or
      starts with `#` or `!`, and exactly one pattern otherwise. */
  lemma ParseOneLine(line: string)
    requires !HasChar(line, '\n')
    ensures ParseGitignorePatterns(line) ==
      (if KeepLine(Trim(line)) then [NormalizeLine(Trim(line))] else [])
  {
    SplitNoSeparator(line, '\n');
    assert [line][1..] == [];
    assert ParseLines([line]) == LinePatterns(line) + ParseLines([]);
  }

  /** A word with no glob character compiles to its own letters. */
  predicate Plain(w: string) {
    !HasChar(w, '*') && !HasChar(w, '?')
  }

  lemma {:induction false} CompilePlain(w: string, q: string)
    requires Plain(w)
    ensures CompileA(w + q) == Lits(w) + CompileA(q)
  {
    if w != [] {
      assert w[0] != '*' && w[0] != '?';
      assert (w + q)[0] == w[0];
      assert (w + q)[1..] == w[1..] + q;
      assert CompileA(w + q) == [Lit(w[0])] + CompileA(w[1..] + q);
      assert Lits(w) == [Lit(w[0])] + Lits(w[1..]);
      var t := w[1..];
      forall i | 0 <= i < |t| ensures t[i] != '*' && t[i] != '?' {
        assert t[i] == w[i + 1];
      }
      assert Plain(t);
      CompilePlain(w[1..], q);
    } else {
      assert w + q == q;
    }
  }

  /** `.` in a glob matches only a literal dot. */
  lemma GlobDot(q: string, s: string)
    ensures MatchA("." + q, s) <==> s != [] && s[0] == '.' && MatchA(q, s[1..])
  {
    assert ("." + q)[1..] == q;
  }

  /** `?` matches any one character, `/` included (line terminators
      excepted, as for the regex `.`). */
  lemma GlobQuestion(q: string, s: string)
    ensures MatchA("?" + q, s) <==> s != [] && !IsLineTerminator(s[0]) && MatchA(q, s[1..])
  {
    assert ("?" + q)[1..] == q;
  }

  /** A lone `*` matches a run of characters other than `/`. */
  lemma GlobStar(q: string, s: string)
    requires q == [] || q[0] != '*'
    ensures MatchA("*" + q, s) <==>
      exists i | 0 <= i <= |s| :: !HasChar(s[..i], '/') && MatchA(q, s[i..])
  {
    assert ("*" + q)[1..] == q;
    assert CompileA("*" + q) == [RunNoSlash] + CompileA(q);
    MatchRun(RunNoSlash, CompileA(q), s);
    forall i | 0 <= i <= |s| ensures AllAccepted(RunNoSlash, s[..i]) <==> !HasChar(s[..i], '/') {
      var w := s[..i];
      if !AllAccepted(RunNoSlash, w) {
        var k :| 0 <= k < |w| && !Accepts(RunNoSlash, w[k]);
        assert w[k] == '/';
      }
    }
  }

  /** What `**` matches on its own: one character that is not a line
      terminator, then characters other than `/`. */
  predicate DoubleStarWord(w: string) {
    |w| >= 1 && !IsLineTerminator(w[0]) && !HasChar(w[1..], '/')
  }

  /** `**` matches one arbitrary character followed by a run of characters
      other than `/`: it crosses at most one `/`, and only as its first
      character. */
  lemma GlobDoubleStar(q: string, s: string)
    ensures MatchA("**" + q, s) <==>
      exists i | 0 <= i <= |s| :: DoubleStarWord(s[..i]) && MatchA(q, s[i..])
  {
    assert ("**" + q)[2..] == q;
    var rest := CompileA(q);
    assert CompileA("**" + q) == [AnyChar, RunNoSlash] + rest;
    assert ([AnyChar, RunNoSlash] + rest)[1..] == [RunNoSlash] + rest;
    if s != [] {
      MatchRun(RunNoSlash, rest, s[1..]);
      forall i | 1 <= i <= |s|
        ensures DoubleStarWord(s[..i]) <==>
          !IsLineTerminator(s[0]) && AllAccepted(RunNoSlash, s[1..][..i - 1])
      {
        var w := s[1..][..i - 1];
        assert s[..i][1..] == w;
        if !AllAccepted(RunNoSlash, w) {
          var k :| 0 <= k < |w| && !Accepts(RunNoSlash, w[k]);
          assert w[k] == '/';
        }
      }
      if MatchA("**" + q, s) {
        var j :| 0 <= j <= |s[1..]| && AllAccepted(RunNoSlash, s[1..][..j]) && Match(rest, s[1..][j..]);
        assert s[1..][j..] == s[j + 1..];
        assert DoubleStarWord(s[..j + 1]);
      }
      if exists i | 0 <= i <= |s| :: DoubleStarWord(s[..i]) && MatchA(q, s[i..]) {
        var i :| 0 <= i <= |s| && DoubleStarWord(s[..i]) && MatchA(q, s[i..]);
        assert s[1..][i - 1..] == s[i..];
      }
    }
  }

  // A glob `L/**` with a plain `L` matches exactly `L/` followed by a
  // `**` word: one level below `L`, never `L` itself and never deeper.
  lemma DirDoubleStar(l: string, s: string)
    requires Plain(l)
    ensures MatchA(l + "/**", s) <==>
      StartsWith(s, l + "/") && DoubleStarWord(s[|l| + 1..])
  {
    var d := l + "/";
    forall i | 0 <= i < |d| ensures d[i] != '*' && d[i] != '?' {
      if i < |l| { assert d[i] == l[i]; }
    }
    assert Plain(d);
    assert l + "/**" == (l + "/") + "**";
    CompilePlain(l + "/", "**");
    MatchLits(l + "/", CompileA("**"), s);
    if StartsWith(s, l + "/") {
      var t := s[|l| + 1..];
      GlobDoubleStar("", t);
      assert "**" + "" == "**";
      if DoubleStarWord(t) {
        assert t[..|t|] == t && t[|t|..] == "";
      }
    }
  }

  /** A path without `\` is left alone by the normalisation. */
  lemma ReplaceAbsent(s: string, a: char, b: char)
    requires !HasChar(s, a)
    ensures ReplaceChar(s, a, b) == s
  {
  }

  /** A plain directory glob `L` + slash + `**` does not match `L` itself. */
  lemma DirGlobSkipsItself(l: string)
    requires Plain(l)
    ensures !MatchA(l + "/**", l)
  {
    DirDoubleStar(l, l);
  }

  /** ... but matches every entry directly below `L`, */
  lemma DirGlobMatchesChild(l: string, name: string)
    requires Plain(l) && name != [] && !HasChar(name, '/') && !IsLineTerminator(name[0])
    ensures MatchA(l + "/**", l + "/" + name)
  {
    var s := l + "/" + name;
    DirDoubleStar(l, s);
    assert s[..|l| + 1] == l + "/";
    assert s[|l| + 1..] == name;
    var t := name[1..];
    forall i | 0 <= i < |t| ensures t[i] != '/' { assert t[i] == name[i + 1]; }
  }

  /** ... and nothing two levels below it. */
  lemma DirGlobSkipsGrandchild(l: string, a: string, b: string)
    requires Plain(l) && a != []
    ensures !MatchA(l + "/**", l + "/" + a + "/" + b)
  {
    var s := l + "/" + a + "/" + b;
    DirDoubleStar(l, s);
    var w := s[|l| + 1..];
    assert w == a + "/" + b;
    assert w[1..][|a| - 1] == '/';
  }

  /** A root-relative line `/X`, for a plain name `X` without `.`, becomes
      `X` + slash + `**`: it hides what lies directly inside `X`, but not
      `X` itself. */
  lemma RootedDirectoryLine(x: string, name: string)
    requires x != [] && Plain(x) && !HasChar(x, '/') && !HasChar(x, '.')
    requires name != [] && !HasChar(name, '/') && !IsLineTerminator(name[0])
    ensures NormalizeLine("/" + x) == x + "/**"
    ensures MatchA(NormalizeLine("/" + x), x + "/" + name)
    ensures !MatchA(NormalizeLine("/" + x), x)
  {
    var line := "/" + x;
    assert StartsWith(line, "/") && line[1..] == x;
    DirGlobMatchesChild(x, name);
    DirGlobSkipsItself(x);
  }

  /** A bare gitignore name `n` (no `/`, `.` or `*`) becomes
      `**` + slash + `n` + slash + `**`, which matches a path exactly when
      a `**` word comes first, then slash-`n`-slash, then a `**` word. */
  lemma BareNameGlob(n: string, s: string)
    requires n != [] && Plain(n) && !HasChar(n, '/') && !HasChar(n, '.')
    requires !StartsWith(n, "#") && !StartsWith(n, "!")
    ensures NormalizeLine(n) == "**/" + n + "/**"
    ensures MatchA(NormalizeLine(n), s) <==>
      exists i | 0 <= i <= |s| ::
        DoubleStarWord(s[..i]) && StartsWith(s[i..], "/" + n + "/") && DoubleStarWord(s[i..][|n| + 2..])
  {
    assert !StartsWith(n, "/") by { assert n[0] != '/'; }
    var d := "/" + n;
    forall i | 0 <= i < |d| ensures d[i] != '*' && d[i] != '?' {
      if i > 0 { assert d[i] == n[i - 1]; }
    }
    assert "**/" + n + "/**" == "**" + (d + "/**");
    assert d + "/" == "/" + n + "/";
    GlobDoubleStar(d + "/**", s);
    forall i | 0 <= i <= |s|
      ensures MatchA(d + "/**", s[i..]) <==>
        StartsWith(s[i..], "/" + n + "/") && DoubleStarWord(s[i..][|n| + 2..])
    {
      DirDoubleStar(d, s[i..]);
    }
  }

  /** Because `**` needs at least one character before the slash, the
      pattern made from a bare name never matches an entry directly under a
      top-level directory of that name. */
  lemma BareNameMissesTopLevel(n: string, f: string)
    requires n != [] && Plain(n) && !HasChar(n, '/') && !HasChar(n, '.')
    requires !StartsWith(n, "#") && !StartsWith(n, "!")
    requires !HasChar(f, '/')
    ensures !MatchA(NormalizeLine(n), n + "/" + f)
  {
    var s := n + "/" + f;
    BareNameGlob(n, s);
    if MatchA(NormalizeLine(n), s) {
      var i :| 0 <= i <= |s| && DoubleStarWord(s[..i]) && StartsWith(s[i..], "/" + n + "/")
        && DoubleStarWord(s[i..][|n| + 2..]);
      var u := "/" + n + "/";
      assert u[0] == '/' && u[|n| + 1] == '/';
      var t := s[i..];
      assert t[..|n| + 2] == u;
      assert t[0] == '/' && t[|n| + 1] == '/';
      OnlySlash(n, f, i);
      OnlySlash(n, f, i + |n| + 1);
    }
  }

  lemma OnlySlash(n: string, f: string, j: int)
    requires !HasChar(n, '/') && !HasChar(f, '/')
    requires 0 <= j < |n + "/" + f| && (n + "/" + f)[j] == '/'
    ensures j == |n|
  {
    var s := n + "/" + f;
    assert forall k | 0 <= k < |n| :: s[k] == n[k] && s[k] != '/';
    assert forall k | |n| < k < |s| :: s[k] == f[k - |n| - 1] && s[k] != '/';
  }

  /** One directory level deeper, the same pattern does match. */
  lemma BareNameMatchesNested(d: string, n: string, f: string)
    requires n != [] && Plain(n) && !HasChar(n, '/') && !HasChar(n, '.')
    requires !StartsWith(n, "#") && !StartsWith(n, "!")
    requires DoubleStarWord(d) && DoubleStarWord(f)
    ensures MatchA(NormalizeLine(n), d + "/" + n + "/" + f)
  {
    var u := "/" + n + "/";
    var s := d + u + f;
    assert d + "/" + n + "/" + f == s;
    ThreeParts(d, u, f);
    var i := |d|;
    assert StartsWith(s[i..], u);
    assert DoubleStarWord(s[..i]) && DoubleStarWord(s[i..][|n| + 2..]);
    BareNameGlob(n, s);
  }

  lemma ThreeParts(d: string, u: string, f: string)
    ensures (d + u + f)[..|d|] == d
    ensures (d + u + f)[|d|..][..|u|] == u
    ensures (d + u + f)[|d|..][|u|..] == f
  {
    assert (d + u + f)[|d|..] == u + f;
  }
}
