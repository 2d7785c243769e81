/** The second gitignore dialect (lib/utils.ts), used by both web routes:
    lines are kept raw, and each is matched by an ad-hoc rule chosen from
    its shape (directory, glob, negation, plain name). Its glob turns `*`
    into `.*`, so here `*` crosses `/`. */
module IgnoreUtils {
  import opened Strings
  import opened Glob

  /** `parseGitignore`: the trimmed lines that are non-empty and do not start
      with `#`; `!` lines are kept. */
  function ParseGitignore(content: string): (r: seq<string>)
    ensures forall k | 0 <= k < |r| :: r[k] != "" && !StartsWith(r[k], "#")
  {
    KeptLines(Split(content, '\n'))
  }

  /** What one raw line contributes: nothing, or its trimmed text. */
  function KeptLine(raw: string): (r: seq<string>)
    ensures forall k | 0 <= k < |r| :: r[k] != "" && !StartsWith(r[k], "#")
  {
    var line := Trim(raw);
    if line != "" && !StartsWith(line, "#") then [line] else []
  }

  function KeptLines(lines: seq<string>): (r: seq<string>)
    ensures forall k | 0 <= k < |r| :: r[k] != "" && !StartsWith(r[k], "#")
  {
    if lines == [] then [] else KeptLine(lines[0]) + KeptLines(lines[1..])
  }

  lemma {:induction false} KeptLinesAppend(a: seq<string>, b: seq<string>)
    ensures KeptLines(a + b) == KeptLines(a) + KeptLines(b)
  {
    if a != [] {
      assert (a + b)[0] == a[0];
      assert (a + b)[1..] == a[1..] + b;
      KeptLinesAppend(a[1..], b);
      assert KeptLines(a + b) == KeptLine(a[0]) + KeptLines(a[1..] + b);
    } else {
      assert a + b == b;
    }
  }

  /** Parsing works line by line and keeps the input order. */
  lemma ParseGitignoreConcat(a: string, b: string)
    ensures ParseGitignore(a + "\n" + b) == ParseGitignore(a) + ParseGitignore(b)
  {
    SplitAround(a, '\n', b);
    KeptLinesAppend(Split(a, '\n'), Split(b, '\n'));
  }

  /** A single line yields its trimmed text, unchanged, unless that is empty
      or a comment; in particular a `!` line is kept as it is. */
  lemma ParseGitignoreOneLine(line: string)
    requires !HasChar(line, '\n')
    ensures var t := Trim(line);
      ParseGitignore(line) == (if t != "" && !StartsWith(t, "#") then [t] else [])
  {
    SplitNoSeparator(line, '\n');
    assert [line][1..] == [];
    assert KeptLines([line]) == KeptLine(line) + KeptLines([]);
  }

  /** `s.replace(/^\/+/, '')` */
  function StripLeadingSlashes(s: string): (r: string)
    ensures r == [] || r[0] != '/'
  {
    s[LeadingSlashes(s)..]
  }

  /** How many `/` the string starts with. */
  function LeadingSlashes(s: string): (n: nat)
    ensures n <= |s|
    ensures forall k | 0 <= k < n :: s[k] == '/'
    ensures n < |s| ==> s[n] != '/'
  {
    if s != [] && s[0] == '/' then
      var n := 1 + LeadingSlashes(s[1..]);
      assert forall k | 1 <= k < n :: s[k] == s[1..][k - 1];
      n
    else 0
  }

  /** Removes a trailing run of `/`. */
  function StripTrailingSlashes(s: string): (r: string)
    ensures r == [] || r[|r| - 1] != '/'
  {
    s[..|s| - TrailingSlashes(s)]
  }

  /** How many `/` the string ends with. */
  function TrailingSlashes(s: string): (n: nat)
    ensures n <= |s|
    ensures forall k | |s| - n <= k < |s| :: s[k] == '/'
    ensures n < |s| ==> s[|s| - n - 1] != '/'
  {
    if s != [] && s[|s| - 1] == '/' then 1 + TrailingSlashes(s[..|s| - 1]) else 0
  }

  /** `pattern.replace(/^\/+|\/+$/g, '')`: the leading and the trailing run
      of slashes removed. */
  function CleanPattern(pattern: string): string {
    StripTrailingSlashes(StripLeadingSlashes(pattern))
  }

  /** `s.slice(0, -1)` */
  function DropLast(s: string): (r: string)
    ensures s != [] ==> r + [s[|s| - 1]] == s
    ensures s == [] ==> r == []
  {
    if s == [] then [] else s[..|s| - 1]
  }

  /** Characters the glob branch would pass raw into its regular
      expression, where they change its meaning or make it throw. */
  predicate IsRegexMetaB(c: char) {
    c in "^$+()[]{}|\\"
  }

  predicate SafeGlobB(p: string) {
    forall i | 0 <= i < |p| :: !IsRegexMetaB(p[i])
  }

  /** `.replace(/\./g, '\\.').replace(/\*\/g, '.*').replace(/\?/g, '.')`,
      read as tokens. */
  function CompileB(p: string): (r: seq<Token>)
    ensures |r| == |p|
  {
    if p == [] then []
    else if p[0] == '*' then [RunAny] + CompileB(p[1..])
    else if p[0] == '?' then [AnyChar] + CompileB(p[1..])
    else [Lit(p[0])] + CompileB(p[1..])
  }

  predicate MatchB(p: string, s: string) {
    Match(CompileB(p), s)
  }

  /** `matchesGlob(str, pattern)`: the anchored glob is tried on the whole
      string and on its last `/`-segment. */
  predicate MatchesGlobB(str: string, pattern: string)
    requires SafeGlobB(pattern)
  {
    MatchB(pattern, str) || MatchB(pattern, LastPiece(str, '/'))
  }

  /** The regular expression is built only in the glob branch. */
  predicate Compilable(pattern: string) {
    !EndsWith(pattern, "/") && HasChar(pattern, '*') ==> SafeGlobB(CleanPattern(pattern))
  }

  /** `matchesGitignorePattern(filePath, pattern)` */
  predicate MatchesGitignorePattern(filePath: string, pattern: string)
    requires Compilable(pattern)
  {
    var cleanPattern := CleanPattern(pattern);
    var cleanPath := StripLeadingSlashes(filePath);
    if EndsWith(pattern, "/") then
      var dirPattern := DropLast(cleanPattern);
      cleanPath == dirPattern || StartsWith(cleanPath, dirPattern + "/")
    else if HasChar(pattern, '*') then
      MatchesGlobB(cleanPath, cleanPattern)
    else if StartsWith(pattern, "!") then
      false
    else
      || cleanPath == cleanPattern
      || StartsWith(cleanPath, cleanPattern + "/")
      || EndsWith(cleanPath, "/" + cleanPattern)
      || Contains(cleanPath, "/" + cleanPattern + "/")
  }

  /** The loop of `isIgnored`. */
  function AnyPatternMatches(normalizedPath: string, patterns: seq<string>): bool
    requires forall k | 0 <= k < |patterns| :: Compilable(patterns[k])
  {
    if patterns == [] then false
    else MatchesGitignorePattern(normalizedPath, patterns[0]) || AnyPatternMatches(normalizedPath, patterns[1..])
  }

  /** The loop finds a match exactly when some pattern matches. */
  lemma {:induction false} AnyPatternMatchesSpec(normalizedPath: string, patterns: seq<string>)
    requires forall k | 0 <= k < |patterns| :: Compilable(patterns[k])
    ensures AnyPatternMatches(normalizedPath, patterns) <==>
      exists k | 0 <= k < |patterns| :: MatchesGitignorePattern(normalizedPath, patterns[k])
  {
    if patterns != [] {
      var tail := patterns[1..];
      assert forall k | 0 <= k < |tail| :: tail[k] == patterns[k + 1];
      AnyPatternMatchesSpec(normalizedPath, tail);
      if exists k | 0 <= k < |tail| :: MatchesGitignorePattern(normalizedPath, tail[k]) {
        var k :| 0 <= k < |tail| && MatchesGitignorePattern(normalizedPath, tail[k]);
        assert MatchesGitignorePattern(normalizedPath, patterns[k + 1]);
      }
      if exists k | 0 <= k < |patterns| :: MatchesGitignorePattern(normalizedPath, patterns[k]) {
        var k :| 0 <= k < |patterns| && MatchesGitignorePattern(normalizedPath, patterns[k]);
        if k > 0 {
          assert MatchesGitignorePattern(normalizedPath, tail[k - 1]);
        }
      }
    }
  }

  /** `isIgnored(filePath, patterns)`: backslashes in the path become `/`,
      and the path is ignored iff some pattern matches it. */
  function IsIgnored(filePath: string, patterns: seq<string>): (r: bool)
    requires forall k | 0 <= k < |patterns| :: Compilable(patterns[k])
    ensures r <==> exists k | 0 <= k < |patterns| ::
      MatchesGitignorePattern(ReplaceChar(filePath, '\\', '/'), patterns[k])
    ensures patterns == [] ==> !r
  {
    AnyPatternMatchesSpec(ReplaceChar(filePath, '\\', '/'), patterns);
    AnyPatternMatches(ReplaceChar(filePath, '\\', '/'), patterns)
  }

  /** A directory pattern `n/` for a plain name `n` does not match `n`
      itself nor anything inside `n`: one character too many is dropped. */
  lemma DirPatternMissesOwnDir(n: string, f: string)
    requires n != [] && !HasChar(n, '/')
    ensures !MatchesGitignorePattern(n, n + "/")
    ensures !MatchesGitignorePattern(n + "/" + f, n + "/")
  {
    var p := n + "/";
    assert p[|p| - 1] == '/';
    assert n[0] != '/';
    assert StripLeadingSlashes(p) == p;
    assert CleanPattern(p) == n by {
      assert n[|n| - 1] != '/';
      assert p[..|p| - 1] == n;
    }
    var stem := n[..|n| - 1];
    assert DropLast(n) == stem;
    var path := n + "/" + f;
    assert StripLeadingSlashes(path) == path by { assert path[0] == n[0]; }
    assert StripLeadingSlashes(n) == n;
  }

  /** ... and instead matches the name one character shorter, with
      everything inside it. */
  lemma DirPatternMatchesShorterName(n: string, f: string)
    requires |n| >= 2 && !HasChar(n, '/')
    ensures var stem := n[..|n| - 1];
      MatchesGitignorePattern(stem, n + "/") && MatchesGitignorePattern(stem + "/" + f, n + "/")
  {
    var p := n + "/";
    var stem := n[..|n| - 1];
    assert p[|p| - 1] == '/';
    assert StripLeadingSlashes(p) == p by { assert p[0] == n[0] != '/'; }
    assert CleanPattern(p) == n by {
      assert n[|n| - 1] != '/';
      assert p[..|p| - 1] == n;
    }
    assert DropLast(n) == stem;
    var path := stem + "/" + f;
    assert StripLeadingSlashes(stem) == stem by { assert stem[0] == n[0] != '/'; }
    assert StripLeadingSlashes(path) == path by { assert path[0] == n[0] != '/'; }
    assert path[..|stem + "/"|] == stem + "/";
  }

  /** A plain pattern with no `*` and not starting with `!` matches
      wherever its name appears as a last path segment: a leading `/`
      does not anchor it at the root. */
  lemma LeadingSlashDoesNotAnchor(d: string, p: string)
    requires d != [] && d[0] != '/'
    requires p != [] && p[0] != '/' && p[|p| - 1] != '/'
    requires !HasChar(p, '*') && !StartsWith(p, "!")
    ensures MatchesGitignorePattern(d + "/" + p, "/" + p)
  {
    LeadingSlashFacts(d, p);
    PlainSuffixMatches(d + "/" + p, "/" + p, p);
  }

  lemma LeadingSlashFacts(d: string, p: string)
    requires d != [] && d[0] != '/'
    requires p != [] && p[0] != '/' && p[|p| - 1] != '/'
    requires !HasChar(p, '*') && !StartsWith(p, "!")
    ensures var pat := "/" + p;
      && !EndsWith(pat, "/") && !HasChar(pat, '*') && !StartsWith(pat, "!")
      && CleanPattern(pat) == p
    ensures var path := d + "/" + p;
      StripLeadingSlashes(path) == path && EndsWith(path, "/" + p)
  {
    var pat := "/" + p;
    assert !EndsWith(pat, "/") by { assert pat[|pat| - 1] == p[|p| - 1]; }
    assert !HasChar(pat, '*') by {
      forall i | 0 <= i < |pat| ensures pat[i] != '*' {
        if i > 0 { assert pat[i] == p[i - 1]; }
      }
    }
    assert !StartsWith(pat, "!") by { assert pat[0] == '/'; }
    assert StripLeadingSlashes(pat) == p by { assert pat[1..] == p; }
    NoSlashToStrip(p);
    var path := d + "/" + p;
    NoSlashToStrip(path);
    assert path == d + ("/" + p);
    EndsWithConcat(d, "/" + p);
  }

  lemma EndsWithConcat(a: string, b: string)
    ensures EndsWith(a + b, b)
  {
    assert (a + b)[|a|..] == b;
  }

  /** A string that neither starts nor ends with `/` has nothing to strip. */
  lemma NoSlashToStrip(s: string)
    requires s != [] && s[0] != '/' && s[|s| - 1] != '/'
    ensures StripLeadingSlashes(s) == s && StripTrailingSlashes(s) == s
  {
  }

  /** A plain pattern matches a path that ends with slash-pattern. */
  lemma PlainSuffixMatches(path: string, pattern: string, clean: string)
    requires Compilable(pattern)
    requires !EndsWith(pattern, "/") && !HasChar(pattern, '*') && !StartsWith(pattern, "!")
    requires StripLeadingSlashes(path) == path && CleanPattern(pattern) == clean
    requires EndsWith(path, "/" + clean)
    ensures MatchesGitignorePattern(path, pattern)
  {
  }

  /** A non-glob pattern starting with `!` never matches. */
  lemma NegationNeverMatches(path: string, pattern: string)
    requires StartsWith(pattern, "!") && !HasChar(pattern, '*') && !EndsWith(pattern, "/")
    ensures !MatchesGitignorePattern(path, pattern)
  {
  }

  /** A word with no glob character compiles to its own letters. */
  lemma {:induction false} CompilePlainB(w: string, q: string)
    requires !HasChar(w, '*') && !HasChar(w, '?')
    ensures CompileB(w + q) == Lits(w) + CompileB(q)
  {
    if w != [] {
      assert (w + q)[0] == w[0];
      assert (w + q)[1..] == w[1..] + q;
      assert w[0] != '*' && w[0] != '?';
      assert CompileB(w + q) == [Lit(w[0])] + CompileB(w[1..] + q);
      assert Lits(w) == [Lit(w[0])] + Lits(w[1..]);
      var t := w[1..];
      forall i | 0 <= i < |t| ensures t[i] != '*' && t[i] != '?' {
        assert t[i] == w[i + 1];
      }
      CompilePlainB(t, q);
    } else {
      assert w + q == q;
    }
  }

  /** `*` followed by a plain word `w` matches exactly the strings ending in
      `w` whose remaining prefix has no line terminator: the star crosses
      `/`, so `*.log` matches a `.log` file at any depth. */
  lemma StarSuffix(w: string, s: string)
    requires !HasChar(w, '*') && !HasChar(w, '?')
    ensures MatchB("*" + w, s) <==>
      EndsWith(s, w) && forall k | 0 <= k < |s| - |w| :: !IsLineTerminator(s[k])
  {
    StarMatches(w, s);
    RunThenWord(w, s);
  }

  /** `*` + `w` matches a run of characters `.` accepts, then `w`. */
  lemma StarMatches(w: string, s: string)
    requires !HasChar(w, '*') && !HasChar(w, '?')
    ensures MatchB("*" + w, s) <==>
      exists i | 0 <= i <= |s| :: AllAccepted(RunAny, s[..i]) && s[i..] == w
  {
    StarCompiles(w);
    MatchRun(RunAny, Lits(w), s);
    forall i | 0 <= i <= |s| ensures Match(Lits(w), s[i..]) <==> s[i..] == w {
      LitsExactly(w, s[i..]);
    }
  }

  lemma RunThenWord(w: string, s: string)
    ensures (exists i | 0 <= i <= |s| :: AllAccepted(RunAny, s[..i]) && s[i..] == w) <==>
      EndsWith(s, w) && forall k | 0 <= k < |s| - |w| :: !IsLineTerminator(s[k])
  {
    if EndsWith(s, w) && forall k | 0 <= k < |s| - |w| :: !IsLineTerminator(s[k]) {
      var i := |s| - |w|;
      var h := s[..i];
      assert AllAccepted(RunAny, h) by {
        forall k | 0 <= k < |h| ensures Accepts(RunAny, h[k]) { assert h[k] == s[k]; }
      }
      assert s[i..] == w;
    }
    if exists i | 0 <= i <= |s| :: AllAccepted(RunAny, s[..i]) && s[i..] == w {
      var i :| 0 <= i <= |s| && AllAccepted(RunAny, s[..i]) && s[i..] == w;
      var h := s[..i];
      forall k | 0 <= k < |s| - |w| ensures !IsLineTerminator(s[k]) { assert s[k] == h[k]; }
    }
  }

  lemma StarCompiles(w: string)
    requires !HasChar(w, '*') && !HasChar(w, '?')
    ensures CompileB("*" + w) == [RunAny] + Lits(w)
  {
    CompilePlainB(w, []);
    assert w + [] == w;
    assert ("*" + w)[1..] == w;
    assert CompileB("*" + w) == [RunAny] + CompileB(w);
    assert Lits(w) + [] == Lits(w);
  }

  /** The letters of a word match that word and nothing else. */
  lemma LitsExactly(w: string, t: string)
    ensures Match(Lits(w), t) <==> t == w
  {
    MatchLits(w, [], t);
    assert Lits(w) + [] == Lits(w);
    if StartsWith(t, w) && t[|w|..] == [] {
      assert t == t[..|w|];
    }
  }

  /** The glob branch tries the last segment too: a pattern without `/`
      that matches a file name matches that file at any depth. */
  lemma GlobMatchesLastSegment(dir: string, name: string, pattern: string)
    requires !HasChar(name, '/') && dir != [] && dir[0] != '/'
    requires HasChar(pattern, '*') && !EndsWith(pattern, "/") && Compilable(pattern)
    requires MatchB(CleanPattern(pattern), name)
    ensures MatchesGitignorePattern(dir + "/" + name, pattern)
  {
    var path := dir + "/" + name;
    assert StripLeadingSlashes(path) == path by { assert path[0] == dir[0]; }
    LastPieceAfter(dir, '/', name);
  }
}
