/** String primitives shared by the model: the JavaScript `String` methods the
    source relies on (`split`, `join`, `trim`, `startsWith`, `includes`,
    `toLowerCase`, `replace` of one character), stated over `seq<char>`. */
module Strings {

  /** `s.startsWith(p)` */
  predicate StartsWith(s: string, p: string) {
    |p| <= |s| && s[..|p|] == p
  }

  /** `s.endsWith(p)` */
  predicate EndsWith(s: string, p: string) {
    |p| <= |s| && s[|s| - |p|..] == p
  }

  /** `s.includes(t)` */
  predicate Contains(s: string, t: string) {
    StartsWith(s, t) || (s != [] && Contains(s[1..], t))
  }

  /** `s.includes(c)` for a single character. */
  predicate HasChar(s: string, c: char) {
    exists i | 0 <= i < |s| :: s[i] == c
  }

  /** The characters that JavaScript's `.` in a regular expression refuses
      (ECMAScript LineTerminator). */
  predicate IsLineTerminator(c: char) {
    c == '\n' || c == '\r' || c == '\U{2028}' || c == '\U{2029}'
  }

  /** ECMAScript WhiteSpace and LineTerminator: what `trim()` removes. */
  predicate IsJsWhitespace(c: char) {
    || IsLineTerminator(c)
    || c == '\t' || c == '\U{000B}' || c == '\U{000C}' || c == ' '
    || c == '\U{00A0}' || c == '\U{FEFF}' || c == '\U{1680}'
    || ('\U{2000}' <= c <= '\U{200A}')
    || c == '\U{202F}' || c == '\U{205F}' || c == '\U{3000}'
  }

  /** How many whitespace characters `s` starts with. */
  function LeadingSpace(s: string): (n: nat)
    ensures n <= |s|
    ensures forall k | 0 <= k < n :: IsJsWhitespace(s[k])
    ensures n < |s| ==> !IsJsWhitespace(s[n])
  {
    if s != [] && IsJsWhitespace(s[0]) then
      var n := 1 + LeadingSpace(s[1..]);
      assert forall k | 1 <= k < n :: s[k] == s[1..][k - 1];
      n
    else 0
  }

  /** How many whitespace characters `s` ends with. */
  function TrailingSpace(s: string): (n: nat)
    ensures n <= |s|
    ensures forall k | |s| - n <= k < |s| :: IsJsWhitespace(s[k])
    ensures n < |s| ==> !IsJsWhitespace(s[|s| - n - 1])
  {
    if s != [] && IsJsWhitespace(s[|s| - 1]) then 1 + TrailingSpace(s[..|s| - 1]) else 0
  }

  /** `s.trim()`: what lies between the leading and the trailing
      whitespace; nothing when `s` is all whitespace. */
  function Trim(s: string): (r: string)
    ensures |r| <= |s|
    ensures r == [] || (!IsJsWhitespace(r[0]) && !IsJsWhitespace(r[|r| - 1]))
  {
    var i := LeadingSpace(s);
    var j := |s| - TrailingSpace(s);
    if i < j then s[i..j] else []
  }

  /** `trim()` keeps one slice of the string, from the first character
      that is not whitespace, and drops only whitespace around it. */
  lemma TrimSlice(s: string)
    ensures var i := LeadingSpace(s);
      && i + |Trim(s)| <= |s|
      && Trim(s) == s[i..i + |Trim(s)|]
      && (forall k | 0 <= k < i :: IsJsWhitespace(s[k]))
      && (forall k | i + |Trim(s)| <= k < |s| :: IsJsWhitespace(s[k]))
  {
  }

  function LowerChar(c: char): char {
    if 'A' <= c <= 'Z' then (c as int + 32) as char else c
  }

  /** `toLowerCase()`, on the ASCII letters. */
  function Lower(s: string): (r: string)
    ensures |r| == |s|
    ensures forall i | 0 <= i < |s| :: r[i] == LowerChar(s[i])
  {
    if s == [] then [] else [LowerChar(s[0])] + Lower(s[1..])
  }

  lemma LowerKeepsChar(s: string, c: char)
    requires !('A' <= c <= 'Z') && !('a' <= c <= 'z')
    ensures HasChar(Lower(s), c) <==> HasChar(s, c)
  {
    if HasChar(Lower(s), c) {
      var i :| 0 <= i < |s| && Lower(s)[i] == c;
      assert s[i] == c;
    }
    if HasChar(s, c) {
      var i :| 0 <= i < |s| && s[i] == c;
      assert Lower(s)[i] == c;
    }
  }

  /** `s.replace(/a/g, b)` for single characters `a` and `b`. */
  function ReplaceChar(s: string, a: char, b: char): (r: string)
    ensures |r| == |s|
    ensures forall i | 0 <= i < |s| :: r[i] == (if s[i] == a then b else s[i])
  {
    if s == [] then [] else [if s[0] == a then b else s[0]] + ReplaceChar(s[1..], a, b)
  }

  /** `s.split(c)` for a one-character separator: the pieces between
      separators, always at least one. */
  function Split(s: string, c: char): (r: seq<string>)
    ensures |r| >= 1
  {
    if s == [] then [""]
    else
      var rest := Split(s[1..], c);
      if s[0] == c then [""] + rest
      else [[s[0]] + rest[0]] + rest[1..]
  }

  /** No piece of a split holds the separator. */
  lemma {:induction false} SplitPieces(s: string, c: char)
    ensures forall k | 0 <= k < |Split(s, c)| :: !HasChar(Split(s, c)[k], c)
  {
    if s != [] {
      var rest := Split(s[1..], c);
      SplitPieces(s[1..], c);
      if s[0] != c {
        var t := [s[0]] + rest[0];
        forall i | 0 <= i < |t| ensures t[i] != c {
          if i > 0 { assert t[i] == rest[0][i - 1]; }
        }
        assert Split(s, c) == [t] + rest[1..];
      }
    }
  }

  /** `parts.join(sep)` */
  function Join(parts: seq<string>, sep: string): string {
    if |parts| == 0 then ""
    else if |parts| == 1 then parts[0]
    else parts[0] + sep + Join(parts[1..], sep)
  }

  lemma {:induction false} SplitNoSeparator(s: string, c: char)
    requires !HasChar(s, c)
    ensures Split(s, c) == [s]
  {
    if s != [] {
      assert s[0] != c;
      assert !HasChar(s[1..], c) by {
        forall i | 0 <= i < |s[1..]| ensures s[1..][i] != c { assert s[1..][i] == s[i + 1]; }
      }
      SplitNoSeparator(s[1..], c);
      assert [s[0]] + s[1..] == s;
    }
  }

  /** Splitting distributes over a separator: `(a + c + b).split(c)` is
      `a.split(c)` followed by `b.split(c)`. */
  lemma {:induction false} SplitAround(a: string, c: char, b: string)
    ensures Split(a + [c] + b, c) == Split(a, c) + Split(b, c)
  {
    if a == [] {
      assert a + [c] + b == [c] + b;
      assert ([c] + b)[1..] == b;
    } else {
      assert (a + [c] + b)[0] == a[0];
      assert (a + [c] + b)[1..] == a[1..] + [c] + b;
      SplitAround(a[1..], c, b);
    }
  }

  /** Joining with the separator undoes splitting. */
  lemma {:induction false} JoinSplit(s: string, c: char)
    ensures Join(Split(s, c), [c]) == s
  {
    if s != [] {
      var rest := Split(s[1..], c);
      JoinSplit(s[1..], c);
      if s[0] == c {
        assert s == [c] + s[1..];
      } else {
        if |rest| == 1 {
          assert s == [s[0]] + s[1..];
        } else {
          assert Join(rest, [c]) == rest[0] + [c] + Join(rest[1..], [c]);
          assert s == [s[0]] + s[1..];
        }
      }
    }
  }

  /** Splitting undoes joining when no piece holds the separator. */
  lemma {:induction false} SplitJoin(parts: seq<string>, c: char)
    requires |parts| >= 1
    requires forall k | 0 <= k < |parts| :: !HasChar(parts[k], c)
    ensures Split(Join(parts, [c]), c) == parts
  {
    if |parts| == 1 {
      SplitNoSeparator(parts[0], c);
    } else {
      SplitJoin(parts[1..], c);
      SplitAround(parts[0], c, Join(parts[1..], [c]));
      SplitNoSeparator(parts[0], c);
    }
  }

  /** `s.split(c).pop()`: the text after the last separator, or all of `s`. */
  function LastPiece(s: string, c: char): (r: string)
    ensures EndsWith(s, r) && !HasChar(r, c)
    ensures |r| < |s| ==> s[|s| - |r| - 1] == c
  {
    LastPieceIsSuffix(s, c);
    SplitPieces(s, c);
    Split(s, c)[|Split(s, c)| - 1]
  }

  lemma {:induction false} LastPieceIsSuffix(s: string, c: char)
    ensures var r := Split(s, c)[|Split(s, c)| - 1];
      EndsWith(s, r) && (|r| < |s| ==> s[|s| - |r| - 1] == c)
  {
    if s != [] {
      var rest := Split(s[1..], c);
      if s[0] != c && |rest| == 1 {
        SplitIsSingle(s[1..], c);
        assert [s[0]] + s[1..] == s;
      } else {
        LastPieceIsSuffix(s[1..], c);
        LastPieceOfTail(s, c);
      }
    }
  }

  /** When the first character does not merge into a one-piece tail, the
      last piece of `s` is that of `s[1..]`, and it is shorter than `s`. */
  lemma LastPieceOfTail(s: string, c: char)
    requires s != []
    requires s[0] == c || |Split(s[1..], c)| > 1
    requires var t := Split(s[1..], c)[|Split(s[1..], c)| - 1];
      EndsWith(s[1..], t) && (|t| < |s| - 1 ==> s[1..][|s| - 1 - |t| - 1] == c)
    ensures var r := Split(s, c)[|Split(s, c)| - 1];
      EndsWith(s, r) && |r| < |s| && s[|s| - |r| - 1] == c
  {
    var t := Split(s[1..], c)[|Split(s[1..], c)| - 1];
    SplitLastSame(s, c);
    if s[0] != c {
      LastOfSeveralIsShorter(s[1..], c);
    }
    SuffixOfTail(s, t);
  }

  lemma SplitLastSame(s: string, c: char)
    requires s != []
    requires s[0] == c || |Split(s[1..], c)| > 1
    ensures Split(s, c)[|Split(s, c)| - 1] == Split(s[1..], c)[|Split(s[1..], c)| - 1]
  {
  }

  lemma SuffixOfTail(s: string, t: string)
    requires s != [] && EndsWith(s[1..], t)
    ensures EndsWith(s, t)
    ensures |t| < |s| - 1 ==> s[|s| - |t| - 1] == s[1..][|s| - 1 - |t| - 1]
  {
    assert s[1..][|s[1..]| - |t|..] == s[|s| - |t|..];
  }

  /** Of several pieces, the last one that ends the string is shorter than
      the string. */
  lemma LastOfSeveralIsShorter(s: string, c: char)
    requires |Split(s, c)| > 1
    requires EndsWith(s, Split(s, c)[|Split(s, c)| - 1])
    ensures |Split(s, c)[|Split(s, c)| - 1]| < |s|
  {
    var t := Split(s, c)[|Split(s, c)| - 1];
    if |t| == |s| {
      assert t == s[0..] == s;
      SplitPieces(s, c);
      SplitNoSeparator(s, c);
      assert false;
    }
  }

  /** A split into one piece leaves the string whole. */
  lemma SplitIsSingle(s: string, c: char)
    requires |Split(s, c)| == 1
    ensures Split(s, c) == [s]
  {
    if HasChar(s, c) {
      SplitNoSeparatorConverse(s, c);
      assert false;
    }
    SplitNoSeparator(s, c);
  }

  lemma {:induction false} SplitNoSeparatorConverse(s: string, c: char)
    requires HasChar(s, c)
    ensures |Split(s, c)| > 1
  {
    var i :| 0 <= i < |s| && s[i] == c;
    if s[0] != c {
      assert s[1..][i - 1] == c;
      SplitNoSeparatorConverse(s[1..], c);
    }
  }

  /** The last piece after a separator is the text that follows it, when
      that text has no separator of its own. */
  lemma LastPieceAfter(a: string, c: char, b: string)
    requires !HasChar(b, c)
    ensures LastPiece(a + [c] + b, c) == b
  {
    SplitAround(a, c, b);
    SplitNoSeparator(b, c);
  }

  lemma {:induction false} LowerAppend(a: string, b: string)
    ensures Lower(a + b) == Lower(a) + Lower(b)
  {
    if a == [] {
      assert a + b == b;
    } else {
      assert (a + b)[0] == a[0];
      assert (a + b)[1..] == a[1..] + b;
      LowerAppend(a[1..], b);
    }
  }

  /** Trimming removes characters only from the ends. */
  lemma TrimKeepsAbsent(s: string, c: char)
    requires !HasChar(s, c)
    ensures !HasChar(Trim(s), c)
  {
    var i := LeadingSpace(s);
    var j := |s| - TrailingSpace(s);
    if i < j {
      SliceKeepsAbsent(s, i, j, c);
    }
  }

  lemma SliceKeepsAbsent(s: string, i: nat, j: nat, c: char)
    requires i <= j <= |s| && !HasChar(s, c)
    ensures !HasChar(s[i..j], c)
  {
    forall k | 0 <= k < j - i ensures s[i..j][k] != c {
      assert s[i..j][k] == s[i + k];
    }
  }

  /** After replacing `a` by another character, no `a` is left. */
  lemma ReplaceCharRemoves(s: string, a: char, b: char)
    requires a != b
    ensures !HasChar(ReplaceChar(s, a, b), a)
  {
  }

  /** `split("/").filter(Boolean)`: the non-empty pieces, in order. */
  function NonEmpty(parts: seq<string>): (r: seq<string>)
    ensures forall k | 0 <= k < |r| :: r[k] != "" && r[k] in parts
    ensures forall k | 0 <= k < |parts| && parts[k] != "" :: parts[k] in r
    ensures (forall k | 0 <= k < |parts| :: parts[k] != "") ==> r == parts
  {
    if parts == [] then []
    else if parts[0] == "" then NonEmpty(parts[1..])
    else [parts[0]] + NonEmpty(parts[1..])
  }

  /** The filter works piece by piece, so the kept pieces keep their
      order. */
  lemma {:induction false} NonEmptyAppend(a: seq<string>, b: seq<string>)
    ensures NonEmpty(a + b) == NonEmpty(a) + NonEmpty(b)
  {
    if a != [] {
      assert (a + b)[1..] == a[1..] + b;
      NonEmptyAppend(a[1..], b);
    } else {
      assert a + b == b;
    }
  }

  /** The non-empty `/`-segments of a path; none of them holds a `/`. */
  function Segments(p: string): (r: seq<string>)
    ensures forall k | 0 <= k < |r| :: r[k] != "" && !HasChar(r[k], '/')
  {
    SplitPieces(p, '/');
    NonEmpty(Split(p, '/'))
  }

  /** Text holding a character that is not whitespace does not trim to
      nothing. */
  lemma TrimKeepsNonBlank(s: string, k: nat)
    requires k < |s| && !IsJsWhitespace(s[k])
    ensures Trim(s) != ""
  {
    var i := LeadingSpace(s);
    var j := |s| - TrailingSpace(s);
    assert i <= k < j;
  }

  /** The pieces of a split hold no character the text does not hold. */
  lemma {:induction false} SplitKeepsAbsent(s: string, c: char, d: char)
    requires !HasChar(s, d)
    ensures forall k | 0 <= k < |Split(s, c)| :: !HasChar(Split(s, c)[k], d)
  {
    if s != [] {
      var rest := Split(s[1..], c);
      assert !HasChar(s[1..], d) by {
        forall i | 0 <= i < |s[1..]| ensures s[1..][i] != d { assert s[1..][i] == s[i + 1]; }
      }
      SplitKeepsAbsent(s[1..], c, d);
      if s[0] != c {
        var h := [s[0]] + rest[0];
        assert !HasChar(h, d) by {
          forall i | 0 <= i < |h| ensures h[i] != d {
            if i > 0 { assert h[i] == rest[0][i - 1]; }
          }
        }
        var r := Split(s, c);
        assert r == [h] + rest[1..];
        forall k | 0 <= k < |r| ensures !HasChar(r[k], d) {
          if k > 0 { assert r[k] == rest[k]; }
        }
      }
    }
  }

  lemma HasCharConcat(a: string, b: string, c: char)
    ensures HasChar(a + b, c) <==> HasChar(a, c) || HasChar(b, c)
  {
    if HasChar(a + b, c) {
      var i :| 0 <= i < |a + b| && (a + b)[i] == c;
      if i >= |a| {
        assert b[i - |a|] == c;
      }
    }
    if HasChar(a, c) {
      var i :| 0 <= i < |a| && a[i] == c;
      assert (a + b)[i] == c;
    }
    if HasChar(b, c) {
      var i :| 0 <= i < |b| && b[i] == c;
      assert (a + b)[|a| + i] == c;
    }
  }

  /** A string occurs in any text it stands inside of. */
  lemma {:induction false} ContainsMiddle(a: string, t: string, b: string)
    ensures Contains(a + t + b, t)
  {
    if a == [] {
      assert a + t + b == t + b;
      assert (t + b)[..|t|] == t;
    } else {
      assert (a + t + b)[1..] == a[1..] + t + b;
      ContainsMiddle(a[1..], t, b);
    }
  }

  /** `path.split('/').pop() || path`: the last `/`-segment, or the whole
      path when that segment is empty. */
  function BaseName(path: string): (r: string)
    ensures r != "" || path == ""
  {
    var last := LastPiece(path, '/');
    if last != "" then last else path
  }

  /** The base name ends the path; it is a segment without `/` unless the
      path ends with `/`, and a path without `/` is its own base name. */
  lemma BaseNameIsLastSegment(path: string)
    ensures EndsWith(path, BaseName(path))
    ensures !HasChar(BaseName(path), '/') || BaseName(path) == path
    ensures !HasChar(path, '/') ==> BaseName(path) == path
  {
    if !HasChar(path, '/') {
      SplitNoSeparator(path, '/');
    }
  }

  function UpperChar(c: char): char {
    if 'a' <= c <= 'z' then (c as int - 32) as char else c
  }

  /** `toUpperCase()`, on the ASCII letters. */
  function Upper(s: string): (r: string)
    ensures |r| == |s|
    ensures forall i | 0 <= i < |s| :: r[i] == UpperChar(s[i])
  {
    if s == [] then [] else [UpperChar(s[0])] + Upper(s[1..])
  }
}
