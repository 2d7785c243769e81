/** The regular expressions that both gitignore dialects build from a glob
    are all of one small shape: literal characters, `.`, `[^/]*` and `.*`,
    anchored at both ends. They are modelled here as a token sequence with a
    recursive whole-string matcher instead of a regex engine. */
module Glob {
  import opened Strings

  datatype Token =
    | Lit(c: char)   // an escaped or plain literal character
    | AnyChar        // regex `.`: one character that is not a line terminator
    | RunNoSlash     // regex `[^/]*`: any number of characters other than `/`
    | RunAny         // regex `.*`: any number of non-line-terminator characters

  predicate IsRun(t: Token) {
    t.RunNoSlash? || t.RunAny?
  }

  /** Whether token `t` consumes the character `c` (for a run: as one of its
      repetitions). */
  predicate Accepts(t: Token, c: char) {
    match t
    case Lit(d) => c == d
    case AnyChar => !IsLineTerminator(c)
    case RunNoSlash => c != '/'
    case RunAny => !IsLineTerminator(c)
  }

  /** Every character of `w` can be consumed by `t`. */
  predicate AllAccepted(t: Token, w: string) {
    forall i | 0 <= i < |w| :: Accepts(t, w[i])
  }

  /** `new RegExp("^" + regex + "$").test(s)`, where `regex` is the token
      sequence. */
  predicate Match(toks: seq<Token>, s: string)
    decreases |toks| + |s|
  {
    if toks == [] then s == []
    else if IsRun(toks[0]) then
      || Match(toks[1..], s)
      || (s != [] && Accepts(toks[0], s[0]) && Match(toks, s[1..]))
    else s != [] && Accepts(toks[0], s[0]) && Match(toks[1..], s[1..])
  }

  /** The literal tokens for a plain word. */
  function Lits(w: string): (r: seq<Token>)
    ensures |r| == |w| && forall i | 0 <= i < |w| :: r[i] == Lit(w[i])
  {
    if w == [] then [] else [Lit(w[0])] + Lits(w[1..])
  }

  /** A run token followed by `rest` matches `s` exactly when some prefix of
      `s` is made of characters the run accepts and `rest` matches the
      remainder. */
  lemma {:induction false} MatchRun(r: Token, rest: seq<Token>, s: string)
    requires IsRun(r)
    ensures Match([r] + rest, s) <==>
      exists i | 0 <= i <= |s| :: AllAccepted(r, s[..i]) && Match(rest, s[i..])
    decreases |s|
  {
    var toks := [r] + rest;
    assert toks[1..] == rest;
    if Match(toks, s) {
      if Match(rest, s) {
        assert AllAccepted(r, s[..0]) && Match(rest, s[0..]);
      } else {
        MatchRun(r, rest, s[1..]);
        var i :| 0 <= i <= |s[1..]| && AllAccepted(r, s[1..][..i]) && Match(rest, s[1..][i..]);
        assert s[1..][i..] == s[i + 1..];
        var head, tail := s[..i + 1], s[1..][..i];
        assert AllAccepted(r, head) by {
          forall k | 0 <= k < i + 1 ensures Accepts(r, head[k]) {
            if k > 0 { assert head[k] == tail[k - 1]; }
          }
        }
      }
    }
    if exists i | 0 <= i <= |s| :: AllAccepted(r, s[..i]) && Match(rest, s[i..]) {
      var i :| 0 <= i <= |s| && AllAccepted(r, s[..i]) && Match(rest, s[i..]);
      if i == 0 {
        assert s[0..] == s;
      } else {
        assert s[..i][0] == s[0];
        var head, tail := s[..i], s[1..][..i - 1];
        assert AllAccepted(r, tail) by {
          forall k | 0 <= k < i - 1 ensures Accepts(r, tail[k]) {
            assert tail[k] == head[k + 1];
          }
        }
        assert s[1..][i - 1..] == s[i..];
        MatchRun(r, rest, s[1..]);
      }
    }
  }

  /** A lone run token matches exactly the strings it accepts throughout. */
  lemma MatchRunAlone(r: Token, s: string)
    requires IsRun(r)
    ensures Match([r], s) <==> AllAccepted(r, s)
  {
    MatchRun(r, [], s);
    assert [r] + [] == [r];
    if AllAccepted(r, s) {
      assert s[..|s|] == s;
      assert Match([], s[|s|..]);
    }
  }

  /** Literal tokens match exactly their own word, as a prefix. */
  lemma {:induction false} MatchLits(w: string, rest: seq<Token>, s: string)
    ensures Match(Lits(w) + rest, s) <==> StartsWith(s, w) && Match(rest, s[|w|..])
  {
    if w == [] {
      assert Lits(w) + rest == rest;
      assert s[..0] == w && s[0..] == s;
    } else {
      var toks := Lits(w) + rest;
      assert toks[0] == Lit(w[0]);
      assert toks[1..] == Lits(w[1..]) + rest;
      if s != [] {
        MatchLits(w[1..], rest, s[1..]);
        if |w| <= |s| {
          assert s[1..][|w| - 1..] == s[|w|..];
          if StartsWith(s, w) {
            assert s[1..][..|w| - 1] == w[1..];
          }
          if s[0] == w[0] && StartsWith(s[1..], w[1..]) {
            assert s[..|w|] == [s[0]] + s[1..][..|w| - 1];
          }
        }
      }
    }
  }
}
