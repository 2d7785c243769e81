/** `Array.prototype.sort` with a comparator, as the source uses it: a
    stable sort by a total preorder `le`, where `le(a, b)` means that `a`
    may come before `b`. Modelled as an insertion sort. */
module Sorting {

  /** `le` is total and transitive. */
  ghost predicate TotalPreorder<T(!new)>(le: (T, T) -> bool) {
    && (forall a: T, b: T :: le(a, b) || le(b, a))
    && (forall a: T, b: T, c: T :: le(a, b) && le(b, c) ==> le(a, c))
  }

  ghost predicate Sorted<T>(s: seq<T>, le: (T, T) -> bool) {
    forall i, j | 0 <= i < j < |s| :: le(s[i], s[j])
  }

  /** Inserts `x` after every element that may precede it: behind elements
      it ties with, which keeps the sort stable. */
  function Insert<T>(x: T, s: seq<T>, le: (T, T) -> bool): (r: seq<T>)
    ensures multiset(r) == multiset(s) + multiset{x}
  {
    if s == [] then [x]
    else
      assert s == [s[0]] + s[1..];
      if le(s[0], x) then [s[0]] + Insert(x, s[1..], le) else [x] + s
  }

  function SortBy<T>(s: seq<T>, le: (T, T) -> bool): (r: seq<T>)
    ensures multiset(r) == multiset(s)
  {
    if s == [] then []
    else
      var n := |s| - 1;
      assert s == s[..n] + [s[n]];
      Insert(s[n], SortBy(s[..n], le), le)
  }

  lemma {:induction false} InsertSorted<T(!new)>(x: T, s: seq<T>, le: (T, T) -> bool)
    requires TotalPreorder(le) && Sorted(s, le)
    ensures Sorted(Insert(x, s, le), le)
  {
    if s != [] && le(s[0], x) {
      var tail := s[1..];
      SortedTail(s, le);
      InsertSorted(x, tail, le);
      var rt := Insert(x, tail, le);
      assert Insert(x, s, le) == [s[0]] + rt;
      forall j | 0 <= j < |rt| ensures le(s[0], rt[j]) {
        assert rt[j] in multiset(tail) + multiset{x};
        if rt[j] in multiset(tail) {
          var k :| 0 <= k < |tail| && tail[k] == rt[j];
          assert s[k + 1] == rt[j];
        }
      }
      SortedCons(s[0], rt, le);
    } else if s != [] {
      forall j | 0 <= j < |s| ensures le(x, s[j]) {
        assert le(x, s[0]);
        if j > 0 { assert le(s[0], s[j]); }
      }
      SortedCons(x, s, le);
    }
  }

  lemma SortedTail<T>(s: seq<T>, le: (T, T) -> bool)
    requires s != [] && Sorted(s, le)
    ensures Sorted(s[1..], le)
  {
    var tail := s[1..];
    forall i, j | 0 <= i < j < |tail| ensures le(tail[i], tail[j]) {
      assert tail[i] == s[i + 1] && tail[j] == s[j + 1];
    }
  }

  /** A sorted list stays sorted behind an element that may precede all of
      it. */
  lemma SortedCons<T>(x: T, s: seq<T>, le: (T, T) -> bool)
    requires Sorted(s, le)
    requires forall j | 0 <= j < |s| :: le(x, s[j])
    ensures Sorted([x] + s, le)
  {
    var r := [x] + s;
    forall i, j | 0 <= i < j < |r| ensures le(r[i], r[j]) {
      assert r[j] == s[j - 1];
      if i > 0 {
        assert r[i] == s[i - 1];
      }
    }
  }

  /** The result is sorted by `le` and holds the same elements. */
  lemma {:induction false} SortBySorted<T(!new)>(s: seq<T>, le: (T, T) -> bool)
    requires TotalPreorder(le)
    ensures Sorted(SortBy(s, le), le)
  {
    if s != [] {
      var n := |s| - 1;
      SortBySorted(s[..n], le);
      InsertSorted(s[n], SortBy(s[..n], le), le);
    }
  }

  /** `a` and `b` tie: each may come before the other. */
  predicate Tie<T>(le: (T, T) -> bool, a: T, b: T) {
    le(a, b) && le(b, a)
  }

  /** The elements of `s` that tie with `x`, in their order in `s`. */
  function Ties<T>(s: seq<T>, x: T, le: (T, T) -> bool): seq<T> {
    if s == [] then []
    else (if Tie(le, x, s[0]) then [s[0]] else []) + Ties(s[1..], x, le)
  }

  /** `Ties` keeps exactly the elements that tie with `x`. */
  lemma {:induction false} TiesSpec<T>(s: seq<T>, x: T, le: (T, T) -> bool)
    ensures forall k | 0 <= k < |Ties(s, x, le)| :: Ties(s, x, le)[k] in s && Tie(le, x, Ties(s, x, le)[k])
    ensures (forall k | 0 <= k < |s| :: !Tie(le, x, s[k])) ==> Ties(s, x, le) == []
    ensures forall k | 0 <= k < |s| && Tie(le, x, s[k]) :: s[k] in Ties(s, x, le)
  {
    if s != [] {
      TiesSpec(s[1..], x, le);
      assert forall k | 1 <= k < |s| :: s[k] == s[1..][k - 1];
    }
  }

  /** Inserting `y` into a sorted list puts it behind every element it ties
      with. */
  lemma {:induction false} InsertTies<T(!new)>(y: T, s: seq<T>, x: T, le: (T, T) -> bool)
    requires TotalPreorder(le) && Sorted(s, le)
    ensures Ties(Insert(y, s, le), x, le) == Ties(s, x, le) + (if Tie(le, x, y) then [y] else [])
  {
    if s != [] && le(s[0], y) {
      SortedTail(s, le);
      InsertTies(y, s[1..], x, le);
      InsertBehind(y, s, x, le);
    } else if s != [] {
      var r := Insert(y, s, le);
      assert r == [y] + s && r[1..] == s;
      if Tie(le, x, y) {
        NoTiesBehind(y, s, x, le);
        TiesSpec(s, x, le);
      }
    }
  }

  /** One step of `InsertTies` where `y` goes behind the head. */
  lemma InsertBehind<T>(y: T, s: seq<T>, x: T, le: (T, T) -> bool)
    requires s != [] && le(s[0], y)
    requires Ties(Insert(y, s[1..], le), x, le) == Ties(s[1..], x, le) + (if Tie(le, x, y) then [y] else [])
    ensures Ties(Insert(y, s, le), x, le) == Ties(s, x, le) + (if Tie(le, x, y) then [y] else [])
  {
    var rest := Insert(y, s[1..], le);
    var head := if Tie(le, x, s[0]) then [s[0]] else [];
    var tail := if Tie(le, x, y) then [y] else [];
    calc {
      Ties(Insert(y, s, le), x, le);
    == { InsertBehindHead(y, s, le); }
      Ties([s[0]] + rest, x, le);
    == { TiesCons(s[0], rest, x, le); }
      head + (Ties(s[1..], x, le) + tail);
    == 
      (head + Ties(s[1..], x, le)) + tail;
    == { TiesCons(s[0], s[1..], x, le); assert [s[0]] + s[1..] == s; }
      Ties(s, x, le) + tail;
    }
  }

  lemma InsertBehindHead<T>(y: T, s: seq<T>, le: (T, T) -> bool)
    requires s != [] && le(s[0], y)
    ensures Insert(y, s, le) == [s[0]] + Insert(y, s[1..], le)
  {
  }

  lemma TiesCons<T>(h: T, t: seq<T>, x: T, le: (T, T) -> bool)
    ensures Ties([h] + t, x, le) == (if Tie(le, x, h) then [h] else []) + Ties(t, x, le)
  {
    assert ([h] + t)[1..] == t;
  }

  /** When `y` goes before the head of a sorted list, nothing in the list
      ties with what `y` ties with. */
  lemma NoTiesBehind<T(!new)>(y: T, s: seq<T>, x: T, le: (T, T) -> bool)
    requires TotalPreorder(le) && Sorted(s, le)
    requires s != [] && !le(s[0], y) && Tie(le, x, y)
    ensures forall k | 0 <= k < |s| :: !Tie(le, x, s[k])
  {
    forall k | 0 <= k < |s| ensures !Tie(le, x, s[k]) {
      if k > 0 { assert le(s[0], s[k]); }
    }
  }

  /** The sort is stable: the elements that tie with any `x` come out in
      the order they went in. */
  lemma {:induction false} SortByStable<T(!new)>(s: seq<T>, x: T, le: (T, T) -> bool)
    requires TotalPreorder(le)
    ensures Ties(SortBy(s, le), x, le) == Ties(s, x, le)
  {
    if s != [] {
      var n := |s| - 1;
      var pre, last := s[..n], s[n];
      var tail := if Tie(le, x, last) then [last] else [];
      calc {
        Ties(SortBy(s, le), x, le);
      == { SortByLast(s, le); }
        Ties(Insert(last, SortBy(pre, le), le), x, le);
      == { SortBySorted(pre, le); InsertTies(last, SortBy(pre, le), x, le); }
        Ties(SortBy(pre, le), x, le) + tail;
      == { SortByStable(pre, x, le); }
        Ties(pre, x, le) + tail;
      == { TiesCons(last, [], x, le); assert [last] + [] == [last]; }
        Ties(pre, x, le) + Ties([last], x, le);
      == { TiesAppend(pre, [last], x, le); assert pre + [last] == s; }
        Ties(s, x, le);
      }
    }
  }

  lemma SortByLast<T>(s: seq<T>, le: (T, T) -> bool)
    requires s != []
    ensures SortBy(s, le) == Insert(s[|s| - 1], SortBy(s[..|s| - 1], le), le)
  {
  }

  lemma {:induction false} TiesAppend<T>(a: seq<T>, b: seq<T>, x: T, le: (T, T) -> bool)
    ensures Ties(a + b, x, le) == Ties(a, x, le) + Ties(b, x, le)
  {
    if a != [] {
      assert (a + b)[1..] == a[1..] + b;
      TiesAppend(a[1..], b, x, le);
    } else {
      assert a + b == b;
    }
  }

  lemma SortByLength<T>(s: seq<T>, le: (T, T) -> bool)
    ensures |SortBy(s, le)| == |s|
  {
    assert |multiset(SortBy(s, le))| == |multiset(s)|;
  }

  /** Lexicographic order on character codes: the default order of `sort()`
      without a comparator. */
  predicate LexLe(a: string, b: string) {
    a == [] || (b != [] && (a[0] < b[0] || (a[0] == b[0] && LexLe(a[1..], b[1..]))))
  }

  lemma {:induction false} LexLeTotal(a: string, b: string)
    ensures LexLe(a, b) || LexLe(b, a)
  {
    if a != [] && b != [] && a[0] == b[0] {
      LexLeTotal(a[1..], b[1..]);
    }
  }

  lemma {:induction false} LexLeTransitive(a: string, b: string, c: string)
    requires LexLe(a, b) && LexLe(b, c)
    ensures LexLe(a, c)
  {
    if a != [] && b != [] && c != [] && a[0] == b[0] && b[0] == c[0] {
      LexLeTransitive(a[1..], b[1..], c[1..]);
    }
  }

  lemma {:induction false} LexLeAntisymmetric(a: string, b: string)
    requires LexLe(a, b) && LexLe(b, a)
    ensures a == b
  {
    if a != [] && b != [] {
      LexLeAntisymmetric(a[1..], b[1..]);
      assert a == [a[0]] + a[1..] && b == [b[0]] + b[1..];
    }
  }

  /** `LexLe` is a total preorder, so `SortBy` with it sorts. */
  lemma LexLeIsTotalPreorder()
    ensures TotalPreorder(LexLe)
  {
    forall a: string, b: string ensures LexLe(a, b) || LexLe(b, a) {
      LexLeTotal(a, b);
    }
    forall a: string, b: string, c: string | LexLe(a, b) && LexLe(b, c) ensures LexLe(a, c) {
      LexLeTransitive(a, b, c);
    }
  }
}
