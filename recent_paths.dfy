/** The list of recently opened directories (lib/recent-paths.ts), kept in
    browser storage under one key. Reading sorts the stored list newest
    first; adding puts the path at the head, drops its older entry and
    keeps at most ten; removing drops every entry of a path; clearing
    deletes the key. */
module RecentPaths {
  import opened Strings
  import Sorting

  datatype RecentPath = RecentPath(path: string, name: string, lastAccessed: int)

  /** What storage holds under the key: nothing (or an empty string), text
      that does not parse as a list of entries, or a list of entries. */
  datatype Stored = Missing | Unparseable | Parsed(entries: seq<RecentPath>)

  const MaxRecentPaths: nat := 10

  /** The order of `getRecentPaths`: `b.lastAccessed - a.lastAccessed`, so
      newer entries first. */
  predicate Newer(a: RecentPath, b: RecentPath) {
    a.lastAccessed >= b.lastAccessed
  }

  /** `getRecentPaths()` for what storage holds. */
  function Loaded(stored: Stored): (r: seq<RecentPath>)
    ensures !stored.Parsed? ==> r == []
    ensures stored.Parsed? ==> multiset(r) == multiset(stored.entries)
  {
    match stored
    case Parsed(entries) => Sorting.SortBy(entries, Newer)
    case _ => []
  }

  /** `existing.filter(p => p.path !== path)` */
  function Without(entries: seq<RecentPath>, path: string): (r: seq<RecentPath>)
    ensures |r| <= |entries|
    ensures forall k | 0 <= k < |r| :: r[k].path != path && r[k] in entries
  {
    if entries == [] then []
    else (if entries[0].path == path then [] else [entries[0]]) + Without(entries[1..], path)
  }

  /** The list `addRecentPath(path)` stores, at time `now`. */
  function Added(existing: seq<RecentPath>, path: string, now: int): (r: seq<RecentPath>)
  {
    var updated := [RecentPath(path, BaseName(path), now)] + Without(existing, path);
    if |updated| <= MaxRecentPaths then updated else updated[..MaxRecentPaths]
  }

  /** The stored list, as a store with one field that the operations
      replace. */
  class Store {
    var stored: Stored

    constructor()
      ensures stored == Missing
    {
      stored := Missing;
    }

    function Get(): (r: seq<RecentPath>)
      reads this
      ensures Sorting.Sorted(r, Newer)
    {
      NewerIsTotalPreorder();
      Sorting.SortBySorted(if stored.Parsed? then stored.entries else [], Newer);
      Loaded(stored)
    }

    method Add(path: string, now: int)
      modifies this
      ensures stored == Parsed(Added(old(Get()), path, now))
    {
      var existing := Loaded(stored);
      var name := BaseName(path);
      var filtered := Without(existing, path);
      var updated := [RecentPath(path, name, now)] + filtered;
      if |updated| > MaxRecentPaths {
        updated := updated[..MaxRecentPaths];
      }
      stored := Parsed(updated);
    }

    method Remove(path: string)
      modifies this
      ensures stored == Parsed(Without(old(Get()), path))
    {
      var existing := Loaded(stored);
      stored := Parsed(Without(existing, path));
    }

    method Clear()
      modifies this
      ensures stored == Missing
    {
      stored := Missing;
    }
  }

  lemma NewerIsTotalPreorder()
    ensures Sorting.TotalPreorder(Newer)
  {
  }

  /** Loading keeps every stored entry and orders them newest first. */
  /** The entries accessed at the same time as `e`, in list order. */
  function SameTime(entries: seq<RecentPath>, e: RecentPath): seq<RecentPath> {
    if entries == [] then []
    else
      var head := if entries[0].lastAccessed == e.lastAccessed then [entries[0]] else [];
      head + SameTime(entries[1..], e)
  }

  lemma {:induction false} SameTimeTies(entries: seq<RecentPath>, e: RecentPath)
    ensures SameTime(entries, e) == Sorting.Ties(entries, e, Newer)
  {
    if entries != [] {
      SameTimeTies(entries[1..], e);
    }
  }

  /** The sort is stable: entries accessed at the same time come back in
      the order they were stored. */
  lemma LoadedKeepsTies(entries: seq<RecentPath>, e: RecentPath)
    ensures SameTime(Loaded(Parsed(entries)), e) == SameTime(entries, e)
  {
    NewerIsTotalPreorder();
    Sorting.SortByStable(entries, e, Newer);
    SameTimeTies(entries, e);
    SameTimeTies(Loaded(Parsed(entries)), e);
  }

  lemma LoadedIsSortedPermutation(stored: Stored)
    ensures Sorting.Sorted(Loaded(stored), Newer)
    ensures stored.Parsed? ==> multiset(Loaded(stored)) == multiset(stored.entries)
    ensures stored.Missing? || stored.Unparseable? ==> Loaded(stored) == []
  {
    NewerIsTotalPreorder();
    if stored.Parsed? {
      Sorting.SortBySorted(stored.entries, Newer);
    }
  }

  /** How many entries have a path. */
  function Occurrences(entries: seq<RecentPath>, path: string): (n: nat)
    ensures n <= |entries|
  {
    if entries == [] then 0
    else (if entries[0].path == path then 1 else 0) + Occurrences(entries[1..], path)
  }

  lemma {:induction false} WithoutHasNone(entries: seq<RecentPath>, path: string)
    ensures Occurrences(Without(entries, path), path) == 0
  {
    if entries != [] {
      var r := Without(entries, path);
      var rest := Without(entries[1..], path);
      WithoutHasNone(entries[1..], path);
      if entries[0].path != path {
        assert r == [entries[0]] + rest;
        assert r[1..] == rest;
      } else {
        assert r == rest;
      }
    }
  }

  /** Every entry of another path survives the filter, in the same order:
      the filter is exactly the entries whose path differs. */
  lemma {:induction false} WithoutKeepsOthers(entries: seq<RecentPath>, path: string, e: RecentPath)
    requires e in entries && e.path != path
    ensures e in Without(entries, path)
  {
    if entries[0] != e {
      assert e in entries[1..];
      WithoutKeepsOthers(entries[1..], path, e);
    }
  }

  lemma {:induction false} OccurrencesPrefix(entries: seq<RecentPath>, path: string, n: nat)
    requires n <= |entries|
    ensures Occurrences(entries[..n], path) <= Occurrences(entries, path)
  {
    if n > 0 {
      assert entries[..n][1..] == entries[1..][..n - 1];
      OccurrencesPrefix(entries[1..], path, n - 1);
    }
  }

  /** After adding, the new entry heads the list, its path occurs exactly
      once, the list holds at most ten entries, and behind the head come
      the other loaded entries in their order, as many as fit. */
  lemma AddedShape(existing: seq<RecentPath>, path: string, now: int)
    ensures var r := Added(existing, path, now);
      && |r| >= 1
      && r[0] == RecentPath(path, BaseName(path), now)
      && Occurrences(r, path) == 1
      && |r| <= MaxRecentPaths
      && r[1..] == Without(existing, path)[..|r| - 1]
  {
    var filtered := Without(existing, path);
    var head := RecentPath(path, BaseName(path), now);
    WithoutHasNone(existing, path);
    var n := if 1 + |filtered| <= MaxRecentPaths then 1 + |filtered| else MaxRecentPaths;
    HeadThenPrefix(head, filtered, path, n);
    assert Added(existing, path, now) == ([head] + filtered)[..n];
  }

  lemma HeadThenPrefix(head: RecentPath, rest: seq<RecentPath>, path: string, n: nat)
    requires head.path == path && Occurrences(rest, path) == 0
    requires 1 <= n <= 1 + |rest|
    ensures var r := ([head] + rest)[..n];
      r[0] == head && Occurrences(r, path) == 1 && r[1..] == rest[..n - 1]
  {
    var updated := [head] + rest;
    var r := updated[..n];
    assert updated[1..] == rest;
    assert r[1..] == rest[..n - 1];
    OccurrencesPrefix(rest, path, n - 1);
  }

  /** After removing, no entry of the path is left, and every other loaded
      entry is. */
  lemma RemovedShape(existing: seq<RecentPath>, path: string)
    ensures Occurrences(Without(existing, path), path) == 0
    ensures forall e | e in existing && e.path != path :: e in Without(existing, path)
  {
    WithoutHasNone(existing, path);
    forall e | e in existing && e.path != path
      ensures e in Without(existing, path)
    {
      WithoutKeepsOthers(existing, path, e);
    }
  }
}
