/** The extension filter panel (components/file-type-filter.tsx): the
    extensions present among the available files, sorted, and the set of
    selected extensions that the panel's buttons replace. */
module FileTypeFilter {
  import opened Sorting
  import opened FileNodes
  import FileTypes
  import Sets

  /** The elements of a list without repeats, each at its first position
      (the key order of a `Map` filled from the list). */
  function Distinct(s: seq<string>): (r: seq<string>)
    ensures forall x :: x in r <==> x in s
    ensures forall i, j | 0 <= i < j < |r| :: r[i] != r[j]
  {
    if s == [] then []
    else
      var d := Distinct(s[..|s| - 1]);
      var last := s[|s| - 1];
      assert s == s[..|s| - 1] + [last];
      if last in d then d else d + [last]
  }

  /** `availableExtensions`: the keys of the analysis's extension counts,
      sorted by the default order. */
  function AvailableExtensions(availableFiles: seq<string>): seq<string> {
    SortBy(Distinct(FileTypes.ExtensionList(availableFiles)), LexLe)
  }

  /** The available extensions are exactly the extensions the analysis
      counts, each once, in sorted order. */
  lemma AvailableExtensionsSpec(availableFiles: seq<string>)
    ensures var r := AvailableExtensions(availableFiles);
      && (forall e :: e in r <==> e in FileTypes.Analyze(availableFiles).extensions)
      && (forall i, j | 0 <= i < j < |r| :: r[i] != r[j])
      && (forall i, j | 0 <= i < j < |r| :: LexLe(r[i], r[j]))
      && (forall e | e in r :: e != "")
  {
    var exts := FileTypes.ExtensionList(availableFiles);
    var d := Distinct(exts);
    var r := AvailableExtensions(availableFiles);
    SameElements(d, r);
    AvailableAreCounted(availableFiles, exts);
    forall i, j | 0 <= i < j < |r| ensures r[i] != r[j] {
      NoRepeatsKept(d, r, i, j);
    }
    LexLeIsTotalPreorder();
    SortBySorted(d, LexLe);
  }

  /** A reordering has the same elements. */
  lemma SameElements(d: seq<string>, r: seq<string>)
    requires multiset(r) == multiset(d)
    ensures forall e :: e in r <==> e in d
  {
    forall e ensures e in r <==> e in d {
      assert e in r <==> e in multiset(r);
      assert e in d <==> e in multiset(d);
    }
  }

  lemma AvailableAreCounted(availableFiles: seq<string>, exts: seq<string>)
    requires exts == FileTypes.ExtensionList(availableFiles)
    ensures forall e :: e in FileTypes.Analyze(availableFiles).extensions <==> e in exts
    ensures forall e | e in exts :: e != ""
  {
    FileTypes.AnalyzeCounts(availableFiles);
    var m := FileTypes.Analyze(availableFiles).extensions;
    assert m == FileTypes.CountMap(multiset(exts));
    forall e ensures e in m <==> e in exts {
      assert e in exts <==> e in multiset(exts);
    }
  }

  /** A reordering of a list without repeats has none either. */
  lemma NoRepeatsKept(d: seq<string>, r: seq<string>, i: nat, j: nat)
    requires forall a, b | 0 <= a < b < |d| :: d[a] != d[b]
    requires multiset(r) == multiset(d)
    requires i < j < |r|
    ensures r[i] != r[j]
  {
    if r[i] == r[j] {
      var x := r[i];
      assert multiset(r)[x] >= 2 by {
        assert r == r[..i] + [x] + r[i + 1..j] + [x] + r[j + 1..];
      }
      CountAtMostOne(d, x);
      assert false;
    }
  }

  lemma {:induction false} CountAtMostOne(d: seq<string>, x: string)
    requires forall a, b | 0 <= a < b < |d| :: d[a] != d[b]
    ensures multiset(d)[x] <= 1
  {
    if d != [] {
      assert d == [d[0]] + d[1..];
      CountAtMostOne(d[1..], x);
      if d[0] == x {
        assert x !in d[1..] by {
          forall k | 0 <= k < |d[1..]| ensures d[1..][k] != x {
            assert d[1..][k] == d[k + 1];
          }
        }
      }
    }
  }

  /** `handleExtensionToggle(extension)`: only that extension's membership
      changes. */
  function ToggleExtension(selected: set<string>, extension: string): (r: set<string>)
    ensures extension in r <==> extension !in selected
    ensures forall e | e != extension :: e in r <==> e in selected
  {
    Sets.Toggled(selected, extension)
  }

  /** `handleSelectAll`: exactly the available extensions. */
  function SelectAll(available: seq<string>): (r: set<string>)
    ensures forall e :: e in r <==> e in available
  {
    Elems(available)
  }

  /** `handleClearAll`. */
  function ClearAll(): (r: set<string>)
    ensures r == {}
  {
    {}
  }

  /** `allSelected` compares the sizes only. */
  predicate AllSelected(selected: set<string>, available: seq<string>) {
    |selected| == |available|
  }

  predicate SomeSelected(selected: set<string>) {
    |selected| > 0
  }

  /** After Select All every extension counts as selected, and Clear All
      leaves none selected. */
  lemma SelectAllThenAllSelected(availableFiles: seq<string>)
    ensures var available := AvailableExtensions(availableFiles);
      AllSelected(SelectAll(available), available) && !SomeSelected(ClearAll())
  {
    var available := AvailableExtensions(availableFiles);
    AvailableExtensionsSpec(availableFiles);
    DistinctCard(available);
  }

  /** A list without repeats has as many elements as its set. */
  lemma {:induction false} DistinctCard(s: seq<string>)
    requires forall i, j | 0 <= i < j < |s| :: s[i] != s[j]
    ensures |Elems(s)| == |s|
  {
    if s != [] {
      var n := |s| - 1;
      DistinctCard(s[..n]);
      assert Elems(s) == Elems(s[..n]) + {s[n]};
      assert s[n] !in Elems(s[..n]) by {
        forall k | 0 <= k < n ensures s[..n][k] != s[n] {
          assert s[..n][k] == s[k];
        }
      }
    }
  }

  /** Sizes alone decide: a selection of one other extension counts as all
      selected when exactly one extension is available. */
  lemma AllSelectedBySize()
    ensures AllSelected({"md"}, ["ts"]) && "ts" !in {"md"}
  {
    assert |{"md"}| == 1;
  }

  /** What the panel shows: the empty state without available extensions,
      otherwise the buttons' states. */
  datatype Panel = EmptyState | Buttons(selectAllDisabled: bool, clearAllDisabled: bool)

  function Render(selected: set<string>, availableFiles: seq<string>): (p: Panel)
    ensures p.EmptyState? <==> |AvailableExtensions(availableFiles)| == 0
    ensures p.Buttons? ==> (p.selectAllDisabled <==> AllSelected(selected, AvailableExtensions(availableFiles)))
    ensures p.Buttons? ==> (p.clearAllDisabled <==> selected == {})
  {
    var available := AvailableExtensions(availableFiles);
    if |available| == 0 then EmptyState
    else Buttons(AllSelected(selected, available), !SomeSelected(selected))
  }
}
