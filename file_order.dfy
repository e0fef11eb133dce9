/** The order in which the loader processes the registry files it found:
    sorted, then the first file whose name contains "Default" moved to the
    front, so that the default registry is the base every other file
    overrides.

    String order and substring test are parameters: UE's `FString` compares
    and searches without regard to case by default, and the model does not
    fix a case rule. */
module FileOrder {
  import opened Keyed

  /** The marker a default registry's file name contains. */
  const DefaultMarker: string := "Default"

  ghost predicate Asymmetric(less: (string, string) -> bool)
  {
    forall a, b :: less(a, b) ==> !less(b, a)
  }

  /** `less` is a strict order. `TArray::Sort` demands a strict weak order
      of the element comparison; the properties below need only this part
      of it. */
  ghost predicate StrictOrder(less: (string, string) -> bool)
  {
    && Asymmetric(less)
    && (forall a, b, c :: less(a, b) && less(b, c) ==> less(a, c))
  }

  /** No name is preceded by one that should come after it. */
  predicate Sorted(names: seq<string>, less: (string, string) -> bool)
  {
    forall i, j :: 0 <= i < j < |names| ==> !less(names[j], names[i])
  }

  /** Inserts `x` in front of the first name it is less than. */
  function InsertSorted(x: string, names: seq<string>, less: (string, string) -> bool): seq<string>
  {
    if names == [] || less(x, names[0]) then [x] + names
    else [names[0]] + InsertSorted(x, names[1..], less)
  }

  /** The list as `TArray::Sort` leaves it: sorted by `less`, a permutation
      of the input. The library's sort is not stable, so among names `less`
      cannot tell apart its order is not determined; this one keeps them in
      the order insertion produces. */
  function SortNames(names: seq<string>, less: (string, string) -> bool): seq<string>
  {
    if names == [] then []
    else InsertSorted(names[0], SortNames(names[1..], less), less)
  }

  lemma {:induction false} InsertSortedAdds(x: string, names: seq<string>, less: (string, string) -> bool)
    ensures multiset(InsertSorted(x, names, less)) == multiset(names) + multiset{x}
  {
    if names != [] && !less(x, names[0]) {
      assert names == [names[0]] + names[1..];
      InsertSortedAdds(x, names[1..], less);
    }
  }

  /** Sorting neither loses nor adds a name. */
  lemma {:induction false} SortNamesPermutes(names: seq<string>, less: (string, string) -> bool)
    ensures multiset(SortNames(names, less)) == multiset(names)
  {
    if names != [] {
      assert names == [names[0]] + names[1..];
      SortNamesPermutes(names[1..], less);
      InsertSortedAdds(names[0], SortNames(names[1..], less), less);
    }
  }

  lemma {:induction false} InsertSortedKeepsOrder(x: string, names: seq<string>, less: (string, string) -> bool)
    requires StrictOrder(less) && Sorted(names, less)
    ensures Sorted(InsertSorted(x, names, less), less)
  {
    if names != [] && !less(x, names[0]) {
      var rest := InsertSorted(x, names[1..], less);
      InsertSortedKeepsOrder(x, names[1..], less);
      InsertSortedAdds(x, names[1..], less);
      forall j | 0 <= j < |rest| ensures !less(rest[j], names[0])
      {
        assert rest[j] in multiset(rest);
        if rest[j] != x {
          assert rest[j] in multiset(names[1..]);
          var m :| 0 <= m < |names[1..]| && names[1..][m] == rest[j];
          assert names[m + 1] == rest[j];
        }
      }
    }
  }

  lemma {:induction false} SortNamesSorted(names: seq<string>, less: (string, string) -> bool)
    requires StrictOrder(less)
    ensures Sorted(SortNames(names, less), less)
  {
    if names != [] {
      SortNamesSorted(names[1..], less);
      InsertSortedKeepsOrder(names[0], SortNames(names[1..], less), less);
    }
  }

  /** `sorted` with its first default file moved to the front. */
  function DefaultFirst(sorted: seq<string>, contains: (string, string) -> bool): seq<string>
  {
    var k := FirstMatch(sorted, contains, DefaultMarker);
    if k < 0 then sorted else [sorted[k]] + (sorted[..k] + sorted[k + 1..])
  }

  /** Sorts the found file names and moves the first one containing
      "Default" to the front: it is removed from its sorted position by the
      search loop and inserted at index 0 afterwards. */
  method OrderPropFiles(found: seq<string>, less: (string, string) -> bool, contains: (string, string) -> bool)
    returns (files: seq<string>)
    ensures files == DefaultFirst(SortNames(found, less), contains)
  {
    files := SortNames(found, less);
    ghost var sorted := files;
    var defaultFile := "";
    var defaultFound := false;
    var i := 0;
    while i < |files| && !defaultFound
      invariant 0 <= i <= |sorted|
      invariant !defaultFound ==> files == sorted && forall j :: 0 <= j < i ==> !contains(sorted[j], DefaultMarker)
      invariant defaultFound ==>
        && 1 <= i
        && FirstMatch(sorted, contains, DefaultMarker) == i - 1
        && defaultFile == sorted[i - 1]
        && files == sorted[..i - 1] + sorted[i..]
      decreases |sorted| - i
    {
      if contains(files[i], DefaultMarker) {
        defaultFile := files[i];
        files := files[..i] + files[i + 1..];
        defaultFound := true;
      }
      i := i + 1;
    }
    if defaultFound {
      files := [defaultFile] + files;
    }
  }

  /** The processing order is a permutation of the found files. */
  lemma OrderIsPermutation(found: seq<string>, less: (string, string) -> bool, contains: (string, string) -> bool)
    ensures multiset(DefaultFirst(SortNames(found, less), contains)) == multiset(found)
  {
    var sorted := SortNames(found, less);
    SortNamesPermutes(found, less);
    var k := FirstMatch(sorted, contains, DefaultMarker);
    if k >= 0 {
      var rest := sorted[..k] + sorted[k + 1..];
      assert DefaultFirst(sorted, contains) == [sorted[k]] + rest;
      RemoveOneCount(sorted, k);
      assert multiset([sorted[k]] + rest) == multiset{sorted[k]} + multiset(rest);
    }
  }

  /** Removing one name from a sorted list leaves it sorted. */
  lemma RemoveKeepsOrder(sorted: seq<string>, less: (string, string) -> bool, k: nat)
    requires Sorted(sorted, less) && k < |sorted|
    ensures Sorted(sorted[..k] + sorted[k + 1..], less)
  {
    var rest := sorted[..k] + sorted[k + 1..];
    forall a, b | 0 <= a < b < |rest|
      ensures !less(rest[b], rest[a])
    {
      var a', b' := if a < k then a else a + 1, if b < k then b else b + 1;
      assert rest[a] == sorted[a'] && rest[b] == sorted[b'];
    }
  }

  /** In a sorted list, the first default file is not preceded in the order
      by any other default file. */
  lemma FirstDefaultIsLeast(sorted: seq<string>, less: (string, string) -> bool,
                            contains: (string, string) -> bool, k: nat)
    requires Asymmetric(less) && Sorted(sorted, less)
    requires k < |sorted| && k == FirstMatch(sorted, contains, DefaultMarker)
    ensures forall f | f in sorted && contains(f, DefaultMarker) :: !less(f, sorted[k])
  {
    forall f | f in sorted && contains(f, DefaultMarker)
      ensures !less(f, sorted[k])
    {
      var j :| 0 <= j < |sorted| && sorted[j] == f;
      if j == k {
        assert less(f, f) ==> !less(f, f);
      } else {
        assert k < j;
      }
    }
  }

  /** Moving the first default file to the front moves nothing else. */
  lemma DefaultFirstMovesOne(sorted: seq<string>, contains: (string, string) -> bool)
    requires FirstMatch(sorted, contains, DefaultMarker) >= 0
    ensures var k := FirstMatch(sorted, contains, DefaultMarker);
      var files := DefaultFirst(sorted, contains);
      && |files| == |sorted|
      && files[0] == sorted[k]
      && files[1..] == sorted[..k] + sorted[k + 1..]
      && multiset(files[1..]) + multiset{files[0]} == multiset(sorted)
  {
    var k := FirstMatch(sorted, contains, DefaultMarker);
    var rest := sorted[..k] + sorted[k + 1..];
    assert DefaultFirst(sorted, contains) == [sorted[k]] + rest;
    assert ([sorted[k]] + rest)[1..] == rest;
    RemoveOneCount(sorted, k);
  }

  lemma RemoveOneCount<T>(s: seq<T>, k: nat)
    requires k < |s|
    ensures multiset(s[..k] + s[k + 1..]) + multiset{s[k]} == multiset(s)
  {
    assert s == s[..k] + [s[k]] + s[k + 1..];
  }

  lemma DefaultFirstOfSorted(sorted: seq<string>, less: (string, string) -> bool,
                             contains: (string, string) -> bool)
    requires Asymmetric(less) && Sorted(sorted, less)
    requires FirstMatch(sorted, contains, DefaultMarker) >= 0
    ensures var files := DefaultFirst(sorted, contains);
      && |files| == |sorted|
      && contains(files[0], DefaultMarker)
      && (forall f | f in sorted && contains(f, DefaultMarker) :: !less(f, files[0]))
      && Sorted(files[1..], less)
      && multiset(files[1..]) + multiset{files[0]} == multiset(sorted)
  {
    var k := FirstMatch(sorted, contains, DefaultMarker);
    DefaultFirstMovesOne(sorted, contains);
    RemoveKeepsOrder(sorted, less, k);
    FirstDefaultIsLeast(sorted, less, contains, k);
  }

  /** When some found file contains "Default", the processing order starts
      with the one that comes first in sorted order, and the other files
      follow in sorted order: only that one file has moved. */
  lemma DefaultFileGoesFirst(found: seq<string>, less: (string, string) -> bool,
                             contains: (string, string) -> bool, d: nat)
    requires StrictOrder(less)
    requires d < |found| && contains(found[d], DefaultMarker)
    ensures var files := DefaultFirst(SortNames(found, less), contains);
      && |files| == |found|
      && contains(files[0], DefaultMarker)
      && (forall f | f in found && contains(f, DefaultMarker) :: !less(f, files[0]))
      && Sorted(files[1..], less)
      && multiset(files[1..]) + multiset{files[0]} == multiset(found)
  {
    var sorted := SortNames(found, less);
    SortNamesSorted(found, less);
    SortNamesPermutes(found, less);
    assert found[d] in multiset(sorted);
    var j :| 0 <= j < |sorted| && sorted[j] == found[d];
    assert FirstMatch(sorted, contains, DefaultMarker) >= 0;
    DefaultFirstOfSorted(sorted, less, contains);
    forall f | f in found ensures f in sorted
    {
      assert f in multiset(sorted);
    }
  }

  /** When no found file contains "Default", the processing order is simply
      the sorted order. */
  lemma NoDefaultFileKeepsSortedOrder(found: seq<string>, less: (string, string) -> bool,
                                      contains: (string, string) -> bool)
    requires StrictOrder(less)
    requires forall f | f in found :: !contains(f, DefaultMarker)
    ensures var files := DefaultFirst(SortNames(found, less), contains);
      files == SortNames(found, less) && Sorted(files, less)
  {
    var sorted := SortNames(found, less);
    SortNamesSorted(found, less);
    SortNamesPermutes(found, less);
    forall j | 0 <= j < |sorted| ensures !contains(sorted[j], DefaultMarker)
    {
      assert sorted[j] in multiset(found);
    }
  }
}
