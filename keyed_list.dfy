/** The replace-or-append pattern that both the registry writer and the
    registry loader use: an ordered list of items together with a map from
    each item's key to its position. The index behaves like UE's `TMap::Add`:
    registering a key that is already present overwrites its position, so
    when the list holds the same key twice the index points at the later
    occurrence. */
module Keyed {

  /** The key of every item, in list order. */
  function Keys<T>(items: seq<T>, key: T -> string): (ks: seq<string>)
    ensures |ks| == |items|
    ensures forall i :: 0 <= i < |items| ==> ks[i] == key(items[i])
  {
    seq(|items|, i requires 0 <= i < |items| => key(items[i]))
  }

  /** No key occurs twice. */
  predicate Unique(ks: seq<string>)
  {
    forall i, j :: 0 <= i < j < |ks| ==> ks[i] != ks[j]
  }

  /** Position of the last occurrence of `k` in `ks`, or -1 when `k` does not occur. */
  function LastIndexOf(ks: seq<string>, k: string): (r: int)
    ensures -1 <= r < |ks|
    ensures r >= 0 ==> ks[r] == k && forall j :: r < j < |ks| ==> ks[j] != k
    ensures r < 0 <==> k !in ks
  {
    if ks == [] then -1
    else if ks[|ks| - 1] == k then |ks| - 1
    else
      assert ks == ks[..|ks| - 1] + [ks[|ks| - 1]];
      LastIndexOf(ks[..|ks| - 1], k)
  }

  /** Position of the first occurrence of `k` in `ks`, or -1 when `k` does not occur. */
  function FirstIndexOf(ks: seq<string>, k: string): (r: int)
    ensures -1 <= r < |ks|
    ensures r >= 0 ==> ks[r] == k && forall j :: 0 <= j < r ==> ks[j] != k
    ensures r < 0 <==> k !in ks
  {
    if ks == [] then -1
    else if ks[0] == k then 0
    else
      assert ks == [ks[0]] + ks[1..];
      var r := FirstIndexOf(ks[1..], k);
      if r < 0 then -1 else r + 1
  }

  /** Position of the first name that `matches` pairs with `x`, or -1 when
      none does: the linear search behind both the enum lookup by name and
      the search for the default registry file. */
  function FirstMatch(names: seq<string>, matches: (string, string) -> bool, x: string): (r: int)
    ensures -1 <= r < |names|
    ensures r >= 0 ==> matches(names[r], x) && forall j :: 0 <= j < r ==> !matches(names[j], x)
    ensures r < 0 <==> forall j :: 0 <= j < |names| ==> !matches(names[j], x)
  {
    if names == [] then -1
    else if matches(names[0], x) then 0
    else
      var r := FirstMatch(names[1..], matches, x);
      assert forall j :: 1 <= j < |names| ==> names[j] == names[1..][j - 1];
      if r < 0 then -1 else r + 1
  }

  /** The key sequence a replace-or-append fold ends with: starting from
      `seen`, each key of `ks` not met so far is appended, in input order. */
  function AppendNew(seen: seq<string>, ks: seq<string>): seq<string>
  {
    if ks == [] then seen
    else
      var r := AppendNew(seen, ks[..|ks| - 1]);
      if ks[|ks| - 1] in r then r else r + [ks[|ks| - 1]]
  }

  lemma LastIndexOfAppend(ks: seq<string>, k: string, n: string)
    ensures LastIndexOf(ks + [k], n) == if n == k then |ks| else LastIndexOf(ks, n)
  {
    assert (ks + [k])[..|ks|] == ks;
  }

  /** Appending keys other than `n` does not move the last occurrence of `n`. */
  lemma {:induction false} LastIndexOfConcat(ks: seq<string>, more: seq<string>, n: string)
    ensures n !in more ==> LastIndexOf(ks + more, n) == LastIndexOf(ks, n)
    ensures n in more ==> LastIndexOf(ks + more, n) == |ks| + LastIndexOf(more, n)
  {
    if more == [] {
      assert ks + more == ks;
    } else {
      var init, last := more[..|more| - 1], more[|more| - 1];
      assert more == init + [last];
      assert ks + more == (ks + init) + [last];
      LastIndexOfAppend(ks + init, last, n);
      LastIndexOfAppend(init, last, n);
      LastIndexOfConcat(ks, init, n);
    }
  }

  lemma FirstIndexOfAppend(ks: seq<string>, k: string, n: string)
    ensures n in ks ==> FirstIndexOf(ks + [k], n) == FirstIndexOf(ks, n)
    ensures n !in ks && n == k ==> FirstIndexOf(ks + [k], n) == |ks|
  {
    var r := FirstIndexOf(ks + [k], n);
    if n in ks {
      var q := FirstIndexOf(ks, n);
      assert (ks + [k])[q] == n;
    } else if n == k {
      assert (ks + [k])[|ks|] == n;
    }
  }

  /** What a replace-or-append fold does to the key sequence: the keys already
      present keep their positions, and the keys of `ks` not met before are
      appended, each once, in the order of their first occurrence. */
  lemma {:induction false} AppendNewShape(seen: seq<string>, ks: seq<string>)
    ensures var r := AppendNew(seen, ks);
      && |seen| <= |r| && r[..|seen|] == seen
      && (forall x :: x in r[|seen|..] <==> x in ks && x !in seen)
      && Unique(r[|seen|..])
      && (forall a, b :: |seen| <= a < b < |r| ==> FirstIndexOf(ks, r[a]) < FirstIndexOf(ks, r[b]))
  {
    if ks != [] {
      var init, last := ks[..|ks| - 1], ks[|ks| - 1];
      assert ks == init + [last];
      AppendNewShape(seen, init);
      var p := AppendNew(seen, init);
      forall x | x in init
        ensures FirstIndexOf(ks, x) == FirstIndexOf(init, x)
      {
        FirstIndexOfAppend(init, last, x);
      }
      if last !in p {
        var r := p + [last];
        assert r[..|seen|] == seen;
        assert r[|seen|..] == p[|seen|..] + [last];
        assert p == p[..|seen|] + p[|seen|..];
        assert last !in init;
        FirstIndexOfAppend(init, last, last);
        forall a, b | |seen| <= a < b < |r|
          ensures FirstIndexOf(ks, r[a]) < FirstIndexOf(ks, r[b])
        {
          assert r[a] in p[|seen|..];
          assert r[a] in init;
          if b == |r| - 1 {
            assert FirstIndexOf(init, r[a]) < |init|;
          } else {
            assert r[b] in p[|seen|..];
          }
        }
      } else {
        forall x | x in p[|seen|..] ensures x in init && x !in seen { }
      }
    }
  }

  /** Appending keeps the keys seen where they were. */
  lemma AppendNewPrefix(seen: seq<string>, ks: seq<string>)
    ensures var r := AppendNew(seen, ks);
      && |seen| <= |r| && r == seen + r[|seen|..]
      && forall x :: x in r[|seen|..] ==> x !in seen
  {
    var r := AppendNew(seen, ks);
    AppendNewShape(seen, ks);
    assert r == r[..|seen|] + r[|seen|..];
  }

  /** The keys after appending are the keys seen and the keys appended. */
  lemma AppendNewContains(seen: seq<string>, ks: seq<string>)
    ensures forall x :: x in AppendNew(seen, ks) <==> x in seen || x in ks
  {
    var r := AppendNew(seen, ks);
    AppendNewShape(seen, ks);
    assert r == seen + r[|seen|..];
  }

  /** Without a key the list has not met yet, the fold appends nothing. */
  lemma {:induction false} AppendNewNothingNew(seen: seq<string>, ks: seq<string>)
    requires forall x :: x in ks ==> x in seen
    ensures AppendNew(seen, ks) == seen
  {
    if ks != [] {
      AppendNewNothingNew(seen, ks[..|ks| - 1]);
    }
  }

  /** A list with unique keys keeps them unique under the fold. */
  lemma AppendNewUnique(seen: seq<string>, ks: seq<string>)
    requires Unique(seen)
    ensures Unique(AppendNew(seen, ks))
  {
    var r := AppendNew(seen, ks);
    AppendNewShape(seen, ks);
    forall i, j | 0 <= i < j < |r| ensures r[i] != r[j]
    {
      if j < |seen| {
        assert r[i] == seen[i] && r[j] == seen[j];
      } else if i < |seen| {
        assert r[j] in r[|seen|..];
        assert r[i] in seen;
      } else {
        assert r[i] == r[|seen|..][i - |seen|] && r[j] == r[|seen|..][j - |seen|];
      }
    }
  }

  /** An ordered list of items plus the key-to-position index that the
      registry code keeps beside it (`PropIndexes`). */
  class KeyedList<T> {
    const key: T -> string
    var items: seq<T>
    var index: map<string, int>

    /** The index holds exactly the keys of the list, each mapped to the
        position of its last occurrence. */
    ghost predicate Valid()
      reads this
    {
      && (forall k :: k in index <==> k in Keys(items, key))
      && (forall k | k in index :: index[k] == LastIndexOf(Keys(items, key), k))
    }

    /** An empty list with an empty index. */
    constructor (key: T -> string)
      ensures Valid() && this.key == key && items == []
    {
      this.key := key;
      items := [];
      index := map[];
    }

    /** Takes over an existing list and indexes it one item at a time, in
        list order; a repeated key ends up mapped to its last position. */
    constructor Indexing(key: T -> string, existing: seq<T>)
      ensures Valid() && this.key == key && items == existing
    {
      this.key := key;
      items := existing;
      index := map[];
      new;
      for i := 0 to |existing|
        invariant items == existing && this.key == key
        invariant forall k :: k in index <==> k in Keys(existing[..i], key)
        invariant forall k | k in index :: index[k] == LastIndexOf(Keys(existing[..i], key), k)
      {
        assert Keys(existing[..i + 1], key) == Keys(existing[..i], key) + [key(existing[i])];
        forall k ensures LastIndexOf(Keys(existing[..i + 1], key), k)
            == if k == key(existing[i]) then i else LastIndexOf(Keys(existing[..i], key), k)
        {
          LastIndexOfAppend(Keys(existing[..i], key), key(existing[i]), k);
        }
        index := index[key(existing[i]) := i];
      }
      assert existing[..|existing|] == existing;
    }

    /** Looks a key up in the index: the position of the key's last
        occurrence in the list, or -1 when the list does not hold it. */
    method Find(k: string) returns (i: int)
      requires Valid()
      ensures i == LastIndexOf(Keys(items, key), k)
    {
      i := if k in index then index[k] else -1;
    }

    /** Overwrites the item at position `i` with one of the same key. */
    method Replace(i: int, x: T)
      requires Valid() && 0 <= i < |items| && key(x) == key(items[i])
      modifies this
      ensures Valid() && items == old(items)[i := x]
    {
      items := items[i := x];
      assert Keys(items, key) == Keys(old(items), key);
    }

    /** Appends an item whose key the list does not hold and registers it
        at the new last position. */
    method Append(x: T)
      requires Valid() && key(x) !in Keys(items, key)
      modifies this
      ensures Valid() && items == old(items) + [x]
    {
      ghost var ks := Keys(items, key);
      items := items + [x];
      assert Keys(items, key) == ks + [key(x)];
      forall k ensures LastIndexOf(ks + [key(x)], k) == if k == key(x) then |ks| else LastIndexOf(ks, k)
      {
        LastIndexOfAppend(ks, key(x), k);
      }
      index := index[key(x) := |items| - 1];
    }
  }
}
