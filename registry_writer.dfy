/** Merging a batch of prop parameters into the default registry document
    (`AddToCarlaBlueprintRegistry`).

    The stored document is read; its `definitions` array is indexed by name;
    each incoming prop, in input order, either updates the fields of the
    definition its name is indexed at, or is appended as a new definition and
    indexed; the array is put back into the document, which is written out.

    Names are compared as the name index compares them: `fold` maps a name to
    the key the index stores (UE's string map compares without regard to
    case, which is `fold` = lower-casing; exact comparison is `fold` = the
    identity). */
module RegistryWriter {
  import opened Wrappers
  import opened PropSizes
  import opened Keyed
  import opened RegistryTypes

  /** The writer dereferences the mesh and names the size, so each incoming
      prop needs a loaded mesh and a declared enumerator. */
  predicate Writable(p: PropParameters)
  {
    p.mesh.StaticMesh? && p.size.Enumerator?
  }

  predicate AllWritable(batch: seq<PropParameters>)
  {
    forall j :: 0 <= j < |batch| ==> Writable(batch[j])
  }

  /** The index key of every definition. */
  function DefinitionKeys(defs: seq<JsonObject>, fold: string -> string): (ks: seq<string>)
    ensures |ks| == |defs|
    ensures forall i :: 0 <= i < |defs| ==> ks[i] == fold(NameOf(defs[i]))
  {
    seq(|defs|, i requires 0 <= i < |defs| => fold(NameOf(defs[i])))
  }

  /** The fields the writer sets on a definition. */
  const WrittenFields: set<string> := {NameField, PathField, SizeField}

  /** A definition with the prop's name, mesh path and size text written
      into it; every other field of `obj` is kept. */
  function Fill(obj: JsonObject, p: PropParameters, reflection: EnumReflection): (r: JsonObject)
    requires Writable(p)
    ensures r.Keys == obj.Keys + WrittenFields
    ensures r[NameField] == p.name && r[PathField] == p.mesh.pathName
    ensures r[SizeField] == PropSizeTypeToString(reflection, p.size.size)
    ensures forall f | f in obj && f !in WrittenFields :: r[f] == obj[f]
  {
    obj[NameField := p.name][PathField := p.mesh.pathName][SizeField := PropSizeTypeToString(reflection, p.size.size)]
  }

  /** Filling twice with the same keys: the second prop's values win. */
  lemma FillTwice(obj: JsonObject, p: PropParameters, q: PropParameters, reflection: EnumReflection)
    requires Writable(p) && Writable(q)
    ensures Fill(Fill(obj, p, reflection), q, reflection) == Fill(obj, q, reflection)
  {
  }

  /** One step of the merge: update the definition the prop's name is indexed
      at (its last occurrence), or append a new definition. */
  function MergeProp(defs: seq<JsonObject>, p: PropParameters, fold: string -> string, reflection: EnumReflection): seq<JsonObject>
    requires Writable(p)
  {
    var i := LastIndexOf(DefinitionKeys(defs, fold), fold(p.name));
    if i >= 0 then defs[i := Fill(defs[i], p, reflection)]
    else defs + [Fill(map[], p, reflection)]
  }

  /** The `definitions` array after merging the whole batch in input order. */
  function MergeDefinitions(defs: seq<JsonObject>, batch: seq<PropParameters>, fold: string -> string,
                            reflection: EnumReflection): seq<JsonObject>
    requires AllWritable(batch)
  {
    if batch == [] then defs
    else MergeProp(MergeDefinitions(defs, batch[..|batch| - 1], fold, reflection), batch[|batch| - 1], fold, reflection)
  }

  /** The document the merge starts from: the stored one, or an empty one
      when the file could not be read or parsed. */
  function BaseDocument(stored: Option<Document>): Document
  {
    match stored
    case Some(doc) => doc
    case None => Document([], map[])
  }

  lemma DefinitionKeysAgree(defs: seq<JsonObject>, key: JsonObject -> string, fold: string -> string)
    requires forall obj :: key(obj) == fold(NameOf(obj))
    ensures Keys(defs, key) == DefinitionKeys(defs, fold)
  {
  }

  /** Merges one prop into the indexed definitions: the definition its name
      is indexed at is filled in from it, or a new definition is appended
      and indexed. */
  method MergeOne(indexed: KeyedList<JsonObject>, p: PropParameters, fold: string -> string, reflection: EnumReflection)
    requires Writable(p)
    requires indexed.Valid() && forall obj :: indexed.key(obj) == fold(NameOf(obj))
    modifies indexed
    ensures indexed.Valid()
    ensures indexed.items == MergeProp(old(indexed.items), p, fold, reflection)
  {
    DefinitionKeysAgree(indexed.items, indexed.key, fold);
    var i := indexed.Find(fold(p.name));
    if i >= 0 {
      indexed.Replace(i, Fill(indexed.items[i], p, reflection));
    } else {
      indexed.Append(Fill(map[], p, reflection));
    }
  }

  /** Merges `batch` into the stored default document and returns the
      document that is written back. */
  method AddToCarlaBlueprintRegistry(stored: Option<Document>, batch: seq<PropParameters>,
                                     fold: string -> string, reflection: EnumReflection)
    returns (written: Document)
    requires AllWritable(batch)
    ensures written.definitions == MergeDefinitions(BaseDocument(stored).definitions, batch, fold, reflection)
    ensures written.others == BaseDocument(stored).others
  {
    var base := BaseDocument(stored);
    var key := (obj: JsonObject) => fold(NameOf(obj));
    var indexed := new KeyedList<JsonObject>.Indexing(key, base.definitions);
    assert batch[..0] == [];
    for k := 0 to |batch|
      invariant indexed.Valid() && forall obj :: indexed.key(obj) == fold(NameOf(obj))
      invariant indexed.items == MergeDefinitions(base.definitions, batch[..k], fold, reflection)
    {
      assert batch[..k + 1][..k] == batch[..k] && batch[..k + 1][k] == batch[k];
      MergeOne(indexed, batch[k], fold, reflection);
    }
    assert batch[..|batch|] == batch;
    written := Document(indexed.items, base.others);
  }

  /** The definition a position of the merged array started from: the stored
      one, or an empty object for a position the merge appended. */
  function Base(defs: seq<JsonObject>, i: nat): JsonObject
  {
    if i < |defs| then defs[i] else map[]
  }

  /** The merge only appends: the stored names keep their positions, and the
      names of the batch not stored before are appended, each once, in the
      order they first occur in the batch. */
  lemma {:induction false} MergeNames(defs: seq<JsonObject>, batch: seq<PropParameters>, fold: string -> string,
                                      reflection: EnumReflection)
    requires AllWritable(batch)
    ensures DefinitionKeys(MergeDefinitions(defs, batch, fold, reflection), fold)
         == AppendNew(DefinitionKeys(defs, fold), PropKeys(batch, fold))
  {
    if batch != [] {
      var init, p := batch[..|batch| - 1], batch[|batch| - 1];
      MergeNames(defs, init, fold, reflection);
      var bs := PropKeys(batch, fold);
      assert bs[..|bs| - 1] == PropKeys(init, fold);
      var prev := MergeDefinitions(defs, init, fold, reflection);
      var ks := DefinitionKeys(prev, fold);
      var j := LastIndexOf(ks, fold(p.name));
      if j >= 0 {
        DefinitionKeysReplace(prev, j, Fill(prev[j], p, reflection), fold);
      } else {
        DefinitionKeysAppend(prev, Fill(map[], p, reflection), fold);
      }
    }
  }

  /** One merge step, position by position: the position the prop's name is
      indexed at after the step holds the definition it started from, filled
      in from the prop; every other position is unchanged. */
  lemma MergePropAt(prev: seq<JsonObject>, p: PropParameters, fold: string -> string,
                    reflection: EnumReflection, i: nat)
    requires Writable(p)
    requires i < |MergeProp(prev, p, fold, reflection)|
    ensures var r := MergeProp(prev, p, fold, reflection);
      var ks', n := DefinitionKeys(prev, fold), fold(p.name);
      var ks := DefinitionKeys(r, fold);
      && ks == (if n in ks' then ks' else ks' + [n])
      && r[i] == if ks[i] == n && LastIndexOf(ks, n) == i then Fill(Base(prev, i), p, reflection) else prev[i]
  {
    var r := MergeProp(prev, p, fold, reflection);
    var ks', n := DefinitionKeys(prev, fold), fold(p.name);
    var j := LastIndexOf(ks', n);
    if j >= 0 {
      var obj := Fill(prev[j], p, reflection);
      assert r == prev[j := obj];
      DefinitionKeysReplace(prev, j, obj, fold);
      assert n in ks';
      assert r[i] == if i == j then obj else prev[i];
    } else {
      var obj := Fill(map[], p, reflection);
      assert r == prev + [obj];
      DefinitionKeysAppend(prev, obj, fold);
      LastIndexOfAppend(ks', n, n);
      assert r[i] == if i == |prev| then obj else prev[i];
    }
  }

  lemma DefinitionKeysReplace(defs: seq<JsonObject>, j: nat, obj: JsonObject, fold: string -> string)
    requires j < |defs| && fold(NameOf(obj)) == fold(NameOf(defs[j]))
    ensures DefinitionKeys(defs[j := obj], fold) == DefinitionKeys(defs, fold)
  {
  }

  lemma DefinitionKeysAppend(defs: seq<JsonObject>, obj: JsonObject, fold: string -> string)
    ensures DefinitionKeys(defs + [obj], fold) == DefinitionKeys(defs, fold) + [fold(NameOf(obj))]
  {
  }

  /** What a position of the merged array holds, given the merged array's
      keys `ks`: the position an incoming name is indexed at holds the
      definition it started from, filled in from the LAST prop of the batch
      with that name; every other position holds its stored definition. */
  function MergedAt(defs: seq<JsonObject>, batch: seq<PropParameters>, fold: string -> string,
                    reflection: EnumReflection, ks: seq<string>, i: nat): JsonObject
    requires AllWritable(batch) && i < |ks|
  {
    var bs := PropKeys(batch, fold);
    if ks[i] in bs && LastIndexOf(ks, ks[i]) == i
    then Fill(Base(defs, i), batch[LastIndexOf(bs, ks[i])], reflection)
    else Base(defs, i)
  }

  /** One merge step keeps the description `MergedAt` true, one more prop
      of the batch further. */
  lemma MergeAtStep(defs: seq<JsonObject>, init: seq<PropParameters>, p: PropParameters, fold: string -> string,
                    reflection: EnumReflection, prev: seq<JsonObject>, i: nat)
    requires AllWritable(init) && Writable(p)
    requires |defs| <= |prev|
    requires i < |MergeProp(prev, p, fold, reflection)|
    requires i < |prev| ==> prev[i] == MergedAt(defs, init, fold, reflection, DefinitionKeys(prev, fold), i)
    ensures var r := MergeProp(prev, p, fold, reflection);
      r[i] == MergedAt(defs, init + [p], fold, reflection, DefinitionKeys(r, fold), i)
  {
    var batch := init + [p];
    assert batch[..|init|] == init;
    assert AllWritable(batch);
    var n := fold(p.name);
    assert PropKeys(batch, fold) == PropKeys(init, fold) + [n];
    MergePropAt(prev, p, fold, reflection, i);
    if i == |prev| {
      MergeAtAppended(defs, init, p, fold, reflection, prev);
    } else if DefinitionKeys(prev, fold)[i] != n {
      MergeAtOtherName(defs, init, p, fold, reflection, prev, i);
    } else {
      MergeAtSameName(defs, init, p, fold, reflection, prev, i);
    }
  }

  /** The step appended a definition: it is the prop filled into an empty
      object, and the prop is the last of the batch with its name. */
  lemma MergeAtAppended(defs: seq<JsonObject>, init: seq<PropParameters>, p: PropParameters, fold: string -> string,
                        reflection: EnumReflection, prev: seq<JsonObject>)
    requires AllWritable(init) && Writable(p) && AllWritable(init + [p])
    requires |defs| <= |prev|
    requires |prev| < |MergeProp(prev, p, fold, reflection)|
    requires PropKeys(init + [p], fold) == PropKeys(init, fold) + [fold(p.name)]
    ensures var r := MergeProp(prev, p, fold, reflection);
      r[|prev|] == MergedAt(defs, init + [p], fold, reflection, DefinitionKeys(r, fold), |prev|)
  {
    var r := MergeProp(prev, p, fold, reflection);
    var n := fold(p.name);
    var ks' := DefinitionKeys(prev, fold);
    MergePropAt(prev, p, fold, reflection, |prev|);
    assert n !in ks';
    LastIndexOfAppend(ks', n, n);
    LastIndexOfAppend(PropKeys(init, fold), n, n);
    assert (init + [p])[|init|] == p;
  }

  /** A position holding another name is untouched by the step, and the
      prop does not change which prop of the batch that name takes. */
  lemma MergeAtOtherName(defs: seq<JsonObject>, init: seq<PropParameters>, p: PropParameters, fold: string -> string,
                         reflection: EnumReflection, prev: seq<JsonObject>, i: nat)
    requires AllWritable(init) && Writable(p) && AllWritable(init + [p])
    requires i < |prev| && |defs| <= |prev|
    requires PropKeys(init + [p], fold) == PropKeys(init, fold) + [fold(p.name)]
    requires DefinitionKeys(prev, fold)[i] != fold(p.name)
    requires prev[i] == MergedAt(defs, init, fold, reflection, DefinitionKeys(prev, fold), i)
    ensures var r := MergeProp(prev, p, fold, reflection);
      r[i] == MergedAt(defs, init + [p], fold, reflection, DefinitionKeys(r, fold), i)
  {
    var r := MergeProp(prev, p, fold, reflection);
    var n := fold(p.name);
    var ks', ks := DefinitionKeys(prev, fold), DefinitionKeys(r, fold);
    var bs' := PropKeys(init, fold);
    var m := ks'[i];
    MergePropAt(prev, p, fold, reflection, i);
    assert ks[i] == m && r[i] == prev[i];
    LastIndexOfAppend(ks', n, m);
    assert LastIndexOf(ks, m) == LastIndexOf(ks', m);
    LastIndexOfAppend(bs', n, m);
    assert (m in bs' + [n]) == (m in bs');
    if m in bs' {
      assert (init + [p])[LastIndexOf(bs', m)] == init[LastIndexOf(bs', m)];
    }
  }

  /** A position holding the prop's name: if it is where the name is
      indexed, filling it again from the later prop overrides the earlier
      fill; otherwise it is untouched. */
  lemma MergeAtSameName(defs: seq<JsonObject>, init: seq<PropParameters>, p: PropParameters, fold: string -> string,
                        reflection: EnumReflection, prev: seq<JsonObject>, i: nat)
    requires AllWritable(init) && Writable(p) && AllWritable(init + [p])
    requires i < |prev| && |defs| <= |prev|
    requires PropKeys(init + [p], fold) == PropKeys(init, fold) + [fold(p.name)]
    requires DefinitionKeys(prev, fold)[i] == fold(p.name)
    requires prev[i] == MergedAt(defs, init, fold, reflection, DefinitionKeys(prev, fold), i)
    ensures var r := MergeProp(prev, p, fold, reflection);
      r[i] == MergedAt(defs, init + [p], fold, reflection, DefinitionKeys(r, fold), i)
  {
    var r := MergeProp(prev, p, fold, reflection);
    var n := fold(p.name);
    var bs' := PropKeys(init, fold);
    var ks', ks := DefinitionKeys(prev, fold), DefinitionKeys(r, fold);
    MergePropAt(prev, p, fold, reflection, i);
    assert ks == ks';
    LastIndexOfAppend(bs', n, n);
    assert (init + [p])[|init|] == p;
    if LastIndexOf(ks, n) == i && n in bs' {
      FillTwice(Base(defs, i), init[LastIndexOf(bs', n)], p, reflection);
    }
  }

  /** Every position of the merged array, described from the stored array
      and the batch alone. */
  lemma {:induction false} MergeAt(defs: seq<JsonObject>, batch: seq<PropParameters>, fold: string -> string,
                                   reflection: EnumReflection, i: nat)
    requires AllWritable(batch)
    requires i < |MergeDefinitions(defs, batch, fold, reflection)|
    ensures var r := MergeDefinitions(defs, batch, fold, reflection);
      r[i] == MergedAt(defs, batch, fold, reflection, DefinitionKeys(r, fold), i)
  {
    if batch != [] {
      var init, p := batch[..|batch| - 1], batch[|batch| - 1];
      assert batch == init + [p];
      var prev := MergeDefinitions(defs, init, fold, reflection);
      MergeNames(defs, init, fold, reflection);
      AppendNewShape(DefinitionKeys(defs, fold), PropKeys(init, fold));
      if i < |prev| {
        MergeAt(defs, init, fold, reflection, i);
      }
      MergeAtStep(defs, init, p, fold, reflection, prev, i);
    }
  }

  /** After the merge every incoming name is present, and its definition
      carries the name, mesh path and size of the last prop of the batch
      with that name: the last write wins. */
  lemma MergeLastWriteWins(defs: seq<JsonObject>, batch: seq<PropParameters>, fold: string -> string,
                           reflection: EnumReflection, k: nat)
    requires AllWritable(batch)
    requires k < |batch|
    requires forall j :: k < j < |batch| ==> fold(batch[j].name) != fold(batch[k].name)
    ensures var r := MergeDefinitions(defs, batch, fold, reflection);
      var i := LastIndexOf(DefinitionKeys(r, fold), fold(batch[k].name));
      && 0 <= i
      && WrittenFields <= r[i].Keys
      && r[i][NameField] == batch[k].name
      && r[i][PathField] == batch[k].mesh.pathName
      && r[i][SizeField] == PropSizeTypeToString(reflection, batch[k].size.size)
  {
    var r := MergeDefinitions(defs, batch, fold, reflection);
    var ks, bs := DefinitionKeys(r, fold), PropKeys(batch, fold);
    var n := fold(batch[k].name);
    MergeNames(defs, batch, fold, reflection);
    AppendNewContains(DefinitionKeys(defs, fold), bs);
    assert bs[k] == n;
    var i := LastIndexOf(ks, n);
    assert LastIndexOf(bs, n) == k;
    MergeAt(defs, batch, fold, reflection, i);
    assert MergedAt(defs, batch, fold, reflection, ks, i) == Fill(Base(defs, i), batch[k], reflection);
  }

  /** A stored definition is rewritten only when an incoming name is indexed
      at its position, and then only from the last prop with that name;
      every other stored definition is left as it was. */
  lemma MergeExisting(defs: seq<JsonObject>, batch: seq<PropParameters>, fold: string -> string,
                      reflection: EnumReflection, i: nat)
    requires AllWritable(batch)
    requires i < |defs|
    ensures var r := MergeDefinitions(defs, batch, fold, reflection);
      var seen, bs := DefinitionKeys(defs, fold), PropKeys(batch, fold);
      && i < |r|
      && fold(NameOf(r[i])) == seen[i]
      && r[i] == if seen[i] in bs && LastIndexOf(seen, seen[i]) == i
                 then Fill(defs[i], batch[LastIndexOf(bs, seen[i])], reflection)
                 else defs[i]
  {
    var r := MergeDefinitions(defs, batch, fold, reflection);
    var ks, bs, seen := DefinitionKeys(r, fold), PropKeys(batch, fold), DefinitionKeys(defs, fold);
    MergeNames(defs, batch, fold, reflection);
    AppendNewPrefix(seen, bs);
    var more := ks[|seen|..];
    assert ks == seen + more;
    assert ks[i] == seen[i] && seen[i] !in more;
    LastIndexOfConcat(seen, more, seen[i]);
    MergeAt(defs, batch, fold, reflection, i);
  }

  /** A stored definition keeps every field other than name, path and size,
      with its value: the stored object is updated, not replaced. */
  lemma MergeKeepsOtherFields(defs: seq<JsonObject>, batch: seq<PropParameters>, fold: string -> string,
                              reflection: EnumReflection, i: nat, f: string)
    requires AllWritable(batch)
    requires i < |defs| && f !in WrittenFields
    ensures var r := MergeDefinitions(defs, batch, fold, reflection);
      && i < |r|
      && (f in r[i] <==> f in defs[i])
      && (f in defs[i] ==> r[i][f] == defs[i][f])
  {
    MergeExisting(defs, batch, fold, reflection, i);
  }

  /** A stored array whose names are unique keeps them unique. */
  lemma MergeKeepsNamesUnique(defs: seq<JsonObject>, batch: seq<PropParameters>, fold: string -> string,
                              reflection: EnumReflection)
    requires AllWritable(batch)
    requires Unique(DefinitionKeys(defs, fold))
    ensures Unique(DefinitionKeys(MergeDefinitions(defs, batch, fold, reflection), fold))
  {
    MergeNames(defs, batch, fold, reflection);
    AppendNewUnique(DefinitionKeys(defs, fold), PropKeys(batch, fold));
  }

  /** Merging the same batch a second time changes nothing. */
  lemma MergeIdempotent(defs: seq<JsonObject>, batch: seq<PropParameters>, fold: string -> string,
                        reflection: EnumReflection)
    requires AllWritable(batch)
    ensures var r := MergeDefinitions(defs, batch, fold, reflection);
      MergeDefinitions(r, batch, fold, reflection) == r
  {
    var r := MergeDefinitions(defs, batch, fold, reflection);
    var r2 := MergeDefinitions(r, batch, fold, reflection);
    MergeAgainKeepsNames(defs, batch, fold, reflection);
    forall i | 0 <= i < |r|
      ensures r2[i] == r[i]
    {
      MergeAgainAt(defs, batch, fold, reflection, i);
    }
  }

  /** Merging the batch a second time adds no name. */
  lemma MergeAgainKeepsNames(defs: seq<JsonObject>, batch: seq<PropParameters>, fold: string -> string,
                             reflection: EnumReflection)
    requires AllWritable(batch)
    ensures var r := MergeDefinitions(defs, batch, fold, reflection);
      DefinitionKeys(MergeDefinitions(r, batch, fold, reflection), fold) == DefinitionKeys(r, fold)
  {
    var r := MergeDefinitions(defs, batch, fold, reflection);
    var ks, bs := DefinitionKeys(r, fold), PropKeys(batch, fold);
    MergeNames(defs, batch, fold, reflection);
    AppendNewContains(DefinitionKeys(defs, fold), bs);
    MergeNames(r, batch, fold, reflection);
    AppendNewNothingNew(ks, bs);
  }

  /** Merging the batch a second time leaves each position as it was. */
  lemma MergeAgainAt(defs: seq<JsonObject>, batch: seq<PropParameters>, fold: string -> string,
                     reflection: EnumReflection, i: nat)
    requires AllWritable(batch)
    requires i < |MergeDefinitions(defs, batch, fold, reflection)|
    ensures var r := MergeDefinitions(defs, batch, fold, reflection);
      i < |MergeDefinitions(r, batch, fold, reflection)| && MergeDefinitions(r, batch, fold, reflection)[i] == r[i]
  {
    var r := MergeDefinitions(defs, batch, fold, reflection);
    var ks, bs := DefinitionKeys(r, fold), PropKeys(batch, fold);
    MergeAgainKeepsNames(defs, batch, fold, reflection);
    MergeAt(r, batch, fold, reflection, i);
    MergeAt(defs, batch, fold, reflection, i);
    if ks[i] in bs && LastIndexOf(ks, ks[i]) == i {
      var q := batch[LastIndexOf(bs, ks[i])];
      FillTwice(Base(defs, i), q, q, reflection);
    }
  }
}
