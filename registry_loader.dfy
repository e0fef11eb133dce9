/** Loading every prop registry into one collection (`LoadPropDefinitions`).

    The found registry files are put in processing order (default file
    first, the rest sorted); every file that can be read and parsed
    contributes the props of its `definitions` array, in array order; and
    the props of all files are folded into one list by name: a name met
    before overwrites the prop at that name's position, a new name is
    appended. Later files therefore override earlier ones.

    As in the writer, `fold` maps a name to the key the name index stores. */
module RegistryLoader {
  import opened Wrappers
  import opened PropSizes
  import opened Keyed
  import opened RegistryTypes
  import opened FileOrder

  /** The prop a definition describes: its name, the mesh loaded from its
      path, and its size read back from text. */
  function RecordOf(obj: JsonObject, loadMesh: string -> Mesh, reflection: EnumReflection): PropParameters
  {
    PropParameters(NameOf(obj), loadMesh(StringField(obj, PathField)),
                   StringToPropSizeType(reflection, StringField(obj, SizeField)))
  }

  /** The props of one file: none when it could not be read or parsed. */
  function DocumentRecords(doc: Option<Document>, loadMesh: string -> Mesh, reflection: EnumReflection): seq<PropParameters>
  {
    match doc
    case None => []
    case Some(d) =>
      seq(|d.definitions|, i requires 0 <= i < |d.definitions| => RecordOf(d.definitions[i], loadMesh, reflection))
  }

  /** The props of each file, in processing order. */
  function FileParts(files: seq<string>, read: string -> Option<Document>, loadMesh: string -> Mesh,
                     reflection: EnumReflection): (parts: seq<seq<PropParameters>>)
    ensures |parts| == |files|
    ensures forall i :: 0 <= i < |files| ==> parts[i] == DocumentRecords(read(files[i]), loadMesh, reflection)
  {
    seq(|files|, i requires 0 <= i < |files| => DocumentRecords(read(files[i]), loadMesh, reflection))
  }

  /** The runs of `parts` one after the other. */
  function Flatten<T>(parts: seq<seq<T>>): seq<T>
  {
    if parts == [] then [] else Flatten(parts[..|parts| - 1]) + parts[|parts| - 1]
  }

  /** The props of all files, in processing order. */
  function FileRecords(files: seq<string>, read: string -> Option<Document>, loadMesh: string -> Mesh,
                       reflection: EnumReflection): seq<PropParameters>
  {
    Flatten(FileParts(files, read, loadMesh, reflection))
  }

  lemma PropKeysConcat(a: seq<PropParameters>, b: seq<PropParameters>, fold: string -> string)
    ensures PropKeys(a + b, fold) == PropKeys(a, fold) + PropKeys(b, fold)
  {
  }

  lemma PropKeysReplace(props: seq<PropParameters>, j: nat, p: PropParameters, fold: string -> string)
    requires j < |props| && fold(p.name) == fold(props[j].name)
    ensures PropKeys(props[j := p], fold) == PropKeys(props, fold)
  {
  }

  /** One fold step: overwrite the prop the name is indexed at, or append. */
  function FoldProp(acc: seq<PropParameters>, p: PropParameters, fold: string -> string): seq<PropParameters>
  {
    var i := LastIndexOf(PropKeys(acc, fold), fold(p.name));
    if i >= 0 then acc[i := p] else acc + [p]
  }

  /** The collection after folding `recs`, in order, into `acc`. */
  function FoldProps(acc: seq<PropParameters>, recs: seq<PropParameters>, fold: string -> string): seq<PropParameters>
  {
    if recs == [] then acc
    else FoldProp(FoldProps(acc, recs[..|recs| - 1], fold), recs[|recs| - 1], fold)
  }

  lemma PropKeysAgree(props: seq<PropParameters>, key: PropParameters -> string, fold: string -> string)
    requires forall p :: key(p) == fold(p.name)
    ensures Keys(props, key) == PropKeys(props, fold)
  {
  }

  /** Folds one prop into the collection: a name the index holds
      overwrites the prop at its position, a new name is appended and
      indexed. */
  method FoldOne(registry: KeyedList<PropParameters>, params: PropParameters, fold: string -> string)
    requires registry.Valid() && forall p :: registry.key(p) == fold(p.name)
    modifies registry
    ensures registry.Valid()
    ensures registry.items == FoldProp(old(registry.items), params, fold)
  {
    PropKeysAgree(registry.items, registry.key, fold);
    var k := registry.Find(fold(params.name));
    if k >= 0 {
      registry.Replace(k, params);
    } else {
      registry.Append(params);
    }
  }

  /** Folds the props of one parsed file into the collection, in array
      order: a name the index holds overwrites the prop at its position, a
      new name is appended and indexed. */
  method FoldDocumentProps(registry: KeyedList<PropParameters>, defs: seq<JsonObject>, loadMesh: string -> Mesh,
                           fold: string -> string, reflection: EnumReflection)
    requires registry.Valid() && forall p :: registry.key(p) == fold(p.name)
    modifies registry
    ensures registry.Valid()
    ensures registry.items == FoldProps(old(registry.items), DocumentRecords(Some(Document(defs, map[])), loadMesh, reflection), fold)
  {
    ghost var recs := DocumentRecords(Some(Document(defs, map[])), loadMesh, reflection);
    ghost var start := registry.items;
    for j := 0 to |defs|
      invariant registry.Valid()
      invariant registry.items == FoldProps(start, recs[..j], fold)
    {
      var params := RecordOf(defs[j], loadMesh, reflection);
      assert recs[j] == params;
      FoldPropsStep(start, recs, j, fold);
      FoldOne(registry, params, fold);
    }
    assert recs[..|defs|] == recs;
  }

  lemma FoldPropsStep(acc: seq<PropParameters>, recs: seq<PropParameters>, j: nat, fold: string -> string)
    requires j < |recs|
    ensures FoldProps(acc, recs[..j + 1], fold) == FoldProp(FoldProps(acc, recs[..j], fold), recs[j], fold)
  {
    assert recs[..j + 1][..j] == recs[..j];
  }

  /** Folding two runs of props one after the other folds their concatenation. */
  lemma {:induction false} FoldPropsConcat(acc: seq<PropParameters>, a: seq<PropParameters>, b: seq<PropParameters>,
                                           fold: string -> string)
    ensures FoldProps(FoldProps(acc, a, fold), b, fold) == FoldProps(acc, a + b, fold)
  {
    if b == [] {
      assert a + b == a;
    } else {
      FoldPropsConcat(acc, a, b[..|b| - 1], fold);
      assert (a + b)[..|a + b| - 1] == a + b[..|b| - 1];
    }
  }

  /** Folds the props of one file into the collection; a file that could
      not be read or parsed contributes nothing. */
  method FoldFile(registry: KeyedList<PropParameters>, doc: Option<Document>, loadMesh: string -> Mesh,
                  fold: string -> string, reflection: EnumReflection)
    requires registry.Valid() && forall p :: registry.key(p) == fold(p.name)
    modifies registry
    ensures registry.Valid()
    ensures registry.items == FoldProps(old(registry.items), DocumentRecords(doc, loadMesh, reflection), fold)
  {
    if doc.Some? {
      FoldDocumentProps(registry, doc.value.definitions, loadMesh, fold, reflection);
      FoldFileStep(old(registry.items), doc.value, loadMesh, fold, reflection);
    }
  }

  /** Orders the found registry files, reads each, and folds the props of
      all readable files into one list, keyed by name. */
  method LoadPropDefinitions(found: seq<string>, less: (string, string) -> bool, contains: (string, string) -> bool,
                             read: string -> Option<Document>, loadMesh: string -> Mesh,
                             fold: string -> string, reflection: EnumReflection)
    returns (props: seq<PropParameters>)
    ensures props == FoldProps([], FileRecords(DefaultFirst(SortNames(found, less), contains), read, loadMesh, reflection), fold)
  {
    var files := OrderPropFiles(found, less, contains);
    var key := (p: PropParameters) => fold(p.name);
    var registry := new KeyedList<PropParameters>(key);
    assert files[..0] == [];
    assert registry.items == FoldProps([], FileRecords(files[..0], read, loadMesh, reflection), fold);
    for i := 0 to |files|
      invariant registry.Valid() && forall p :: registry.key(p) == fold(p.name)
      invariant registry.items == FoldProps([], FileRecords(files[..i], read, loadMesh, reflection), fold)
    {
      FoldFile(registry, read(files[i]), loadMesh, fold, reflection);
      FileRecordsStep(files, i, read, loadMesh, reflection);
      FoldPropsConcat([], FileRecords(files[..i], read, loadMesh, reflection),
                      DocumentRecords(read(files[i]), loadMesh, reflection), fold);
    }
    assert files[..|files|] == files;
    props := registry.items;
  }

  lemma FileRecordsStep(files: seq<string>, i: nat, read: string -> Option<Document>, loadMesh: string -> Mesh,
                        reflection: EnumReflection)
    requires i < |files|
    ensures FileRecords(files[..i + 1], read, loadMesh, reflection)
         == FileRecords(files[..i], read, loadMesh, reflection) + DocumentRecords(read(files[i]), loadMesh, reflection)
  {
    var parts := FileParts(files[..i + 1], read, loadMesh, reflection);
    assert parts[..i] == FileParts(files[..i], read, loadMesh, reflection);
  }

  /** Folding one parsed file's array continues the fold of the files before it. */
  lemma FoldFileStep(before: seq<PropParameters>, d: Document, loadMesh: string -> Mesh, fold: string -> string,
                     reflection: EnumReflection)
    ensures FoldProps(before, DocumentRecords(Some(Document(d.definitions, map[])), loadMesh, reflection), fold)
         == FoldProps(before, DocumentRecords(Some(d), loadMesh, reflection), fold)
  {
    assert DocumentRecords(Some(Document(d.definitions, map[])), loadMesh, reflection)
        == DocumentRecords(Some(d), loadMesh, reflection);
  }

  /** The names after the fold are the names of the folded props, each
      once, in the order they first occur. */
  lemma {:induction false} FoldNames(recs: seq<PropParameters>, fold: string -> string)
    ensures PropKeys(FoldProps([], recs, fold), fold) == AppendNew([], PropKeys(recs, fold))
  {
    if recs != [] {
      var init, p := recs[..|recs| - 1], recs[|recs| - 1];
      FoldNames(init, fold);
      var rs := PropKeys(recs, fold);
      assert rs[..|rs| - 1] == PropKeys(init, fold);
      var prev := FoldProps([], init, fold);
      var ks := PropKeys(prev, fold);
      var j := LastIndexOf(ks, fold(p.name));
      if j >= 0 {
        PropKeysReplace(prev, j, p, fold);
      } else {
        PropKeysConcat(prev, [p], fold);
      }
    }
  }

  /** Names are unique after the fold. */
  lemma FoldNamesUnique(recs: seq<PropParameters>, fold: string -> string)
    ensures Unique(PropKeys(FoldProps([], recs, fold), fold))
  {
    FoldNames(recs, fold);
    AppendNewUnique([], PropKeys(recs, fold));
  }

  /** The fold holds exactly the names of the folded props, and each name
      sits at the position given by its first occurrence: a name met earlier
      comes before a name met later. */
  lemma FoldKeepsFirstPositions(recs: seq<PropParameters>, fold: string -> string)
    ensures var ks, rs := PropKeys(FoldProps([], recs, fold), fold), PropKeys(recs, fold);
      && (forall x :: x in ks <==> x in rs)
      && (forall a, b :: 0 <= a < b < |ks| ==> FirstIndexOf(rs, ks[a]) < FirstIndexOf(rs, ks[b]))
  {
    var ks, rs := PropKeys(FoldProps([], recs, fold), fold), PropKeys(recs, fold);
    FoldNames(recs, fold);
    AppendNewShape([], rs);
    assert ks[0..] == ks;
  }

  /** Each name's prop after the fold is the LAST prop with that name in
      processing order: later props override earlier ones. */
  lemma {:induction false} FoldLastWins(recs: seq<PropParameters>, fold: string -> string, i: nat)
    requires i < |FoldProps([], recs, fold)|
    ensures var r := FoldProps([], recs, fold);
      var rs := PropKeys(recs, fold);
      && fold(r[i].name) in rs
      && r[i] == recs[LastIndexOf(rs, fold(r[i].name))]
  {
    if recs != [] {
      var init, p := recs[..|recs| - 1], recs[|recs| - 1];
      var n := fold(p.name);
      var rs, rs' := PropKeys(recs, fold), PropKeys(init, fold);
      assert rs == rs' + [n];
      var prev := FoldProps([], init, fold);
      var ks' := PropKeys(prev, fold);
      var r := FoldProps([], recs, fold);
      var j := LastIndexOf(ks', n);
      LastIndexOfAppend(rs', n, n);
      if j >= 0 {
        assert r == prev[j := p];
        if i != j {
          FoldLastWins(init, fold, i);
          FoldNamesUnique(init, fold);
          assert fold(r[i].name) != n;
          LastIndexOfAppend(rs', n, fold(r[i].name));
        }
      } else if i < |prev| {
        assert r == prev + [p];
        FoldLastWins(init, fold, i);
        assert ks'[i] != n;
        LastIndexOfAppend(rs', n, fold(r[i].name));
      }
    }
  }

  /** Flattening two lists of runs one after the other flattens each and
      concatenates the results. */
  lemma {:induction false} FlattenConcat<T>(a: seq<seq<T>>, b: seq<seq<T>>)
    ensures Flatten(a + b) == Flatten(a) + Flatten(b)
  {
    if b == [] {
      assert a + b == a;
    } else {
      var init := b[..|b| - 1];
      assert (a + b)[..|a + b| - 1] == a + init;
      FlattenConcat(a, init);
    }
  }

  /** The props of a run of files are the props of its first `s` files
      followed by the props of the rest. */
  lemma FileRecordsSplit(files: seq<string>, s: nat, read: string -> Option<Document>,
                         loadMesh: string -> Mesh, reflection: EnumReflection)
    requires s <= |files|
    ensures FileRecords(files, read, loadMesh, reflection)
         == FileRecords(files[..s], read, loadMesh, reflection) + FileRecords(files[s..], read, loadMesh, reflection)
  {
    var front, back := FileParts(files[..s], read, loadMesh, reflection), FileParts(files[s..], read, loadMesh, reflection);
    assert FileParts(files, read, loadMesh, reflection) == front + back;
    FlattenConcat(front, back);
  }

  /** A name defined by any of the files from position `s` on takes its prop
      from the last of those definitions: files processed later override the
      files processed before them, the default file included. */
  lemma LaterFilesOverride(files: seq<string>, s: nat, read: string -> Option<Document>,
                           loadMesh: string -> Mesh, fold: string -> string, reflection: EnumReflection, n: string)
    requires s <= |files|
    requires n in PropKeys(FileRecords(files[s..], read, loadMesh, reflection), fold)
    ensures var r := FoldProps([], FileRecords(files, read, loadMesh, reflection), fold);
      var later := FileRecords(files[s..], read, loadMesh, reflection);
      var i := LastIndexOf(PropKeys(r, fold), n);
      && 0 <= i
      && r[i] == later[LastIndexOf(PropKeys(later, fold), n)]
  {
    var all := FileRecords(files, read, loadMesh, reflection);
    var earlier := FileRecords(files[..s], read, loadMesh, reflection);
    var later := FileRecords(files[s..], read, loadMesh, reflection);
    FileRecordsSplit(files, s, read, loadMesh, reflection);
    PropKeysConcat(earlier, later, fold);
    LastIndexOfConcat(PropKeys(earlier, fold), PropKeys(later, fold), n);
    var r := FoldProps([], all, fold);
    FoldKeepsFirstPositions(all, fold);
    var i := LastIndexOf(PropKeys(r, fold), n);
    FoldLastWins(all, fold, i);
  }
}
