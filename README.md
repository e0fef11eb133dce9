# CARLA prop blueprint registry, modelled in Dafny

This project models the core of CARLA's prop registry (`UCarlaBlueprintRegistry`), the component that keeps static-mesh
props in JSON files named `*.PropRegistry.json`. Each file has a top-level `definitions` array. Every element of that
array is an object with a `name`, a mesh `path` and a `size`.

The model covers three operations of `CarlaBlueprintRegistry.cpp`:

- **Size conversion** (`PropSizes`). `PropSizeTypeToString` and `StringToPropSizeType` turn the `EPropSize` enum into
  text and back, using UE's runtime enum reflection. The reflected table of names is a constant here. Whether the enum
  object was found, and the name comparison it applies, are given as a value `EnumReflection`.
- **Writer merge** (`RegistryWriter`). `AddToCarlaBlueprintRegistry` reads the default registry document and indexes
  its `definitions` by name. Then, for each incoming prop in input order, it fills in the definition the name is
  indexed at, or appends a new one and indexes it. It returns the document that is written back.
- **Loader** (`FileOrder`, `RegistryLoader`). `LoadPropDefinitions` sorts the found registry files and moves the
  first one containing "Default" to the front. Then it reads each file and folds the props of all files into one
  list. A name met before overwrites the prop at that name's position, and a new name is appended.

Both the writer and the loader keep an ordered array and, beside it, a map from name to position (`PropIndexes`).
That pairing is modelled once, as the class `Keyed.KeyedList`. Its invariant `Valid()` says that the index holds
exactly the keys of the list, each mapped to the position of its last occurrence. That is what `TMap::Add` does when
it overwrites. Each imperative operation is proved against a specification function on values:

- `MergeDefinitions` for the writer;
- `FoldProps` over `FileRecords` for the loader;
- `DefaultFirst(SortNames(..))` for the file order.

The lemmas then state what those functions guarantee.

UE's string semantics are parameters, so the properties hold for any choice:

- `fold` maps a name to the key the name index stores. `TMap<FString, …>` compares keys without regard to case,
  which is `fold` = lower-casing.
- `less` is the `FString` order used by `TArray::Sort`.
- `contains` is `FString::Contains`.
- `EnumReflection.Registered(sameName)` carries the `FName` comparison used by `UEnum::GetIndexByName`.

File reading and parsing (`read`), directory enumeration (`found`) and mesh loading (`loadMesh`) are also
parameters.

While the enum is registered, a name that matches no table entry never reads as `INVALID`: line 39 casts the
`INDEX_NONE` that `GetIndexByName` returns straight to `EPropSize`, which yields a value that names no enumerator
(`SizeValue.NoEnumerator` in the model). `INVALID` comes back only for text the name comparison matches to `INVALID` first, or when the enum
object is missing (line 41).

The `EPropSize` declaration is not part of this model. The table of names is taken to be `Tiny`, `Small`, `Medium`,
`Big`, `Huge`, `INVALID`, in that order.

## Model

| member | source | states |
|---|---|---|
| PropSizes.PropSizeTypeToString | Unreal/CarlaUE4/Plugins/Carla/Source/Carla/Actor/CarlaBlueprintRegistry.cpp:24-32 | without the enum object the text is "unknown"; with it, the text is the table name at the size's index |
| PropSizes.StringToPropSizeType | Unreal/CarlaUE4/Plugins/Carla/Source/Carla/Actor/CarlaBlueprintRegistry.cpp:34-42 | without the enum object the result is `Invalid`; with it, the result names no enumerator exactly when no table name matches, and otherwise it is the enumerator whose name is the first match |
| PropSizes.SizeRoundTrip | Unreal/CarlaUE4/Plugins/Carla/Source/Carla/Actor/CarlaBlueprintRegistry.cpp:24-42 | with the enum registered and a comparison that tells the table names apart, reading back the text written for a size gives that size |
| PropSizes.SizeTextInjective | Unreal/CarlaUE4/Plugins/Carla/Source/Carla/Actor/CarlaBlueprintRegistry.cpp:24-32 | with the enum registered, different sizes are written as different text |
| PropSizes.MissingReflectionLosesSize | Unreal/CarlaUE4/Plugins/Carla/Source/Carla/Actor/CarlaBlueprintRegistry.cpp:26-41 | without the enum object every size is written as "unknown" and read back as `Invalid` |
| PropSizes.CaseInsensitiveComparisonTellsNamesApart | Unreal/CarlaUE4/Plugins/Carla/Source/Carla/Actor/CarlaBlueprintRegistry.cpp:39 | the case-insensitive name comparison tells the six table names apart, so the round trip holds under it |
| Keyed.KeyedList.constructor | Unreal/CarlaUE4/Plugins/Carla/Source/Carla/Actor/CarlaBlueprintRegistry.cpp:152-153 | an empty array with an empty index is valid |
| Keyed.KeyedList.Indexing | Unreal/CarlaUE4/Plugins/Carla/Source/Carla/Actor/CarlaBlueprintRegistry.cpp:56-68 | indexing the stored array one element at a time gives a valid index over exactly that array, and a repeated name maps to its last position |
| Keyed.KeyedList.Find | Unreal/CarlaUE4/Plugins/Carla/Source/Carla/Actor/CarlaBlueprintRegistry.cpp:76-77 | the lookup returns the last position of the key in the array, or -1 when the array does not hold it |
| Keyed.KeyedList.Replace | Unreal/CarlaUE4/Plugins/Carla/Source/Carla/Actor/CarlaBlueprintRegistry.cpp:95-98 | overwriting a position with an item of the same key changes only that position and keeps the index valid |
| Keyed.KeyedList.Append | Unreal/CarlaUE4/Plugins/Carla/Source/Carla/Actor/CarlaBlueprintRegistry.cpp:99-104 | appending an item with a new key and indexing it at `Num() - 1` extends the array by that item and keeps the index valid |
| Keyed.AppendNewShape | Unreal/CarlaUE4/Plugins/Carla/Source/Carla/Actor/CarlaBlueprintRegistry.cpp:99-104 | appending new keys keeps the old keys in place, adds exactly the unseen keys, each once, in the order they first occur |
| RegistryWriter.Fill | Unreal/CarlaUE4/Plugins/Carla/Source/Carla/Actor/CarlaBlueprintRegistry.cpp:86-91 | the filled definition has the prop's name, mesh path and size text, and every other field of the object unchanged |
| RegistryWriter.FillTwice | Unreal/CarlaUE4/Plugins/Carla/Source/Carla/Actor/CarlaBlueprintRegistry.cpp:86-91 | filling an object twice leaves what filling it once with the second prop leaves |
| RegistryWriter.MergeOne | Unreal/CarlaUE4/Plugins/Carla/Source/Carla/Actor/CarlaBlueprintRegistry.cpp:74-104 | one iteration of the merge loop performs exactly the one-prop merge step and keeps the index valid |
| RegistryWriter.AddToCarlaBlueprintRegistry | Unreal/CarlaUE4/Plugins/Carla/Source/Carla/Actor/CarlaBlueprintRegistry.cpp:44-117 | the written `definitions` array is the stored one (empty when unreadable) merged with the whole batch in input order, and every other top-level field is kept |
| RegistryWriter.MergeNames | Unreal/CarlaUE4/Plugins/Carla/Source/Carla/Actor/CarlaBlueprintRegistry.cpp:71-105 | the merged names are the stored names in place, followed by the incoming names not stored before, each once, in the order they first occur |
| RegistryWriter.MergeAt | Unreal/CarlaUE4/Plugins/Carla/Source/Carla/Actor/CarlaBlueprintRegistry.cpp:71-105 | every position of the merged array is described from the stored array and the batch alone: a position a name is indexed at is filled from the last prop with that name, and any other position keeps what it held |
| RegistryWriter.MergeLastWriteWins | Unreal/CarlaUE4/Plugins/Carla/Source/Carla/Actor/CarlaBlueprintRegistry.cpp:72-105 | after the merge every incoming name is present and carries the name, path and size of the last prop of the batch with that name |
| RegistryWriter.MergeExisting | Unreal/CarlaUE4/Plugins/Carla/Source/Carla/Actor/CarlaBlueprintRegistry.cpp:76-98 | a stored definition keeps its key and is rewritten only when an incoming name is indexed at its position, and then from the last such prop; otherwise it is unchanged |
| RegistryWriter.MergeKeepsOtherFields | Unreal/CarlaUE4/Plugins/Carla/Source/Carla/Actor/CarlaBlueprintRegistry.cpp:79-91 | a stored definition keeps every field other than name, path and size, with its value |
| RegistryWriter.MergeKeepsNamesUnique | Unreal/CarlaUE4/Plugins/Carla/Source/Carla/Actor/CarlaBlueprintRegistry.cpp:93-104 | a stored array with unique names still has unique names after the merge |
| RegistryWriter.MergeIdempotent | Unreal/CarlaUE4/Plugins/Carla/Source/Carla/Actor/CarlaBlueprintRegistry.cpp:71-105 | merging the same batch a second time changes nothing |
| FileOrder.SortNamesPermutes | Unreal/CarlaUE4/Plugins/Carla/Source/Carla/Actor/CarlaBlueprintRegistry.cpp:133 | sorting rearranges the found names without adding or dropping any |
| FileOrder.SortNamesSorted | Unreal/CarlaUE4/Plugins/Carla/Source/Carla/Actor/CarlaBlueprintRegistry.cpp:133 | under a strict order, no sorted name is preceded by one that should come after it |
| Keyed.FirstMatch | Unreal/CarlaUE4/Plugins/Carla/Source/Carla/Actor/CarlaBlueprintRegistry.cpp:136-138 | the index found is of a name that matches with none before it, and it is -1 exactly when no name matches; the default-file search and the enum lookup by name are both this search |
| FileOrder.OrderPropFiles | Unreal/CarlaUE4/Plugins/Carla/Source/Carla/Actor/CarlaBlueprintRegistry.cpp:132-148 | the search loop, removal and front insertion compute the sorted names with the first default file moved to the front |
| FileOrder.OrderIsPermutation | Unreal/CarlaUE4/Plugins/Carla/Source/Carla/Actor/CarlaBlueprintRegistry.cpp:132-148 | the processing order holds exactly the found files |
| FileOrder.DefaultFileGoesFirst | Unreal/CarlaUE4/Plugins/Carla/Source/Carla/Actor/CarlaBlueprintRegistry.cpp:132-148 | when some file contains "Default", the first file processed contains it and no other such file sorts before it, and the remaining files follow in sorted order |
| FileOrder.NoDefaultFileKeepsSortedOrder | Unreal/CarlaUE4/Plugins/Carla/Source/Carla/Actor/CarlaBlueprintRegistry.cpp:132-148 | when no file contains "Default", the processing order is the sorted order |
| RegistryLoader.FoldOne | Unreal/CarlaUE4/Plugins/Carla/Source/Carla/Actor/CarlaBlueprintRegistry.cpp:180-189 | adding one prop performs exactly the one-prop fold step and keeps the index valid |
| RegistryLoader.FoldDocumentProps | Unreal/CarlaUE4/Plugins/Carla/Source/Carla/Actor/CarlaBlueprintRegistry.cpp:164-190 | the props of one parsed file are folded in array order into the shared collection |
| RegistryLoader.FoldFile | Unreal/CarlaUE4/Plugins/Carla/Source/Carla/Actor/CarlaBlueprintRegistry.cpp:157-192 | a file that cannot be read or parsed contributes nothing, and a parsed one contributes its props |
| RegistryLoader.LoadPropDefinitions | Unreal/CarlaUE4/Plugins/Carla/Source/Carla/Actor/CarlaBlueprintRegistry.cpp:119-196 | the loaded props are the fold of the props of all files in processing order |
| RegistryLoader.FoldPropsConcat | Unreal/CarlaUE4/Plugins/Carla/Source/Carla/Actor/CarlaBlueprintRegistry.cpp:152-193 | because one index is shared across files, folding file after file is folding all their props at once |
| RegistryLoader.FoldNamesUnique | Unreal/CarlaUE4/Plugins/Carla/Source/Carla/Actor/CarlaBlueprintRegistry.cpp:180-189 | the loaded props have unique names |
| RegistryLoader.FoldKeepsFirstPositions | Unreal/CarlaUE4/Plugins/Carla/Source/Carla/Actor/CarlaBlueprintRegistry.cpp:180-189 | the loaded names are exactly the names met, ordered by where each was first met |
| RegistryLoader.FoldLastWins | Unreal/CarlaUE4/Plugins/Carla/Source/Carla/Actor/CarlaBlueprintRegistry.cpp:180-189 | each loaded prop is the last prop with its name in processing order |
| RegistryLoader.LaterFilesOverride | Unreal/CarlaUE4/Plugins/Carla/Source/Carla/Actor/CarlaBlueprintRegistry.cpp:150-193 | a name defined in any file from a given position on takes its prop from the last of those definitions, so user files override the default file |

## Left out

- JSON reading and writing (`TJsonReader`, `FJsonSerializer`) are not modelled. A parsed document is a `Document`: its `definitions` array of string-valued objects plus the other top-level fields, carried through unchanged.
- A document without a `definitions` field reads as an empty array. Array elements that are not objects, and field values that are not strings, are not modelled.
- File I/O is a parameter. `LoadFileToString` plus parsing in the loader is the parameter `read`. In the writer, an unreadable or unparsable default file is `None`. `SaveStringToFile` is not modelled: the writer returns the document it would write, and the source ignores the save result anyway.
- `FindFilesRecursive` with the `*.PropRegistry.json` wildcard is the parameter `found`: the names the directory search produced.
- `LoadObject<UStaticMesh>` is the parameter `loadMesh`. `GetPathName` is the mesh's `pathName`.
- `UActorBlueprintFunctionLibrary::MakePropDefinitions` (line 195) is not part of this model. `LoadPropDefinitions` returns the folded prop list it would receive.
- UE's enum reflection (`FindObject<UEnum>`, `GetNameStringByIndex`, `GetIndexByName`) is replaced by the constant table and the `EnumReflection` value.
- `TArray::Sort` is modelled by an insertion sort. Among names neither of which is less than the other, the real sort is unstable and the model fixes one order. The proved properties (sorted, a permutation) hold for any correct sort.
- RegistryWriter.AddToCarlaBlueprintRegistry: requires every incoming prop to have a loaded mesh and a declared size enumerator. The source dereferences the mesh, so a null mesh is undefined behaviour. Writing a size that names no enumerator depends on reflection behaviour outside this file.
- PropSizes.PropSizeTypeToString: takes only declared enumerators, for the same reason.
- RegistryWriter.Fill: JSON field names (`name`, `path`, `size`) are compared exactly, here and in `RegistryTypes.StringField`, so `NameOf`, `RegistryLoader.RecordOf` and `RegistryWriter.MergeKeepsOtherFields` treat a field spelled `"Name"` as another field. `FJsonObject` keeps its fields in a `TMap<FString, …>` that compares names without regard to case, so the source reads such a field at lines 65 and 171 and overwrites it at lines 87-91.
- Concurrent writers to the same default file are not modelled. The source does no locking.
