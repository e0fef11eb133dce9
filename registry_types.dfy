/** The values the prop registry works on: JSON objects of the
    `definitions` array, registry documents, and prop parameters. */
module RegistryTypes {
  import opened PropSizes

  /** A JSON object of the `definitions` array: its fields, each with a
      string value (the values of fields the registry does not own are kept
      as opaque text). */
  type JsonObject = map<string, string>

  /** A parsed registry document: its `definitions` array (a document
      without one reads as an empty array) and every other top-level field. */
  datatype Document = Document(definitions: seq<JsonObject>, others: map<string, string>)

  const NameField: string := "name"
  const PathField: string := "path"
  const SizeField: string := "size"

  /** A static mesh pointer: null, or a loaded asset with its path name. */
  datatype Mesh = NoMesh | StaticMesh(pathName: string)

  /** `FPropParameters`: a prop's name, mesh and size. */
  datatype PropParameters = PropParameters(name: string, mesh: Mesh, size: SizeValue)

  /** A string field of a JSON object; a missing field reads as "". */
  function StringField(obj: JsonObject, field: string): string
  {
    if field in obj then obj[field] else ""
  }

  /** The name of a definition. */
  function NameOf(obj: JsonObject): string
  {
    StringField(obj, NameField)
  }

  /** The index key of every prop. */
  function PropKeys(props: seq<PropParameters>, fold: string -> string): (ks: seq<string>)
    ensures |ks| == |props|
    ensures forall i :: 0 <= i < |props| ==> ks[i] == fold(props[i].name)
  {
    seq(|props|, i requires 0 <= i < |props| => fold(props[i].name))
  }
}
