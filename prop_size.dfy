/** The prop size enumeration and its conversion to and from text.

    The registry code converts through UE's runtime enum reflection: it looks
    the `EPropSize` enum up by name and, when it is registered, turns a value
    into the name stored at the value's index and a name into the index of
    the first entry that matches it. Here the reflected table is an explicit
    constant, and whether the lookup of the enum object succeeded, together
    with the name comparison the reflection applies, is an explicit value. */
module PropSizes {
  import opened Keyed

  datatype PropSize = Tiny | Small | Medium | Big | Huge | Invalid

  /** What a cast of an enum index to `EPropSize` produces: a declared
      enumerator, or, for the index the lookup returns when no name matches,
      a value that names no enumerator. */
  datatype SizeValue = Enumerator(size: PropSize) | NoEnumerator

  /** The outcome of looking the `EPropSize` enum object up by name: not
      found, or found, with the name comparison its by-name lookup uses. */
  datatype EnumReflection = Missing | Registered(sameName: (string, string) -> bool)

  /** The enumerators' names in declaration order; a value's index in this
      table is its numeric value. */
  const SizeNames: seq<string> := ["Tiny", "Small", "Medium", "Big", "Huge", "INVALID"]

  const UnknownName: string := "unknown"

  function IndexOf(s: PropSize): (i: nat)
    ensures i < |SizeNames|
  {
    match s
    case Tiny => 0
    case Small => 1
    case Medium => 2
    case Big => 3
    case Huge => 4
    case Invalid => 5
  }

  function FromIndex(i: nat): (s: PropSize)
    requires i < |SizeNames|
    ensures IndexOf(s) == i
  {
    if i == 0 then Tiny
    else if i == 1 then Small
    else if i == 2 then Medium
    else if i == 3 then Big
    else if i == 4 then Huge
    else Invalid
  }

  /** The text stored for a size: the enumerator's name when the enum is
      registered, "unknown" when it is not. */
  function PropSizeTypeToString(reflection: EnumReflection, size: PropSize): (r: string)
    ensures reflection.Missing? ==> r == UnknownName
    ensures reflection.Registered? ==> r in SizeNames && r == SizeNames[IndexOf(size)]
  {
    match reflection
    case Missing => UnknownName
    case Registered(_) => SizeNames[IndexOf(size)]
  }

  /** The size read back from text. Without the enum object the result is
      `Invalid`; with it, the enumerator whose name first matches, and
      otherwise the cast of the not-found index, which names no enumerator. */
  function StringToPropSizeType(reflection: EnumReflection, name: string): (r: SizeValue)
    ensures reflection.Missing? ==> r == Enumerator(Invalid)
    ensures reflection.Registered? ==>
      (r == NoEnumerator <==> forall j :: 0 <= j < |SizeNames| ==> !reflection.sameName(SizeNames[j], name))
    ensures reflection.Registered? && r.Enumerator? ==>
      && reflection.sameName(SizeNames[IndexOf(r.size)], name)
      && forall j :: 0 <= j < IndexOf(r.size) ==> !reflection.sameName(SizeNames[j], name)
  {
    match reflection
    case Missing => Enumerator(Invalid)
    case Registered(sameName) =>
      var i := FirstMatch(SizeNames, sameName, name);
      if i < 0 then NoEnumerator else Enumerator(FromIndex(i))
  }

  /** A name comparison under which every table name matches itself and no
      other table name. */
  ghost predicate TellsNamesApart(sameName: (string, string) -> bool)
  {
    forall i, j :: 0 <= i < |SizeNames| && 0 <= j < |SizeNames| ==>
      (sameName(SizeNames[i], SizeNames[j]) <==> i == j)
  }

  /** Every size survives the trip to text and back when the enum is
      registered and its comparison tells the table's names apart. */
  lemma {:induction false} SizeRoundTrip(reflection: EnumReflection, size: PropSize)
    requires reflection.Registered? && TellsNamesApart(reflection.sameName)
    ensures StringToPropSizeType(reflection, PropSizeTypeToString(reflection, size)) == Enumerator(size)
  {
    var name := SizeNames[IndexOf(size)];
    var r := StringToPropSizeType(reflection, name);
    assert reflection.sameName(SizeNames[IndexOf(size)], name);
    assert r.Enumerator?;
    assert IndexOf(r.size) == IndexOf(size);
    assert FromIndex(IndexOf(size)) == size;
  }

  /** With the enum registered, different sizes are written as different text. */
  lemma SizeTextInjective(reflection: EnumReflection, a: PropSize, b: PropSize)
    requires reflection.Registered?
    ensures PropSizeTypeToString(reflection, a) == PropSizeTypeToString(reflection, b) ==> a == b
  {
    if PropSizeTypeToString(reflection, a) == PropSizeTypeToString(reflection, b) {
      assert FromIndex(IndexOf(a)) == a && FromIndex(IndexOf(b)) == b;
    }
  }

  /** Without the enum object every size is written as "unknown" and read
      back as `Invalid`, so only `Invalid` survives the round trip. */
  lemma MissingReflectionLosesSize(size: PropSize)
    ensures StringToPropSizeType(Missing, PropSizeTypeToString(Missing, size)) == Enumerator(Invalid)
  {
  }

  /** ASCII letters compared without regard to case, the default of UE's name comparison. */
  function ToLower(c: char): char
  {
    if 'A' <= c <= 'Z' then (c as int + 32) as char else c
  }

  predicate SameNameIgnoringCase(a: string, b: string)
  {
    |a| == |b| && forall i :: 0 <= i < |a| ==> ToLower(a[i]) == ToLower(b[i])
  }

  /** Comparison that ignores case tells the table's names apart, so the
      round trip holds for UE's name comparison. */
  lemma CaseInsensitiveComparisonTellsNamesApart()
    ensures TellsNamesApart(SameNameIgnoringCase)
  {
    assert !SameNameIgnoringCase("Tiny", "Huge") by {
      assert ToLower("Tiny"[0]) != ToLower("Huge"[0]);
    }
    assert !SameNameIgnoringCase("Huge", "Tiny") by {
      assert ToLower("Huge"[0]) != ToLower("Tiny"[0]);
    }
  }
}
