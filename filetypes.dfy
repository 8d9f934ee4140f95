/**
 * ClamAV file and container type names (src/filetype.rs,
 * src/signature/container_metadata/container_type.rs). Both are long
 * enumerations whose only behaviour is a derived table between each variant
 * and its name (`CL_TYPE_ZIP`, ...). Here a variant is an index into a name
 * table that is passed in; what matters is that the table is a bijection.
 */
module TypeNames {
  import opened Wrappers
  import opened ByteStr
  import Utf8

  /** The names of one enumeration, in variant order. */
  type Table = seq<Bytes>

  const PREFIX: Bytes := "CL_TYPE_"

  /**
   * Distinct names made of ASCII letters, digits and `_`, each beginning
   * with `CL_TYPE_`, like the derived names; in particular none holds a
   * field separator.
   */
  predicate WellFormed(t: Table)
  {
    (forall i, j :: 0 <= i < j < |t| ==> t[i] != t[j]) &&
    (forall i :: 0 <= i < |t| ==> StartsWith(t[i], PREFIX) && NameBytes(t[i]))
  }

  predicate NameBytes(n: Bytes)
  {
    forall k :: 0 <= k < |n| ==> ('A' <= n[k] <= 'Z') || ('a' <= n[k] <= 'z') || IsDigit(n[k]) || n[k] == '_'
  }

  /** The failures shared by both enumerations' `try_from`. */
  datatype NameError = NotUnicode | Unknown

  function IndexOf(t: Table, name: Bytes): (r: Option<nat>)
    ensures r.Some? ==> r.value < |t| && t[r.value] == name
    ensures r.None? ==> name !in t
    decreases |t|
  {
    if |t| == 0 then None
    else if t[|t| - 1] == name then Some(|t| - 1)
    else IndexOf(t[..|t| - 1], name)
  }

  /** `try_from(&[u8])`: UTF-8 first, then the derived name lookup. */
  function Lookup(t: Table, name: Bytes): (r: Result<nat, NameError>)
    ensures r.Ok? ==> r.value < |t| && t[r.value] == name
    ensures r == Err(NotUnicode) <==> !Utf8.IsValid(name)
    ensures r == Err(Unknown) <==> Utf8.IsValid(name) && name !in t
  {
    if !Utf8.IsValid(name) then Err(NotUnicode)
    else match IndexOf(t, name)
      case Some(i) => Ok(i)
      case None => Err(Unknown)
  }

  lemma NameIsAscii(n: Bytes)
    requires NameBytes(n)
    ensures Utf8.IsValid(n)
  {
    assert Utf8.IsAscii(n);
    Utf8.AsciiIsValid(n);
  }

  /** Every variant is found again from its own name. */
  lemma LookupName(t: Table, i: nat)
    requires WellFormed(t) && i < |t|
    ensures Lookup(t, t[i]) == Ok(i)
  {
    NameIsAscii(t[i]);
  }

  lemma NameHasNo(n: Bytes, c: Byte)
    requires NameBytes(n)
    requires !('A' <= c <= 'Z') && !('a' <= c <= 'z') && !IsDigit(c) && c != '_'
    ensures c !in n
  {
  }
}

/** `FileType`: a variant of the file type enumeration. */
module FileTypes {
  import opened Wrappers
  import opened ByteStr
  import TypeNames

  datatype FileType = FileType(id: nat)

  datatype FileTypeParseError = UTF8 | Unknown

  /** `FileType::try_from`. */
  function Parse(t: TypeNames.Table, b: Bytes): (r: Result<FileType, FileTypeParseError>)
    ensures r.Ok? ==> r.value.id < |t| && t[r.value.id] == b
  {
    match TypeNames.Lookup(t, b)
    case Ok(i) => Ok(FileType(i))
    case Err(e) => if e.NotUnicode? then Err(UTF8) else Err(Unknown)
  }

  /**
   * Export and `Display`: the variant name. An id outside the table stands
   * for no variant and has no name.
   */
  function Name(t: TypeNames.Table, ft: FileType): Bytes
  {
    if ft.id < |t| then t[ft.id] else []
  }

  lemma ParseName(t: TypeNames.Table, ft: FileType)
    requires TypeNames.WellFormed(t) && ft.id < |t|
    ensures Parse(t, Name(t, ft)) == Ok(ft)
  {
    TypeNames.LookupName(t, ft.id);
  }
}
