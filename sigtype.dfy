/**
 * Signature types and how a database file's extension names one
 * (src/signature/sigtype.rs).
 */
module SigTypes {
  import opened Wrappers
  import opened ByteStr
  import Utf8

  /** `SigType`. */
  datatype SigType =
    | Extended
    | Logical
    | ContainerMetadata
    | Bytecode
    | PhishingURL
    | FileHash
    | FTMagic
    | PESectionHash
    | Yara
    | DigitalSignature

  /** `SigTypeParseError`. */
  datatype SigTypeParseError = Unknown

  /**
   * The extensions that name each type: the reference the extension match
   * is checked against. No extension names a Yara signature.
   */
  function Extensions(t: SigType): seq<Bytes>
  {
    match t
    case Extended => ["ndb", "ndu", "sdb"]
    case Logical => ["ldb", "ldu"]
    case ContainerMetadata => ["cdb"]
    case Bytecode => ["cbc"]
    case PhishingURL => ["pdb", "gdb", "wdb"]
    case FileHash => ["hdb", "hsb", "hdu", "hsu"]
    case PESectionHash => ["mdb", "msb", "mdu", "msu"]
    case FTMagic => ["ftm"]
    case Yara => []
    case DigitalSignature => ["sign"]
  }

  /**
   * Database kinds the tool knows of but does not read: certificates,
   * false-positive lists, `.info`, icons, the deprecated formats,
   * configuration and import hashes. The source prints a notice for them.
   */
  predicate NotYetSupported(ext: Bytes)
  {
    ext in ["crb", "sfp", "fp", "info", "idb", "zmd", "rmd", "db", "cfg", "imp"]
  }

  /**
   * `from_file_extension`: the type an extension names, or `None` for an
   * extension that names none.
   */
  function FromFileExtension(ext: Bytes): (r: Option<SigType>)
    ensures r.Some? ==> ext in Extensions(r.value)
    ensures r != Some(Yara)
  {
    match ext
    case "ndb" | "ndu" | "sdb" => Some(Extended)
    case "ldb" | "ldu" => Some(Logical)
    case "cdb" => Some(ContainerMetadata)
    case "cbc" => Some(Bytecode)
    case "pdb" | "gdb" | "wdb" => Some(PhishingURL)
    case "hdb" | "hsb" | "hdu" | "hsu" => Some(FileHash)
    case "mdb" | "msb" | "mdu" | "msu" => Some(PESectionHash)
    case "ftm" => Some(FTMagic)
    case "sign" => Some(DigitalSignature)
    case _ => None
  }

  /** The kinds the tool does not read name no type. */
  lemma NotYetSupportedNone(ext: Bytes)
    requires NotYetSupported(ext)
    ensures FromFileExtension(ext).None?
  {
  }

  /** Every extension listed for a type names that type: with the ensures above, an if-and-only-if. */
  lemma ExtensionsName(t: SigType, ext: Bytes)
    requires ext in Extensions(t)
    ensures FromFileExtension(ext) == Some(t)
  {
  }

  /** Every type but Yara has an extension. */
  lemma EveryTypeButYaraNamed(t: SigType)
    ensures t != Yara <==> exists ext :: ext in Extensions(t) && FromFileExtension(ext) == Some(t)
  {
    if t != Yara {
      ExtensionsName(t, Extensions(t)[0]);
    }
  }

  /** `from_str`: the extension's type, or `Unknown`. */
  function FromStr(s: Bytes): (r: Result<SigType, SigTypeParseError>)
    ensures r.Ok? <==> FromFileExtension(s).Some?
    ensures r.Ok? ==> s in Extensions(r.value)
  {
    match FromFileExtension(s)
    case Some(t) => Ok(t)
    case None => Err(Unknown)
  }

  /** The Unix path components that name something: no empty ones, no `.`. */
  function Normal(parts: seq<Bytes>): (r: seq<Bytes>)
    ensures forall k :: 0 <= k < |r| ==> r[k] != [] && r[k] != "." && r[k] in parts
    decreases |parts|
  {
    if |parts| == 0 then []
    else if parts[|parts| - 1] == [] || parts[|parts| - 1] == "." then Normal(parts[..|parts| - 1])
    else Normal(parts[..|parts| - 1]) + [parts[|parts| - 1]]
  }

  /**
   * `Path::file_name` of a Unix path: its last component once empty and
   * `.` components are dropped, unless that is `..` or there is none.
   */
  function FileName(path: Bytes): (r: Option<Bytes>)
    ensures r.Some? ==> '/' !in r.value && r.value !in [[], ".", ".."]
  {
    var comps := Normal(Split(path, '/'));
    if |comps| == 0 || comps[|comps| - 1] == ".." then None
    else Some(comps[|comps| - 1])
  }

  /**
   * `Path::extension` of a file name: what follows its last `.`, unless the
   * name has no `.` or only a leading one (a hidden file), or is `..`.
   */
  function Extension(name: Bytes): (r: Option<Bytes>)
    ensures r.Some? ==> '.' !in r.value && EndsWith(name, "." + r.value) && |name| > |r.value| + 1
    ensures '.' !in name ==> r.None?
  {
    if name == ".." then None
    else match FindLast(name, '.')
      case None => None
      case Some(i) =>
        if i == 0 then None
        else
          assert name[|name| - |name[i + 1..]| - 1..] == "." + name[i + 1..];
          Some(name[i + 1..])
  }

  /**
   * `from_file_path`: the type the extension of the path's file name
   * names; `None` without a file name, without an extension, or when the
   * extension is not UTF-8.
   */
  function FromFilePath(path: Bytes): (r: Option<SigType>)
    ensures r.Some? ==> FileName(path).Some? && Extension(FileName(path).value).Some? &&
                        FromFileExtension(Extension(FileName(path).value).value) == r
    ensures FileName(path).None? ==> r.None?
  {
    match FileName(path)
    case None => None
    case Some(name) =>
      match Extension(name)
      case None => None
      case Some(ext) => if Utf8.IsValid(ext) then FromFileExtension(ext) else None
  }

  /** Splitting at the last separator, which starts a field free of it. */
  lemma {:induction false} SplitSnoc(d: Bytes, name: Bytes, c: Byte)
    requires c !in name
    ensures Split(d + [c] + name, c) == Split(d, c) + [name]
    decreases |d|
  {
    SplitJoin([name], c);
    match Find(d, c)
    case None =>
      SplitCons(d, name, c);
    case Some(i) =>
      var rest := d[i + 1..];
      assert d + [c] + name == d[..i] + [c] + (rest + [c] + name);
      SplitCons(d[..i], rest + [c] + name, c);
      SplitSnoc(rest, name, c);
  }

  /** A name in a directory is the path's file name. */
  lemma FileNameInDirectory(dir: Bytes, name: Bytes)
    requires '/' !in name && name !in [[], ".", ".."]
    ensures FileName(dir + "/" + name) == Some(name)
  {
    SplitSnoc(dir, name, '/');
    var parts := Split(dir, '/') + [name];
    assert parts[..|parts| - 1] == Split(dir, '/');
  }

  /** A bare name is its own file name. */
  lemma FileNameBare(name: Bytes)
    requires '/' !in name && name !in [[], ".", ".."]
    ensures FileName(name) == Some(name)
  {
    SplitJoin([name], '/');
    assert [name][..0] == [];
  }

  /** The extension is what follows the last dot of a name that does not start with it. */
  lemma ExtensionOf(stem: Bytes, ext: Bytes)
    requires |stem| > 0 && |ext| > 0 && '.' !in ext
    ensures Extension(stem + "." + ext) == Some(ext)
  {
    var name := stem + "." + ext;
    FindLastSep(stem, ext, '.');
    assert name == stem + ['.'] + ext;
    assert name[|stem| + 1..] == ext;
  }

  /** A hidden file's one leading dot starts no extension. */
  lemma HiddenHasNoExtension(ext: Bytes)
    requires '.' !in ext
    ensures Extension("." + ext) == None
  {
    FindLastSep([], ext, '.');
    assert "." + ext == [] + ['.'] + ext;
  }

  /**
   * A file `stem.ext` in a directory, with a UTF-8 extension, is read as the
   * type its extension names.
   */
  lemma FromFilePathByExtension(dir: Bytes, stem: Bytes, ext: Bytes)
    requires |stem| > 0 && |ext| > 0 && '/' !in stem && '/' !in ext && '.' !in ext && Utf8.IsValid(ext)
    ensures FromFilePath(dir + "/" + stem + "." + ext) == FromFileExtension(ext)
  {
    var name := stem + "." + ext;
    assert '/' !in name;
    assert |name| > 1 + |ext|;
    assert |name| > 2;
    assert dir + "/" + stem + "." + ext == dir + "/" + name;
    FileNameInDirectory(dir, name);
    ExtensionOf(stem, ext);
  }
}
