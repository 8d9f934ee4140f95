/**
 * The Target Description Block of a logical signature
 * (src/signature/logical_sig/targetdesc.rs): a `,`-separated list of
 * `Name:value` attributes that restrict which files a signature applies to,
 * with its parser, its three validation passes and its exporter.
 *
 * File type names come from a name table parameter (module TypeNames), and
 * the features a file type requires from the parameter `ftFeatures`.
 */
module TargetDescs {
  import opened Wrappers
  import Collect
  import opened ByteStr
  import Num
  import Utf8
  import Util
  import TypeNames
  import FileTypes
  import TargetTypes
  import opened Features
  import SigBytes

  /** The lowest Engine (flevel) start an Engine attribute may give. */
  const MINIMUM_ENGINE_SPEC: nat := 51

  /** `TargetDescAttr`. The `TargetType(..)` variant is called `Target` here, after its attribute name. */
  datatype Attr =
    | Engine(range: Util.Range)
    | Target(tt: TargetTypes.TargetType)
    | FileSize(range: Util.Range)
    | EntryPoint(range: Util.Range)
    | NumberOfSections(range: Util.Range)
    | Container(ft: FileTypes.FileType)
    | Intermediates(fts: seq<FileTypes.FileType>)
    | HandlerType(ft: FileTypes.FileType)
    | IconGroup1(s: Bytes)
    | IconGroup2(s: Bytes)

  datatype TargetDesc = TargetDesc(attrs: seq<Attr>)

  /**
   * `TargetDescParseError`, with variants that carry a range or file type
   * error renamed so that they do not clash with the attribute names.
   * `TargetDescAttrEmpty` and `UnknownFileType` are never produced and are
   * left out.
   */
  datatype ParseError =
    | UnknownTargetDescAttr(name: Bytes)
    | TargetDescAttrMissingValue(attr: Bytes)
    | UnknownTargetType
    | EngineRange(e: Util.RangeInclusiveParseError)
    | FileSizeRange(e: Util.RangeInclusiveParseError)
    | EntryPointRange(e: Util.RangeInclusiveParseError)
    | NumberOfSectionsRange(e: Util.RangeInclusiveParseError)
    | ContainerValue(fe: FileTypes.FileTypeParseError)
    | IntermediateContainer(fe: FileTypes.FileTypeParseError)
    | HandlerTypeValue(fe: FileTypes.FileTypeParseError)
    | IconGroup1Utf8
    | IconGroup2Utf8
    | TargetTypeNumber(ne: Num.NumberError)

  datatype ValidationError =
    | EnginePresentNotFirst
    | EngineNotMinimum(found: nat)
    | AttrRequiresEngine(attr: Attr)
    | AttrRequiresNativeExecTarget(name: Bytes)
    | IconGroupRequiresTargetTypePE(targetType: Option<TargetTypes.TargetType>)

  /** The attribute names the parser knows, one per variant of `Attr`. */
  datatype Kind =
    | KEngine | KTarget | KFileSize | KEntryPoint | KNumberOfSections
    | KContainer | KIntermediates | KHandlerType | KIconGroup1 | KIconGroup2

  function KindName(k: Kind): Bytes
  {
    match k
    case KEngine => "Engine"
    case KTarget => "Target"
    case KFileSize => "FileSize"
    case KEntryPoint => "EntryPoint"
    case KNumberOfSections => "NumberOfSections"
    case KContainer => "Container"
    case KIntermediates => "Intermediates"
    case KHandlerType => "HandlerType"
    case KIconGroup1 => "IconGroup1"
    case KIconGroup2 => "IconGroup2"
  }

  /** The match on the attribute name. */
  function KindOf(name: Bytes): (r: Option<Kind>)
    ensures r.Some? ==> KindName(r.value) == name
  {
    if name == "Target" then Some(KTarget)
    else if name == "Engine" then Some(KEngine)
    else if name == "FileSize" then Some(KFileSize)
    else if name == "EntryPoint" then Some(KEntryPoint)
    else if name == "NumberOfSections" then Some(KNumberOfSections)
    else if name == "Container" then Some(KContainer)
    else if name == "Intermediates" then Some(KIntermediates)
    else if name == "IconGroup1" then Some(KIconGroup1)
    else if name == "IconGroup2" then Some(KIconGroup2)
    else if name == "HandlerType" then Some(KHandlerType)
    else None
  }

  /** The names are told apart: each one selects its own variant. */
  lemma KindOfName(k: Kind)
    ensures KindOf(KindName(k)) == Some(k)
  {
    var n := KindName(k);
    match k
    case KTarget =>
    case KEngine => assert n[0] != 'T';
    case KFileSize => assert n[0] != 'T' && n[0] != 'E';
    case KEntryPoint => assert n[0] != 'T' && n[0] != 'F';
    case KNumberOfSections => assert n[0] != 'T' && n[0] != 'E' && n[0] != 'F';
    case KContainer => assert n[0] != 'T' && n[0] != 'E' && n[0] != 'F' && n[0] != 'N';
    case KIntermediates => assert n[0] != 'T' && n[0] != 'E' && n[0] != 'F' && n[0] != 'N' && n[0] != 'C';
    case KIconGroup1 => assert n[0] != 'T' && n[0] != 'E' && n[0] != 'F' && n[0] != 'N' && n[0] != 'C';
    case KIconGroup2 => assert n[0] != 'T' && n[0] != 'E' && n[0] != 'F' && n[0] != 'N' && n[0] != 'C' && n[9] != '1';
    case KHandlerType => assert n[0] != 'T' && n[0] != 'E' && n[0] != 'F' && n[0] != 'N' && n[0] != 'C' && n[0] != 'I';
  }

  /** No attribute name holds a separator or looks like a file type name. */
  lemma KindNameShape(k: Kind)
    ensures ':' !in KindName(k) && ',' !in KindName(k) && ';' !in KindName(k) && !StartsWith(KindName(k), TypeNames.PREFIX)
  {
    var n := KindName(k);
    assert |n| >= 8 ==> n[0] != 'C' || n[1] != 'L';
  }

  function AttrKind(a: Attr): Kind
  {
    match a
    case Engine(_) => KEngine
    case Target(_) => KTarget
    case FileSize(_) => KFileSize
    case EntryPoint(_) => KEntryPoint
    case NumberOfSections(_) => KNumberOfSections
    case Container(_) => KContainer
    case Intermediates(_) => KIntermediates
    case HandlerType(_) => KHandlerType
    case IconGroup1(_) => KIconGroup1
    case IconGroup2(_) => KIconGroup2
  }

  /** The name under which an attribute is written and read. */
  function AttrName(a: Attr): Bytes
  {
    KindName(AttrKind(a))
  }

  // ---------------------------------------------------------------- parsing

  /** An attribute split at its first `:` into its name and, when there is a `:`, its value. */
  function NameValue(attr: Bytes): (r: (Bytes, Option<Bytes>))
    ensures r.1.None? <==> ':' !in attr
    ensures r.1.None? ==> r.0 == attr
    ensures r.1.Some? ==> attr == r.0 + ":" + r.1.value && ':' !in r.0
  {
    var pair := SplitN(attr, ':', 2);
    JoinSplitN(attr, ':', 2);
    if |pair| == 2 then (pair[0], Some(pair[1])) else (pair[0], None)
  }

  /** The name a missing value is reported under: HandlerType reports "Container". */
  function MissingValueName(name: Bytes): Bytes
  {
    if name == KindName(KHandlerType) then KindName(KContainer) else name
  }

  /** Reading one `>`-separated element of an `Intermediates` value. */
  function ContainerParser(tbl: TypeNames.Table): Bytes -> Result<FileTypes.FileType, FileTypes.FileTypeParseError>
  {
    (p: Bytes) => FileTypes.Parse(tbl, p)
  }

  /** The `Intermediates` list, one file type per `>`-separated element; the first failure wins. */
  function ParseContainers(tbl: TypeNames.Table, parts: seq<Bytes>): (r: Result<seq<FileTypes.FileType>, FileTypes.FileTypeParseError>)
    ensures r.Ok? ==> |r.value| == |parts|
    ensures r.Ok? ==> forall k :: 0 <= k < |parts| ==> r.value[k].id < |tbl| && tbl[r.value[k].id] == parts[k]
  {
    Collect.MapAll(ContainerParser(tbl), parts)
  }

  function ParseRangeAttr(v: Bytes, max: nat): Result<Util.Range, Util.RangeInclusiveParseError>
  {
    match Util.ParseRangeInclusive(v, max)
    case Err(e) => Err(e)
    case Ok(b) => Ok(Util.Inclusive(b.0, b.1))
  }

  /** One attribute of the `try_from` loop. */
  function ParseAttr(tbl: TypeNames.Table, attr: Bytes): (r: Result<Attr, ParseError>)
    ensures r.Ok? ==> KindOf(NameValue(attr).0) == Some(AttrKind(r.value)) && NameValue(attr).1.Some?
  {
    var (name, value) := NameValue(attr);
    match KindOf(name)
    case None => Err(UnknownTargetDescAttr(name))
    case Some(k) =>
      if value.None? then Err(TargetDescAttrMissingValue(if k == KHandlerType then KindName(KContainer) else name))
      else ParseValue(tbl, k, value.value)
  }

  /** The value of an attribute whose name has been recognised. */
  function ParseValue(tbl: TypeNames.Table, k: Kind, v: Bytes): (r: Result<Attr, ParseError>)
    ensures r.Ok? ==> AttrKind(r.value) == k
    ensures r.Err? ==> !r.error.UnknownTargetDescAttr? && !r.error.TargetDescAttrMissingValue?
  {
    match k
    case KTarget =>
      (match Num.ParseDec(v, Num.USIZE_MAX)
       case Err(e) => Err(TargetTypeNumber(e))
       case Ok(n) =>
         match TargetTypes.FromId(n)
         case None => Err(UnknownTargetType)
         case Some(t) => Ok(Target(t)))
    case KEngine =>
      (match ParseRangeAttr(v, Num.U32_MAX)
       case Err(e) => Err(EngineRange(e))
       case Ok(r) => Ok(Engine(r)))
    case KFileSize =>
      (match ParseRangeAttr(v, Num.USIZE_MAX)
       case Err(e) => Err(FileSizeRange(e))
       case Ok(r) => Ok(FileSize(r)))
    case KEntryPoint =>
      (match ParseRangeAttr(v, Num.USIZE_MAX)
       case Err(e) => Err(EntryPointRange(e))
       case Ok(r) => Ok(EntryPoint(r)))
    case KNumberOfSections =>
      (match ParseRangeAttr(v, Num.USIZE_MAX)
       case Err(e) => Err(NumberOfSectionsRange(e))
       case Ok(r) => Ok(NumberOfSections(r)))
    case KContainer =>
      (match FileTypes.Parse(tbl, v)
       case Err(e) => Err(ContainerValue(e))
       case Ok(ft) => Ok(Container(ft)))
    case KIntermediates =>
      (match ParseContainers(tbl, Split(v, '>'))
       case Err(e) => Err(IntermediateContainer(e))
       case Ok(fts) => Ok(Intermediates(fts)))
    case KIconGroup1 =>
      if Utf8.IsValid(v) then Ok(IconGroup1(v)) else Err(IconGroup1Utf8)
    case KIconGroup2 =>
      if Utf8.IsValid(v) then Ok(IconGroup2(v)) else Err(IconGroup2Utf8)
    case KHandlerType =>
      (match FileTypes.Parse(tbl, v)
       case Err(e) => Err(HandlerTypeValue(e))
       case Ok(ft) => Ok(HandlerType(ft)))
  }

  /** An attribute is reported unknown exactly when its name is, and with that name. */
  lemma ParseAttrUnknownName(tbl: TypeNames.Table, attr: Bytes)
    ensures ParseAttr(tbl, attr).Err? && ParseAttr(tbl, attr).error.UnknownTargetDescAttr? <==> KindOf(NameValue(attr).0).None?
    ensures ParseAttr(tbl, attr).Err? && ParseAttr(tbl, attr).error.UnknownTargetDescAttr? ==>
      ParseAttr(tbl, attr).error.name == NameValue(attr).0
  {
  }

  /**
   * A known name without a `:` is reported as missing its value, under the
   * name `MissingValueName` gives.
   */
  lemma ParseAttrMissingValue(tbl: TypeNames.Table, attr: Bytes)
    ensures ParseAttr(tbl, attr).Err? && ParseAttr(tbl, attr).error.TargetDescAttrMissingValue? <==>
      KindOf(NameValue(attr).0).Some? && ':' !in attr
    ensures ParseAttr(tbl, attr).Err? && ParseAttr(tbl, attr).error.TargetDescAttrMissingValue? ==>
      ParseAttr(tbl, attr).error.attr == MissingValueName(attr)
  {
    var (name, value) := NameValue(attr);
    match KindOf(name) {
      case None =>
      case Some(k) =>
        if value.None? {
          if k == KHandlerType {
            assert name == "HandlerType";
          }
        } else {
          assert ParseAttr(tbl, attr) == ParseValue(tbl, k, value.value);
        }
    }
  }

  /** Reading one `,`-separated attribute. */
  function AttrParser(tbl: TypeNames.Table): Bytes -> Result<Attr, ParseError>
  {
    (attr: Bytes) => ParseAttr(tbl, attr)
  }

  /** The attributes of a list, in order; the first failure wins. */
  function ParseAttrs(tbl: TypeNames.Table, fields: seq<Bytes>): (r: Result<seq<Attr>, ParseError>)
    ensures r.Ok? ==> |r.value| == |fields|
    ensures r.Ok? ==> forall k :: 0 <= k < |fields| ==> ParseAttr(tbl, fields[k]) == Ok(r.value[k])
  {
    Collect.MapAll(AttrParser(tbl), fields)
  }

  /** The error of a failed parse is that of the first attribute that fails. */
  lemma ParseAttrsFirstError(tbl: TypeNames.Table, fields: seq<Bytes>)
    requires ParseAttrs(tbl, fields).Err?
    ensures exists k :: (0 <= k < |fields| && ParseAttr(tbl, fields[k]) == Err(ParseAttrs(tbl, fields).error) &&
                         forall j :: 0 <= j < k ==> ParseAttr(tbl, fields[j]).Ok?)
  {
    Collect.MapAllFirstError(AttrParser(tbl), fields);
  }

  /** `TargetDesc::try_from`, as a value. */
  function ParseSpec(tbl: TypeNames.Table, value: Bytes): Result<TargetDesc, ParseError>
  {
    match ParseAttrs(tbl, Split(value, ','))
    case Err(e) => Err(e)
    case Ok(attrs) => Ok(TargetDesc(attrs))
  }

  /** The loop over the `>`-separated elements of an `Intermediates` value. */
  method ParseIntermediates(tbl: TypeNames.Table, value: Bytes) returns (r: Result<seq<FileTypes.FileType>, FileTypes.FileTypeParseError>)
    ensures r == ParseContainers(tbl, Split(value, '>'))
  {
    r := Collect.CollectAll(ContainerParser(tbl), Split(value, '>'));
  }

  /** One attribute, with the `Intermediates` loop run as a method. */
  method ParseAttribute(tbl: TypeNames.Table, attr: Bytes) returns (r: Result<Attr, ParseError>)
    ensures r == ParseAttr(tbl, attr)
  {
    var (name, value) := NameValue(attr);
    if KindOf(name) == Some(KIntermediates) && value.Some? {
      var fts := ParseIntermediates(tbl, value.value);
      match fts {
        case Err(e) => r := Err(IntermediateContainer(e));
        case Ok(l) => r := Ok(Intermediates(l));
      }
    } else {
      r := ParseAttr(tbl, attr);
    }
  }

  /** `TargetDesc::try_from`: split on `,`, parse each attribute, keep them in order. */
  method Parse(tbl: TypeNames.Table, value: Bytes) returns (r: Result<TargetDesc, ParseError>)
    ensures r == ParseSpec(tbl, value)
  {
    var fields := Split(value, ',');
    var attrs: seq<Attr> := [];
    var i := 0;
    Collect.PrependNil(ParseAttrs(tbl, fields));
    assert fields[i..] == fields;
    while i < |fields|
      invariant 0 <= i <= |fields|
      invariant ParseAttrs(tbl, fields) == Collect.Prepend(attrs, ParseAttrs(tbl, fields[i..]))
    {
      Collect.MapAllStep(AttrParser(tbl), fields, i);
      var a := ParseAttribute(tbl, fields[i]);
      match a {
        case Err(e) =>
          return Err(e);
        case Ok(x) =>
          Collect.PrependAssoc(attrs, [x], ParseAttrs(tbl, fields[i + 1..]));
          attrs := attrs + [x];
      }
      i := i + 1;
    }
    assert fields[i..] == [];
    Collect.PrependNil<Attr, ParseError>(Ok(attrs));
    r := Ok(TargetDesc(attrs));
  }

  // ------------------------------------------------------------- exporting

  /** What a round trip through the text form can carry (what the parser produces). */
  predicate Exportable(tbl: TypeNames.Table, a: Attr)
  {
    match a
    case Engine(r) => r.Inclusive? && r.start <= Num.U32_MAX && r.end <= Num.U32_MAX
    case Target(_) => true
    case FileSize(r) => r.Inclusive? && r.start <= Num.USIZE_MAX && r.end <= Num.USIZE_MAX
    case EntryPoint(r) => r.Inclusive? && r.start <= Num.USIZE_MAX && r.end <= Num.USIZE_MAX
    case NumberOfSections(r) => r.Inclusive? && r.start <= Num.USIZE_MAX && r.end <= Num.USIZE_MAX
    case Container(ft) => ft.id < |tbl|
    case Intermediates(fts) => |fts| >= 1 && forall k :: 0 <= k < |fts| ==> fts[k].id < |tbl|
    case HandlerType(ft) => ft.id < |tbl|
    case IconGroup1(s) => Utf8.IsValid(s) && ',' !in s
    case IconGroup2(s) => Utf8.IsValid(s) && ',' !in s
  }

  /** The names of a list of file types, in order. */
  function Names(tbl: TypeNames.Table, fts: seq<FileTypes.FileType>): (r: seq<Bytes>)
    ensures |r| == |fts| && forall k :: 0 <= k < |fts| ==> r[k] == FileTypes.Name(tbl, fts[k])
  {
    Collect.Map(Namer(tbl), fts)
  }

  /** Writing one file type. */
  function Namer(tbl: TypeNames.Table): FileTypes.FileType -> Bytes
  {
    (ft: FileTypes.FileType) => FileTypes.Name(tbl, ft)
  }

  /** The value part of an attribute's text. */
  function ValueText(tbl: TypeNames.Table, a: Attr): Bytes
  {
    match a
    case Engine(r) => Util.RangeText(r)
    case Target(t) => TargetTypes.IdText(t)
    case FileSize(r) => Util.RangeText(r)
    case EntryPoint(r) => Util.RangeText(r)
    case NumberOfSections(r) => Util.RangeText(r)
    case Container(ft) => FileTypes.Name(tbl, ft)
    case Intermediates(fts) => Join(Names(tbl, fts), '>')
    case HandlerType(ft) => FileTypes.Name(tbl, ft)
    case IconGroup1(s) => s
    case IconGroup2(s) => s
  }

  /** An attribute as exported: `Name:value`, for every attribute. */
  function AttrText(tbl: TypeNames.Table, a: Attr): Bytes
  {
    AttrName(a) + ":" + ValueText(tbl, a)
  }

  /** The exporter as written: an `Intermediates` attribute loses its `Intermediates:` prefix. */
  function AttrTextAsWritten(tbl: TypeNames.Table, a: Attr): Bytes
  {
    if a.Intermediates? then ValueText(tbl, a) else AttrText(tbl, a)
  }

  /** Writing one attribute. */
  function AttrPrinter(tbl: TypeNames.Table): Attr -> Bytes
  {
    (a: Attr) => AttrText(tbl, a)
  }

  /** The exported Target Description Block: attribute texts separated by `,`. */
  function ExportText(tbl: TypeNames.Table, td: TargetDesc): Bytes
  {
    Join(Collect.Map(AttrPrinter(tbl), td.attrs), ',')
  }

  /** Writing one attribute as the exporter is written. */
  function AttrPrinterAsWritten(tbl: TypeNames.Table): Attr -> Bytes
  {
    (a: Attr) => AttrTextAsWritten(tbl, a)
  }

  /** The Target Description Block as the exporter writes it (see Findings). */
  function ExportTextAsWritten(tbl: TypeNames.Table, td: TargetDesc): Bytes
  {
    Join(Collect.Map(AttrPrinterAsWritten(tbl), td.attrs), ',')
  }

  /** The block holds no `Intermediates` attribute. */
  predicate NoIntermediates(td: TargetDesc)
  {
    forall k :: 0 <= k < |td.attrs| ==> !td.attrs[k].Intermediates?
  }

  /** Without an `Intermediates` attribute the exporter as written is the corrected one. */
  lemma ExportAsWrittenAgrees(tbl: TypeNames.Table, td: TargetDesc)
    requires NoIntermediates(td)
    ensures ExportTextAsWritten(tbl, td) == ExportText(tbl, td)
  {
    assert Collect.Map(AttrPrinterAsWritten(tbl), td.attrs) == Collect.Map(AttrPrinter(tbl), td.attrs);
  }

  /**
   * The block holding only `Intermediates` of three file types, as the
   * exporter writes it: the three names with `>` between them and no
   * attribute name in front.
   */
  lemma ExportIntermediatesText(tbl: TypeNames.Table, a: FileTypes.FileType, b: FileTypes.FileType, c: FileTypes.FileType)
    ensures ExportTextAsWritten(tbl, TargetDesc([Intermediates([a, b, c])])) ==
      FileTypes.Name(tbl, a) + ">" + (FileTypes.Name(tbl, b) + ">" + FileTypes.Name(tbl, c))
  {
    var ns := Names(tbl, [a, b, c]);
    assert ns[1..][1..] == [FileTypes.Name(tbl, c)];
    assert Join(ns[1..], '>') == FileTypes.Name(tbl, b) + ">" + FileTypes.Name(tbl, c);
    assert Join(ns, '>') == FileTypes.Name(tbl, a) + ">" + Join(ns[1..], '>');
    var ts := Collect.Map(AttrPrinterAsWritten(tbl), [Intermediates([a, b, c])]);
    assert ts == [Join(ns, '>')];
  }

  /** The test's block: `CL_TYPE_ZIP>CL_TYPE_RAR>CL_TYPE_GRAPHICS`. */
  lemma ExportIntermediatesExact(tbl: TypeNames.Table, zip: FileTypes.FileType, rar: FileTypes.FileType, graphics: FileTypes.FileType)
    requires FileTypes.Name(tbl, zip) == "CL_TYPE_ZIP"
    requires FileTypes.Name(tbl, rar) == "CL_TYPE_RAR"
    requires FileTypes.Name(tbl, graphics) == "CL_TYPE_GRAPHICS"
    ensures ExportTextAsWritten(tbl, TargetDesc([Intermediates([zip, rar, graphics])])) ==
      "CL_TYPE_ZIP" + ">" + ("CL_TYPE_RAR" + ">" + "CL_TYPE_GRAPHICS")
  {
    ExportIntermediatesText(tbl, zip, rar, graphics);
  }

  /** The `Intermediates` value, written name by name with `>` between them. */
  method AppendIntermediates(tbl: TypeNames.Table, fts: seq<FileTypes.FileType>, sb: SigBytes.SigBytes)
    modifies sb
    ensures sb.bytes == old(sb.bytes) + Join(Names(tbl, fts), '>')
  {
    var i := 0;
    while i < |fts|
      invariant 0 <= i <= |fts|
      invariant sb.bytes == old(sb.bytes) + Join(Names(tbl, fts[..i]), '>')
    {
      ghost var done := Names(tbl, fts[..i]);
      var name := FileTypes.Name(tbl, fts[i]);
      Collect.MapSnoc(Namer(tbl), fts, i);
      if i > 0 {
        JoinAppend(done, name, old(sb.bytes), sb.bytes, '>');
        sb.Write(">");
      } else {
        assert done + [name] == [name];
      }
      sb.Write(name);
      i := i + 1;
    }
    assert fts[..i] == fts;
  }

  /** `TargetDescAttr::append_sigbytes` (with the `Intermediates:` prefix written). */
  method AppendAttr(tbl: TypeNames.Table, a: Attr, sb: SigBytes.SigBytes)
    modifies sb
    ensures sb.bytes == old(sb.bytes) + AttrText(tbl, a)
  {
    sb.Write(AttrName(a) + ":");
    if a.Intermediates? {
      AppendIntermediates(tbl, a.fts, sb);
    } else {
      sb.Write(ValueText(tbl, a));
    }
  }

  /** `TargetDesc::append_sigbytes`: the attributes in order, separated by `,`. */
  method AppendSigBytes(tbl: TypeNames.Table, td: TargetDesc, sb: SigBytes.SigBytes)
    modifies sb
    ensures sb.bytes == old(sb.bytes) + ExportText(tbl, td)
  {
    var i := 0;
    while i < |td.attrs|
      invariant 0 <= i <= |td.attrs|
      invariant sb.bytes == old(sb.bytes) + Join(Collect.Map(AttrPrinter(tbl), td.attrs[..i]), ',')
    {
      ghost var done := Collect.Map(AttrPrinter(tbl), td.attrs[..i]);
      ghost var text := AttrText(tbl, td.attrs[i]);
      Collect.MapSnoc(AttrPrinter(tbl), td.attrs, i);
      if i > 0 {
        JoinAppend(done, text, old(sb.bytes), sb.bytes, ',');
        sb.Write([',']);
      }
      AppendAttr(tbl, td.attrs[i], sb);
      i := i + 1;
    }
    assert td.attrs[..i] == td.attrs;
  }




  // ------------------------------------------------------------ round trip

  lemma RangeTextHasNo(r: Util.Range, c: Byte)
    requires c == ',' || c == ';'
    ensures c !in Util.RangeText(r)
  {
    match r
    case Exact(n) => DigitsHaveNo(Num.Dec(n), c);
    case ToInclusive(e) => DigitsHaveNo(Num.Dec(e), c);
    case From(s) => DigitsHaveNo(Num.Dec(s), c);
    case Inclusive(s, e) =>
      DigitsHaveNo(Num.Dec(s), c); DigitsHaveNo(Num.Dec(e), c);
  }

  lemma {:induction false} JoinHasNo(parts: seq<Bytes>, sep: Byte, c: Byte)
    requires c != sep && forall k :: 0 <= k < |parts| ==> c !in parts[k]
    ensures c !in Join(parts, sep)
    decreases |parts|
  {
    if |parts| > 1 {
      JoinHasNo(parts[1..], sep, c);
    }
  }

  /** An icon group name holds no `c`. */
  predicate IconGroupHasNo(a: Attr, c: Byte)
  {
    (a.IconGroup1? || a.IconGroup2?) ==> c !in a.s
  }

  lemma ValueTextHasNo(tbl: TypeNames.Table, a: Attr, c: Byte)
    requires TypeNames.WellFormed(tbl) && Exportable(tbl, a)
    requires c == ',' || (c == ';' && IconGroupHasNo(a, ';'))
    ensures c !in ValueText(tbl, a)
  {
    match a
    case Engine(r) => RangeTextHasNo(r, c);
    case FileSize(r) => RangeTextHasNo(r, c);
    case EntryPoint(r) => RangeTextHasNo(r, c);
    case NumberOfSections(r) => RangeTextHasNo(r, c);
    case Target(t) => DigitsHaveNo(TargetTypes.IdText(t), c);
    case Container(ft) => TypeNames.NameHasNo(FileTypes.Name(tbl, ft), c);
    case HandlerType(ft) => TypeNames.NameHasNo(FileTypes.Name(tbl, ft), c);
    case Intermediates(fts) =>
      var ns := Names(tbl, fts);
      forall k | 0 <= k < |ns| ensures c !in ns[k] {
        TypeNames.NameHasNo(ns[k], c);
      }
      JoinHasNo(ns, '>', c);
    case IconGroup1(_) =>
    case IconGroup2(_) =>
  }

  lemma AttrTextHasNo(tbl: TypeNames.Table, a: Attr, c: Byte)
    requires TypeNames.WellFormed(tbl) && Exportable(tbl, a)
    requires c == ',' || (c == ';' && IconGroupHasNo(a, ';'))
    ensures c !in AttrText(tbl, a)
  {
    KindNameShape(AttrKind(a));
    ValueTextHasNo(tbl, a, c);
  }

  /** Without `;` in an icon group name, the exported block holds no `;`, the record separator. */
  lemma ExportHasNoSemicolon(tbl: TypeNames.Table, td: TargetDesc)
    requires TypeNames.WellFormed(tbl) && AllExportable(tbl, td.attrs)
    requires forall k :: 0 <= k < |td.attrs| ==> IconGroupHasNo(td.attrs[k], ';')
    ensures ';' !in ExportText(tbl, td)
  {
    var ts := Collect.Map(AttrPrinter(tbl), td.attrs);
    forall k | 0 <= k < |ts| ensures ';' !in ts[k] {
      AttrTextHasNo(tbl, td.attrs[k], ';');
    }
    JoinHasNo(ts, ',', ';');
  }

  lemma ParseRangeAttrText(r: Util.Range, max: nat)
    requires r.Inclusive? && r.start <= max && r.end <= max
    ensures ParseRangeAttr(Util.RangeText(r), max) == Ok(r)
  {
    Util.ParseRangeInclusiveRoundTrip(r.start, r.end, max);
  }

  lemma ParseIntermediatesText(tbl: TypeNames.Table, fts: seq<FileTypes.FileType>)
    requires TypeNames.WellFormed(tbl) && forall k :: 0 <= k < |fts| ==> fts[k].id < |tbl|
    requires |fts| >= 1
    ensures ParseContainers(tbl, Split(Join(Names(tbl, fts), '>'), '>')) == Ok(fts)
  {
    var ns := Names(tbl, fts);
    forall k | 0 <= k < |ns| ensures '>' !in ns[k] && FileTypes.Parse(tbl, ns[k]) == Ok(fts[k]) {
      TypeNames.NameHasNo(ns[k], '>');
      FileTypes.ParseName(tbl, fts[k]);
    }
    SplitJoin(ns, '>');
    Collect.MapAllEach(ContainerParser(tbl), ns, fts);
  }

  lemma ParseTargetText(tbl: TypeNames.Table, tt: TargetTypes.TargetType)
    ensures ParseValue(tbl, KTarget, TargetTypes.IdText(tt)) == Ok(Target(tt))
  {
    TargetTypes.ParseText(tt);
    TargetTypes.IdInjective(tt, tt);
  }

  lemma ParseEngineText(tbl: TypeNames.Table, r: Util.Range)
    requires r.Inclusive? && r.start <= Num.U32_MAX && r.end <= Num.U32_MAX
    ensures ParseValue(tbl, KEngine, Util.RangeText(r)) == Ok(Engine(r))
  {
    ParseRangeAttrText(r, Num.U32_MAX);
  }

  lemma ParseFileSizeText(tbl: TypeNames.Table, r: Util.Range)
    requires r.Inclusive? && r.start <= Num.USIZE_MAX && r.end <= Num.USIZE_MAX
    ensures ParseValue(tbl, KFileSize, Util.RangeText(r)) == Ok(FileSize(r))
  {
    ParseRangeAttrText(r, Num.USIZE_MAX);
  }

  lemma ParseEntryPointText(tbl: TypeNames.Table, r: Util.Range)
    requires r.Inclusive? && r.start <= Num.USIZE_MAX && r.end <= Num.USIZE_MAX
    ensures ParseValue(tbl, KEntryPoint, Util.RangeText(r)) == Ok(EntryPoint(r))
  {
    ParseRangeAttrText(r, Num.USIZE_MAX);
  }

  lemma ParseNumberOfSectionsText(tbl: TypeNames.Table, r: Util.Range)
    requires r.Inclusive? && r.start <= Num.USIZE_MAX && r.end <= Num.USIZE_MAX
    ensures ParseValue(tbl, KNumberOfSections, Util.RangeText(r)) == Ok(NumberOfSections(r))
  {
    ParseRangeAttrText(r, Num.USIZE_MAX);
  }

  lemma ParseContainerText(tbl: TypeNames.Table, ft: FileTypes.FileType)
    requires TypeNames.WellFormed(tbl) && ft.id < |tbl|
    ensures ParseValue(tbl, KContainer, FileTypes.Name(tbl, ft)) == Ok(Container(ft))
  {
    FileTypes.ParseName(tbl, ft);
  }

  lemma ParseHandlerTypeText(tbl: TypeNames.Table, ft: FileTypes.FileType)
    requires TypeNames.WellFormed(tbl) && ft.id < |tbl|
    ensures ParseValue(tbl, KHandlerType, FileTypes.Name(tbl, ft)) == Ok(HandlerType(ft))
  {
    FileTypes.ParseName(tbl, ft);
  }

  lemma ParseIntermediatesValueText(tbl: TypeNames.Table, fts: seq<FileTypes.FileType>)
    requires TypeNames.WellFormed(tbl) && |fts| >= 1 && forall k :: 0 <= k < |fts| ==> fts[k].id < |tbl|
    ensures ParseValue(tbl, KIntermediates, Join(Names(tbl, fts), '>')) == Ok(Intermediates(fts))
  {
    ParseIntermediatesText(tbl, fts);
    ParseIntermediatesValue(tbl, Join(Names(tbl, fts), '>'), fts);
  }

  lemma ParseIntermediatesValue(tbl: TypeNames.Table, v: Bytes, fts: seq<FileTypes.FileType>)
    requires ParseContainers(tbl, Split(v, '>')) == Ok(fts)
    ensures ParseValue(tbl, KIntermediates, v) == Ok(Intermediates(fts))
  {
  }

  lemma ParseIconGroupText(tbl: TypeNames.Table, s: Bytes)
    requires Utf8.IsValid(s)
    ensures ParseValue(tbl, KIconGroup1, s) == Ok(IconGroup1(s))
    ensures ParseValue(tbl, KIconGroup2, s) == Ok(IconGroup2(s))
  {
  }

  /** The value text of an exportable attribute is read back as that attribute. */
  lemma ParseValueText(tbl: TypeNames.Table, a: Attr)
    requires TypeNames.WellFormed(tbl) && Exportable(tbl, a)
    ensures ParseValue(tbl, AttrKind(a), ValueText(tbl, a)) == Ok(a)
  {
    match a {
      case Engine(r) => ParseEngineText(tbl, r);
      case FileSize(r) => ParseFileSizeText(tbl, r);
      case EntryPoint(r) => ParseEntryPointText(tbl, r);
      case NumberOfSections(r) => ParseNumberOfSectionsText(tbl, r);
      case Target(tt) => ParseTargetText(tbl, tt);
      case Container(ft) => ParseContainerText(tbl, ft);
      case HandlerType(ft) => ParseHandlerTypeText(tbl, ft);
      case Intermediates(fts) => ParseIntermediatesValueText(tbl, fts);
      case IconGroup1(s) => ParseIconGroupText(tbl, s);
      case IconGroup2(s) => ParseIconGroupText(tbl, s);
    }
  }

  /** Every exportable attribute is read back from its own text. */
  lemma ParseAttrText(tbl: TypeNames.Table, a: Attr)
    requires TypeNames.WellFormed(tbl) && Exportable(tbl, a)
    ensures ParseAttr(tbl, AttrText(tbl, a)) == Ok(a)
  {
    KindNameShape(AttrKind(a));
    KindOfName(AttrKind(a));
    var n := AttrName(a);
    var v := ValueText(tbl, a);
    FindFirstSep(n, v, ':');
    var t := n + ":" + v;
    assert t[..|n|] == n && t[|n| + 1..] == v;
    assert NameValue(t) == (n, Some(v));
    ParseValueText(tbl, a);
  }

  predicate AllExportable(tbl: TypeNames.Table, attrs: seq<Attr>)
  {
    forall k :: 0 <= k < |attrs| ==> Exportable(tbl, attrs[k])
  }

  /** Exporting and parsing again gives back the same attributes, in the same order. */
  lemma ExportParse(tbl: TypeNames.Table, td: TargetDesc)
    requires TypeNames.WellFormed(tbl) && |td.attrs| >= 1 && AllExportable(tbl, td.attrs)
    ensures ParseSpec(tbl, ExportText(tbl, td)) == Ok(td)
  {
    var ts := Collect.Map(AttrPrinter(tbl), td.attrs);
    forall k | 0 <= k < |ts| ensures ',' !in ts[k] && ParseAttr(tbl, ts[k]) == Ok(td.attrs[k]) {
      AttrTextHasNo(tbl, td.attrs[k], ',');
      ParseAttrText(tbl, td.attrs[k]);
    }
    SplitJoin(ts, ',');
    Collect.MapAllEach(AttrParser(tbl), ts, td.attrs);
  }

  /** A parsed value is exportable, given that it holds no `,`. */
  lemma ParsedValueExportable(tbl: TypeNames.Table, k: Kind, v: Bytes)
    requires ParseValue(tbl, k, v).Ok? && ',' !in v
    ensures Exportable(tbl, ParseValue(tbl, k, v).value)
  {
  }

  /** What the parser produces can always be exported and read back. */
  lemma ParsedIsExportable(tbl: TypeNames.Table, value: Bytes)
    requires ParseSpec(tbl, value).Ok?
    ensures |ParseSpec(tbl, value).value.attrs| >= 1
    ensures AllExportable(tbl, ParseSpec(tbl, value).value.attrs)
  {
    var fields := Split(value, ',');
    var attrs := ParseSpec(tbl, value).value.attrs;
    forall k | 0 <= k < |attrs| ensures Exportable(tbl, attrs[k]) {
      var f := fields[k];
      var (name, v) := NameValue(f);
      assert ParseAttr(tbl, f) == Ok(attrs[k]);
      assert ParseValue(tbl, KindOf(name).value, v.value) == Ok(attrs[k]);
      ParsedValueExportable(tbl, KindOf(name).value, v.value);
    }
  }

  /**
   * The exporter as written drops the `Intermediates:` prefix, so a
   * Target Description Block holding an `Intermediates` attribute does not
   * read back: the list of names is taken for an unknown attribute name.
   */
  lemma IntermediatesExportAsWritten(tbl: TypeNames.Table, fts: seq<FileTypes.FileType>)
    requires TypeNames.WellFormed(tbl) && |fts| >= 1
    requires forall k :: 0 <= k < |fts| ==> fts[k].id < |tbl|
    ensures ParseSpec(tbl, AttrTextAsWritten(tbl, Intermediates(fts))) ==
      Err(UnknownTargetDescAttr(Join(Names(tbl, fts), '>')))
  {
    var t := Join(Names(tbl, fts), '>');
    assert AttrTextAsWritten(tbl, Intermediates(fts)) == t;
    NameListShape(tbl, fts);
    ParseUnknownName(tbl, t);
  }

  /** A `>`-separated list of type names holds no `,` or `:` and is no attribute name. */
  lemma NameListShape(tbl: TypeNames.Table, fts: seq<FileTypes.FileType>)
    requires TypeNames.WellFormed(tbl) && |fts| >= 1
    requires forall k :: 0 <= k < |fts| ==> fts[k].id < |tbl|
    ensures ',' !in Join(Names(tbl, fts), '>') && ':' !in Join(Names(tbl, fts), '>')
    ensures KindOf(Join(Names(tbl, fts), '>')).None?
  {
    var ns := Names(tbl, fts);
    var t := Join(ns, '>');
    forall k | 0 <= k < |ns| ensures ',' !in ns[k] && ':' !in ns[k] {
      TypeNames.NameHasNo(ns[k], ',');
      TypeNames.NameHasNo(ns[k], ':');
    }
    JoinHasNo(ns, '>', ',');
    JoinHasNo(ns, '>', ':');
    JoinStartsWith(ns, '>');
    assert StartsWith(t, TypeNames.PREFIX) by {
      assert StartsWith(ns[0], TypeNames.PREFIX);
      assert t[..|TypeNames.PREFIX|] == ns[0][..|TypeNames.PREFIX|];
    }
    if KindOf(t).Some? {
      KindNameShape(KindOf(t).value);
    }
  }

  /** One field without a `:` whose text is no attribute name fails as an unknown attribute. */
  lemma ParseUnknownName(tbl: TypeNames.Table, t: Bytes)
    requires ',' !in t && ':' !in t && KindOf(t).None?
    ensures ParseSpec(tbl, t) == Err(UnknownTargetDescAttr(t))
  {
    assert Find(t, ',') == None;
    assert Split(t, ',') == [t];
    assert ParseAttr(tbl, t) == Err(UnknownTargetDescAttr(t));
  }

  // ------------------------------------------------------------ validation

  /** Index of the first Engine attribute. */
  function FirstEngine(attrs: seq<Attr>): (r: Option<nat>)
    ensures r.Some? ==> r.value < |attrs| && attrs[r.value].Engine? && forall j :: 0 <= j < r.value ==> !attrs[j].Engine?
    ensures r.None? ==> forall j :: 0 <= j < |attrs| ==> !attrs[j].Engine?
    decreases |attrs|
  {
    if |attrs| == 0 then None
    else if attrs[0].Engine? then Some(0)
    else match FirstEngine(attrs[1..])
      case None => None
      case Some(i) => Some(i + 1)
  }

  predicate NeedsEngine(a: Attr) { a.Target? || a.Intermediates? }

  /** The first attribute that is only allowed together with an Engine attribute. */
  function FirstNeedingEngine(attrs: seq<Attr>): (r: Option<Attr>)
    ensures r.Some? ==> exists k :: (0 <= k < |attrs| && attrs[k] == r.value && NeedsEngine(r.value) &&
                                     forall j :: 0 <= j < k ==> !NeedsEngine(attrs[j]))
    ensures r.None? ==> forall j :: 0 <= j < |attrs| ==> !NeedsEngine(attrs[j])
    decreases |attrs|
  {
    if |attrs| == 0 then None
    else if NeedsEngine(attrs[0]) then Some(attrs[0])
    else
      var r := FirstNeedingEngine(attrs[1..]);
      assert r.Some? ==> exists k :: (1 <= k < |attrs| && attrs[k] == r.value && NeedsEngine(r.value) &&
                                      forall j :: 0 <= j < k ==> !NeedsEngine(attrs[j])) by {
        if r.Some? {
          var k :| 0 <= k < |attrs[1..]| && attrs[1..][k] == r.value && NeedsEngine(r.value) &&
            forall j :: 0 <= j < k ==> !NeedsEngine(attrs[1..][j]);
          assert attrs[k + 1] == r.value;
          assert forall j :: 1 <= j < k + 1 ==> attrs[j] == attrs[1..][j - 1];
        }
      }
      r
  }

  /** Every Engine attribute holds an inclusive range, as the parser makes them. */
  predicate EnginesInclusive(attrs: seq<Attr>)
  {
    forall k :: 0 <= k < |attrs| && attrs[k].Engine? ==> attrs[k].range.Inclusive?
  }

  /** `validate_engine`. */
  function ValidateEngine(attrs: seq<Attr>): (r: Result<(), ValidationError>)
    requires EnginesInclusive(attrs)
    ensures r == Err(EnginePresentNotFirst) <==>
      (exists k :: 0 <= k < |attrs| && attrs[k].Engine?) && !attrs[0].Engine?
    ensures (r.Err? && r.error.EngineNotMinimum?) <==>
      |attrs| > 0 && attrs[0].Engine? && attrs[0].range.start < MINIMUM_ENGINE_SPEC
    ensures r.Err? && r.error.EngineNotMinimum? ==> r.error.found == attrs[0].range.start
    ensures (r.Err? && r.error.AttrRequiresEngine?) <==>
      (forall k :: 0 <= k < |attrs| ==> !attrs[k].Engine?) && (exists k :: 0 <= k < |attrs| && NeedsEngine(attrs[k]))
    ensures r.Ok? <==>
      (|attrs| > 0 && attrs[0].Engine? && attrs[0].range.start >= MINIMUM_ENGINE_SPEC) ||
      (forall k :: 0 <= k < |attrs| ==> !attrs[k].Engine? && !NeedsEngine(attrs[k]))
  {
    match FirstEngine(attrs)
    case Some(pos) =>
      if pos != 0 then Err(EnginePresentNotFirst)
      else if attrs[pos].range.start < MINIMUM_ENGINE_SPEC then Err(EngineNotMinimum(attrs[pos].range.start))
      else Ok(())
    case None =>
      match FirstNeedingEngine(attrs)
      case Some(a) => Err(AttrRequiresEngine(a))
      case None => Ok(())
  }

  /** The type of the last Target attribute. */
  function LastTarget(attrs: seq<Attr>): (r: Option<TargetTypes.TargetType>)
    decreases |attrs|
  {
    if |attrs| == 0 then None
    else if attrs[|attrs| - 1].Target? then Some(attrs[|attrs| - 1].tt)
    else LastTarget(attrs[..|attrs| - 1])
  }

  predicate NeedsNativeExec(a: Attr) { a.EntryPoint? || a.NumberOfSections? }

  /** The name of the last EntryPoint or NumberOfSections attribute. */
  function LastNativeExecAttr(attrs: seq<Attr>): (r: Option<Bytes>)
    ensures r.Some? ==> r.value == "EntryPoint" || r.value == "NumberOfSections"
    decreases |attrs|
  {
    if |attrs| == 0 then None
    else if NeedsNativeExec(attrs[|attrs| - 1]) then Some(AttrName(attrs[|attrs| - 1]))
    else LastNativeExecAttr(attrs[..|attrs| - 1])
  }

  /**
   * What `validate_native_exec_attrs` decides: an EntryPoint or
   * NumberOfSections attribute needs the last Target to be a native
   * executable type, and the error names the last such attribute.
   */
  function NativeExecSpec(attrs: seq<Attr>): Result<(), ValidationError>
  {
    match LastNativeExecAttr(attrs)
    case None => Ok(())
    case Some(name) =>
      if LastTarget(attrs).Some? && TargetTypes.IsNativeExecutable(LastTarget(attrs).value) then Ok(())
      else Err(AttrRequiresNativeExecTarget(name))
  }

  lemma {:induction false} LastNativeExecAttrNone(attrs: seq<Attr>)
    ensures LastNativeExecAttr(attrs).None? <==> forall k :: 0 <= k < |attrs| ==> !NeedsNativeExec(attrs[k])
    decreases |attrs|
  {
    if |attrs| > 0 {
      var init := attrs[..|attrs| - 1];
      LastNativeExecAttrNone(init);
      assert forall k :: 0 <= k < |init| ==> init[k] == attrs[k];
    }
  }

  lemma {:induction false} LastTargetSome(attrs: seq<Attr>)
    ensures LastTarget(attrs).Some? <==> exists k :: 0 <= k < |attrs| && attrs[k].Target?
    ensures LastTarget(attrs).Some? ==> exists k :: (0 <= k < |attrs| && attrs[k] == Target(LastTarget(attrs).value) &&
                                                     forall j :: k < j < |attrs| ==> !attrs[j].Target?)
    decreases |attrs|
  {
    if |attrs| > 0 {
      var n := |attrs| - 1;
      if attrs[n].Target? {
        assert attrs[n] == Target(LastTarget(attrs).value);
      } else {
        var init := attrs[..n];
        LastTargetSome(init);
        assert LastTarget(attrs) == LastTarget(init);
        assert forall k :: 0 <= k < n ==> init[k] == attrs[k];
        if exists k :: 0 <= k < |attrs| && attrs[k].Target? {
          var k :| 0 <= k < |attrs| && attrs[k].Target?;
          assert init[k].Target?;
        }
        if LastTarget(attrs).Some? {
          var k :| 0 <= k < n && init[k] == Target(LastTarget(init).value) && forall j :: k < j < n ==> !init[j].Target?;
          assert attrs[k] == Target(LastTarget(attrs).value);
          assert forall j :: k < j < |attrs| ==> !attrs[j].Target?;
        }
      }
    }
  }

  /**
   * The native-executable check passes exactly when there is no EntryPoint
   * or NumberOfSections attribute, or the last Target attribute names PE,
   * ELF or MachO.
   */
  lemma NativeExecOk(attrs: seq<Attr>)
    ensures NativeExecSpec(attrs).Ok? <==>
      (forall k :: 0 <= k < |attrs| ==> !NeedsNativeExec(attrs[k])) ||
      (exists k :: 0 <= k < |attrs| && attrs[k].Target? && TargetTypes.IsNativeExecutable(attrs[k].tt) &&
         forall j :: k < j < |attrs| ==> !attrs[j].Target?)
  {
    LastNativeExecAttrNone(attrs);
    LastTargetSome(attrs);
    if exists k :: 0 <= k < |attrs| && attrs[k].Target? && TargetTypes.IsNativeExecutable(attrs[k].tt) &&
         forall j :: k < j < |attrs| ==> !attrs[j].Target? {
      var k :| 0 <= k < |attrs| && attrs[k].Target? && TargetTypes.IsNativeExecutable(attrs[k].tt) &&
         forall j :: k < j < |attrs| ==> !attrs[j].Target?;
      var k' :| 0 <= k' < |attrs| && attrs[k'] == Target(LastTarget(attrs).value) &&
        forall j :: k' < j < |attrs| ==> !attrs[j].Target?;
      assert k == k';
    }
  }

  /** `validate_native_exec_attrs`: one pass remembering the last Target's nativeness and the last such attribute. */
  method ValidateNativeExecAttrs(attrs: seq<Attr>) returns (r: Result<(), ValidationError>)
    ensures r == NativeExecSpec(attrs)
  {
    var isNativeExec := false;
    var foundAttr: Option<Bytes> := None;
    var i := 0;
    while i < |attrs|
      invariant 0 <= i <= |attrs|
      invariant isNativeExec == (LastTarget(attrs[..i]).Some? && TargetTypes.IsNativeExecutable(LastTarget(attrs[..i]).value))
      invariant foundAttr == LastNativeExecAttr(attrs[..i])
    {
      assert attrs[..i + 1][..i] == attrs[..i];
      match attrs[i] {
        case Target(tt) => isNativeExec := TargetTypes.IsNativeExecutable(tt);
        case EntryPoint(_) => foundAttr := Some("EntryPoint");
        case NumberOfSections(_) => foundAttr := Some("NumberOfSections");
        case _ =>
      }
      i := i + 1;
    }
    assert attrs[..i] == attrs;
    if foundAttr.Some? && !isNativeExec {
      return Err(AttrRequiresNativeExecTarget(foundAttr.value));
    }
    r := Ok(());
  }

  predicate IsIconGroup(a: Attr) { a.IconGroup1? || a.IconGroup2? }

  /**
   * The `validate_icongroup` scan from position `i`, with the flag and the
   * last non-PE target type gathered so far: a PE Target ends it with
   * success; it stops early once both an icon group and a non-PE Target
   * have been seen.
   */
  function IconScan(attrs: seq<Attr>, i: nat, found: bool, tt: Option<TargetTypes.TargetType>): Result<(), ValidationError>
    requires i <= |attrs|
    decreases |attrs| - i
  {
    if i == |attrs| then
      if found then Err(IconGroupRequiresTargetTypePE(tt)) else Ok(())
    else match attrs[i]
      case Target(t) =>
        if t == TargetTypes.PE then Ok(())
        else if found then Err(IconGroupRequiresTargetTypePE(Some(t)))
        else IconScan(attrs, i + 1, found, Some(t))
      case IconGroup1(_) =>
        if tt.Some? then Err(IconGroupRequiresTargetTypePE(tt)) else IconScan(attrs, i + 1, true, tt)
      case IconGroup2(_) =>
        if tt.Some? then Err(IconGroupRequiresTargetTypePE(tt)) else IconScan(attrs, i + 1, true, tt)
      case _ => IconScan(attrs, i + 1, found, tt)
  }

  function IconGroupSpec(attrs: seq<Attr>): Result<(), ValidationError>
  {
    IconScan(attrs, 0, false, None)
  }

  /** `validate_icongroup`. */
  method ValidateIconGroup(attrs: seq<Attr>) returns (r: Result<(), ValidationError>)
    ensures r == IconGroupSpec(attrs)
  {
    var foundIconGroup := false;
    var targetType: Option<TargetTypes.TargetType> := None;
    var i := 0;
    while i < |attrs|
      invariant 0 <= i <= |attrs|
      invariant IconGroupSpec(attrs) == IconScan(attrs, i, foundIconGroup, targetType)
      invariant !(foundIconGroup && targetType.Some?)
    {
      match attrs[i] {
        case Target(t) =>
          if t == TargetTypes.PE {
            return Ok(());
          }
          targetType := Some(t);
          if foundIconGroup {
            break;
          }
        case IconGroup1(_) =>
          foundIconGroup := true;
          if targetType.Some? {
            break;
          }
        case IconGroup2(_) =>
          foundIconGroup := true;
          if targetType.Some? {
            break;
          }
        case _ =>
      }
      i := i + 1;
    }
    if foundIconGroup {
      r := Err(IconGroupRequiresTargetTypePE(targetType));
    } else {
      r := Ok(());
    }
  }

  /** Scanning from a state fails only when an icon group was or will be seen. */
  lemma {:induction false} IconScanOutcome(attrs: seq<Attr>, i: nat, found: bool, tt: Option<TargetTypes.TargetType>)
    requires i <= |attrs| && !(found && tt.Some?)
    requires tt.Some? ==> tt.value != TargetTypes.PE
    ensures IconScan(attrs, i, found, tt).Err? ==>
      (found || exists k :: i <= k < |attrs| && IsIconGroup(attrs[k]))
    ensures !found && (forall k :: i <= k < |attrs| ==> !IsIconGroup(attrs[k])) ==> IconScan(attrs, i, found, tt).Ok?
    decreases |attrs| - i
  {
    if i < |attrs| {
      match attrs[i]
      case Target(t) =>
        if t != TargetTypes.PE && !found {
          IconScanOutcome(attrs, i + 1, found, Some(t));
        }
      case IconGroup1(_) =>
        if tt.None? {
          IconScanOutcome(attrs, i + 1, true, tt);
        }
      case IconGroup2(_) =>
        if tt.None? {
          IconScanOutcome(attrs, i + 1, true, tt);
        }
      case _ =>
        IconScanOutcome(attrs, i + 1, found, tt);
    }
  }

  /** The type a failed scan reports is a non-PE Target seen on the way, or `None` when there was none. */
  lemma {:induction false} IconScanError(attrs: seq<Attr>, i: nat, found: bool, tt: Option<TargetTypes.TargetType>)
    requires i <= |attrs| && !(found && tt.Some?)
    requires tt.Some? ==> tt.value != TargetTypes.PE
    ensures IconScan(attrs, i, found, tt).Err? ==>
      match IconScan(attrs, i, found, tt).error
      case IconGroupRequiresTargetTypePE(t) =>
        (t.Some? ==> t.value != TargetTypes.PE && (t == tt || exists k :: i <= k < |attrs| && attrs[k] == Target(t.value))) &&
        (t.None? <==> tt.None? && forall k :: i <= k < |attrs| ==> !attrs[k].Target?)
      case _ => false
    decreases |attrs| - i
  {
    if i < |attrs| {
      match attrs[i]
      case Target(t) =>
        if t != TargetTypes.PE && !found {
          IconScanError(attrs, i + 1, found, Some(t));
        }
      case IconGroup1(_) =>
        if tt.None? {
          IconScanError(attrs, i + 1, true, tt);
        }
      case IconGroup2(_) =>
        if tt.None? {
          IconScanError(attrs, i + 1, true, tt);
        }
      case _ =>
        IconScanError(attrs, i + 1, found, tt);
    }
  }

  /**
   * The icon group check fails only when there is an icon group; without a
   * Target attribute the error reports `None`, otherwise a non-PE type that
   * occurs in the block.
   */
  lemma IconGroupErrors(attrs: seq<Attr>)
    ensures (forall k :: 0 <= k < |attrs| ==> !IsIconGroup(attrs[k])) ==> IconGroupSpec(attrs).Ok?
    ensures IconGroupSpec(attrs).Err? ==> exists k :: 0 <= k < |attrs| && IsIconGroup(attrs[k])
    ensures IconGroupSpec(attrs) == Err(IconGroupRequiresTargetTypePE(None)) <==>
      (exists k :: 0 <= k < |attrs| && IsIconGroup(attrs[k])) && forall k :: 0 <= k < |attrs| ==> !attrs[k].Target?
    ensures IconGroupSpec(attrs).Err? ==> IconGroupSpec(attrs).error.IconGroupRequiresTargetTypePE?
    ensures (IconGroupSpec(attrs).Err? && IconGroupSpec(attrs).error.IconGroupRequiresTargetTypePE? &&
             IconGroupSpec(attrs).error.targetType.Some?) ==>
      IconGroupSpec(attrs).error.targetType.value != TargetTypes.PE &&
      Target(IconGroupSpec(attrs).error.targetType.value) in attrs
  {
    IconScanOutcome(attrs, 0, false, None);
    IconScanError(attrs, 0, false, None);
    if (exists k :: 0 <= k < |attrs| && IsIconGroup(attrs[k])) && forall k :: 0 <= k < |attrs| ==> !attrs[k].Target? {
      IconScanNoTarget(attrs, 0, false);
    }
  }

  lemma {:induction false} IconScanNoTarget(attrs: seq<Attr>, i: nat, found: bool)
    requires i <= |attrs| && forall k :: i <= k < |attrs| ==> !attrs[k].Target?
    requires found || exists k :: i <= k < |attrs| && IsIconGroup(attrs[k])
    ensures IconScan(attrs, i, found, None) == Err(IconGroupRequiresTargetTypePE(None))
    decreases |attrs| - i
  {
    if i < |attrs| {
      if IsIconGroup(attrs[i]) {
        IconScanNoTarget(attrs, i + 1, true);
      } else {
        assert found || exists k :: i + 1 <= k < |attrs| && IsIconGroup(attrs[k]);
        IconScanNoTarget(attrs, i + 1, found);
      }
    }
  }

  /** A PE Target reached before any other Target, or before any icon group, makes the check pass. */
  lemma {:induction false} IconGroupPEFirst(attrs: seq<Attr>, p: nat)
    requires p < |attrs| && attrs[p] == Target(TargetTypes.PE)
    requires (forall k :: 0 <= k < p ==> !attrs[k].Target?) || (forall k :: 0 <= k < p ==> !IsIconGroup(attrs[k]))
    ensures IconGroupSpec(attrs).Ok?
  {
    IconScanReachesPE(attrs, 0, false, None, p);
  }

  lemma {:induction false} IconScanReachesPE(attrs: seq<Attr>, i: nat, found: bool, tt: Option<TargetTypes.TargetType>, p: nat)
    requires i <= p < |attrs| && attrs[p] == Target(TargetTypes.PE)
    requires !(found && tt.Some?)
    requires (tt.None? && forall k :: i <= k < p ==> !attrs[k].Target?) || (!found && forall k :: i <= k < p ==> !IsIconGroup(attrs[k]))
    ensures IconScan(attrs, i, found, tt).Ok?
    decreases p - i
  {
    if i < p {
      match attrs[i]
      case Target(t) =>
        if t != TargetTypes.PE {
          IconScanReachesPE(attrs, i + 1, found, Some(t), p);
        }
      case IconGroup1(_) => IconScanReachesPE(attrs, i + 1, true, tt, p);
      case IconGroup2(_) => IconScanReachesPE(attrs, i + 1, true, tt, p);
      case _ => IconScanReachesPE(attrs, i + 1, found, tt, p);
    }
  }

  /** `validate`: engine, then native executable, then icon group; the first error wins. */
  function ValidateSpec(td: TargetDesc): Result<(), ValidationError>
    requires EnginesInclusive(td.attrs)
  {
    if ValidateEngine(td.attrs).Err? then ValidateEngine(td.attrs)
    else if NativeExecSpec(td.attrs).Err? then NativeExecSpec(td.attrs)
    else IconGroupSpec(td.attrs)
  }

  method Validate(td: TargetDesc) returns (r: Result<(), ValidationError>)
    requires EnginesInclusive(td.attrs)
    ensures r == ValidateSpec(td)
    ensures r.Ok? <==> ValidateEngine(td.attrs).Ok? && NativeExecSpec(td.attrs).Ok? && IconGroupSpec(td.attrs).Ok?
  {
    r := ValidateEngine(td.attrs);
    if r.Err? {
      return;
    }
    r := ValidateNativeExecAttrs(td.attrs);
    if r.Err? {
      return;
    }
    r := ValidateIconGroup(td.attrs);
  }

  /** The parser only ever makes inclusive Engine ranges, so parsed blocks can be validated. */
  lemma ParsedEnginesInclusive(tbl: TypeNames.Table, value: Bytes)
    requires ParseSpec(tbl, value).Ok?
    ensures EnginesInclusive(ParseSpec(tbl, value).value.attrs)
  {
    ParsedIsExportable(tbl, value);
  }

  /** The tests of src/signature/logical_sig/targetdesc.rs:468-578. */
  lemma ValidationExamples()
    ensures ValidateEngine([FileSize(Util.Inclusive(99, 101)), Engine(Util.Inclusive(51, 99))]) == Err(EnginePresentNotFirst)
    ensures ValidateEngine([Engine(Util.Inclusive(49, 99)), FileSize(Util.Inclusive(99, 101))]) == Err(EngineNotMinimum(49))
    ensures ValidateEngine([Target(TargetTypes.Graphics)]) == Err(AttrRequiresEngine(Target(TargetTypes.Graphics)))
    ensures NativeExecSpec([EntryPoint(Util.From(5))]) == Err(AttrRequiresNativeExecTarget("EntryPoint"))
    ensures NativeExecSpec([NumberOfSections(Util.From(5))]) == Err(AttrRequiresNativeExecTarget("NumberOfSections"))
    ensures IconGroupSpec([Engine(Util.Inclusive(51, 99)), Target(TargetTypes.Any), IconGroup1("test")]) ==
      Err(IconGroupRequiresTargetTypePE(Some(TargetTypes.Any)))
    ensures IconGroupSpec([Engine(Util.Inclusive(51, 99)), IconGroup1("test"), Target(TargetTypes.Any)]) ==
      Err(IconGroupRequiresTargetTypePE(Some(TargetTypes.Any)))
    ensures IconGroupSpec([Engine(Util.Inclusive(51, 99)), IconGroup1("test")]) ==
      Err(IconGroupRequiresTargetTypePE(None))
  {
  }

  // -------------------------------------------------------------- features

  /** The features one attribute contributes. */
  function AttrFeatures(a: Attr, ftFeatures: FileTypes.FileType -> seq<Feature>): seq<Feature>
  {
    match a
    case Target(t) => Items(TargetTypes.FeaturesOf(t))
    case Container(ft) => ftFeatures(ft)
    case HandlerType(ft) => ftFeatures(ft)
    case _ => []
  }

  function Flatten(attrs: seq<Attr>, ftFeatures: FileTypes.FileType -> seq<Feature>): (r: seq<Feature>)
    ensures forall f :: f in r <==> exists k :: 0 <= k < |attrs| && f in AttrFeatures(attrs[k], ftFeatures)
    decreases |attrs|
  {
    if |attrs| == 0 then []
    else
      var rest := Flatten(attrs[1..], ftFeatures);
      assert forall k :: 1 <= k < |attrs| ==> attrs[k] == attrs[1..][k - 1];
      assert forall f :: f in rest ==> exists k :: 0 <= k < |attrs| && f in AttrFeatures(attrs[k], ftFeatures) by {
        forall f | f in rest ensures exists k :: 0 <= k < |attrs| && f in AttrFeatures(attrs[k], ftFeatures) {
          var j :| 0 <= j < |attrs[1..]| && f in AttrFeatures(attrs[1..][j], ftFeatures);
          assert attrs[j + 1] == attrs[1..][j];
        }
      }
      AttrFeatures(attrs[0], ftFeatures) + rest
  }

  /**
   * `features`: the Target types' features together with the Container
   * and HandlerType file types' features, and nothing else.
   */
  function TargetDescFeatures(td: TargetDesc, ftFeatures: FileTypes.FileType -> seq<Feature>): (r: FeatureSet)
    ensures r.Built?
    ensures forall f :: f in Items(r) <==> exists k :: 0 <= k < |td.attrs| && f in AttrFeatures(td.attrs[k], ftFeatures)
  {
    Built(Flatten(td.attrs, ftFeatures))
  }
}
