/**
 * Container metadata signatures (src/signature/container_metadata_sig.rs):
 * the `.cdb` record
 * `Name:ContainerType:ContainerSize:FileNameREGEX:FileSizeInContainer:FileSizeReal:IsEncrypted:FilePos:Res1[:MinFL[:MaxFL]]`,
 * split on `:` that are not escaped by `\`, since the regular expression may
 * hold `\:`. Every field but the name may be `*` for "any".
 */
module ContainerMetadataSigs {
  import opened Wrappers
  import opened ByteStr
  import Utf8
  import Num
  import Util
  import TypeNames
  import ContainerSizes
  import Features
  import SigBytes
  import opened SigMetas

  /**
   * `ContainerMetadataSig`. The container type is an index into the
   * container type name table; the regular expression is kept as the text
   * it was read from.
   */
  datatype ContainerMetadataSig = ContainerMetadataSig(
    name: Bytes,
    containerType: Option<nat>,
    containerSize: Option<ContainerSizes.ContainerSize>,
    filenameRegexp: Option<Bytes>,
    fsic: Option<Util.Range>,
    fsReal: Option<Util.Range>,
    isEncrypted: Option<bool>,
    filePos: Option<nat>,
    res1: Option<nat>)

  /**
   * `container_metadata_sig::ParseError`. `MissingRes2` and `InvalidRes2`
   * are declared by the source but never produced, and are left out.
   */
  datatype ParseError =
    | MissingContainerType
    | ContainerType(typeErr: TypeNames.NameError)
    | MissingContainerSize
    | ContainerSize(sizeErr: ContainerSizes.ParseError)
    | MissingFilenameRegexp
    | FilenameRegexpNotUnicode
    | MissingFSIC
    | InvalidFSIC(rangeErr: Util.RangeParseError)
    | FSICRangeType
    | MissingFSReal
    | InvalidFSReal(rangeErr: Util.RangeParseError)
    | FSRealRangeType
    | MissingIsEnc
    | InvalidIsEnc
    | MissingFilePos
    | InvalidFilePos(numErr: Num.NumberError)
    | MissingRes1
    | InvalidRes1(numErr: Num.NumberError)
    | ParseMinFlevel(numErr: Num.NumberError)
    | ParseMaxFlevel(numErr: Num.NumberError)

  type ParseResult = Result<(ContainerMetadataSig, SigMeta), FromSigBytesParseError<ParseError>>

  /**
   * For a "missing field" error, how many fields after the name were
   * present when it was raised.
   */
  function MissingAt(e: ParseError): Option<nat>
  {
    match e
    case MissingContainerType => Some(0)
    case MissingContainerSize => Some(1)
    case MissingFilenameRegexp => Some(2)
    case MissingFSIC => Some(3)
    case MissingFSReal => Some(4)
    case MissingIsEnc => Some(5)
    case MissingFilePos => Some(6)
    case MissingRes1 => Some(7)
    case _ => None
  }

  // ------------------------------------------------------------ field parsers

  function FsicInvalid(e: Util.RangeParseError): ParseError { InvalidFSIC(e) }
  function FsRealInvalid(e: Util.RangeParseError): ParseError { InvalidFSReal(e) }
  function FilePosInvalid(e: Num.NumberError): ParseError { InvalidFilePos(e) }
  function Res1Invalid(e: Num.NumberError): ParseError { InvalidRes1(e) }

  /** Field 2: `*`, or a container type name from the table `ctbl`. */
  function TypeField(ctbl: TypeNames.Table, f: Bytes): (r: Result<Option<nat>, ParseError>)
    ensures r == Ok(None) <==> f == "*"
    ensures r.Ok? && r.value.Some? ==> r.value.value < |ctbl| && ctbl[r.value.value] == f
    ensures r.Err? <==> f != "*" && TypeNames.Lookup(ctbl, f).Err?
    ensures r.Err? ==> r.error == ContainerType(TypeNames.Lookup(ctbl, f).error)
  {
    match Util.OptFieldValue(f)
    case None => Ok(None)
    case Some(v) =>
      match TypeNames.Lookup(ctbl, v)
      case Ok(i) => Ok(Some(i))
      case Err(e) => Err(ContainerType(e))
  }

  /** Field 3: `*`, or a container size. */
  function SizeField(f: Bytes): (r: Result<Option<ContainerSizes.ContainerSize>, ParseError>)
    ensures r == Ok(None) <==> f == "*"
    ensures r.Ok? && r.value.Some? ==> ContainerSizes.Parse(f) == Ok(r.value.value)
    ensures r.Err? <==> f != "*" && ContainerSizes.Parse(f).Err?
  {
    match Util.OptFieldValue(f)
    case None => Ok(None)
    case Some(v) =>
      match ContainerSizes.Parse(v)
      case Ok(c) => Ok(Some(c))
      case Err(e) => Err(ContainerSize(e))
  }

  /**
   * Field 4: `*`, or a file name regular expression, which must be UTF-8
   * (`RegexpMatch::try_from`, src/regexp.rs). Its syntax is not checked here.
   */
  function RegexpField(f: Bytes): (r: Result<Option<Bytes>, ParseError>)
    ensures r == Ok(None) <==> f == "*"
    ensures r.Ok? && r.value.Some? ==> r.value.value == f && Utf8.IsValid(f)
    ensures r.Err? <==> f != "*" && !Utf8.IsValid(f)
    ensures r.Err? ==> r.error == FilenameRegexpNotUnicode
  {
    match Util.OptFieldValue(f)
    case None => Ok(None)
    case Some(v) =>
      if Utf8.IsValid(v) then Ok(Some(v)) else Err(FilenameRegexpNotUnicode)
  }

  /**
   * Fields 5 and 6: `*`, or a `usize` range that is exact or inclusive;
   * `invalid` wraps a range that does not parse and `rangeType` reports an
   * open-ended one.
   */
  function SizeRangeField(f: Bytes, invalid: Util.RangeParseError -> ParseError, rangeType: ParseError)
    : (r: Result<Option<Util.Range>, ParseError>)
    ensures r == Ok(None) <==> f == "*"
    ensures r.Ok? && r.value.Some? ==>
      Util.RangeTryFrom(f, Num.USIZE_MAX) == Ok(r.value.value) && (r.value.value.Exact? || r.value.value.Inclusive?)
    ensures r.Err? <==>
      f != "*" && (Util.RangeTryFrom(f, Num.USIZE_MAX).Err? ||
                   !(Util.RangeTryFrom(f, Num.USIZE_MAX).value.Exact? || Util.RangeTryFrom(f, Num.USIZE_MAX).value.Inclusive?))
    ensures (f != "*" && Util.RangeTryFrom(f, Num.USIZE_MAX).Ok? &&
             !(Util.RangeTryFrom(f, Num.USIZE_MAX).value.Exact? || Util.RangeTryFrom(f, Num.USIZE_MAX).value.Inclusive?)) ==>
      r == Err(rangeType)
    ensures f != "*" && Util.RangeTryFrom(f, Num.USIZE_MAX).Err? ==>
      r == Err(invalid(Util.RangeTryFrom(f, Num.USIZE_MAX).error))
  {
    match Util.OptFieldValue(f)
    case None => Ok(None)
    case Some(v) =>
      match Util.RangeTryFrom(v, Num.USIZE_MAX)
      case Err(e) => Err(invalid(e))
      case Ok(rg) => if rg.Exact? || rg.Inclusive? then Ok(Some(rg)) else Err(rangeType)
  }

  /** Field 7: `*`, `0` or `1`. */
  function EncryptedField(f: Bytes): (r: Result<Option<bool>, ParseError>)
    ensures r == Ok(None) <==> f == "*"
    ensures r.Ok? && r.value.Some? ==> f == Util.BoolText(r.value.value)
    ensures r.Err? <==> f != "*" && f != "0" && f != "1"
  {
    match Util.OptFieldValue(f)
    case None => Ok(None)
    case Some(v) =>
      match Util.ParseBoolFromInt(v)
      case Ok(b) => Ok(Some(b))
      case Err(_) => Err(InvalidIsEnc)
  }

  /**
   * Fields 8 and 9: `*`, or a decimal number of at most `max`; `invalid`
   * wraps a number that does not parse.
   */
  function NumberField(f: Bytes, max: nat, invalid: Num.NumberError -> ParseError): (r: Result<Option<nat>, ParseError>)
    ensures r == Ok(None) <==> f == "*"
    ensures r.Ok? && r.value.Some? ==> Num.ParseDec(f, max) == Ok(r.value.value) && r.value.value <= max
    ensures r.Err? <==> f != "*" && Num.ParseDec(f, max).Err?
    ensures r.Err? ==> r.error == invalid(Num.ParseDec(f, max).error)
  {
    match Util.OptFieldValue(f)
    case None => Ok(None)
    case Some(v) =>
      match Num.ParseDec(v, max)
      case Ok(n) => Ok(Some(n))
      case Err(e) => Err(invalid(e))
  }

  /**
   * The fields after `Res1`: when the first is missing or empty there is no
   * flevel (the export writes it empty, as a place for a `Res2` field that
   * is not read); otherwise it is the minimum flevel and the next field, if
   * any, the maximum, exactly like the flevel tail of other records.
   */
  function FlevelField(rest: seq<Bytes>): (r: Result<Option<Util.Range>, ParseError>)
    ensures |rest| == 0 || rest[0] == [] ==> r == Ok(None)
    ensures |rest| > 0 && rest[0] != [] ==>
      (r.Ok? <==> ParseFlevelTail(rest).Ok?) && (r.Ok? ==> r.value == ParseFlevelTail(rest).value)
    ensures r.Ok? && r.value.Some? ==>
      Num.ParseDec(rest[0], Num.U32_MAX).Ok? && Util.Start(r.value.value) == Some(Num.ParseDec(rest[0], Num.U32_MAX).value)
    ensures r.Err? ==> (r.error.ParseMinFlevel? || r.error.ParseMaxFlevel?) && MissingAt(r.error).None?
  {
    if |rest| == 0 || |rest[0]| == 0 then Ok(None)
    else match ParseFlevelTail(rest)
      case Ok(f) => Ok(f)
      case Err(MinFlevel(e)) => Err(ParseMinFlevel(e))
      case Err(MaxFlevel(e)) => Err(ParseMaxFlevel(e))
  }

  /** Fields 2 to 5, `rest[0..4]`: container type, size, file name pattern and size in the container. */
  datatype Front = Front(containerType: Option<nat>, containerSize: Option<ContainerSizes.ContainerSize>,
                         filenameRegexp: Option<Bytes>, fsic: Option<Util.Range>)

  /** Fields 6 to 9, `rest[4..8]`: real size, encryption flag, position and `Res1`. */
  datatype Back = Back(fsReal: Option<Util.Range>, isEncrypted: Option<bool>, filePos: Option<nat>, res1: Option<nat>)

  predicate FrontRead(ctbl: TypeNames.Table, rest: seq<Bytes>, v: Front)
    requires |rest| >= 4
  {
    TypeField(ctbl, rest[0]) == Ok(v.containerType) &&
    SizeField(rest[1]) == Ok(v.containerSize) &&
    RegexpField(rest[2]) == Ok(v.filenameRegexp) &&
    SizeRangeField(rest[3], FsicInvalid, FSICRangeType) == Ok(v.fsic)
  }

  predicate BackRead(rest: seq<Bytes>, v: Back)
    requires |rest| >= 8
  {
    SizeRangeField(rest[4], FsRealInvalid, FSRealRangeType) == Ok(v.fsReal) &&
    EncryptedField(rest[5]) == Ok(v.isEncrypted) &&
    NumberField(rest[6], Num.USIZE_MAX, FilePosInvalid) == Ok(v.filePos) &&
    NumberField(rest[7], Num.U32_MAX, Res1Invalid) == Ok(v.res1)
  }

  /** The record `sig` is what fields 2 to 9, `rest[0..8]`, read as. */
  predicate FieldsRead(ctbl: TypeNames.Table, rest: seq<Bytes>, sig: ContainerMetadataSig)
    requires |rest| >= 8
  {
    FrontRead(ctbl, rest, FrontOf(sig)) && BackRead(rest, BackOf(sig))
  }

  function FrontOf(sig: ContainerMetadataSig): Front
  {
    Front(sig.containerType, sig.containerSize, sig.filenameRegexp, sig.fsic)
  }

  function BackOf(sig: ContainerMetadataSig): Back
  {
    Back(sig.fsReal, sig.isEncrypted, sig.filePos, sig.res1)
  }

  /** The record made of a name and the fields read after it. */
  function Assemble(name: Bytes, front: Front, back: Back): (sig: ContainerMetadataSig)
    ensures sig.name == name && FrontOf(sig) == front && BackOf(sig) == back
  {
    ContainerMetadataSig(name, front.containerType, front.containerSize, front.filenameRegexp, front.fsic,
                         back.fsReal, back.isEncrypted, back.filePos, back.res1)
  }

  /** Fields 2 to 5, each first checked to be present. */
  function ParseFront(ctbl: TypeNames.Table, rest: seq<Bytes>): (r: Result<Front, ParseError>)
    ensures r.Ok? ==> |rest| >= 4 && FrontRead(ctbl, rest, r.value)
    ensures |rest| < 4 ==> r.Err?
    ensures r.Err? && MissingAt(r.error).Some? ==> MissingAt(r.error) == Some(|rest|)
  {
    if |rest| < 1 then Err(MissingContainerType) else
    var containerType :- TypeField(ctbl, rest[0]);
    if |rest| < 2 then Err(MissingContainerSize) else
    var containerSize :- SizeField(rest[1]);
    if |rest| < 3 then Err(MissingFilenameRegexp) else
    var filenameRegexp :- RegexpField(rest[2]);
    if |rest| < 4 then Err(MissingFSIC) else
    var fsic :- SizeRangeField(rest[3], FsicInvalid, FSICRangeType);
    Ok(Front(containerType, containerSize, filenameRegexp, fsic))
  }

  /** Fields 6 to 9, each first checked to be present. */
  function ParseBack(rest: seq<Bytes>): (r: Result<Back, ParseError>)
    requires |rest| >= 4
    ensures r.Ok? ==> |rest| >= 8 && BackRead(rest, r.value)
    ensures |rest| < 8 ==> r.Err?
    ensures r.Err? && MissingAt(r.error).Some? ==> MissingAt(r.error) == Some(|rest|)
  {
    if |rest| < 5 then Err(MissingFSReal) else
    var fsReal :- SizeRangeField(rest[4], FsRealInvalid, FSRealRangeType);
    if |rest| < 6 then Err(MissingIsEnc) else
    var isEncrypted :- EncryptedField(rest[5]);
    if |rest| < 7 then Err(MissingFilePos) else
    var filePos :- NumberField(rest[6], Num.USIZE_MAX, FilePosInvalid);
    if |rest| < 8 then Err(MissingRes1) else
    var res1 :- NumberField(rest[7], Num.U32_MAX, Res1Invalid);
    Ok(Back(fsReal, isEncrypted, filePos, res1))
  }

  /**
   * The fields after the name, in order, each first checked to be present;
   * the first missing or bad field decides the error.
   */
  function ParseRest(ctbl: TypeNames.Table, name: Bytes, rest: seq<Bytes>): (r: Result<(ContainerMetadataSig, Option<Util.Range>), ParseError>)
    ensures r.Ok? ==> |rest| >= 8 && r.value.0.name == name && FieldsRead(ctbl, rest, r.value.0) && FlevelField(rest[8..]) == Ok(r.value.1)
    ensures |rest| < 8 ==> r.Err?
    ensures r.Err? && MissingAt(r.error).Some? ==> MissingAt(r.error) == Some(|rest|)
  {
    match ParseFront(ctbl, rest)
    case Err(e) => Err(e)
    case Ok(front) =>
      match ParseBack(rest)
      case Err(e) => Err(e)
      case Ok(back) =>
        match FlevelField(rest[8..])
        case Err(e) => Err(e)
        case Ok(fLevel) => Ok((Assemble(name, front, back), fLevel))
  }

  /**
   * `from_sigbytes`: the fields split on unescaped `:`; the first is the
   * UTF-8 name (a split always has a first field, so `MissingName` is never
   * returned), the rest as `ParseRest` reads them.
   */
  function Parse(ctbl: TypeNames.Table, data: Bytes): (r: ParseResult)
    ensures var f := Util.UnescapedSplit(data, '\\', ':');
      r.Ok? ==> |f| >= 9 && r.value.0.name == f[0] && Utf8.IsValid(f[0]) &&
                FieldsRead(ctbl, f[1..], r.value.0) && FlevelField(f[9..]) == Ok(r.value.1.fLevel)
    ensures var f := Util.UnescapedSplit(data, '\\', ':');
      r == Err(NameNotUnicode) <==> !Utf8.IsValid(f[0])
    ensures var f := Util.UnescapedSplit(data, '\\', ':');
      |f| < 9 ==> r.Err?
    ensures var f := Util.UnescapedSplit(data, '\\', ':');
      r.Err? && r.error.Specific? && MissingAt(r.error.e).Some? ==> MissingAt(r.error.e) == Some(|f| - 1)
    ensures r != Err(MissingName)
  {
    var f := Util.UnescapedSplit(data, '\\', ':');
    if !Utf8.IsValid(f[0]) then Err(NameNotUnicode)
    else match ParseRest(ctbl, f[0], f[1..])
      case Err(e) => Err(Specific(e))
      case Ok((sig, fLevel)) =>
        assert f[1..][8..] == f[9..];
        Ok((sig, SigMeta(fLevel)))
  }

  /** `Signature::name`. */
  function Name(sig: ContainerMetadataSig): Bytes
  {
    sig.name
  }

  /** `EngineReq for ContainerMetadataSig`: container metadata signatures need their own feature. */
  function SigFeatures(sig: ContainerMetadataSig): (r: Features.FeatureSet)
    ensures Features.Items(r) == [Features.ContentMetadataSig]
  {
    Features.Static([Features.ContentMetadataSig])
  }

  /**
   * `Signature::validate`: there are no sub-elements to check (the
   * validation error enumeration is empty), then the flevel check.
   */
  function Validate(sig: ContainerMetadataSig, meta: SigMeta, minFlevel: Features.Feature -> nat): Result<(), SigValidationError>
  {
    SigMetas.Validate(Ok(()), ValidateFeatureFlevel(SigFeatures(sig), minFlevel, meta))
  }

  /**
   * A record is valid exactly when it declares a minimum flevel no lower
   * than the one at which container metadata signatures appeared.
   */
  lemma ValidateMeaning(sig: ContainerMetadataSig, meta: SigMeta, minFlevel: Features.Feature -> nat)
    ensures Validate(sig, meta, minFlevel).Ok? <==>
      meta.fLevel.Some? && Util.Start(meta.fLevel.value).Some? &&
      minFlevel(Features.ContentMetadataSig) <= Util.Start(meta.fLevel.value).value
  {
    ValidateFeatureFlevelMeaning(SigFeatures(sig), minFlevel, meta);
  }

  // ---------------------------------------------------------------- export

  /** An optional field as written: its text, or `*`. */
  function OptText<T>(o: Option<T>, text: T -> Bytes): Bytes
  {
    match o
    case None => "*"
    case Some(v) => text(v)
  }

  /** The file name pattern as written: its text, unchanged (`RegexpMatch::append_sigbytes`). */
  function RegexpText(s: Bytes): Bytes
  {
    s
  }

  /** Every container type of the record has a name in the table. */
  predicate TypeNamed(ctbl: TypeNames.Table, sig: ContainerMetadataSig)
  {
    sig.containerType.Some? ==> sig.containerType.value < |ctbl|
  }

  /** The container type field as written. */
  function TypeText(ctbl: TypeNames.Table, o: Option<nat>): Bytes
    requires o.Some? ==> o.value < |ctbl|
  {
    if o.Some? then ctbl[o.value] else "*"
  }

  /** The nine fields as `append_sigbytes` writes them. */
  function FieldTexts(ctbl: TypeNames.Table, sig: ContainerMetadataSig): (fs: seq<Bytes>)
    requires TypeNamed(ctbl, sig)
    ensures |fs| == 9 && fs[0] == sig.name
  {
    [sig.name,
     TypeText(ctbl, sig.containerType),
     OptText(sig.containerSize, ContainerSizes.Text),
     OptText(sig.filenameRegexp, RegexpText),
     OptText(sig.fsic, Util.RangeText),
     OptText(sig.fsReal, Util.RangeText),
     OptText(sig.isEncrypted, Util.BoolText),
     OptText(sig.filePos, Num.Dec),
     OptText(sig.res1, Num.Dec)]
  }

  /**
   * The record: the nine fields, each followed by `:`, so that an empty
   * `Res2` field ends it.
   */
  function ExportText(ctbl: TypeNames.Table, sig: ContainerMetadataSig): Bytes
    requires TypeNamed(ctbl, sig)
  {
    Join(FieldTexts(ctbl, sig) + [[]], ':')
  }

  /**
   * `append_sigbytes`: each field, `*` for one that is absent, then `:`,
   * including after `Res1`, so that the field after it is present and empty.
   */
  method AppendSigBytes(ctbl: TypeNames.Table, sb: SigBytes.SigBytes, sig: ContainerMetadataSig)
    requires TypeNamed(ctbl, sig)
    modifies sb
    ensures sb.bytes == old(sb.bytes) + ExportText(ctbl, sig)
  {
    ghost var start := sb.bytes;
    ghost var fs := FieldTexts(ctbl, sig) + [[]];
    sb.Write(sig.name);
    assert fs[..1] == [sig.name];
    WriteFront(ctbl, sb, sig, start, fs);
    WriteBack(ctbl, sb, sig, start, fs);
    assert fs[..10] == fs;
  }

  /** The container type, size, file name pattern and size in the container, each after a `:`. */
  method WriteFront(ctbl: TypeNames.Table, sb: SigBytes.SigBytes, sig: ContainerMetadataSig, ghost start: Bytes, ghost fs: seq<Bytes>)
    requires TypeNamed(ctbl, sig) && fs == FieldTexts(ctbl, sig) + [[]]
    requires sb.bytes == start + Join(fs[..1], ':')
    modifies sb
    ensures sb.bytes == start + Join(fs[..5], ':')
  {
    SigBytes.WriteField(sb, start, fs, 1, ':', TypeText(ctbl, sig.containerType));
    SigBytes.WriteField(sb, start, fs, 2, ':', OptText(sig.containerSize, ContainerSizes.Text));
    SigBytes.WriteField(sb, start, fs, 3, ':', OptText(sig.filenameRegexp, RegexpText));
    SigBytes.WriteField(sb, start, fs, 4, ':', OptText(sig.fsic, Util.RangeText));
  }

  /** The real size, encryption flag, position and `Res1`, each after a `:`, then a last `:`. */
  method WriteBack(ctbl: TypeNames.Table, sb: SigBytes.SigBytes, sig: ContainerMetadataSig, ghost start: Bytes, ghost fs: seq<Bytes>)
    requires TypeNamed(ctbl, sig) && fs == FieldTexts(ctbl, sig) + [[]]
    requires sb.bytes == start + Join(fs[..5], ':')
    modifies sb
    ensures sb.bytes == start + Join(fs[..10], ':')
  {
    SigBytes.WriteField(sb, start, fs, 5, ':', OptText(sig.fsReal, Util.RangeText));
    SigBytes.WriteField(sb, start, fs, 6, ':', OptText(sig.isEncrypted, Util.BoolText));
    SigBytes.WriteField(sb, start, fs, 7, ':', OptText(sig.filePos, Num.Dec));
    SigBytes.WriteField(sb, start, fs, 8, ':', OptText(sig.res1, Num.Dec));
    SigBytes.WriteField(sb, start, fs, 9, ':', []);
  }

  // ------------------------------------------------------------ round trip

  /**
   * What the parser can produce: a UTF-8 name and regular expression with
   * no unescaped `:` and no dangling `\`, a regular expression other than
   * `*`, known container types, exact or inclusive size ranges and numbers
   * in their integer types.
   */
  predicate Readable(ctbl: TypeNames.Table, sig: ContainerMetadataSig)
  {
    TypeNames.WellFormed(ctbl) && TypeNamed(ctbl, sig) &&
    Utf8.IsValid(sig.name) && Util.Unbroken(sig.name, '\\', ':', false) &&
    (sig.containerSize.Some? ==> ContainerSizes.Fits(sig.containerSize.value)) &&
    (sig.filenameRegexp.Some? ==>
       Utf8.IsValid(sig.filenameRegexp.value) && sig.filenameRegexp.value != "*" &&
       Util.Unbroken(sig.filenameRegexp.value, '\\', ':', false)) &&
    (sig.fsic.Some? ==> SizeRange(sig.fsic.value)) &&
    (sig.fsReal.Some? ==> SizeRange(sig.fsReal.value)) &&
    (sig.filePos.Some? ==> sig.filePos.value <= Num.USIZE_MAX) &&
    (sig.res1.Some? ==> sig.res1.value <= Num.U32_MAX)
  }

  /** A size range the record accepts. */
  predicate SizeRange(r: Util.Range)
  {
    (r.Exact? || r.Inclusive?) && Util.Fits(r, Num.USIZE_MAX)
  }

  /** The text of a number holds no separator and is not `*`. */
  lemma DecPlain(n: nat)
    ensures '\\' !in Num.Dec(n) && ':' !in Num.Dec(n) && Num.Dec(n) != "*"
  {
    DigitsHaveNo(Num.Dec(n), '\\');
    DigitsHaveNo(Num.Dec(n), ':');
    assert IsDigit(Num.Dec(n)[0]);
  }

  /** A container type field reads back. */
  lemma TypeFieldBack(ctbl: TypeNames.Table, o: Option<nat>)
    requires TypeNames.WellFormed(ctbl) && (o.Some? ==> o.value < |ctbl|)
    ensures TypeField(ctbl, TypeText(ctbl, o)) == Ok(o)
    ensures Util.Unbroken(TypeText(ctbl, o), '\\', ':', false)
  {
    Util.PlainUnbroken("*", '\\', ':');
    if o.Some? {
      var n := ctbl[o.value];
      TypeNames.NameHasNo(n, '\\');
      TypeNames.NameHasNo(n, ':');
      assert n != "*" by { assert |TypeNames.PREFIX| == 8; }
      TypeNames.LookupName(ctbl, o.value);
      Util.PlainUnbroken(n, '\\', ':');
    }
  }

  /** A container size field reads back. */
  lemma SizeFieldBack(o: Option<ContainerSizes.ContainerSize>)
    requires o.Some? ==> ContainerSizes.Fits(o.value)
    ensures SizeField(OptText(o, ContainerSizes.Text)) == Ok(o)
    ensures Util.Unbroken(OptText(o, ContainerSizes.Text), '\\', ':', false)
  {
    Util.PlainUnbroken("*", '\\', ':');
    if o.Some? {
      var t := ContainerSizes.Text(o.value);
      ContainerSizes.RoundTrip(o.value);
      ContainerSizes.ParseIsTryFrom(t);
      Util.PlainUnbroken(t, '\\', ':');
    }
  }

  /** A file name pattern field reads back. */
  lemma RegexpFieldBack(o: Option<Bytes>)
    requires o.Some? ==> Utf8.IsValid(o.value) && o.value != "*" && Util.Unbroken(o.value, '\\', ':', false)
    ensures RegexpField(OptText(o, RegexpText)) == Ok(o)
    ensures Util.Unbroken(OptText(o, RegexpText), '\\', ':', false)
  {
    Util.PlainUnbroken("*", '\\', ':');
  }

  /** An exact or inclusive size range field reads back. */
  lemma RangeFieldBack(o: Option<Util.Range>, invalid: Util.RangeParseError -> ParseError, rangeType: ParseError)
    requires o.Some? ==> SizeRange(o.value)
    ensures SizeRangeField(OptText(o, Util.RangeText), invalid, rangeType) == Ok(o)
    ensures Util.Unbroken(OptText(o, Util.RangeText), '\\', ':', false)
  {
    Util.PlainUnbroken("*", '\\', ':');
    if o.Some? {
      var r := o.value;
      Util.RangeRoundTrip(r, Num.USIZE_MAX);
      if r.Exact? {
        DecPlain(r.n);
      } else {
        DecPlain(r.start);
        DecPlain(r.end);
        assert Util.RangeText(r)[0] == Num.Dec(r.start)[0];
      }
      Util.PlainUnbroken(Util.RangeText(r), '\\', ':');
    }
  }

  /** An encryption flag field reads back. */
  lemma EncryptedFieldBack(o: Option<bool>)
    ensures EncryptedField(OptText(o, Util.BoolText)) == Ok(o)
    ensures Util.Unbroken(OptText(o, Util.BoolText), '\\', ':', false)
  {
    Util.PlainUnbroken(OptText(o, Util.BoolText), '\\', ':');
  }

  /** A number field reads back. */
  lemma NumberFieldBack(o: Option<nat>, max: nat, invalid: Num.NumberError -> ParseError)
    requires o.Some? ==> o.value <= max
    ensures NumberField(OptText(o, Num.Dec), max, invalid) == Ok(o)
    ensures Util.Unbroken(OptText(o, Num.Dec), '\\', ':', false)
  {
    Util.PlainUnbroken("*", '\\', ':');
    if o.Some? {
      DecPlain(o.value);
      Num.ParseDecRoundTrip(o.value, max);
      Util.PlainUnbroken(Num.Dec(o.value), '\\', ':');
    }
  }

  /** Fields 2 to 5 of the export read back, and are read whole. */
  lemma FrontBack(ctbl: TypeNames.Table, sig: ContainerMetadataSig)
    requires Readable(ctbl, sig)
    ensures var fs := FieldTexts(ctbl, sig);
      FrontRead(ctbl, fs[1..], FrontOf(sig)) && forall k :: 1 <= k < 5 ==> Util.Unbroken(fs[k], '\\', ':', false)
  {
    TypeFieldBack(ctbl, sig.containerType);
    SizeFieldBack(sig.containerSize);
    RegexpFieldBack(sig.filenameRegexp);
    RangeFieldBack(sig.fsic, FsicInvalid, FSICRangeType);
  }

  /** Fields 6 to 9 of the export read back, and are read whole. */
  lemma BackBack(ctbl: TypeNames.Table, sig: ContainerMetadataSig)
    requires Readable(ctbl, sig)
    ensures var fs := FieldTexts(ctbl, sig);
      BackRead(fs[1..], BackOf(sig)) && forall k :: 5 <= k < 9 ==> Util.Unbroken(fs[k], '\\', ':', false)
  {
    RangeFieldBack(sig.fsReal, FsRealInvalid, FSRealRangeType);
    EncryptedFieldBack(sig.isEncrypted);
    NumberFieldBack(sig.filePos, Num.USIZE_MAX, FilePosInvalid);
    NumberFieldBack(sig.res1, Num.U32_MAX, Res1Invalid);
  }

  /** Each exported field reads back as the record's own field, and is read whole. */
  lemma FieldsBack(ctbl: TypeNames.Table, sig: ContainerMetadataSig)
    requires Readable(ctbl, sig)
    ensures FieldsRead(ctbl, FieldTexts(ctbl, sig)[1..], sig)
    ensures forall k :: 0 <= k < 9 ==> Util.Unbroken(FieldTexts(ctbl, sig)[k], '\\', ':', false)
  {
    FrontBack(ctbl, sig);
    BackBack(ctbl, sig);
  }

  /** Splitting the export gives back the nine fields and an empty last one. */
  lemma ExportFields(ctbl: TypeNames.Table, sig: ContainerMetadataSig)
    requires Readable(ctbl, sig)
    ensures Util.UnescapedSplit(ExportText(ctbl, sig), '\\', ':') == FieldTexts(ctbl, sig) + [[]]
  {
    var fs := FieldTexts(ctbl, sig) + [[]];
    FieldsBack(ctbl, sig);
    Util.PlainUnbroken([], '\\', ':');
    assert forall k :: 0 <= k < |fs| ==> Util.Unbroken(fs[k], '\\', ':', false) by {
      forall k | 0 <= k < |fs| ensures Util.Unbroken(fs[k], '\\', ':', false) {
        if k < 9 {
          assert fs[k] == FieldTexts(ctbl, sig)[k];
        }
      }
    }
    Util.UnescapedSplitJoin(fs, '\\', ':');
  }

  /**
   * Exporting a record and reading it back gives the same record, with no
   * flevel; the source's `export` test checks this on one sample.
   */
  lemma RoundTrip(ctbl: TypeNames.Table, sig: ContainerMetadataSig)
    requires Readable(ctbl, sig)
    ensures Parse(ctbl, ExportText(ctbl, sig)) == Ok((sig, SigMeta(None)))
  {
    var f := FieldTexts(ctbl, sig) + [[]];
    ExportFields(ctbl, sig);
    FieldsBack(ctbl, sig);
    assert f[1..][..8] == FieldTexts(ctbl, sig)[1..];
    assert f[1..][8..] == [[]];
  }

  // ------------------------------------------------ the source's sample record

  /** The fields of the source's sample record, in pieces. */
  const TOA_NAME_1: Bytes := "Email.Trojan."
  const TOA_NAME_2: Bytes := "Toa-1"
  const TOA_TYPE: Bytes := "CL_TYPE_ZIP"
  const TOA_SIZE: Bytes := "1337"
  const TOA_REGEXP_1: Bytes := "Courrt.{1,15}"
  const TOA_REGEXP_2: Bytes := "\\.scr$"
  const TOA_FSIC: Bytes := "220-221"
  const TOA_FSREAL: Bytes := "2008"
  const TOA_POS: Bytes := "2010"

  /**
   * The sample record `Email.Trojan.Toa-1:CL_TYPE_ZIP:1337:Courrt.{1,15}\.scr$:220-221:2008:0:2010:*:`,
   * with no flevel.
   */
  function ToaText(): Bytes
  {
    (TOA_NAME_1 + TOA_NAME_2) + ":" + (TOA_TYPE + ":" + (TOA_SIZE + ":" + ((TOA_REGEXP_1 + TOA_REGEXP_2) + ":" +
    (TOA_FSIC + ":" + (TOA_FSREAL + ":" + ("0" + ":" + (TOA_POS + ":" + ("*" + ":" + []))))))))
  }

  /** The record the sample stands for, with `zip` the index of `CL_TYPE_ZIP`. */
  function ToaSig(zip: nat): ContainerMetadataSig
  {
    ContainerMetadataSig(TOA_NAME_1 + TOA_NAME_2, Some(zip), Some(ContainerSizes.Exact(1337)),
                         Some(TOA_REGEXP_1 + TOA_REGEXP_2), Some(Util.Inclusive(220, 221)),
                         Some(Util.Exact(2008)), Some(false), Some(2010), None)
  }

  lemma ToaNamePieces()
    ensures Utf8.IsAscii(TOA_NAME_1) && '\\' !in TOA_NAME_1 && ':' !in TOA_NAME_1
    ensures Utf8.IsAscii(TOA_NAME_2) && '\\' !in TOA_NAME_2 && ':' !in TOA_NAME_2
  {
  }

  lemma ToaName()
    ensures Utf8.IsValid(TOA_NAME_1 + TOA_NAME_2)
    ensures Util.Unbroken(TOA_NAME_1 + TOA_NAME_2, '\\', ':', false)
  {
    ToaNamePieces();
    Utf8.AsciiConcat(TOA_NAME_1, TOA_NAME_2);
    Utf8.AsciiIsValid(TOA_NAME_1 + TOA_NAME_2);
    Util.PlainUnbroken(TOA_NAME_1 + TOA_NAME_2, '\\', ':');
  }

  lemma ToaRegexpHead()
    ensures Utf8.IsAscii(TOA_REGEXP_1) && '\\' !in TOA_REGEXP_1 && ':' !in TOA_REGEXP_1
  {
  }

  /** The pattern's `\.` escapes the dot, so the field is read whole. */
  lemma ToaRegexpTail()
    ensures Utf8.IsAscii(TOA_REGEXP_2) && Util.Unbroken(TOA_REGEXP_2, '\\', ':', false)
  {
  }

  lemma ToaRegexp()
    ensures Utf8.IsValid(TOA_REGEXP_1 + TOA_REGEXP_2) && TOA_REGEXP_1 + TOA_REGEXP_2 != "*"
    ensures Util.Unbroken(TOA_REGEXP_1 + TOA_REGEXP_2, '\\', ':', false)
  {
    ToaRegexpHead();
    ToaRegexpTail();
    Utf8.AsciiConcat(TOA_REGEXP_1, TOA_REGEXP_2);
    Utf8.AsciiIsValid(TOA_REGEXP_1 + TOA_REGEXP_2);
    Util.PlainUnbroken(TOA_REGEXP_1, '\\', ':');
    Util.UnbrokenConcat(TOA_REGEXP_1, TOA_REGEXP_2, '\\', ':', false);
    assert |TOA_REGEXP_1 + TOA_REGEXP_2| != |"*"|;
  }

  lemma ToaSizes()
    ensures Num.Dec(1337) == TOA_SIZE && Num.Dec(2008) == TOA_FSREAL
  {
  }

  lemma ToaRanges()
    ensures Util.RangeInclusiveText(220, 221) == TOA_FSIC && Num.Dec(2010) == TOA_POS
  {
  }

  /** Ten fields joined with `:`. */
  lemma JoinTen(f0: Bytes, f1: Bytes, f2: Bytes, f3: Bytes, f4: Bytes, f5: Bytes, f6: Bytes, f7: Bytes, f8: Bytes, f9: Bytes)
    ensures Join([f0, f1, f2, f3, f4, f5, f6, f7, f8, f9], ':') ==
      f0 + ":" + (f1 + ":" + (f2 + ":" + (f3 + ":" + (f4 + ":" + (f5 + ":" + (f6 + ":" + (f7 + ":" + (f8 + ":" + f9))))))))
  {
    var fs := [f0, f1, f2, f3, f4, f5, f6, f7, f8, f9];
    assert Join(fs[8..], ':') == f8 + ":" + f9 by {
      assert fs[8..][1..] == [f9];
    }
    assert Join(fs[7..], ':') == f7 + ":" + Join(fs[8..], ':') by {
      assert fs[7..][1..] == fs[8..];
    }
    assert Join(fs[6..], ':') == f6 + ":" + Join(fs[7..], ':') by {
      assert fs[6..][1..] == fs[7..];
    }
    assert Join(fs[5..], ':') == f5 + ":" + Join(fs[6..], ':') by {
      assert fs[5..][1..] == fs[6..];
    }
    assert Join(fs[4..], ':') == f4 + ":" + Join(fs[5..], ':') by {
      assert fs[4..][1..] == fs[5..];
    }
    assert Join(fs[3..], ':') == f3 + ":" + Join(fs[4..], ':') by {
      assert fs[3..][1..] == fs[4..];
    }
    assert Join(fs[2..], ':') == f2 + ":" + Join(fs[3..], ':') by {
      assert fs[2..][1..] == fs[3..];
    }
    assert Join(fs[1..], ':') == f1 + ":" + Join(fs[2..], ':') by {
      assert fs[1..][1..] == fs[2..];
    }
  }

  /** Writing the sample record gives the sample text. */
  lemma ToaExport(ctbl: TypeNames.Table, zip: nat)
    requires zip < |ctbl| && ctbl[zip] == TOA_TYPE
    ensures ExportText(ctbl, ToaSig(zip)) == ToaText()
  {
    ToaSizes();
    ToaRanges();
    assert FieldTexts(ctbl, ToaSig(zip)) + [[]] ==
      [TOA_NAME_1 + TOA_NAME_2, TOA_TYPE, TOA_SIZE, TOA_REGEXP_1 + TOA_REGEXP_2, TOA_FSIC, TOA_FSREAL, "0", TOA_POS, "*", []];
    JoinTen(TOA_NAME_1 + TOA_NAME_2, TOA_TYPE, TOA_SIZE, TOA_REGEXP_1 + TOA_REGEXP_2, TOA_FSIC, TOA_FSREAL, "0", TOA_POS, "*", []);
  }

  /**
   * The source's `export` test: the sample record reads as the record with
   * those fields and no flevel, and is written back exactly as it was read.
   */
  lemma ToaSampleExact(ctbl: TypeNames.Table, zip: nat)
    requires TypeNames.WellFormed(ctbl) && zip < |ctbl| && ctbl[zip] == TOA_TYPE
    ensures Parse(ctbl, ToaText()) == Ok((ToaSig(zip), SigMeta(None)))
    ensures ExportText(ctbl, ToaSig(zip)) == ToaText()
  {
    ToaName();
    ToaRegexp();
    ToaExport(ctbl, zip);
    assert Readable(ctbl, ToaSig(zip));
    RoundTrip(ctbl, ToaSig(zip));
  }
}
