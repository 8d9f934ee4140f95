/**
 * File type magic signatures (src/signature/ftmagic.rs): the `.ftm` record
 * `MagicType:Offset:MagicBytes:Name:RequiredType:DetectedType[:MinFL[:MaxFL]]`
 * that recognises a file type, either by comparing bytes at an absolute
 * offset (magic types `0` and `4`) or by running a body signature (`1`).
 */
module FTMagicSigs {
  import opened Wrappers
  import opened ByteStr
  import Utf8
  import Num
  import Util
  import Hex
  import TypeNames
  import FileTypes
  import Offsets
  import BodySigs
  import S = BodySigParse
  import ExtSigs
  import Features
  import SigBytes
  import opened SigMetas

  /** `MagicBytes`: what the magic bytes field says and where to look for it. */
  datatype MagicBytes =
    | DirectMemory(at: nat, literal: Bytes)
    | BodySigMagic(bodyOffset: Option<Offsets.Offset>, bodysig: BodySigs.BodySig)
    | DMPartition(at: nat, literal: Bytes)

  /** `FTMagicSig`. */
  datatype FTMagicSig = FTMagicSig(name: Bytes, rtype: FileTypes.FileType, fileType: FileTypes.FileType, magicBytes: MagicBytes)

  /**
   * `FTMagicParseError`. `MagicTypeMissing` (a split always has a first
   * field) and `ExactOffsetParse` are never produced and are left out.
   */
  datatype ParseError =
    | OffsetMissing
    | OffsetParse(offErr: Offsets.OffsetParseError)
    | MagicBytesMissing
    | RtypeMissing
    | Rtype(ftErr: FileTypes.FileTypeParseError)
    | TypeMissing
    | Type(ftErr: FileTypes.FileTypeParseError)
    | ParseMinFlevel(numErr: Num.NumberError)
    | ParseMaxFlevel(numErr: Num.NumberError)
    | UnknownMagicType
    | DirectMemoryDecode(hexErr: Hex.FromHexError)
    | BodySig(bsErr: S.BodySigParseError)
    | DMPartitionDecode(hexErr: Hex.FromHexError)
    | WrongOffsetType

  type ParseResult = Result<(FTMagicSig, SigMeta), FromSigBytesParseError<ParseError>>

  /** Field 2: `*` for no offset, otherwise an offset as in extended signatures. */
  function OffsetField(f: Bytes): (r: Result<Option<Offsets.Offset>, ParseError>)
    ensures r == Ok(None) <==> f == "*"
    ensures r.Ok? && r.value.Some? ==> Offsets.Parse(f) == Ok(r.value.value)
    ensures r.Err? <==> f != "*" && Offsets.Parse(f).Err?
  {
    match Util.OptFieldValue(f)
    case None => Ok(None)
    case Some(v) =>
      match Offsets.Parse(v)
      case Ok(o) => Ok(Some(o))
      case Err(e) => Err(OffsetParse(e))
  }

  /**
   * The flevel fields of this record: an empty minimum is allowed, so that
   * `::121` means "up to 121"; a minimum alone is `min..`, both `min..=max`.
   */
  function FlevelTail(rest: seq<Bytes>): (r: Result<Option<Util.Range>, ParseError>)
    ensures |rest| == 0 ==> r == Ok(None)
    ensures r.Ok? ==> (r.value.None? <==> |rest| == 0 || (rest[0] == [] && |rest| == 1))
    ensures r.Ok? && r.value.Some? ==>
      (rest[0] == [] ==> Util.Start(r.value.value).None?) &&
      (rest[0] != [] ==> Num.ParseDec(rest[0], Num.U32_MAX).Ok? &&
                         Util.Start(r.value.value) == Some(Num.ParseDec(rest[0], Num.U32_MAX).value))
    ensures r.Ok? && r.value.Some? ==>
      (r.value.value.From? <==> |rest| == 1) &&
      (|rest| > 1 ==> (r.value.value.ToInclusive? || r.value.value.Inclusive?) && Num.ParseDec(rest[1], Num.U32_MAX).Ok? &&
                      r.value.value.end == Num.ParseDec(rest[1], Num.U32_MAX).value)
    ensures r.Err? <==> (|rest| > 0 &&
      ((rest[0] != [] && Num.ParseDec(rest[0], Num.U32_MAX).Err?) || (|rest| > 1 && Num.ParseDec(rest[1], Num.U32_MAX).Err?)))
    ensures r.Err? ==> (r.error.ParseMinFlevel? <==> rest[0] != [] && Num.ParseDec(rest[0], Num.U32_MAX).Err?)
  {
    if |rest| == 0 then Ok(None)
    else
      var min :- if rest[0] == [] then Ok(None)
                 else match Num.ParseDec(rest[0], Num.U32_MAX)
                   case Ok(n) => Ok(Some(n))
                   case Err(e) => Err(ParseMinFlevel(e));
      var max :- if |rest| < 2 then Ok(None)
                 else match Num.ParseDec(rest[1], Num.U32_MAX)
                   case Ok(n) => Ok(Some(n))
                   case Err(e) => Err(ParseMaxFlevel(e));
      match (min, max)
      case (Some(lo), None) => Ok(Some(Util.From(lo)))
      case (None, Some(hi)) => Ok(Some(Util.ToInclusive(hi)))
      case (Some(lo), Some(hi)) => Ok(Some(Util.Inclusive(lo, hi)))
      case (None, None) => Ok(None)
  }

  /** With a minimum present, the flevel fields read as in extended and file hash records. */
  lemma FlevelTailAgrees(rest: seq<Bytes>)
    requires |rest| > 0 && rest[0] != []
    ensures FlevelTail(rest).Ok? <==> ParseFlevelTail(rest).Ok?
    ensures FlevelTail(rest).Ok? ==> FlevelTail(rest).value == ParseFlevelTail(rest).value
  {
  }

  /** The test's `::121`: no minimum and a maximum of 121. */
  lemma UpToExample()
    ensures FlevelTail([[], "121"]) == Ok(Some(Util.ToInclusive(121)))
  {
    assert Num.Dec(121) == "121" by {
      assert Num.Dec(1) == "1";
      assert Num.Dec(12) == "12";
    }
    Num.ParseDecRoundTrip(121, Num.U32_MAX);
  }

  /**
   * The magic bytes by magic type: `0` and `4` need an absolute offset and
   * hex bytes, `1` a body signature and any offset or none; any other type
   * is unknown.
   */
  function MagicBytesOf(magicType: Bytes, offset: Option<Offsets.Offset>, content: Bytes): (r: Result<MagicBytes, ParseError>)
    ensures r.Ok? ==> (r.value.DirectMemory? <==> magicType == "0") && (r.value.BodySigMagic? <==> magicType == "1") &&
                      (r.value.DMPartition? <==> magicType == "4")
    ensures r.Ok? && !r.value.BodySigMagic? ==>
      offset.Some? && Offsets.AbsoluteValue(offset.value) == Some(r.value.at) && Hex.Decode(content) == Ok(r.value.literal)
    ensures r.Ok? && r.value.BodySigMagic? ==> r.value.bodyOffset == offset && BodySigs.Parse(content) == Ok(r.value.bodysig)
    ensures magicType != "0" && magicType != "1" && magicType != "4" ==> r == Err(UnknownMagicType)
    ensures (magicType == "0" || magicType == "4") && offset.None? ==> r == Err(OffsetMissing)
    ensures (magicType == "0" || magicType == "4") && offset.Some? && Offsets.AbsoluteValue(offset.value).None? ==>
      r == Err(WrongOffsetType)
  {
    if magicType == "0" || magicType == "4" then
      if offset.None? then Err(OffsetMissing)
      else match Offsets.AbsoluteValue(offset.value)
        case None => Err(WrongOffsetType)
        case Some(at) =>
          match Hex.Decode(content)
          case Err(e) => if magicType == "0" then Err(DirectMemoryDecode(e)) else Err(DMPartitionDecode(e))
          case Ok(literal) => if magicType == "0" then Ok(DirectMemory(at, literal)) else Ok(DMPartition(at, literal))
    else if magicType == "1" then
      match BodySigs.Parse(content)
      case Err(e) => Err(BodySig(e))
      case Ok(b) => Ok(BodySigMagic(offset, b))
    else Err(UnknownMagicType)
  }

  /**
   * `from_sigbytes`: the fields split on `:`; the offset, magic bytes
   * presence, UTF-8 name, both file types and the flevel fields are read
   * first, the magic type and bytes last.
   */
  function Parse(ftbl: TypeNames.Table, data: Bytes): (r: ParseResult)
    ensures var f := Split(data, ':');
      r.Ok? ==> |f| >= 6 && r.value.0.name == f[3] && Utf8.IsValid(f[3]) &&
                OffsetField(f[1]).Ok? && MagicBytesOf(f[0], OffsetField(f[1]).value, f[2]) == Ok(r.value.0.magicBytes) &&
                FileTypes.Parse(ftbl, f[4]) == Ok(r.value.0.rtype) && FileTypes.Parse(ftbl, f[5]) == Ok(r.value.0.fileType) &&
                FlevelTail(f[6..]) == Ok(r.value.1.fLevel)
    ensures var f := Split(data, ':');
      f[0] != "0" && f[0] != "1" && f[0] != "4" ==> r.Err?
    ensures var f := Split(data, ':');
      r == Err(MissingName) <==> |f| == 3 && OffsetField(f[1]).Ok?
    ensures var f := Split(data, ':');
      |f| < 6 ==> r.Err?
  {
    var f := Split(data, ':');
    if |f| < 2 then Err(Specific(OffsetMissing))
    else match OffsetField(f[1])
      case Err(e) => Err(Specific(e))
      case Ok(offset) =>
        if |f| < 3 then Err(Specific(MagicBytesMissing))
        else if |f| < 4 then Err(MissingName)
        else if !Utf8.IsValid(f[3]) then Err(NameNotUnicode)
        else ParseTypes(ftbl, f, offset)
  }

  /** The remaining fields, once the name has been read. */
  function ParseTypes(ftbl: TypeNames.Table, f: seq<Bytes>, offset: Option<Offsets.Offset>): (r: ParseResult)
    requires |f| >= 4
    ensures r.Ok? ==> (|f| >= 6 && r.value.0.name == f[3] &&
                MagicBytesOf(f[0], offset, f[2]) == Ok(r.value.0.magicBytes) &&
                FileTypes.Parse(ftbl, f[4]) == Ok(r.value.0.rtype) && FileTypes.Parse(ftbl, f[5]) == Ok(r.value.0.fileType) &&
                FlevelTail(f[6..]) == Ok(r.value.1.fLevel))
    ensures r != Err(MissingName)
  {
    if |f| < 5 then Err(Specific(RtypeMissing))
    else match FileTypes.Parse(ftbl, f[4])
      case Err(e) => Err(Specific(Rtype(e)))
      case Ok(rtype) =>
        if |f| < 6 then Err(Specific(TypeMissing))
        else match FileTypes.Parse(ftbl, f[5])
          case Err(e) => Err(Specific(Type(e)))
          case Ok(fileType) =>
            match FlevelTail(f[6..])
            case Err(e) => Err(Specific(e))
            case Ok(fLevel) =>
              match MagicBytesOf(f[0], offset, f[2])
              case Err(e) => Err(Specific(e))
              case Ok(mb) => Ok((FTMagicSig(f[3], rtype, fileType, mb), SigMeta(fLevel)))
  }

  /** `Signature::name`. */
  function Name(sig: FTMagicSig): Bytes
  {
    sig.name
  }

  /**
   * `EngineReq for FTMagicSig`: the features of the required type followed
   * by those of the detected type. A file type's own features come from
   * code that is not part of this model, so they are the parameter `ftFeatures`.
   */
  function SigFeatures(sig: FTMagicSig, ftFeatures: FileTypes.FileType -> seq<Features.Feature>): (r: Features.FeatureSet)
    ensures Features.Items(r) == ftFeatures(sig.rtype) + ftFeatures(sig.fileType)
  {
    Features.Built(ftFeatures(sig.rtype) + ftFeatures(sig.fileType))
  }

  /** `Signature::validate`: no sub-element check, then the flevel check. */
  function Validate(sig: FTMagicSig, meta: SigMeta, minFlevel: Features.Feature -> nat,
                    ftFeatures: FileTypes.FileType -> seq<Features.Feature>): Result<(), SigValidationError>
  {
    SigMetas.Validate(Ok(()), ValidateFeatureFlevel(SigFeatures(sig, ftFeatures), minFlevel, meta))
  }

  /**
   * A record is valid exactly when neither file type needs a feature, or it
   * declares a minimum flevel no lower than any feature of either type needs.
   */
  lemma ValidateMeaning(sig: FTMagicSig, meta: SigMeta, minFlevel: Features.Feature -> nat,
                        ftFeatures: FileTypes.FileType -> seq<Features.Feature>)
    ensures Validate(sig, meta, minFlevel, ftFeatures).Ok? <==>
      (ftFeatures(sig.rtype) == [] && ftFeatures(sig.fileType) == []) ||
      (meta.fLevel.Some? && Util.Start(meta.fLevel.value).Some? &&
       (forall k :: 0 <= k < |ftFeatures(sig.rtype)| ==> minFlevel(ftFeatures(sig.rtype)[k]) <= Util.Start(meta.fLevel.value).value) &&
       (forall k :: 0 <= k < |ftFeatures(sig.fileType)| ==> minFlevel(ftFeatures(sig.fileType)[k]) <= Util.Start(meta.fLevel.value).value))
  {
    var a, b := ftFeatures(sig.rtype), ftFeatures(sig.fileType);
    ValidateFeatureFlevelMeaning(SigFeatures(sig, ftFeatures), minFlevel, meta);
    assert forall k :: 0 <= k < |a| ==> (a + b)[k] == a[k];
    assert forall k :: 0 <= k < |b| ==> (a + b)[|a| + k] == b[k];
  }

  // ---------------------------------------------------------------- export

  /** The offset field as written. */
  function OffsetText(mb: MagicBytes): (t: Bytes)
    requires mb.BodySigMagic? && mb.bodyOffset.Some? ==> !Offsets.ExportPanics(mb.bodyOffset.value)
  {
    match mb
    case DirectMemory(at, _) => Num.Dec(at)
    case DMPartition(at, _) => Num.Dec(at)
    case BodySigMagic(None, _) => "*"
    case BodySigMagic(Some(o), _) => Offsets.OffsetText(o)
  }

  /** The magic bytes field as written: the literal in hex, or the body signature's text. */
  function ContentText(mb: MagicBytes): Bytes
    requires mb.BodySigMagic? ==> S.AllExportable(mb.bodysig.patterns)
  {
    match mb
    case DirectMemory(_, literal) => Hex.Encode(literal)
    case DMPartition(_, literal) => Hex.Encode(literal)
    case BodySigMagic(_, b) => BodySigs.BodySigText(b)
  }

  /** The magic bytes field as the source writes it: a body signature's strings without their right-side flags. */
  function ContentTextAsWritten(mb: MagicBytes): Bytes
    requires mb.BodySigMagic? ==> S.AllExportable(mb.bodysig.patterns)
  {
    if mb.BodySigMagic? then BodySigs.BodySigTextAsWritten(mb.bodysig) else ContentText(mb)
  }

  /** What the exporter can write: a body signature with a text and an offset that does not stop it. */
  predicate Exportable(sig: FTMagicSig)
  {
    sig.magicBytes.BodySigMagic? ==>
      S.AllExportable(sig.magicBytes.bodysig.patterns) &&
      (sig.magicBytes.bodyOffset.Some? ==> !Offsets.ExportPanics(sig.magicBytes.bodyOffset.value))
  }

  /** The magic type each kind of magic bytes is read from. */
  function MagicTypeText(mb: MagicBytes): Bytes
  {
    match mb
    case DirectMemory(_, _) => "0"
    case BodySigMagic(_, _) => "1"
    case DMPartition(_, _) => "4"
  }

  /** The magic type as `append_sigbytes` writes it: `1` for direct memory as well. */
  function MagicTypeTextAsWritten(mb: MagicBytes): Bytes
  {
    match mb
    case DirectMemory(_, _) => "1"
    case BodySigMagic(_, _) => "1"
    case DMPartition(_, _) => "4"
  }

  /** The six fields of the record, with the magic type `kind`. */
  function FieldTexts(ftbl: TypeNames.Table, sig: FTMagicSig, kind: Bytes): (fs: seq<Bytes>)
    requires Exportable(sig)
    ensures |fs| == 6
  {
    [kind, OffsetText(sig.magicBytes), ContentText(sig.magicBytes), sig.name,
     FileTypes.Name(ftbl, sig.rtype), FileTypes.Name(ftbl, sig.fileType)]
  }

  /** The record, with each kind of magic bytes under the magic type it is read from. */
  function ExportText(ftbl: TypeNames.Table, sig: FTMagicSig): Bytes
    requires Exportable(sig)
  {
    Join(FieldTexts(ftbl, sig, MagicTypeText(sig.magicBytes)), ':')
  }

  /** The record as `append_sigbytes` writes it. */
  function ExportTextAsWritten(ftbl: TypeNames.Table, sig: FTMagicSig): Bytes
    requires Exportable(sig)
  {
    Join(FieldTexts(ftbl, sig, MagicTypeTextAsWritten(sig.magicBytes))[2 := ContentTextAsWritten(sig.magicBytes)], ':')
  }

  /**
   * Except for direct memory comparisons and body strings with right-side
   * flags, the two exports agree.
   */
  lemma AsWrittenAgrees(ftbl: TypeNames.Table, sig: FTMagicSig)
    requires Exportable(sig) && !sig.magicBytes.DirectMemory?
    requires sig.magicBytes.BodySigMagic? ==> BodySigs.NoRightFlags(sig.magicBytes.bodysig)
    ensures ExportTextAsWritten(ftbl, sig) == ExportText(ftbl, sig)
  {
    var mb := sig.magicBytes;
    if mb.BodySigMagic? {
      BodySigs.AsWrittenAgrees(mb.bodysig);
    }
    var fs := FieldTexts(ftbl, sig, MagicTypeText(mb));
    assert FieldTexts(ftbl, sig, MagicTypeTextAsWritten(mb))[2 := ContentTextAsWritten(mb)] == fs;
  }

  /**
   * `append_sigbytes`: magic type and offset, the magic bytes, the name and
   * the two file types, separated by `:`, with the magic type each kind is
   * read from.
   */
  method AppendSigBytes(ftbl: TypeNames.Table, sb: SigBytes.SigBytes, sig: FTMagicSig)
    requires Exportable(sig)
    modifies sb
    ensures sb.bytes == old(sb.bytes) + ExportText(ftbl, sig)
  {
    ghost var start := sb.bytes;
    ghost var fs := FieldTexts(ftbl, sig, MagicTypeText(sig.magicBytes));
    sb.Write(MagicTypeText(sig.magicBytes));
    assert fs[..1] == [MagicTypeText(sig.magicBytes)];
    SigBytes.WriteField(sb, start, fs, 1, ':', OffsetText(sig.magicBytes));
    if sig.magicBytes.BodySigMagic? {
      SigBytes.WriteField(sb, start, fs, 2, ':', BodySigs.BodySigText(sig.magicBytes.bodysig));
    } else {
      SigBytes.WriteField(sb, start, fs, 2, ':', Hex.Encode(sig.magicBytes.literal));
    }
    SigBytes.WriteField(sb, start, fs, 3, ':', sig.name);
    SigBytes.WriteField(sb, start, fs, 4, ':', FileTypes.Name(ftbl, sig.rtype));
    SigBytes.WriteField(sb, start, fs, 5, ':', FileTypes.Name(ftbl, sig.fileType));
    assert fs[..6] == fs;
  }

  // ------------------------------------------------------------ round trip

  /** An offset the parser can produce for a body signature and the export writes back. */
  predicate BodyOffsetReadable(o: Offsets.Offset)
  {
    Offsets.Fits(o) && !(o.pos.EP? && o.pos.i == Num.ISIZE_MIN) && !Offsets.ExportPanics(o) && o != Offsets.Normal(Offsets.Any)
  }

  /**
   * What the parser can produce: known file types, a UTF-8 name without
   * `:`, an offset that fits a `usize`, and a body signature and offset
   * that read back from their texts.
   */
  predicate Readable(ftbl: TypeNames.Table, sig: FTMagicSig)
  {
    TypeNames.WellFormed(ftbl) && sig.rtype.id < |ftbl| && sig.fileType.id < |ftbl| &&
    Utf8.IsValid(sig.name) && ':' !in sig.name &&
    match sig.magicBytes
    case DirectMemory(at, _) => at <= Num.USIZE_MAX
    case DMPartition(at, _) => at <= Num.USIZE_MAX
    case BodySigMagic(o, b) =>
      ExtSigs.BodyReadsBack(Some(b)) && (o.Some? ==> BodyOffsetReadable(o.value))
  }

  /** The offset field reads back as the offset the magic bytes were found at. */
  lemma OffsetBack(mb: MagicBytes)
    requires mb.BodySigMagic? && mb.bodyOffset.Some? ==> BodyOffsetReadable(mb.bodyOffset.value)
    requires !mb.BodySigMagic? ==> mb.at <= Num.USIZE_MAX
    ensures ':' !in OffsetText(mb)
    ensures mb.BodySigMagic? ==> OffsetField(OffsetText(mb)) == Ok(mb.bodyOffset)
    ensures !mb.BodySigMagic? ==> OffsetField(OffsetText(mb)) == Ok(Some(Offsets.Normal(Offsets.Absolute(mb.at))))
  {
    if mb.BodySigMagic? {
      if mb.bodyOffset.Some? {
        var o := mb.bodyOffset.value;
        Offsets.RoundTrip(o);
        Offsets.OffsetTextHasNo(o, ':');
        Offsets.RoundTrip(Offsets.Normal(Offsets.Any));
        assert Offsets.OffsetText(Offsets.Normal(Offsets.Any)) == "*";
      }
    } else {
      Offsets.AbsoluteRoundTrip(mb.at);
      DigitsHaveNo(Num.Dec(mb.at), ',');
      DigitsHaveNo(Num.Dec(mb.at), ':');
      assert IsDigit(Num.Dec(mb.at)[0]);
    }
  }

  /** The magic bytes field reads back, under the right magic type. */
  lemma ContentBack(mb: MagicBytes, offset: Option<Offsets.Offset>)
    requires mb.BodySigMagic? ==> ExtSigs.BodyReadsBack(Some(mb.bodysig)) && offset == mb.bodyOffset
    requires !mb.BodySigMagic? ==> offset.Some? && Offsets.AbsoluteValue(offset.value) == Some(mb.at)
    ensures ':' !in ContentText(mb)
    ensures MagicBytesOf(MagicTypeText(mb), offset, ContentText(mb)) == Ok(mb)
  {
    if !mb.BodySigMagic? {
      Hex.DecodeEncode(mb.literal);
      Hex.EncodeIsLowerHex(mb.literal);
      var t := Hex.Encode(mb.literal);
      assert forall i :: 0 <= i < |t| ==> t[i] != ':' by {
        forall i | 0 <= i < |t| ensures t[i] != ':' {
          assert IsHexDigit(t[i]);
        }
      }
    }
  }

  /** A readable record can be written. */
  lemma ReadableExportable(ftbl: TypeNames.Table, sig: FTMagicSig)
    requires Readable(ftbl, sig)
    ensures Exportable(sig)
  {
    if sig.magicBytes.BodySigMagic? {
      assert ExtSigs.BodyReadsBack(Some(sig.magicBytes.bodysig));
      if sig.magicBytes.bodyOffset.Some? {
        assert BodyOffsetReadable(sig.magicBytes.bodyOffset.value);
      }
    }
  }

  /** The offset and magic bytes fields of a readable record hold no `:`. */
  lemma ContentHasNoColon(ftbl: TypeNames.Table, sig: FTMagicSig)
    requires Readable(ftbl, sig)
    ensures Exportable(sig)
    ensures ':' !in OffsetText(sig.magicBytes) && ':' !in ContentText(sig.magicBytes)
  {
    var mb := sig.magicBytes;
    ReadableExportable(ftbl, sig);
    var offset := if mb.BodySigMagic? then mb.bodyOffset else Some(Offsets.Normal(Offsets.Absolute(mb.at)));
    OffsetBack(mb);
    ContentBack(mb, offset);
  }

  /** Six fields without `:`, joined and split again, are the same fields. */
  lemma SplitFields(ftbl: TypeNames.Table, sig: FTMagicSig, kind: Bytes)
    requires Exportable(sig) && ':' !in kind && ':' !in sig.name
    requires ':' !in OffsetText(sig.magicBytes) && ':' !in ContentText(sig.magicBytes)
    requires ':' !in FileTypes.Name(ftbl, sig.rtype) && ':' !in FileTypes.Name(ftbl, sig.fileType)
    ensures Split(Join(FieldTexts(ftbl, sig, kind), ':'), ':') == FieldTexts(ftbl, sig, kind)
  {
    var fs := FieldTexts(ftbl, sig, kind);
    assert fs == [kind, OffsetText(sig.magicBytes), ContentText(sig.magicBytes), sig.name,
                  FileTypes.Name(ftbl, sig.rtype), FileTypes.Name(ftbl, sig.fileType)];
    SplitJoin(fs, ':');
  }

  /** Splitting the export gives back its six fields. */
  lemma ExportFields(ftbl: TypeNames.Table, sig: FTMagicSig, kind: Bytes)
    requires Readable(ftbl, sig) && ':' !in kind
    ensures Exportable(sig)
    ensures Split(Join(FieldTexts(ftbl, sig, kind), ':'), ':') == FieldTexts(ftbl, sig, kind)
  {
    ContentHasNoColon(ftbl, sig);
    TypeNames.NameHasNo(ftbl[sig.rtype.id], ':');
    TypeNames.NameHasNo(ftbl[sig.fileType.id], ':');
    SplitFields(ftbl, sig, kind);
  }

  /**
   * Exporting a record, with each kind under the magic type it is read
   * from, and reading it back gives the same record with no flevel.
   */
  lemma RoundTrip(ftbl: TypeNames.Table, sig: FTMagicSig)
    requires Readable(ftbl, sig)
    ensures Exportable(sig)
    ensures Parse(ftbl, ExportText(ftbl, sig)) == Ok((sig, SigMeta(None)))
  {
    var mb := sig.magicBytes;
    var fs := FieldTexts(ftbl, sig, MagicTypeText(mb));
    ExportFields(ftbl, sig, MagicTypeText(mb));
    OffsetBack(mb);
    ContentBack(mb, OffsetField(fs[1]).value);
    FileTypes.ParseName(ftbl, sig.rtype);
    FileTypes.ParseName(ftbl, sig.fileType);
    ParseSixFields(ftbl, ExportText(ftbl, sig), mb, sig.rtype, sig.fileType);
  }

  /** Six well-formed fields with no flevel read as the record they describe. */
  lemma ParseSixFields(ftbl: TypeNames.Table, data: Bytes, mb: MagicBytes, rtype: FileTypes.FileType, fileType: FileTypes.FileType)
    requires var f := Split(data, ':');
      |f| == 6 && OffsetField(f[1]).Ok? && Utf8.IsValid(f[3]) &&
      MagicBytesOf(f[0], OffsetField(f[1]).value, f[2]) == Ok(mb) &&
      FileTypes.Parse(ftbl, f[4]) == Ok(rtype) && FileTypes.Parse(ftbl, f[5]) == Ok(fileType)
    ensures Parse(ftbl, data) == Ok((FTMagicSig(Split(data, ':')[3], rtype, fileType, mb), SigMeta(None)))
  {
    var f := Split(data, ':');
    assert f[6..] == [];
  }

  /**
   * As the source writes it, a direct memory comparison is exported under
   * magic type `1`, so it never reads back as one.
   */
  lemma DirectMemoryExportMisread(ftbl: TypeNames.Table, sig: FTMagicSig)
    requires Readable(ftbl, sig) && sig.magicBytes.DirectMemory?
    ensures Exportable(sig)
    ensures var r := Parse(ftbl, ExportTextAsWritten(ftbl, sig));
      r.Ok? ==> !r.value.0.magicBytes.DirectMemory?
  {
    ExportFields(ftbl, sig, "1");
    assert FieldTexts(ftbl, sig, "1")[2 := ContentTextAsWritten(sig.magicBytes)] == FieldTexts(ftbl, sig, "1");
  }

  /**
   * With two or more bytes, that export reads back as a body signature of
   * those bytes at the same offset.
   */
  lemma DirectMemoryReadAsBody(ftbl: TypeNames.Table, sig: FTMagicSig)
    requires Readable(ftbl, sig) && sig.magicBytes.DirectMemory?
    requires 2 <= |sig.magicBytes.literal| <= S.USIZE_MAX
    ensures Exportable(sig)
    ensures var r := Parse(ftbl, ExportTextAsWritten(ftbl, sig));
      r.Ok? && r.value.0.magicBytes.BodySigMagic? &&
      r.value.0.magicBytes.bodyOffset == Some(Offsets.Normal(Offsets.Absolute(sig.magicBytes.at)))
  {
    var mb := sig.magicBytes;
    var fs := FieldTexts(ftbl, sig, "1");
    ExportFields(ftbl, sig, "1");
    assert fs[2 := ContentTextAsWritten(mb)] == fs;
    OffsetBack(mb);
    FileTypes.ParseName(ftbl, sig.rtype);
    FileTypes.ParseName(ftbl, sig.fileType);
    BodySigs.HexRoundTrip(mb.literal);
    var offset := OffsetField(fs[1]).value;
    var b := BodySigs.Parse(Hex.Encode(mb.literal)).value;
    assert MagicBytesOf("1", offset, fs[2]) == Ok(BodySigMagic(offset, b));
    ParseSixFields(ftbl, ExportTextAsWritten(ftbl, sig), BodySigMagic(offset, b), sig.rtype, sig.fileType);
  }
}
