/**
 * The record-level entry points (src/signature.rs): reading one database
 * record of a given signature type, and writing a signature back as the
 * record it came from.
 *
 * PE section hash records are read and written by code that is not part
 * of this model; their parser and writer are the parameters `peParse` and
 * `peText`, over a signature type `P` of their own.
 */
module Signatures {
  import opened Wrappers
  import opened ByteStr
  import Num
  import Util
  import Utf8
  import TypeNames
  import SigBytes
  import SigMetas
  import SubSigs
  import SigTypes
  import ExtSigs
  import LogicalSigs
  import FileHashes
  import ContainerMetadataSigs
  import PhishingSigs
  import FTMagicSigs
  import DigitalSigs

  /** A signature of any of the types the model reads. */
  datatype Signature<P> =
    | Extended(ext: ExtSigs.ExtendedSig)
    | Logical(logical: LogicalSigs.LogicalSig)
    | FileHash(fileHash: FileHashes.FileHashSig)
    | PESectionHash(pe: P)
    | ContainerMetadata(container: ContainerMetadataSigs.ContainerMetadataSig)
    | Phishing(phishing: PhishingSigs.PhishingSig)
    | FTMagic(ftMagic: FTMagicSigs.FTMagicSig)
    | Digital(digital: DigitalSigs.DigitalSig)

  /** `hash::ParseError`, shared by file hash and digital signature records. */
  datatype HashParseError =
    | MissingFileSize
    | InvalidValueFor(field: Bytes)
    | MissingField(field: Bytes)
    | ParseSize(numErr: Num.NumberError)
    | ParseMinFlevel(numErr: Num.NumberError)
    | ParseMaxFlevel(numErr: Num.NumberError)
    | ParseHash(hashErr: Util.ParseHashError)

  /** `FromSigBytesParseError`: the shared variants, then one per record type. */
  datatype ParseError =
    | UnsupportedSigType
    | MissingName
    | MissingField(field: Bytes)
    | InvalidValueFor(field: Bytes)
    | NameNotUnicode
    | HashSig(hashErr: HashParseError)
    | ExtendedSig(extErr: ExtSigs.ExtendedSigParseError)
    | LogicalSig(logicalErr: LogicalSigs.ParseError)
    | ContainerMetaSig(containerErr: ContainerMetadataSigs.ParseError)
    | PhishingSig(phishingErr: PhishingSigs.ParseError)
    | FTMagicSig(ftMagicErr: FTMagicSigs.ParseError)

  /** What reading and writing records depends on besides the record itself. */
  datatype Env<!P> = Env(
    types: TypeNames.Table,
    pcre: Bytes -> SubSigs.PcreVerdict,
    readPem: DigitalSigs.PemReader,
    peParse: Bytes -> Result<(P, SigMetas.SigMeta), ParseError>,
    peText: P -> Bytes)

  /** A record type's error, as the conversion into the shared error carries it. */
  function Lift<E>(e: SigMetas.FromSigBytesParseError<E>, specific: E -> ParseError): (r: ParseError)
    ensures e.Specific? ==> r == specific(e.e)
    ensures r.UnsupportedSigType? <==> e.UnsupportedSigType? || (e.Specific? && specific(e.e).UnsupportedSigType?)
  {
    match e
    case UnsupportedSigType => UnsupportedSigType
    case MissingField(f) => ParseError.MissingField(f)
    case InvalidValueFor(f) => ParseError.InvalidValueFor(f)
    case MissingName => MissingName
    case NameNotUnicode => NameNotUnicode
    case Specific(x) => specific(x)
  }

  function FromFileHashError(e: FileHashes.ParseError): ParseError
  {
    HashSig(
      match e
      case MissingFileSize => HashParseError.MissingFileSize
      case ParseSize(n) => HashParseError.ParseSize(n)
      case ParseMinFlevel(n) => HashParseError.ParseMinFlevel(n)
      case ParseMaxFlevel(n) => HashParseError.ParseMaxFlevel(n)
      case ParseHash(h) => HashParseError.ParseHash(h))
  }

  function FromDigitalError(e: DigitalSigs.ParseError): ParseError
  {
    HashSig(
      match e
      case ParseMinFlevel(n) => HashParseError.ParseMinFlevel(n)
      case ParseMaxFlevel(n) => HashParseError.ParseMaxFlevel(n)
      case MissingField(f) => HashParseError.MissingField(f)
      case InvalidValueFor(f) => HashParseError.InvalidValueFor(f))
  }

  function FromExtendedError(e: ExtSigs.ExtendedSigParseError): ParseError { ExtendedSig(e) }
  function FromLogicalError(e: LogicalSigs.ParseError): ParseError { LogicalSig(e) }
  function FromContainerError(e: ContainerMetadataSigs.ParseError): ParseError { ContainerMetaSig(e) }
  function FromPhishingError(e: PhishingSigs.ParseError): ParseError { PhishingSig(e) }
  function FromFTMagicError(e: FTMagicSigs.ParseError): ParseError { FTMagicSig(e) }

  /** The type of record a signature is read from and written as. */
  function KindOf<P>(sig: Signature<P>): SigTypes.SigType
  {
    match sig
    case Extended(_) => SigTypes.Extended
    case Logical(_) => SigTypes.Logical
    case FileHash(_) => SigTypes.FileHash
    case PESectionHash(_) => SigTypes.PESectionHash
    case ContainerMetadata(_) => SigTypes.ContainerMetadata
    case Phishing(_) => SigTypes.PhishingURL
    case FTMagic(_) => SigTypes.FTMagic
    case Digital(_) => SigTypes.DigitalSignature
  }

  // The record parser of each type, its signature wrapped and its error converted.

  function ReadExtended<P>(data: Bytes): (r: Result<(Signature<P>, SigMetas.SigMeta), ParseError>)
  {
    match ExtSigs.Parse(data)
    case Ok((s, meta)) => Ok((Extended(s), meta))
    case Err(e) => Err(Lift(e, FromExtendedError))
  }

  function ReadLogical<P>(env: Env<P>, data: Bytes): (r: Result<(Signature<P>, SigMetas.SigMeta), ParseError>)
  {
    match LogicalSigs.ParseSpec(env.types, data, env.pcre)
    case Ok((s, meta)) => Ok((Logical(s), meta))
    case Err(e) => Err(Lift(e, FromLogicalError))
  }

  function ReadFileHash<P>(data: Bytes): (r: Result<(Signature<P>, SigMetas.SigMeta), ParseError>)
  {
    match FileHashes.Parse(data)
    case Ok((s, meta)) => Ok((FileHash(s), meta))
    case Err(e) => Err(Lift(e, FromFileHashError))
  }

  function ReadContainerMetadata<P>(env: Env<P>, data: Bytes): (r: Result<(Signature<P>, SigMetas.SigMeta), ParseError>)
  {
    match ContainerMetadataSigs.Parse(env.types, data)
    case Ok((s, meta)) => Ok((ContainerMetadata(s), meta))
    case Err(e) => Err(Lift(e, FromContainerError))
  }

  function ReadPhishing<P>(data: Bytes): (r: Result<(Signature<P>, SigMetas.SigMeta), ParseError>)
  {
    match PhishingSigs.Parse(data)
    case Ok((s, meta)) => Ok((Phishing(s), meta))
    case Err(e) => Err(Lift(e, FromPhishingError))
  }

  function ReadFTMagic<P>(env: Env<P>, data: Bytes): (r: Result<(Signature<P>, SigMetas.SigMeta), ParseError>)
  {
    match FTMagicSigs.Parse(env.types, data)
    case Ok((s, meta)) => Ok((FTMagic(s), meta))
    case Err(e) => Err(Lift(e, FromFTMagicError))
  }

  function ReadDigital<P>(env: Env<P>, data: Bytes): (r: Result<(Signature<P>, SigMetas.SigMeta), ParseError>)
  {
    match DigitalSigs.Parse(env.readPem, data)
    case Ok((s, meta)) => Ok((Digital(s), meta))
    case Err(e) => Err(Lift(e, FromDigitalError))
  }

  /**
   * `parse_from_cvd_with_meta`: the record read by the parser of its type;
   * bytecode and Yara records are not supported.
   */
  function ParseFromCvdWithMeta<P>(env: Env<P>, t: SigTypes.SigType, data: Bytes)
    : (r: Result<(Signature<P>, SigMetas.SigMeta), ParseError>)
    ensures t == SigTypes.Bytecode || t == SigTypes.Yara ==> r == Err(UnsupportedSigType)
  {
    match t
    case Extended => ReadExtended<P>(data)
    case PESectionHash =>
      (match env.peParse(data)
       case Ok((p, meta)) => Ok((PESectionHash(p), meta))
       case Err(e) => Err(e))
    case Logical => ReadLogical<P>(env, data)
    case FileHash => ReadFileHash<P>(data)
    case ContainerMetadata => ReadContainerMetadata<P>(env, data)
    case PhishingURL => ReadPhishing<P>(data)
    case FTMagic => ReadFTMagic<P>(env, data)
    case DigitalSignature => ReadDigital<P>(env, data)
    case Bytecode => Err(UnsupportedSigType)
    case Yara => Err(UnsupportedSigType)
  }

  /** `parse_from_cvd`: the same, without the metadata. */
  function ParseFromCvd<P>(env: Env<P>, t: SigTypes.SigType, data: Bytes): (r: Result<Signature<P>, ParseError>)
    ensures r.Ok? <==> ParseFromCvdWithMeta(env, t, data).Ok?
    ensures r.Ok? ==> r.value == ParseFromCvdWithMeta(env, t, data).value.0
    ensures r.Err? ==> r.error == ParseFromCvdWithMeta(env, t, data).error
  {
    match ParseFromCvdWithMeta(env, t, data)
    case Ok((sig, _)) => Ok(sig)
    case Err(e) => Err(e)
  }

  /**
   * A record of a database file read by the type its file's extension
   * names: a file whose extension names no type, or names bytecode, is
   * read by no parser.
   */
  function ParseFromFile<P>(env: Env<P>, path: Bytes, data: Bytes): (r: Option<Result<Signature<P>, ParseError>>)
    ensures r.Some? <==> SigTypes.FromFilePath(path).Some?
    ensures r.Some? ==> r.value == ParseFromCvd(env, SigTypes.FromFilePath(path).value, data)
  {
    match SigTypes.FromFilePath(path)
    case None => None
    case Some(t) => Some(ParseFromCvd(env, t, data))
  }

  // ---------------------------------------------------------------- export

  /** The signatures the writers of their types accept. */
  predicate Exportable<P>(env: Env<P>, sig: Signature<P>)
  {
    match sig
    case Extended(s) => ExtSigs.Exportable(s)
    case Logical(s) => forall k :: 0 <= k < |s.subSigs| ==> LogicalSigs.Exportable(s.subSigs[k])
    case ContainerMetadata(s) => ContainerMetadataSigs.TypeNamed(env.types, s)
    case FTMagic(s) => FTMagicSigs.Exportable(s)
    case _ => true
  }

  /** The record a signature is written as. */
  function Text<P>(env: Env<P>, sig: Signature<P>): Bytes
    requires Exportable(env, sig)
  {
    match sig
    case Extended(s) => ExtSigs.ExportText(s)
    case Logical(s) => LogicalSigs.ExportText(env.types, s)
    case FileHash(s) => FileHashes.ExportText(s)
    case PESectionHash(p) => env.peText(p)
    case ContainerMetadata(s) => ContainerMetadataSigs.ExportText(env.types, s)
    case Phishing(s) => PhishingSigs.ExportText(s)
    case FTMagic(s) => FTMagicSigs.ExportText(env.types, s)
    case Digital(s) => DigitalSigs.ExportText(s)
  }

  /** `to_sigbytes`: the signature appended to a new, empty buffer. */
  method ToSigBytes<P>(env: Env<P>, sig: Signature<P>) returns (sb: SigBytes.SigBytes)
    requires Exportable(env, sig)
    ensures fresh(sb) && sb.bytes == Text(env, sig)
  {
    sb := new SigBytes.SigBytes();
    match sig
    case Extended(s) => ExtSigs.AppendExtSig(sb, s);
    case Logical(s) => LogicalSigs.AppendLogicalSig(env.types, sb, s);
    case FileHash(s) => FileHashes.AppendSigBytes(sb, s);
    case PESectionHash(p) => sb.Write(env.peText(p));
    case ContainerMetadata(s) => ContainerMetadataSigs.AppendSigBytes(env.types, sb, s);
    case Phishing(s) => PhishingSigs.AppendSigBytes(sb, s);
    case FTMagic(s) => FTMagicSigs.AppendSigBytes(env.types, sb, s);
    case Digital(s) => DigitalSigs.AppendSigBytes(sb, s);
  }

  // ------------------------------------------------------------ round trip

  /**
   * The signatures each record parser reads back from their export, as the
   * round-trip lemma of each record type states it; a PE section hash
   * signature when its own parser reads back what its writer wrote.
   */
  ghost predicate Readable<P>(env: Env<P>, sig: Signature<P>)
  {
    match sig
    case Extended(s) => ExtSigs.Readable(s)
    case Logical(s) => LogicalSigs.Readable(env.types, s, env.pcre)
    case FileHash(s) => FileHashes.Readable(s)
    case PESectionHash(p) => env.peParse(env.peText(p)) == Ok((p, SigMetas.SigMeta(None)))
    case ContainerMetadata(s) => ContainerMetadataSigs.Readable(env.types, s)
    case Phishing(s) => PhishingSigs.Readable(s)
    case FTMagic(s) => FTMagicSigs.Readable(env.types, s)
    case Digital(s) =>
      Utf8.IsValid(DigitalSigs.StripPem(s.pem)) && ':' !in DigitalSigs.StripPem(s.pem) &&
      DigitalSigs.ReadsBack(env.readPem, s)
  }

  /**
   * The metadata a written record declares: logical signatures carry their
   * engine range, digital signatures `220..`, the others nothing.
   */
  function WrittenMeta<P>(sig: Signature<P>): SigMetas.SigMeta
  {
    match sig
    case Logical(s) => SigMetas.SigMeta(LogicalSigs.FirstInclusiveEngine(s.targetDesc.attrs))
    case Digital(_) => SigMetas.SigMeta(Some(Util.From(220)))
    case _ => SigMetas.SigMeta(None)
  }

  /**
   * Writing a signature and reading the record back by the type it was
   * written as gives the signature again.
   */
  lemma RoundTrip<P>(env: Env<P>, sig: Signature<P>)
    requires Readable(env, sig)
    ensures ParseFromCvdWithMeta(env, KindOf(sig), Text(env, sig)) == Ok((sig, WrittenMeta(sig)))
  {
    match sig
    case Extended(s) => ExtendedRoundTrip(env, s);
    case Logical(s) => LogicalRoundTrip(env, s);
    case FileHash(s) => FileHashRoundTrip(env, s);
    case PESectionHash(p) =>
    case ContainerMetadata(s) => ContainerMetadataRoundTrip(env, s);
    case Phishing(s) => PhishingRoundTrip(env, s);
    case FTMagic(s) => FTMagicRoundTrip(env, s);
    case Digital(s) => DigitalRoundTrip(env, s);
  }

  // The round trip of each record type, through the record-level parser.

  // A record its type's parser accepts is read as that signature, with its metadata.

  lemma ReadsExtended<P>(env: Env<P>, data: Bytes, s: ExtSigs.ExtendedSig, meta: SigMetas.SigMeta)
    requires ExtSigs.Parse(data) == Ok((s, meta))
    ensures ParseFromCvdWithMeta(env, SigTypes.Extended, data) == Ok((Extended(s), meta))
  {
  }

  lemma ReadsLogical<P>(env: Env<P>, data: Bytes, s: LogicalSigs.LogicalSig, meta: SigMetas.SigMeta)
    requires LogicalSigs.ParseSpec(env.types, data, env.pcre) == Ok((s, meta))
    ensures ParseFromCvdWithMeta(env, SigTypes.Logical, data) == Ok((Logical(s), meta))
  {
  }

  lemma ReadsFileHash<P>(env: Env<P>, data: Bytes, s: FileHashes.FileHashSig, meta: SigMetas.SigMeta)
    requires FileHashes.Parse(data) == Ok((s, meta))
    ensures ParseFromCvdWithMeta(env, SigTypes.FileHash, data) == Ok((FileHash(s), meta))
  {
  }

  lemma ReadsContainerMetadata<P>(env: Env<P>, data: Bytes, s: ContainerMetadataSigs.ContainerMetadataSig, meta: SigMetas.SigMeta)
    requires ContainerMetadataSigs.Parse(env.types, data) == Ok((s, meta))
    ensures ParseFromCvdWithMeta(env, SigTypes.ContainerMetadata, data) == Ok((ContainerMetadata(s), meta))
  {
  }

  lemma ReadsPhishing<P>(env: Env<P>, data: Bytes, s: PhishingSigs.PhishingSig, meta: SigMetas.SigMeta)
    requires PhishingSigs.Parse(data) == Ok((s, meta))
    ensures ParseFromCvdWithMeta(env, SigTypes.PhishingURL, data) == Ok((Phishing(s), meta))
  {
  }

  lemma ReadsFTMagic<P>(env: Env<P>, data: Bytes, s: FTMagicSigs.FTMagicSig, meta: SigMetas.SigMeta)
    requires FTMagicSigs.Parse(env.types, data) == Ok((s, meta))
    ensures ParseFromCvdWithMeta(env, SigTypes.FTMagic, data) == Ok((FTMagic(s), meta))
  {
  }

  lemma ReadsDigital<P>(env: Env<P>, data: Bytes, s: DigitalSigs.DigitalSig, meta: SigMetas.SigMeta)
    requires DigitalSigs.Parse(env.readPem, data) == Ok((s, meta))
    ensures ParseFromCvdWithMeta(env, SigTypes.DigitalSignature, data) == Ok((Digital(s), meta))
  {
  }

  lemma ExtendedRoundTrip<P>(env: Env<P>, s: ExtSigs.ExtendedSig)
    requires ExtSigs.Readable(s)
    ensures ExtSigs.Exportable(s)
    ensures ParseFromCvdWithMeta(env, SigTypes.Extended, ExtSigs.ExportText(s)) == Ok((Extended(s), SigMetas.SigMeta(None)))
  {
    ExtSigs.RoundTrip(s);
    ReadsExtended(env, ExtSigs.ExportText(s), s, SigMetas.SigMeta(None));
  }

  lemma LogicalRoundTrip<P>(env: Env<P>, s: LogicalSigs.LogicalSig)
    requires LogicalSigs.Readable(env.types, s, env.pcre)
    ensures ParseFromCvdWithMeta(env, SigTypes.Logical, LogicalSigs.ExportText(env.types, s)) ==
      Ok((Logical(s), SigMetas.SigMeta(LogicalSigs.FirstInclusiveEngine(s.targetDesc.attrs))))
  {
    LogicalSigs.RoundTrip(env.types, s, env.pcre);
    ReadsLogical(env, LogicalSigs.ExportText(env.types, s), s, SigMetas.SigMeta(LogicalSigs.FirstInclusiveEngine(s.targetDesc.attrs)));
  }

  lemma FileHashRoundTrip<P>(env: Env<P>, s: FileHashes.FileHashSig)
    requires FileHashes.Readable(s)
    ensures ParseFromCvdWithMeta(env, SigTypes.FileHash, FileHashes.ExportText(s)) == Ok((FileHash(s), SigMetas.SigMeta(None)))
  {
    FileHashes.RoundTrip(s);
    ReadsFileHash(env, FileHashes.ExportText(s), s, SigMetas.SigMeta(None));
  }

  lemma ContainerMetadataRoundTrip<P>(env: Env<P>, s: ContainerMetadataSigs.ContainerMetadataSig)
    requires ContainerMetadataSigs.Readable(env.types, s)
    ensures ParseFromCvdWithMeta(env, SigTypes.ContainerMetadata, ContainerMetadataSigs.ExportText(env.types, s)) ==
      Ok((ContainerMetadata(s), SigMetas.SigMeta(None)))
  {
    ContainerMetadataSigs.RoundTrip(env.types, s);
    ReadsContainerMetadata(env, ContainerMetadataSigs.ExportText(env.types, s), s, SigMetas.SigMeta(None));
  }

  lemma PhishingRoundTrip<P>(env: Env<P>, s: PhishingSigs.PhishingSig)
    requires PhishingSigs.Readable(s)
    ensures ParseFromCvdWithMeta(env, SigTypes.PhishingURL, PhishingSigs.ExportText(s)) == Ok((Phishing(s), SigMetas.SigMeta(None)))
  {
    PhishingSigs.RoundTrip(s);
    ReadsPhishing(env, PhishingSigs.ExportText(s), s, SigMetas.SigMeta(None));
  }

  lemma FTMagicRoundTrip<P>(env: Env<P>, s: FTMagicSigs.FTMagicSig)
    requires FTMagicSigs.Readable(env.types, s)
    ensures FTMagicSigs.Exportable(s)
    ensures ParseFromCvdWithMeta(env, SigTypes.FTMagic, FTMagicSigs.ExportText(env.types, s)) == Ok((FTMagic(s), SigMetas.SigMeta(None)))
  {
    FTMagicSigs.RoundTrip(env.types, s);
    ReadsFTMagic(env, FTMagicSigs.ExportText(env.types, s), s, SigMetas.SigMeta(None));
  }

  lemma DigitalRoundTrip<P>(env: Env<P>, s: DigitalSigs.DigitalSig)
    requires Utf8.IsValid(DigitalSigs.StripPem(s.pem)) && ':' !in DigitalSigs.StripPem(s.pem)
    requires DigitalSigs.ReadsBack(env.readPem, s)
    ensures ParseFromCvdWithMeta(env, SigTypes.DigitalSignature, DigitalSigs.ExportText(s)) ==
      Ok((Digital(s), SigMetas.SigMeta(Some(Util.From(220)))))
  {
    DigitalSigs.RoundTrip(env.readPem, s);
    ReadsDigital(env, DigitalSigs.ExportText(s), s, SigMetas.SigMeta(Some(Util.From(220))));
  }

  /**
   * What `to_sigbytes` writes for a readable signature is read back by the
   * parser of its type.
   */
  method ExportThenParse<P>(env: Env<P>, sig: Signature<P>) returns (r: Result<(Signature<P>, SigMetas.SigMeta), ParseError>)
    requires Readable(env, sig) && Exportable(env, sig)
    ensures r == Ok((sig, WrittenMeta(sig)))
  {
    var sb := ToSigBytes(env, sig);
    r := ParseFromCvdWithMeta(env, KindOf(sig), sb.bytes);
    RoundTrip(env, sig);
  }
}
