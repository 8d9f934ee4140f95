/**
 * File hash signatures (src/signature/filehash.rs): the `.hdb` / `.hsb`
 * record `HashString:FileSize:MalwareName[:MinFL[:MaxFL]]`, where the size
 * may be `*` when it is unknown.
 */
module FileHashes {
  import opened Wrappers
  import opened ByteStr
  import Utf8
  import Num
  import Util
  import Hex
  import Features
  import SigBytes
  import opened SigMetas

  /** `FileHashSig`. */
  datatype FileHashSig = FileHashSig(name: Bytes, hash: Util.Hash, fileSize: Option<nat>)

  /**
   * `hash::ParseError`, as far as this record uses it. `MissingField` and
   * `InvalidValueFor` are never produced: a split always has a first field.
   */
  datatype ParseError =
    | MissingFileSize
    | ParseSize(e: Num.NumberError)
    | ParseMinFlevel(e: Num.NumberError)
    | ParseMaxFlevel(e: Num.NumberError)
    | ParseHash(hashErr: Util.ParseHashError)

  type ParseResult = Result<(FileHashSig, SigMeta), FromSigBytesParseError<ParseError>>

  /** The size field: `*` for an unknown size, otherwise a decimal `usize`. */
  function ParseSizeField(field: Bytes): (r: Result<Option<nat>, ParseError>)
    ensures r == Ok(None) <==> field == "*"
    ensures r.Ok? && r.value.Some? ==> Num.ParseDec(field, Num.USIZE_MAX) == Ok(r.value.value)
    ensures r.Err? ==> field != "*" && Num.ParseDec(field, Num.USIZE_MAX).Err? && r.error.ParseSize?
  {
    match Util.OptFieldValue(field)
    case None => Ok(None)
    case Some(v) =>
      match Num.ParseDec(v, Num.USIZE_MAX)
      case Ok(n) => Ok(Some(n))
      case Err(e) => Err(ParseSize(e))
  }

  /**
   * `from_sigbytes`: the hash first (its kind chosen by its length), then
   * the size, then the UTF-8 name, then the optional flevel fields.
   */
  function Parse(data: Bytes): (r: ParseResult)
    ensures var fields := Split(data, ':');
      r.Ok? ==> |fields| >= 3 && Util.ParseHash(fields[0]) == Ok(r.value.0.hash) &&
                ParseSizeField(fields[1]) == Ok(r.value.0.fileSize) &&
                r.value.0.name == fields[2] && Utf8.IsValid(fields[2]) &&
                ParseFlevelTail(fields[3..]) == Ok(r.value.1.fLevel)
    ensures var fields := Split(data, ':');
      r == Err(Specific(MissingFileSize)) <==> Util.ParseHash(fields[0]).Ok? && |fields| == 1
    ensures var fields := Split(data, ':');
      r == Err(MissingName) <==> Util.ParseHash(fields[0]).Ok? && |fields| == 2 && ParseSizeField(fields[1]).Ok?
  {
    var fields := Split(data, ':');
    match Util.ParseHash(fields[0])
    case Err(e) => Err(Specific(ParseHash(e)))
    case Ok(hash) =>
      if |fields| < 2 then Err(Specific(MissingFileSize))
      else match ParseSizeField(fields[1])
        case Err(e) => Err(Specific(e))
        case Ok(size) =>
          if |fields| < 3 then Err(MissingName)
          else if !Utf8.IsValid(fields[2]) then Err(NameNotUnicode)
          else match ParseFlevelTail(fields[3..])
            case Err(MinFlevel(e)) => Err(Specific(ParseMinFlevel(e)))
            case Err(MaxFlevel(e)) => Err(Specific(ParseMaxFlevel(e)))
            case Ok(f) => Ok((FileHashSig(fields[2], hash, size), SigMeta(f)))
  }

  /** `Signature::name`. */
  function Name(sig: FileHashSig): Bytes
  {
    sig.name
  }

  /**
   * `EngineReq for FileHashSig`: SHA-1 and SHA-256 hashes need their hash
   * feature, and also `HashSizeUnknown` without a size; MD5 needs nothing,
   * with or without a size.
   */
  function SigFeatures(sig: FileHashSig): Features.FeatureSet
  {
    match (sig.fileSize, sig.hash)
    case (None, Sha1(_)) => Features.Static([Features.HashSizeUnknown, Features.HashSha1])
    case (None, Sha2_256(_)) => Features.Static([Features.HashSizeUnknown, Features.HashSha256])
    case (Some(_), Sha1(_)) => Features.Static([Features.HashSha1])
    case (Some(_), Sha2_256(_)) => Features.Static([Features.HashSha256])
    case _ => Features.DEFAULT
  }

  /** Which features a file hash needs, feature by feature. */
  lemma FeaturesOf(sig: FileHashSig)
    ensures var items := Features.Items(SigFeatures(sig));
      (Features.HashSha1 in items <==> sig.hash.Sha1?) &&
      (Features.HashSha256 in items <==> sig.hash.Sha2_256?) &&
      (Features.HashSizeUnknown in items <==> sig.fileSize.None? && !sig.hash.Md5?) &&
      (sig.hash.Md5? <==> |items| == 0) &&
      forall k :: 0 <= k < |items| ==> items[k] in {Features.HashSha1, Features.HashSha256, Features.HashSizeUnknown}
  {
  }

  /** `Signature::validate`: no sub-element check, then the flevel check. */
  function Validate(sig: FileHashSig, meta: SigMeta, minFlevel: Features.Feature -> nat): Result<(), SigValidationError>
  {
    SigMetas.Validate(Ok(()), ValidateFeatureFlevel(SigFeatures(sig), minFlevel, meta))
  }

  /**
   * An MD5 signature always passes; any other passes exactly when it
   * declares a minimum flevel no lower than that of its hash feature and,
   * without a size, of `HashSizeUnknown`.
   */
  lemma ValidateMeaning(sig: FileHashSig, meta: SigMeta, minFlevel: Features.Feature -> nat)
    ensures sig.hash.Md5? ==> Validate(sig, meta, minFlevel).Ok?
    ensures !sig.hash.Md5? ==>
      (Validate(sig, meta, minFlevel).Ok? <==>
         meta.fLevel.Some? && Util.Start(meta.fLevel.value).Some? &&
         minFlevel(if sig.hash.Sha1? then Features.HashSha1 else Features.HashSha256) <= Util.Start(meta.fLevel.value).value &&
         (sig.fileSize.None? ==> minFlevel(Features.HashSizeUnknown) <= Util.Start(meta.fLevel.value).value))
  {
    var items := Features.Items(SigFeatures(sig));
    ValidateFeatureFlevelMeaning(SigFeatures(sig), minFlevel, meta);
    if !sig.hash.Md5? && sig.fileSize.None? {
      assert items[0] == Features.HashSizeUnknown && items[1] != Features.HashSizeUnknown;
    }
  }

  // ---------------------------------------------------------------- export

  /** The size field as written: the decimal size, or `*`. */
  function SizeText(size: Option<nat>): (t: Bytes)
    ensures ':' !in t
  {
    if size.Some? then
      DigitsHaveNo(Num.Dec(size.value), ':');
      Num.Dec(size.value)
    else "*"
  }

  /** The record with `:` between its three fields. */
  function ExportText(sig: FileHashSig): Bytes
  {
    Util.HashText(sig.hash) + ":" + SizeText(sig.fileSize) + ":" + sig.name
  }

  /**
   * `append_sigbytes` as the source writes it: an unknown size is written
   * as `*` with no `:` before the name.
   */
  function ExportTextAsWritten(sig: FileHashSig): Bytes
  {
    Util.HashText(sig.hash) + ":" + (if sig.fileSize.Some? then Num.Dec(sig.fileSize.value) + ":" else "*") + sig.name
  }

  /** With a size, the two exports agree. */
  lemma AsWrittenAgrees(sig: FileHashSig)
    requires sig.fileSize.Some?
    ensures ExportTextAsWritten(sig) == ExportText(sig)
  {
  }

  /** `append_sigbytes`: the hash in hex, the size field and the name, each but the last followed by `:`. */
  method AppendSigBytes(sb: SigBytes.SigBytes, sig: FileHashSig)
    modifies sb
    ensures sb.bytes == old(sb.bytes) + ExportText(sig)
  {
    sb.WriteHex(sig.hash.data);
    sb.Write(":");
    if sig.fileSize.Some? {
      sb.Write(Num.Dec(sig.fileSize.value) + ":");
    } else {
      sb.Write("*:");
    }
    sb.Write(sig.name);
  }

  /** What the parser can produce, and a name the export can carry. */
  predicate Readable(sig: FileHashSig)
  {
    Util.WellSized(sig.hash) && Utf8.IsValid(sig.name) && ':' !in sig.name &&
    (sig.fileSize.Some? ==> sig.fileSize.value <= Num.USIZE_MAX)
  }

  /** A hash's text holds no `:`. */
  lemma HashTextHasNoColon(h: Util.Hash)
    requires Util.WellSized(h)
    ensures ':' !in Util.HashText(h)
  {
    Util.HashTextShape(h);
    var t := Util.HashText(h);
    forall i | 0 <= i < |t| ensures t[i] != ':' {
      assert IsHexDigit(t[i]);
    }
  }

  /** The size field reads back. */
  lemma SizeRoundTrip(size: Option<nat>)
    requires size.Some? ==> size.value <= Num.USIZE_MAX
    ensures ParseSizeField(SizeText(size)) == Ok(size)
  {
    if size.Some? {
      Num.ParseDecRoundTrip(size.value, Num.USIZE_MAX);
      assert Num.Dec(size.value) != "*" by {
        assert IsDigit(Num.Dec(size.value)[0]);
      }
    }
  }

  /** The fields of the export are the hash, the size and the name. */
  lemma ExportFields(sig: FileHashSig)
    requires Readable(sig)
    ensures Split(ExportText(sig), ':') == [Util.HashText(sig.hash), SizeText(sig.fileSize), sig.name]
  {
    var parts := [Util.HashText(sig.hash), SizeText(sig.fileSize), sig.name];
    HashTextHasNoColon(sig.hash);
    SplitJoin(parts, ':');
    assert Join(parts, ':') == ExportText(sig) by {
      assert Join(parts[2..], ':') == sig.name;
      assert Join(parts[1..], ':') == SizeText(sig.fileSize) + ":" + sig.name;
    }
  }

  /** Reading the export of a readable record gives it back, with no flevel. */
  lemma RoundTrip(sig: FileHashSig)
    requires Readable(sig)
    ensures Parse(ExportText(sig)) == Ok((sig, SigMeta(None)))
  {
    ExportFields(sig);
    var fields := Split(ExportText(sig), ':');
    Util.ParseHashRoundTrip(sig.hash);
    SizeRoundTrip(sig.fileSize);
    assert fields[3..] == [];
  }

  /** No decimal field begins with `*`. */
  lemma StarIsNoNumber(s: Bytes, max: nat)
    requires |s| > 0 && s[0] == '*'
    ensures Num.ParseDec(s, max).Err?
  {
    Num.ParseDecAccepts(s, max);
    assert !AllDigits(s) by {
      assert !IsDigit(s[0]);
    }
    forall d: Bytes ensures s != "+" + d {
      assert ("+" + d)[0] == '+';
    }
  }

  /**
   * As the source writes it, a record of unknown size does not read back:
   * `*` runs into the name, so the size field fails to parse (or, with an
   * empty name, the name is missing).
   */
  lemma UnknownSizeExportRefused(sig: FileHashSig)
    requires Readable(sig) && sig.fileSize.None?
    ensures Parse(ExportTextAsWritten(sig)).Err?
    ensures |sig.name| > 0 ==> Parse(ExportTextAsWritten(sig)).error.Specific? &&
                               Parse(ExportTextAsWritten(sig)).error.e.ParseSize?
    ensures |sig.name| == 0 ==> Parse(ExportTextAsWritten(sig)) == Err(MissingName)
  {
    var h := Util.HashText(sig.hash);
    var rest: Bytes := "*" + sig.name;
    HashTextHasNoColon(sig.hash);
    assert ExportTextAsWritten(sig) == h + [':'] + rest;
    SplitCons(h, rest, ':');
    SplitJoin([rest], ':');
    assert Split(ExportTextAsWritten(sig), ':') == [h, rest];
    Util.ParseHashRoundTrip(sig.hash);
    if |sig.name| > 0 {
      StarIsNoNumber(rest, Num.USIZE_MAX);
      assert rest != "*";
    } else {
      assert rest == "*";
    }
  }

  /**
   * A record with a lower-case hash, a size written in plain decimal and a
   * name reads as that hash, size and name, and is written back exactly as
   * it was read.
   */
  lemma ExportExact(hex: Bytes, size: nat, name: Bytes)
    requires Util.ParseHash(hex).Ok? && Hex.LowerHexText(hex)
    requires size <= Num.USIZE_MAX && Utf8.IsValid(name) && ':' !in name
    ensures Parse(hex + ":" + Num.Dec(size) + ":" + name) == Ok((FileHashSig(name, Util.ParseHash(hex).value, Some(size)), SigMeta(None)))
    ensures ExportTextAsWritten(FileHashSig(name, Util.ParseHash(hex).value, Some(size))) == hex + ":" + Num.Dec(size) + ":" + name
  {
    var sig := FileHashSig(name, Util.ParseHash(hex).value, Some(size));
    Hex.DecodeLowerHex(hex);
    assert Util.HashText(sig.hash) == hex;
    RoundTrip(sig);
    AsWrittenAgrees(sig);
  }

  /** An MD5 record: `ExportExact` with the hash read as the MD5 digest of its text. */
  lemma Md5ExportExact(hex: Bytes, size: nat, name: Bytes)
    requires |hex| == 32 && Hex.LowerHexText(hex)
    requires size <= Num.USIZE_MAX && Utf8.IsValid(name) && ':' !in name
    ensures Hex.Decode(hex).Ok?
    ensures Parse(hex + ":" + Num.Dec(size) + ":" + name) ==
      Ok((FileHashSig(name, Util.Md5(Hex.Decode(hex).value), Some(size)), SigMeta(None)))
    ensures ExportTextAsWritten(FileHashSig(name, Util.Md5(Hex.Decode(hex).value), Some(size))) ==
      hex + ":" + Num.Dec(size) + ":" + name
  {
    Hex.DecodeLowerHex(hex);
    ExportExact(hex, size, name);
  }

  /** The EICAR test record's MD5 digest text, in four pieces of eight hex digits. */
  const EICAR_HEX_1: Bytes := "44d88612"
  const EICAR_HEX_2: Bytes := "fea8a8f3"
  const EICAR_HEX_3: Bytes := "6de82e12"
  const EICAR_HEX_4: Bytes := "78abb02f"

  /** The pieces of the EICAR test record's digest are lower-case hex digits. */
  lemma EicarDigestPieces()
    ensures Hex.LowerHexText(EICAR_HEX_1)
    ensures Hex.LowerHexText(EICAR_HEX_2)
  {
  }

  lemma EicarDigestHead()
    ensures Hex.LowerHexText(EICAR_HEX_1 + EICAR_HEX_2)
  {
    EicarDigestPieces();
    Hex.LowerHexConcat(EICAR_HEX_1, EICAR_HEX_2);
  }

  lemma EicarDigestTailPieces()
    ensures Hex.LowerHexText(EICAR_HEX_3)
    ensures Hex.LowerHexText(EICAR_HEX_4)
  {
  }

  lemma EicarDigestTail()
    ensures Hex.LowerHexText(EICAR_HEX_3 + EICAR_HEX_4)
  {
    EicarDigestTailPieces();
    Hex.LowerHexConcat(EICAR_HEX_3, EICAR_HEX_4);
  }

  /** The EICAR test record's digest text, written in four pieces, is 32 lower-case hex digits. */
  lemma EicarDigest()
    ensures |EICAR_HEX_1 + EICAR_HEX_2 + EICAR_HEX_3 + EICAR_HEX_4| == 32
    ensures Hex.LowerHexText(EICAR_HEX_1 + EICAR_HEX_2 + EICAR_HEX_3 + EICAR_HEX_4)
  {
    EicarDigestHead();
    EicarDigestTail();
    Hex.LowerHexConcat(EICAR_HEX_1 + EICAR_HEX_2, EICAR_HEX_3 + EICAR_HEX_4);
    assert EICAR_HEX_1 + EICAR_HEX_2 + EICAR_HEX_3 + EICAR_HEX_4 == (EICAR_HEX_1 + EICAR_HEX_2) + (EICAR_HEX_3 + EICAR_HEX_4);
  }

  /** The EICAR test record's name, written in two pieces, is UTF-8 without `:`. */
  lemma EicarName()
    ensures Utf8.IsValid("Eicar-Test-" + "Signature") && ':' !in "Eicar-Test-" + "Signature"
  {
    assert Utf8.IsAscii("Eicar-Test-") && ':' !in "Eicar-Test-";
    assert Utf8.IsAscii("Signature") && ':' !in "Signature";
    Utf8.AsciiConcat("Eicar-Test-", "Signature");
    Utf8.AsciiIsValid("Eicar-Test-" + "Signature");
  }

  lemma EicarSize()
    ensures Num.Dec(68) == "68"
  {
  }

  /**
   * The EICAR test record `44d88612fea8a8f36de82e1278abb02f:68:Eicar-Test-Signature`
   * (written in pieces) reads as the MD5 hash of its hex text, size 68 and
   * its name, and is written back exactly as it was read.
   */
  lemma EicarExact()
    ensures Hex.Decode(EICAR_HEX_1 + EICAR_HEX_2 + EICAR_HEX_3 + EICAR_HEX_4).Ok?
    ensures Parse(EICAR_HEX_1 + EICAR_HEX_2 + EICAR_HEX_3 + EICAR_HEX_4 + ":" + "68" + ":" + ("Eicar-Test-" + "Signature")) ==
      Ok((FileHashSig("Eicar-Test-" + "Signature", Util.Md5(Hex.Decode(EICAR_HEX_1 + EICAR_HEX_2 + EICAR_HEX_3 + EICAR_HEX_4).value), Some(68)), SigMeta(None)))
    ensures ExportTextAsWritten(FileHashSig("Eicar-Test-" + "Signature", Util.Md5(Hex.Decode(EICAR_HEX_1 + EICAR_HEX_2 + EICAR_HEX_3 + EICAR_HEX_4).value), Some(68))) ==
      EICAR_HEX_1 + EICAR_HEX_2 + EICAR_HEX_3 + EICAR_HEX_4 + ":" + "68" + ":" + ("Eicar-Test-" + "Signature")
  {
    EicarDigest();
    EicarName();
    EicarSize();
    Md5ExportExact(EICAR_HEX_1 + EICAR_HEX_2 + EICAR_HEX_3 + EICAR_HEX_4, 68, "Eicar-Test-" + "Signature");
  }
}
