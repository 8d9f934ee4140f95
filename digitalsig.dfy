/**
 * Digital signatures (src/signature/digital_sig.rs): one line of a `.sign`
 * file, `MinFL:MaxFL:Format:SignatureBytes`, split on `:`. The only format
 * is `pkcs7-pem`, whose bytes are the base64 body of a PEM-encoded PKCS#7
 * signature with the BEGIN and END lines and all line breaks removed.
 *
 * The PKCS#7 object is held as the PEM text OpenSSL writes for it, and
 * OpenSSL's PEM reader is the parameter `readPem`: it gives the PEM text of
 * the object read from its input, or `None` when OpenSSL refuses it.
 */
module DigitalSigs {
  import opened Wrappers
  import opened ByteStr
  import Utf8
  import Num
  import Util
  import Features
  import SigBytes
  import opened SigMetas

  /** `DigitalSig::Pkcs7`, as the PEM text of the object. */
  datatype DigitalSig = Pkcs7(pem: Bytes)

  /** The variants of `hash::ParseError` this record produces. */
  datatype ParseError =
    | ParseMinFlevel(numErr: Num.NumberError)
    | ParseMaxFlevel(numErr: Num.NumberError)
    | MissingField(field: Bytes)
    | InvalidValueFor(field: Bytes)

  type ParseResult = Result<(DigitalSig, SigMeta), FromSigBytesParseError<ParseError>>

  /** OpenSSL's PEM reader: the PEM text of the object read, if any. */
  type PemReader = Bytes -> Option<Bytes>

  const BEGIN: Bytes := "-----BEGIN PKCS7-----"
  const END: Bytes := "-----END PKCS7-----"
  const FORMAT: Bytes := "pkcs7-pem"
  const PEM_FIELD: Bytes := "PKCS#7 PEM string"

  /** A line with the given flevel fields and signature bytes, in the one format. */
  function Line(min: Bytes, max: Bytes, body: Bytes): Bytes
  {
    Join([min, max, FORMAT, body], ':')
  }

  /** The PEM text handed to OpenSSL for the signature bytes of a line. */
  function Wrap(body: Bytes): Bytes
  {
    BEGIN + "\n" + body + "\n" + END
  }

  /**
   * The flevel fields: a minimum that must be a number, then a maximum that
   * must be present and is either empty (`min..`) or a number (`min..=max`).
   */
  function FlevelFields(f: seq<Bytes>): (r: Result<Util.Range, FromSigBytesParseError<ParseError>>)
    requires |f| >= 1
    ensures r.Ok? ==> |f| >= 2 && Util.Start(r.value).Some? && Num.ParseDec(f[0], Num.U32_MAX) == Ok(Util.Start(r.value).value)
    ensures r.Ok? ==> (r.value.From? <==> f[1] == []) && (r.value.Inclusive? <==> f[1] != [])
    ensures r.Ok? && r.value.Inclusive? ==> Num.ParseDec(f[1], Num.U32_MAX) == Ok(r.value.end)
    ensures Num.ParseDec(f[0], Num.U32_MAX).Err? ==> r == Err(Specific(ParseMinFlevel(Num.ParseDec(f[0], Num.U32_MAX).error)))
    ensures Num.ParseDec(f[0], Num.U32_MAX).Ok? && |f| < 2 ==> r == Err(FromSigBytesParseError.MissingField("max_flevel"))
    ensures r.Err? <==>
      Num.ParseDec(f[0], Num.U32_MAX).Err? || |f| < 2 || (f[1] != [] && Num.ParseDec(f[1], Num.U32_MAX).Err?)
  {
    match Num.ParseDec(f[0], Num.U32_MAX)
    case Err(e) => Err(Specific(ParseMinFlevel(e)))
    case Ok(min) =>
      if |f| < 2 then Err(FromSigBytesParseError.MissingField("max_flevel"))
      else if f[1] == [] then Ok(Util.From(min))
      else match Num.ParseDec(f[1], Num.U32_MAX)
        case Err(e) => Err(Specific(ParseMaxFlevel(e)))
        case Ok(max) => Ok(Util.Inclusive(min, max))
  }

  /**
   * `from_sigbytes`, with signature bytes that are not UTF-8 refused as an
   * invalid PEM string (the source panics there; see `ParseAsWritten`).
   */
  function Parse(readPem: PemReader, data: Bytes): (r: ParseResult)
    ensures var f := Split(data, ':');
      r.Ok? ==> |f| >= 4 && f[2] == FORMAT && Utf8.IsValid(f[3]) &&
                r.value.1.fLevel.Some? && FlevelFields(f) == Ok(r.value.1.fLevel.value) &&
                readPem(Wrap(f[3])) == Some(r.value.0.pem)
    ensures var f := Split(data, ':');
      FlevelFields(f).Ok? && |f| >= 3 && f[2] != FORMAT ==> r == Err(UnsupportedSigType)
    ensures var f := Split(data, ':');
      FlevelFields(f).Ok? && |f| == 2 ==> r == Err(Specific(ParseError.MissingField("signature_format")))
    ensures var f := Split(data, ':');
      FlevelFields(f).Ok? && |f| == 3 && f[2] == FORMAT ==> r == Err(Specific(ParseError.MissingField("signature_bytes")))
    ensures var f := Split(data, ':');
      FlevelFields(f).Ok? && |f| >= 4 && f[2] == FORMAT && (!Utf8.IsValid(f[3]) || readPem(Wrap(f[3])).None?) ==>
        r == Err(Specific(ParseError.InvalidValueFor(PEM_FIELD)))
  {
    var f := Split(data, ':');
    match FlevelFields(f)
    case Err(e) => Err(e)
    case Ok(fLevel) =>
      if |f| < 3 then Err(Specific(ParseError.MissingField("signature_format")))
      else if f[2] != FORMAT then Err(UnsupportedSigType)
      else if |f| < 4 then Err(Specific(ParseError.MissingField("signature_bytes")))
      else if !Utf8.IsValid(f[3]) then Err(Specific(ParseError.InvalidValueFor(PEM_FIELD)))
      else match readPem(Wrap(f[3]))
        case None => Err(Specific(ParseError.InvalidValueFor(PEM_FIELD)))
        case Some(pem) => Ok((Pkcs7(pem), SigMeta(Some(fLevel))))
  }

  /**
   * `from_sigbytes` as the source writes it: `None` stands for the panic of
   * `unwrap` on signature bytes that are not UTF-8; otherwise it agrees
   * with `Parse`.
   */
  function ParseAsWritten(readPem: PemReader, data: Bytes): (r: Option<ParseResult>)
    ensures r.Some? ==> r.value == Parse(readPem, data)
    ensures var f := Split(data, ':');
      r.None? <==> FlevelFields(f).Ok? && |f| >= 4 && f[2] == FORMAT && !Utf8.IsValid(f[3])
  {
    var f := Split(data, ':');
    if FlevelFields(f).Ok? && |f| >= 4 && f[2] == FORMAT && !Utf8.IsValid(f[3]) then None
    else Some(Parse(readPem, data))
  }

  /**
   * The line `220::pkcs7-pem:` followed by the single byte 0xFF stops the
   * source, whatever OpenSSL would say.
   */
  lemma NotUnicodePanics(readPem: PemReader)
    ensures ParseAsWritten(readPem, Line("220", "", [0xFF as char])) == None
    ensures Parse(readPem, Line("220", "", [0xFF as char])) == Err(Specific(ParseError.InvalidValueFor(PEM_FIELD)))
  {
    var body: Bytes := [0xFF as char];
    FieldsOfLine("220", "", body);
    assert !Utf8.IsValid(body) by {
      assert Utf8.CheckUtf8(body).Invalid?;
    }
    Dec220();
  }

  /** `220` is the number 220. */
  lemma Dec220()
    ensures Num.ParseDec("220", Num.U32_MAX) == Ok(220)
  {
    assert Num.Dec(220) == "220" by {
      assert Num.Dec(2) == "2";
      assert Num.Dec(22) == "22";
    }
    Num.ParseDecRoundTrip(220, Num.U32_MAX);
  }

  /** `Signature::name`: one constant name for every digital signature. */
  function Name(sig: DigitalSig): (n: Bytes)
    ensures n == "Digital Signature"
  {
    "Digital Signature"
  }

  /** `EngineReq for DigitalSig`: PKCS#7 PEM signatures need their feature. */
  function SigFeatures(sig: DigitalSig): (r: Features.FeatureSet)
    ensures Features.Items(r) == [Features.DigitalSignaturePkcs7Pem]
  {
    Features.Static([Features.DigitalSignaturePkcs7Pem])
  }

  /** `Signature::validate`: no sub-element check, then the flevel check. */
  function Validate(sig: DigitalSig, meta: SigMeta, minFlevel: Features.Feature -> nat): Result<(), SigValidationError>
  {
    SigMetas.Validate(Ok(()), ValidateFeatureFlevel(SigFeatures(sig), minFlevel, meta))
  }

  /** Valid exactly when the declared minimum reaches the PKCS#7 PEM feature's level. */
  lemma ValidateMeaning(sig: DigitalSig, meta: SigMeta, minFlevel: Features.Feature -> nat)
    ensures Validate(sig, meta, minFlevel).Ok? <==>
      meta.fLevel.Some? && Util.Start(meta.fLevel.value).Some? &&
      minFlevel(Features.DigitalSignaturePkcs7Pem) <= Util.Start(meta.fLevel.value).value
  {
    ValidateFeatureFlevelMeaning(SigFeatures(sig), minFlevel, meta);
  }

  // ---------------------------------------------------------------- export

  /** The lines the export keeps: all but those that start a BEGIN or END line. */
  function Kept(lines: seq<Bytes>): (r: seq<Bytes>)
    ensures |r| <= |lines|
    decreases |lines|
  {
    if |lines| == 0 then []
    else if StartsWith(lines[0], BEGIN) || StartsWith(lines[0], END) then Kept(lines[1..])
    else [lines[0]] + Kept(lines[1..])
  }

  /** The lines one after the other. */
  function Concat(lines: seq<Bytes>): Bytes
    decreases |lines|
  {
    if |lines| == 0 then [] else lines[0] + Concat(lines[1..])
  }

  /** The bytes other than `c`, in order. */
  function Without(s: Bytes, c: Byte): (r: Bytes)
    ensures c !in r && |r| <= |s|
    ensures c !in s ==> r == s
    decreases |s|
  {
    if |s| == 0 then []
    else if s[0] == c then Without(s[1..], c)
    else [s[0]] + Without(s[1..], c)
  }

  /**
   * The PEM body written by the export: the lines of the PEM text except
   * BEGIN and END, run together, and any line break removed.
   */
  function StripPem(pem: Bytes): (r: Bytes)
    ensures '\n' !in r
  {
    Without(Concat(Kept(Split(pem, '\n'))), '\n')
  }

  /** The exported line: flevel `220..`, the format, the PEM body. */
  function ExportText(sig: DigitalSig): Bytes
  {
    Line("220", "", StripPem(sig.pem))
  }

  /** `append_sigbytes`: the fixed flevel and format, then the stripped PEM body. */
  method AppendSigBytes(sb: SigBytes.SigBytes, sig: DigitalSig)
    modifies sb
    ensures sb.bytes == old(sb.bytes) + ExportText(sig)
  {
    ghost var start := sb.bytes;
    ghost var fs: seq<Bytes> := ["220", "", FORMAT, StripPem(sig.pem)];
    sb.Write("220");
    assert fs[..1] == ["220"];
    SigBytes.WriteField(sb, start, fs, 1, ':', "");
    SigBytes.WriteField(sb, start, fs, 2, ':', FORMAT);
    SigBytes.WriteField(sb, start, fs, 3, ':', StripPem(sig.pem));
    assert fs[..4] == fs;
  }

  /** The PEM layout OpenSSL writes: BEGIN, the body lines, END, each ended by a line break. */
  function PemLayout(lines: seq<Bytes>): Bytes
  {
    Join(LayoutLinesOf(lines), '\n')
  }

  /** The lines of that layout: the last line break leaves an empty last line. */
  function LayoutLinesOf(lines: seq<Bytes>): seq<Bytes>
  {
    [BEGIN] + lines + [END, []]
  }

  /** A body line: no line break, and not a BEGIN or END line. */
  predicate BodyLine(l: Bytes)
  {
    '\n' !in l && !StartsWith(l, BEGIN) && !StartsWith(l, END)
  }

  lemma {:induction false} KeptBody(lines: seq<Bytes>)
    requires forall k :: 0 <= k < |lines| ==> BodyLine(lines[k])
    ensures Kept(lines) == lines
    decreases |lines|
  {
    if |lines| > 0 {
      KeptBody(lines[1..]);
    }
  }

  lemma {:induction false} ConcatNoBreak(lines: seq<Bytes>)
    requires forall k :: 0 <= k < |lines| ==> '\n' !in lines[k]
    ensures '\n' !in Concat(lines)
    decreases |lines|
  {
    if |lines| > 0 {
      ConcatNoBreak(lines[1..]);
    }
  }

  lemma {:induction false} ConcatSnoc(lines: seq<Bytes>, x: Bytes)
    ensures Concat(lines + [x]) == Concat(lines) + x
    decreases |lines|
  {
    if |lines| > 0 {
      assert (lines + [x])[1..] == lines[1..] + [x];
      ConcatSnoc(lines[1..], x);
    }
  }

  /** The lines of a PEM text in OpenSSL's layout. */
  lemma LayoutLines(lines: seq<Bytes>)
    requires forall k :: 0 <= k < |lines| ==> BodyLine(lines[k])
    ensures Split(PemLayout(lines), '\n') == LayoutLinesOf(lines)
  {
    var all := LayoutLinesOf(lines);
    forall k | 0 <= k < |all| ensures '\n' !in all[k] {
      if 1 <= k <= |lines| {
        assert all[k] == lines[k - 1];
      }
    }
    SplitJoin(all, '\n');
  }

  /** Of those lines, the export keeps the body lines and the empty last one. */
  lemma KeptLayout(lines: seq<Bytes>)
    requires forall k :: 0 <= k < |lines| ==> BodyLine(lines[k])
    ensures Kept(LayoutLinesOf(lines)) == lines + [[]]
  {
    var tail: seq<Bytes> := [END, []];
    assert LayoutLinesOf(lines) == [BEGIN] + (lines + tail);
    KeptBegin(lines + tail);
    KeptAppend(lines, tail);
    KeptBody(lines);
    KeptEnd();
  }

  /** The BEGIN line is dropped. */
  lemma KeptBegin(rest: seq<Bytes>)
    ensures Kept([BEGIN] + rest) == Kept(rest)
  {
    KeptSkip(BEGIN, rest);
  }

  /** The END line is dropped, the empty line after it kept. */
  lemma KeptEnd()
    ensures Kept([END, []]) == [[]]
  {
    KeptSkip(END, [[]]);
    assert !StartsWith([], BEGIN) && !StartsWith([], END);
  }

  /** A BEGIN or END line is dropped. */
  lemma KeptSkip(x: Bytes, rest: seq<Bytes>)
    requires StartsWith(x, BEGIN) || StartsWith(x, END)
    ensures Kept([x] + rest) == Kept(rest)
  {
    assert ([x] + rest)[1..] == rest;
  }

  /**
   * Stripping a PEM text in OpenSSL's layout gives its body lines run
   * together.
   */
  lemma StripLayout(lines: seq<Bytes>)
    requires forall k :: 0 <= k < |lines| ==> BodyLine(lines[k])
    ensures StripPem(PemLayout(lines)) == Concat(lines)
  {
    LayoutKept(lines);
    ConcatNoBreak(lines);
    StripKept(PemLayout(lines), lines);
  }

  /** The export keeps the body lines of that layout and the empty last one. */
  lemma LayoutKept(lines: seq<Bytes>)
    requires forall k :: 0 <= k < |lines| ==> BodyLine(lines[k])
    ensures Kept(Split(PemLayout(lines), '\n')) == lines + [[]]
  {
    LayoutLines(lines);
    KeptLayout(lines);
  }

  /** Stripping a PEM text whose kept lines are `lines` and an empty one. */
  lemma StripKept(pem: Bytes, lines: seq<Bytes>)
    requires Kept(Split(pem, '\n')) == lines + [[]]
    requires '\n' !in Concat(lines)
    ensures StripPem(pem) == Concat(lines)
  {
    ConcatSnoc(lines, []);
    assert Concat(lines) + [] == Concat(lines);
  }

  lemma {:induction false} KeptAppend(a: seq<Bytes>, b: seq<Bytes>)
    ensures Kept(a + b) == Kept(a) + Kept(b)
    decreases |a|
  {
    if |a| > 0 {
      assert (a + b)[1..] == a[1..] + b;
      KeptAppend(a[1..], b);
    } else {
      assert a + b == b;
    }
  }

  // ------------------------------------------------------------ round trip

  /** Splitting the four fields of a line of this shape. */
  lemma FieldsOfLine(min: Bytes, max: Bytes, body: Bytes)
    requires ':' !in min && ':' !in max && ':' !in body
    ensures Split(Line(min, max, body), ':') == [min, max, FORMAT, body]
  {
    assert ':' !in FORMAT;
    SplitJoin([min, max, FORMAT, body], ':');
  }

  /**
   * What OpenSSL must do for the export to read back: the stripped body,
   * put back between BEGIN and END, is the same object.
   */
  predicate ReadsBack(readPem: PemReader, sig: DigitalSig)
  {
    readPem(Wrap(StripPem(sig.pem))) == Some(sig.pem)
  }

  /**
   * The export of a signature whose body is UTF-8 without `:`, and which
   * OpenSSL reads back, parses as the same signature declaring flevel 220
   * and up.
   */
  lemma RoundTrip(readPem: PemReader, sig: DigitalSig)
    requires Utf8.IsValid(StripPem(sig.pem)) && ':' !in StripPem(sig.pem)
    requires ReadsBack(readPem, sig)
    ensures Parse(readPem, ExportText(sig)) == Ok((sig, SigMeta(Some(Util.From(220)))))
  {
    FieldsOfLine("220", "", StripPem(sig.pem));
    Dec220();
  }

  /** The flevel the export declares passes validation exactly when the feature exists at level 220. */
  lemma ExportedFlevelValid(sig: DigitalSig, minFlevel: Features.Feature -> nat)
    ensures Validate(sig, SigMeta(Some(Util.From(220))), minFlevel).Ok? <==>
      minFlevel(Features.DigitalSignaturePkcs7Pem) <= 220
  {
    ValidateMeaning(sig, SigMeta(Some(Util.From(220))), minFlevel);
  }
}
