/**
 * Phishing signatures (src/signature/phishing_sig.rs): one line of a `.pdb`
 * (URLs and hosts that phishing imitates), `.gdb` (Google Safe Browsing
 * hashes) or `.wdb` (pairs allowed although they look suspicious) database.
 * The fields are split on `:` unless it is escaped by `\`; the first field
 * is a prefix that selects the kind of entry, and one optional field after
 * the entry gives the flevel.
 */
module PhishingSigs {
  import opened Wrappers
  import opened ByteStr
  import Utf8
  import Num
  import Util
  import Hex
  import Features
  import SigBytes
  import opened SigMetas

  /** `UrlRegexpPair`: the sources of the real and displayed URL expressions, kept uncompiled. */
  datatype UrlRegexpPair = UrlRegexpPair(realUrl: Bytes, displayedUrl: Bytes)

  /** `PDBMatch`: prefix `R` or `H`. */
  datatype PDBMatch = PDBRegexp(pair: UrlRegexpPair) | DisplayedHostname(host: Bytes)

  /** `WDBMatch`: prefix `X` or `M`. */
  datatype WDBMatch = WDBRegexp(pair: UrlRegexpPair) | MatchHostname(realHost: Bytes, displayedHost: Bytes)

  /** `GSBMatchType`. */
  datatype GSBMatchType = Malware | Allow | PhishingBlock1 | PhishingBlock2

  /** `GSBPred`: a four-byte host prefix of a SHA-256 hash, or a whole hash. */
  datatype GSBPred = HostPrefixHash(prefix: Bytes) | Hash(hash: Util.Hash)

  /** `PhishingSig`. */
  datatype PhishingSig = PDB(pdb: PDBMatch) | GSB(matchType: GSBMatchType, pred: GSBPred) | WDB(wdb: WDBMatch)

  /**
   * `phishing_sig::ParseError`. `MissingPreamble` is never produced (a split
   * always has a first field) and is left out; the regular expression errors
   * have one cause, text that is not UTF-8.
   */
  datatype ParseError =
    | UnknownPrefix(prefix: Bytes)
    | MissingRealHostname
    | MissingDisplayedHostname
    | DisplayedHostnameNotUnicode
    | MissingRealUrl
    | RealUrlRegexpParse
    | MissingDisplayedUrl
    | DisplayedUrlRegexpParse
    | MissingGSBPredType
    | MissingGSBPredicate
    | AllowNotAllowed
    | InvalidGSBHostPrefix(hexErr: Hex.FromHexError)
    | InvalidGSBHash(hashErr: Util.ParseHashError)
    | InvalidGSBHashType
    | InvalidPredicateType(predType: Bytes)
    | FLevelRange(rangeErr: Util.RangeInclusiveParseError)
    | FLevelMin(numErr: Num.NumberError)

  type ParseResult = Result<(PhishingSig, SigMeta), FromSigBytesParseError<ParseError>>

  /** The fields of a line. */
  function Fields(data: Bytes): (f: seq<Bytes>)
    ensures |f| >= 1 && Join(f, ':') == data
  {
    Util.JoinUnescapedSplit(data, '\\', ':');
    Util.UnescapedSplit(data, '\\', ':')
  }

  /** `make_url_regexp_pair`: fields 1 and 2, each a UTF-8 expression. */
  function UrlPair(f: seq<Bytes>): (r: Result<UrlRegexpPair, ParseError>)
    ensures r.Ok? <==> |f| >= 3 && Utf8.IsValid(f[1]) && Utf8.IsValid(f[2])
    ensures r.Ok? ==> r.value == UrlRegexpPair(f[1], f[2])
    ensures |f| < 2 ==> r == Err(MissingRealUrl)
    ensures |f| >= 2 && !Utf8.IsValid(f[1]) ==> r == Err(RealUrlRegexpParse)
    ensures |f| == 2 && Utf8.IsValid(f[1]) ==> r == Err(MissingDisplayedUrl)
  {
    if |f| < 2 then Err(MissingRealUrl)
    else if !Utf8.IsValid(f[1]) then Err(RealUrlRegexpParse)
    else if |f| < 3 then Err(MissingDisplayedUrl)
    else if !Utf8.IsValid(f[2]) then Err(DisplayedUrlRegexpParse)
    else Ok(UrlRegexpPair(f[1], f[2]))
  }

  /** `make_pdbmatch_hostname`: field 1, a UTF-8 host. */
  function PdbHostname(f: seq<Bytes>): (r: Result<PDBMatch, ParseError>)
    ensures r.Ok? <==> |f| >= 2 && Utf8.IsValid(f[1])
    ensures r.Ok? ==> r.value == DisplayedHostname(f[1])
    ensures |f| < 2 ==> r == Err(MissingDisplayedHostname)
    ensures r.Err? && |f| >= 2 ==> r == Err(DisplayedHostnameNotUnicode)
  {
    if |f| < 2 then Err(MissingDisplayedHostname)
    else if !Utf8.IsValid(f[1]) then Err(DisplayedHostnameNotUnicode)
    else Ok(DisplayedHostname(f[1]))
  }

  /**
   * `make_wdbmatch_hostname`: fields 1 and 2, the real and the displayed
   * host. Either one that is not UTF-8 is reported as the displayed host.
   */
  function WdbHostname(f: seq<Bytes>): (r: Result<WDBMatch, ParseError>)
    ensures r.Ok? <==> |f| >= 3 && Utf8.IsValid(f[1]) && Utf8.IsValid(f[2])
    ensures r.Ok? ==> r.value == MatchHostname(f[1], f[2])
    ensures |f| < 2 ==> r == Err(MissingRealHostname)
    ensures |f| == 2 && Utf8.IsValid(f[1]) ==> r == Err(MissingDisplayedHostname)
    ensures |f| >= 2 && !Utf8.IsValid(f[1]) ==> r == Err(DisplayedHostnameNotUnicode)
  {
    if |f| < 2 then Err(MissingRealHostname)
    else if !Utf8.IsValid(f[1]) then Err(DisplayedHostnameNotUnicode)
    else if |f| < 3 then Err(MissingDisplayedHostname)
    else if !Utf8.IsValid(f[2]) then Err(DisplayedHostnameNotUnicode)
    else Ok(MatchHostname(f[1], f[2]))
  }

  /** The prefixes of Google Safe Browsing entries. */
  predicate IsGsbPrefix(prefix: Bytes) { prefix == "S" || prefix == "S1" || prefix == "S2" }

  /** The match type a prefix names, before a `W` predicate turns `S` into an allow entry. */
  function BaseMatchType(prefix: Bytes): GSBMatchType
    requires IsGsbPrefix(prefix)
  {
    if prefix == "S" then Malware else if prefix == "S1" then PhishingBlock1 else PhishingBlock2
  }

  /**
   * The predicate of a Google Safe Browsing entry: `P` takes exactly four
   * hex bytes; `F` and `W` take a hash that must be SHA-256, and `W` is an
   * allow entry, which only prefix `S` may have.
   */
  function GsbPred(prefix: Bytes, predType: Bytes, predStr: Bytes): (r: Result<(GSBMatchType, GSBPred), ParseError>)
    requires IsGsbPrefix(prefix)
    ensures r.Ok? ==> (r.value.1.HostPrefixHash? <==> predType == "P") && (r.value.0 == Allow <==> predType == "W")
    ensures r.Ok? && predType != "W" ==> r.value.0 == BaseMatchType(prefix)
    ensures r.Ok? && r.value.1.HostPrefixHash? ==> Hex.DecodeSized(predStr, 4) == Ok(r.value.1.prefix)
    ensures r.Ok? && r.value.1.Hash? ==>
      Util.ParseHash(predStr) == Ok(r.value.1.hash) && r.value.1.hash.Sha2_256? && (predType == "F" || predType == "W")
    ensures predType == "W" && prefix != "S" && Util.ParseHash(predStr).Ok? && Util.ParseHash(predStr).value.Sha2_256? ==>
      r == Err(AllowNotAllowed)
    ensures (predType == "F" || predType == "W") && Util.ParseHash(predStr).Ok? && !Util.ParseHash(predStr).value.Sha2_256? ==>
      r == Err(InvalidGSBHashType)
    ensures predType != "P" && predType != "F" && predType != "W" ==> r == Err(InvalidPredicateType(predType))
  {
    if predType == "P" then
      match Hex.DecodeSized(predStr, 4)
      case Err(e) => Err(InvalidGSBHostPrefix(e))
      case Ok(bytes) => Ok((BaseMatchType(prefix), HostPrefixHash(bytes)))
    else if predType == "F" || predType == "W" then
      match Util.ParseHash(predStr)
      case Err(e) => Err(InvalidGSBHash(e))
      case Ok(h) =>
        if !h.Sha2_256? then Err(InvalidGSBHashType)
        else if predType == "W" then
          if prefix == "S" then Ok((Allow, Hash(h))) else Err(AllowNotAllowed)
        else Ok((BaseMatchType(prefix), Hash(h)))
    else Err(InvalidPredicateType(predType))
  }

  /**
   * The entry the prefix selects, and the index of the first field after
   * it. A prefix beginning with `R` or `H` is a `.pdb` entry whatever follows
   * that letter.
   */
  function ParseEntry(f: seq<Bytes>): (r: Result<(PhishingSig, nat), ParseError>)
    requires |f| >= 1
    ensures r.Ok? ==> r.value.1 <= |f| && r.value.1 == (if r.value.0.PDB? && r.value.0.pdb.DisplayedHostname? then 2 else 3)
    ensures StartsWith(f[0], "R") ==>
      (r.Ok? <==> UrlPair(f).Ok?) && (r.Ok? ==> r.value.0 == PDB(PDBRegexp(UrlRegexpPair(f[1], f[2])))) &&
      (r.Err? ==> r.error == UrlPair(f).error)
    ensures !StartsWith(f[0], "R") && StartsWith(f[0], "H") ==>
      (r.Ok? <==> PdbHostname(f).Ok?) && (r.Ok? ==> r.value.0 == PDB(DisplayedHostname(f[1]))) &&
      (r.Err? ==> r.error == PdbHostname(f).error)
    ensures IsGsbPrefix(f[0]) ==>
      (r.Ok? <==> |f| >= 3 && GsbPred(f[0], f[1], f[2]).Ok?) &&
      (r.Ok? ==> r.value.0 == GSB(GsbPred(f[0], f[1], f[2]).value.0, GsbPred(f[0], f[1], f[2]).value.1)) &&
      (|f| < 2 ==> r == Err(MissingGSBPredType)) && (|f| == 2 ==> r == Err(MissingGSBPredicate))
    ensures f[0] == "X" ==>
      (r.Ok? <==> UrlPair(f).Ok?) && (r.Ok? ==> r.value.0 == WDB(WDBRegexp(UrlRegexpPair(f[1], f[2])))) &&
      (r.Err? ==> r.error == UrlPair(f).error)
    ensures f[0] == "M" ==>
      (r.Ok? <==> WdbHostname(f).Ok?) && (r.Ok? ==> r.value.0 == WDB(MatchHostname(f[1], f[2]))) &&
      (r.Err? ==> r.error == WdbHostname(f).error)
    ensures !StartsWith(f[0], "R") && !StartsWith(f[0], "H") && !IsGsbPrefix(f[0]) && f[0] != "X" && f[0] != "M" ==>
      r == Err(UnknownPrefix(f[0]))
  {
    var prefix := f[0];
    if StartsWith(prefix, "R") then
      match UrlPair(f)
      case Ok(p) => Ok((PDB(PDBRegexp(p)), 3))
      case Err(e) => Err(e)
    else if StartsWith(prefix, "H") then
      match PdbHostname(f)
      case Ok(m) => Ok((PDB(m), 2))
      case Err(e) => Err(e)
    else if IsGsbPrefix(prefix) then
      if |f| < 2 then Err(MissingGSBPredType)
      else if |f| < 3 then Err(MissingGSBPredicate)
      else match GsbPred(prefix, f[1], f[2])
        case Ok((mt, pred)) => Ok((GSB(mt, pred), 3))
        case Err(e) => Err(e)
    else if prefix == "X" then
      match UrlPair(f)
      case Ok(p) => Ok((WDB(WDBRegexp(p)), 3))
      case Err(e) => Err(e)
    else if prefix == "M" then
      match WdbHostname(f)
      case Ok(m) => Ok((WDB(m), 3))
      case Err(e) => Err(e)
    else Err(UnknownPrefix(prefix))
  }

  /**
   * The single flevel field: with a `-` an inclusive range `min-max`,
   * otherwise a minimum alone.
   */
  function FlevelField(s: Bytes): (r: Result<Util.Range, ParseError>)
    ensures r.Ok? ==> ('-' in s <==> r.value.Inclusive?) && ('-' !in s <==> r.value.From?)
    ensures r.Ok? && r.value.Inclusive? ==> Util.ParseRangeInclusive(s, Num.U32_MAX) == Ok((r.value.start, r.value.end))
    ensures r.Ok? && r.value.From? ==> Num.ParseDec(s, Num.U32_MAX) == Ok(r.value.start)
    ensures r.Err? <==>
      if '-' in s then Util.ParseRangeInclusive(s, Num.U32_MAX).Err? else Num.ParseDec(s, Num.U32_MAX).Err?
  {
    if '-' in s then
      match Util.ParseRangeInclusive(s, Num.U32_MAX)
      case Ok((lo, hi)) => Ok(Util.Inclusive(lo, hi))
      case Err(e) => Err(FLevelRange(e))
    else
      match Num.ParseDec(s, Num.U32_MAX)
      case Ok(n) => Ok(Util.From(n))
      case Err(e) => Err(FLevelMin(e))
  }

  /**
   * `from_sigbytes`: the entry, then the flevel from the one field after it,
   * if there is one; any further field is not read.
   */
  function Parse(data: Bytes): (r: ParseResult)
    ensures var f := Fields(data);
      r.Ok? ==> ParseEntry(f).Ok? && r.value.0 == ParseEntry(f).value.0 &&
                (r.value.1.fLevel.Some? <==> ParseEntry(f).value.1 < |f|) &&
                (r.value.1.fLevel.Some? ==> FlevelField(f[ParseEntry(f).value.1]) == Ok(r.value.1.fLevel.value))
    ensures var f := Fields(data);
      r.Err? <==> ParseEntry(f).Err? ||
                  (ParseEntry(f).value.1 < |f| && FlevelField(f[ParseEntry(f).value.1]).Err?)
    ensures r.Err? ==> r.error.Specific?
  {
    var f := Fields(data);
    match ParseEntry(f)
    case Err(e) => Err(Specific(e))
    case Ok((sig, next)) =>
      if next < |f| then
        match FlevelField(f[next])
        case Err(e) => Err(Specific(e))
        case Ok(range) => Ok((sig, SigMeta(Some(range))))
      else Ok((sig, SigMeta(None)))
  }

  /** `Signature::name`: only `S1` entries have a name. */
  function Name(sig: PhishingSig): (n: Bytes)
    ensures n == "Phishing.URL.Blocked" <==> sig.GSB? && sig.matchType == PhishingBlock1
    ensures n != "Phishing.URL.Blocked" ==> n == "?"
  {
    if sig.GSB? && sig.matchType == PhishingBlock1 then "Phishing.URL.Blocked" else "?"
  }

  /** `EngineReq for PhishingSig`: no feature is required. */
  function SigFeatures(sig: PhishingSig): (r: Features.FeatureSet)
    ensures Features.Items(r) == []
  {
    Features.DEFAULT
  }

  /** `Signature::validate`: no sub-element check, then the flevel check. */
  function Validate(sig: PhishingSig, meta: SigMeta, minFlevel: Features.Feature -> nat): Result<(), SigValidationError>
  {
    SigMetas.Validate(Ok(()), ValidateFeatureFlevel(SigFeatures(sig), minFlevel, meta))
  }

  /** Needing no feature, every phishing signature is valid whatever flevel it declares. */
  lemma AlwaysValid(sig: PhishingSig, meta: SigMeta, minFlevel: Features.Feature -> nat)
    ensures Validate(sig, meta, minFlevel).Ok?
  {
    ValidateFeatureFlevelMeaning(SigFeatures(sig), minFlevel, meta);
  }

  // ---------------------------------------------------------------- export

  /** The prefix written for a match type: an allow entry is written as `S`. */
  function GsbPrefixText(mt: GSBMatchType): (t: Bytes)
    ensures IsGsbPrefix(t)
  {
    match mt
    case Malware => "S"
    case Allow => "S"
    case PhishingBlock1 => "S1"
    case PhishingBlock2 => "S2"
  }

  /** The predicate type written: `P` for a host prefix, `W` for an allowed hash, `F` otherwise. */
  function PredTypeText(mt: GSBMatchType, pred: GSBPred): Bytes
  {
    if pred.HostPrefixHash? then "P" else if mt == Allow then "W" else "F"
  }

  /** The bytes of a predicate. */
  function PredBytes(pred: GSBPred): Bytes
  {
    match pred
    case HostPrefixHash(b) => b
    case Hash(h) => h.data
  }

  /** The fields `append_sigbytes` writes. */
  function ExportFields(sig: PhishingSig): (fs: seq<Bytes>)
    ensures |fs| == (if sig.PDB? && sig.pdb.DisplayedHostname? then 2 else 3)
  {
    match sig
    case PDB(PDBRegexp(p)) => ["R", p.realUrl, p.displayedUrl]
    case PDB(DisplayedHostname(h)) => ["H", h]
    case GSB(mt, pred) => [GsbPrefixText(mt), PredTypeText(mt, pred), Hex.Encode(PredBytes(pred))]
    case WDB(WDBRegexp(p)) => ["X", p.realUrl, p.displayedUrl]
    case WDB(MatchHostname(realHost, displayedHost)) => ["M", realHost, displayedHost]
  }

  /** The exported line: its fields separated by `:`, with no flevel. */
  function ExportText(sig: PhishingSig): Bytes
  {
    Join(ExportFields(sig), ':')
  }

  /** `append_sigbytes`: the prefix, then the fields of the entry, separated by `:`. */
  method AppendSigBytes(sb: SigBytes.SigBytes, sig: PhishingSig)
    modifies sb
    ensures sb.bytes == old(sb.bytes) + ExportText(sig)
  {
    match sig {
      case PDB(PDBRegexp(p)) =>
        WritePair(sb, "R", p);
      case PDB(DisplayedHostname(h)) =>
        sb.Write("H:");
        sb.Write(h);
        JoinFields(["H", h]);
      case GSB(mt, pred) =>
        WriteGsb(sb, mt, pred);
      case WDB(WDBRegexp(p)) =>
        WritePair(sb, "X", p);
      case WDB(MatchHostname(realHost, displayedHost)) =>
        sb.Write("M:");
        sb.Write(realHost);
        sb.Write(":");
        sb.Write(displayedHost);
        JoinFields(["M", realHost, displayedHost]);
    }
  }

  /** A regular expression pair after its prefix: the real, then the displayed expression. */
  method WritePair(sb: SigBytes.SigBytes, prefix: Bytes, p: UrlRegexpPair)
    modifies sb
    ensures sb.bytes == old(sb.bytes) + Join([prefix, p.realUrl, p.displayedUrl], ':')
  {
    sb.Write(prefix + ":");
    sb.Write(p.realUrl);
    sb.Write(":");
    sb.Write(p.displayedUrl);
    JoinFields([prefix, p.realUrl, p.displayedUrl]);
  }

  /** A Google Safe Browsing entry: prefix, predicate type and the predicate's bytes in hex. */
  method WriteGsb(sb: SigBytes.SigBytes, mt: GSBMatchType, pred: GSBPred)
    modifies sb
    ensures sb.bytes == old(sb.bytes) + ExportText(GSB(mt, pred))
  {
    ghost var fs := [GsbPrefixText(mt), PredTypeText(mt, pred), Hex.Encode(PredBytes(pred))];
    assert ExportFields(GSB(mt, pred)) == fs;
    JoinFields(fs);
    ghost var start := sb.bytes;
    sb.Write(GsbPrefixText(mt) + ":");
    if pred.HostPrefixHash? {
      sb.Write("P:");
    } else if mt == Allow {
      sb.Write("W:");
    } else {
      sb.Write("F:");
    }
    assert sb.bytes == start + GsbPrefixText(mt) + ":" + PredTypeText(mt, pred) + ":";
    if pred.HostPrefixHash? {
      sb.WriteHex(pred.prefix);
    } else {
      sb.WriteHex(pred.hash.data);
    }
  }

  /** Two or three fields joined with `:`. */
  lemma JoinFields(fs: seq<Bytes>)
    requires |fs| == 2 || |fs| == 3
    ensures |fs| == 2 ==> Join(fs, ':') == fs[0] + ":" + fs[1]
    ensures |fs| == 3 ==> Join(fs, ':') == fs[0] + ":" + fs[1] + ":" + fs[2]
  {
    if |fs| == 3 {
      assert Join(fs[1..], ':') == fs[1] + ":" + fs[2] by {
        assert fs[1..][1..] == [fs[2]];
      }
    } else {
      assert fs[1..] == [fs[1]];
    }
  }

  // ------------------------------------------------------------ round trip

  /** A field the split gives back whole: UTF-8 text with no unescaped `:` and no trailing escape. */
  predicate Whole(t: Bytes)
  {
    Utf8.IsValid(t) && Util.Unbroken(t, '\\', ':', false)
  }

  /**
   * What the parser can produce: whole text fields, a four-byte host
   * prefix that is never an allow entry, and SHA-256 hashes.
   */
  predicate Readable(sig: PhishingSig)
  {
    match sig
    case PDB(PDBRegexp(p)) => Whole(p.realUrl) && Whole(p.displayedUrl)
    case PDB(DisplayedHostname(h)) => Whole(h)
    case GSB(mt, HostPrefixHash(b)) => |b| == 4 && mt != Allow
    case GSB(_, Hash(h)) => h.Sha2_256? && Util.WellSized(h)
    case WDB(WDBRegexp(p)) => Whole(p.realUrl) && Whole(p.displayedUrl)
    case WDB(MatchHostname(realHost, displayedHost)) => Whole(realHost) && Whole(displayedHost)
  }

  /** Hex text is a whole field. */
  lemma HexWhole(data: Bytes)
    ensures Util.Unbroken(Hex.Encode(data), '\\', ':', false)
  {
    var t := Hex.Encode(data);
    Hex.EncodeIsLowerHex(data);
    assert forall i :: 0 <= i < |t| ==> t[i] != ':' && t[i] != '\\' by {
      forall i | 0 <= i < |t| ensures t[i] != ':' && t[i] != '\\' {
        assert IsHexDigit(t[i]);
      }
    }
    Util.PlainUnbroken(t, '\\', ':');
  }

  /** The split of an export gives back its fields. */
  lemma FieldsOfExport(sig: PhishingSig)
    requires Readable(sig)
    ensures Fields(ExportText(sig)) == ExportFields(sig)
  {
    var fs := ExportFields(sig);
    Util.PlainUnbroken(fs[0], '\\', ':');
    if sig.GSB? {
      Util.PlainUnbroken(fs[1], '\\', ':');
      HexWhole(PredBytes(sig.pred));
    }
    Util.UnescapedSplitJoin(fs, '\\', ':');
  }

  /** The predicate of a readable Google Safe Browsing entry reads back. */
  lemma GsbPredBack(mt: GSBMatchType, pred: GSBPred)
    requires Readable(GSB(mt, pred))
    ensures GsbPred(GsbPrefixText(mt), PredTypeText(mt, pred), Hex.Encode(PredBytes(pred))) == Ok((mt, pred))
  {
    Hex.DecodeEncode(PredBytes(pred));
    if pred.Hash? {
      Util.ParseHashRoundTrip(pred.hash);
    }
  }

  /** Reading the export of a readable entry gives it back, with no flevel. */
  lemma RoundTrip(sig: PhishingSig)
    requires Readable(sig)
    ensures Parse(ExportText(sig)) == Ok((sig, SigMeta(None)))
  {
    FieldsOfExport(sig);
    if sig.GSB? {
      GsbPredBack(sig.matchType, sig.pred);
    }
  }

  /** The entry does not depend on what follows `R` or `H` in the prefix. */
  lemma EntryIgnoresFilter(f: seq<Bytes>, g: seq<Bytes>)
    requires |f| == |g| >= 1 && f[1..] == g[1..]
    requires |f[0]| > 0 && |g[0]| > 0 && f[0][0] == g[0][0] && (f[0][0] == 'R' || f[0][0] == 'H')
    ensures ParseEntry(f) == ParseEntry(g)
  {
    assert StartsWith(f[0], "R") == StartsWith(g[0], "R");
    assert StartsWith(f[0], "H") == StartsWith(g[0], "H");
    assert |f| >= 2 ==> f[1] == g[1];
    assert |f| >= 3 ==> f[2] == g[2];
  }

  /** A prefix without unescaped `:` is the first field, and the rest of the line gives the others. */
  lemma FieldsAfterPrefix(prefix: Bytes, rest: Bytes)
    requires Util.Unbroken(prefix, '\\', ':', false)
    ensures Fields(prefix + ":" + rest) == [prefix] + Util.UnescapedSplit(rest, '\\', ':')
  {
    Util.SplitFromUnbroken(prefix, rest, '\\', ':', false, []);
    assert [] + prefix == prefix;
  }

  /** Two lines whose fields differ only after the `R` or `H` of the prefix read alike. */
  lemma ParseIgnoresFilter(d1: Bytes, d2: Bytes)
    requires var f, g := Fields(d1), Fields(d2);
      |f| == |g| && f[1..] == g[1..] &&
      |f[0]| > 0 && |g[0]| > 0 && f[0][0] == g[0][0] && (f[0][0] == 'R' || f[0][0] == 'H')
    ensures Parse(d1) == Parse(d2)
  {
    var f, g := Fields(d1), Fields(d2);
    EntryIgnoresFilter(f, g);
    assert forall k :: 1 <= k < |f| ==> f[k] == g[k];
  }

  /**
   * Whatever follows `R` or `H` in the prefix is ignored: the line reads as
   * if the prefix were that letter alone.
   */
  lemma PrefixFilterIgnored(prefix: Bytes, rest: Bytes)
    requires |prefix| > 0 && (prefix[0] == 'R' || prefix[0] == 'H')
    requires Util.Unbroken(prefix, '\\', ':', false)
    ensures Parse(prefix + ":" + rest) == Parse([prefix[0]] + ":" + rest)
  {
    var short := [prefix[0]];
    Util.PlainUnbroken(short, '\\', ':');
    FieldsAfterPrefix(prefix, rest);
    FieldsAfterPrefix(short, rest);
    ParseIgnoresFilter(prefix + ":" + rest, short + ":" + rest);
  }

  /**
   * A Google Safe Browsing line without flevel, whose hex is lower-case,
   * is written back exactly as it was read.
   */
  lemma GsbExportExact(data: Bytes)
    requires var f := Fields(data); IsGsbPrefix(f[0]) && |f| == 3
    requires forall i :: 0 <= i < |Fields(data)[2]| ==> !('A' <= Fields(data)[2][i] <= 'F')
    requires Parse(data).Ok?
    ensures ExportText(Parse(data).value.0) == data
  {
    var f := Fields(data);
    var sig := Parse(data).value.0;
    var (mt, pred) := GsbPred(f[0], f[1], f[2]).value;
    assert sig == GSB(mt, pred);
    if pred.HostPrefixHash? {
      assert Hex.Decode(f[2]) == Ok(pred.prefix);
    }
    Hex.EncodeDecode(f[2]);
    assert ExportFields(sig) == f;
  }
}
