/**
 * Sub-signature dispatch (src/signature/logical_sig/subsig.rs): one `;`
 * field of a logical signature, with its `::` modifier already cut off, is
 * read as a macro, a byte-compare, a fuzzy image, a PCRE or, failing all
 * of those, a body signature with an optional offset.
 */
module SubSigs {
  import opened Wrappers
  import opened ByteStr
  import Features
  import SubSigModifiers
  import MacroSigs
  import ByteCmps
  import FuzzyImgs
  import Offsets
  import BodySigs
  import S = BodySigParse
  import TargetTypes
  import ExtSigs

  type Modifier = Option<SubSigModifiers.Modifier>

  /** The kinds of sub-signature `parse_bytes` makes. */
  datatype SubSig =
    | Macro(macroSig: MacroSigs.MacroSubSig)
    | ByteCmp(byteCmp: ByteCmps.ByteCmpSubSig)
    | FuzzyImg(fuzzyImg: FuzzyImgs.FuzzyImgSubSig)
    | Pcre(offset: Option<Offsets.Offset>, text: Bytes, modifier: Modifier)
    | Extended(ext: ExtSigs.ExtendedSig)

  /**
   * What the PCRE sub-parser, which is not part of this model, makes of the
   * text after the offset: a PCRE sub-signature, or a refusal that either
   * claims the text (`identified`) or leaves it to the body-signature parser.
   */
  datatype PcreVerdict = PcreAccepted | PcreRefused(identified: bool)

  /** `SubSigParseError`. `ExtendedSigParse` is never produced and is left out. */
  datatype ParseError =
    | MacroSubSigParse(macroErr: MacroSigs.ParseError)
    | ByteCmpSubSigParse(byteCmpErr: ByteCmps.ParseError)
    | FuzzyImgSubSigParse(fuzzyErr: FuzzyImgs.ParseError)
    | PcreSubSigParse
    | OffsetParse(offsetErr: Offsets.OffsetParseError)
    | BodySigParse(bodyErr: S.BodySigParseError)

  /** How many leading bytes are searched for the offset's `:`. */
  const OFFSET_WINDOW: nat := 32

  /** The modifier a sub-signature was read with. */
  function ModifierOf(s: SubSig): Modifier
  {
    match s
    case Macro(m) => m.modifier
    case ByteCmp(c) => c.modifier
    case FuzzyImg(f) => f.modifier
    case Pcre(_, _, m) => m
    case Extended(e) => e.modifier
  }

  /** The shape that makes every macro error identified: `${` first and `$` last. */
  predicate MacroFramed(b: Bytes)
  {
    StartsWith(b, "${") && EndsWith(b[2..], "$")
  }

  /** The shape that makes every byte-compare error identified: `trigger(a#b#c)`. */
  predicate ByteCmpShaped(b: Bytes)
  {
    EndsWith(b, ")") && '(' in b[..|b| - 1] &&
    |SplitN(ByteCmps.Trigger(b[..|b| - 1]).1, '#', 3)| == 3
  }

  /** The shape that makes every fuzzy-image error identified: a first `#` field of `fuzzy_img`. */
  predicate FuzzyPrefixed(b: Bytes)
  {
    SplitN(b, '#', 3)[0] == FuzzyImgs.PREFIX
  }

  /** The macro parser claims a text, success or error, exactly when it is framed. */
  lemma MacroClaim(b: Bytes, modifier: Modifier)
    ensures var r := MacroSigs.Parse(b, modifier);
      (r.Ok? || MacroSigs.Identified(r.error)) <==> MacroFramed(b)
  {
    if MacroSigs.Parse(b, modifier).Err? {
      MacroSigs.IdentifiedMeansFramed(b, modifier);
    }
  }

  /** The byte-compare parser claims a text exactly when it has the `trigger(a#b#c)` shape. */
  lemma ByteCmpClaim(b: Bytes, modifier: Modifier)
    ensures var r := ByteCmps.Parse(b, modifier);
      (r.Ok? || ByteCmps.Identified(r.error)) <==> ByteCmpShaped(b)
  {
    if EndsWith(b, ")") {
      assert ByteCmps.Parse(b, modifier) == ByteCmps.ParseInner(b[..|b| - 1], modifier);
    }
  }

  /** The fuzzy-image parser claims a text exactly when its first `#` field is `fuzzy_img`. */
  lemma FuzzyClaim(b: Bytes, modifier: Modifier)
    ensures var r := FuzzyImgs.Parse(b, modifier);
      (r.Ok? || FuzzyImgs.Identified(r.error)) <==> FuzzyPrefixed(b)
  {
  }

  /** Where the scan for the offset's `:` stops, from byte `i` on. */
  function ColonFrom(b: Bytes, i: nat): (r: Option<nat>)
    requires i <= |b|
    ensures r.Some? ==> i <= r.value < |b| && r.value < OFFSET_WINDOW && b[r.value] == ':' &&
                        ':' !in b[i..r.value] && '/' !in b[i..r.value]
    ensures r.None? ==> forall p :: i <= p < |b| && p < OFFSET_WINDOW && b[p] == ':' ==> '/' in b[i..p]
    decreases |b| - i
  {
    if i == |b| || i >= OFFSET_WINDOW || b[i] == '/' then None
    else if b[i] == ':' then Some(i)
    else
      var r := ColonFrom(b, i + 1);
      assert forall p :: i + 1 <= p <= |b| ==> b[i..p] == [b[i]] + b[i + 1..p];
      r
  }

  /**
   * The offset's `:`: the first `:` among the first 32 bytes, provided no
   * `/` (which would begin a PCRE pattern) comes before it.
   */
  function OffsetColon(b: Bytes): (r: Option<nat>)
    ensures r.Some? ==> r.value < |b| && r.value < OFFSET_WINDOW && b[r.value] == ':' &&
                        ':' !in b[..r.value] && '/' !in b[..r.value]
    ensures r.None? ==> forall p :: 0 <= p < |b| && p < OFFSET_WINDOW && b[p] == ':' ==> '/' in b[..p]
  {
    var r := ColonFrom(b, 0);
    assert forall p :: 0 <= p <= |b| ==> b[0..p] == b[..p];
    r
  }

  /** The scan stops at the first `:` when nothing before it stops it sooner. */
  lemma {:induction false} ColonAt(b: Bytes, i: nat, p: nat)
    requires i <= p < |b| && p < OFFSET_WINDOW && b[p] == ':'
    requires forall j :: i <= j < p ==> b[j] != ':' && b[j] != '/'
    ensures ColonFrom(b, i) == Some(p)
    ensures i == 0 ==> OffsetColon(b) == Some(p)
    decreases p - i
  {
    if i < p {
      ColonAt(b, i + 1, p);
    }
  }

  /** The offset before the `:`, if any, and the text the PCRE and body parsers read. */
  function SplitOffset(b: Bytes): (r: Result<(Option<Offsets.Offset>, Bytes), ParseError>)
    ensures OffsetColon(b).None? ==> r == Ok((None, b))
    ensures OffsetColon(b).Some? ==> var p := OffsetColon(b).value;
      match Offsets.Parse(b[..p])
      case Ok(o) => r == Ok((Some(o), b[p + 1..])) && b == b[..p] + [':'] + b[p + 1..]
      case Err(e) => r == Err(OffsetParse(e))
  {
    match OffsetColon(b)
    case None => Ok((None, b))
    case Some(p) =>
      assert b == b[..p] + [':'] + b[p + 1..];
      match Offsets.Parse(b[..p])
      case Err(e) => Err(OffsetParse(e))
      case Ok(o) => Ok((Some(o), b[p + 1..]))
  }

  /**
   * The text after the offset: a PCRE sub-signature, or a PCRE error the
   * PCRE parser claims, or else a body signature made into an extended
   * signature with no name and any target type.
   */
  function ParseBody(offset: Option<Offsets.Offset>, body: Bytes, modifier: Modifier, pcre: Bytes -> PcreVerdict): (r: Result<SubSig, ParseError>)
    ensures r.Ok? && r.value.Pcre? <==> pcre(body).PcreAccepted?
    ensures r == Err(PcreSubSigParse) <==> pcre(body) == PcreRefused(true)
    ensures r.Ok? && r.value.Extended? ==>
      pcre(body) == PcreRefused(false) && r.value.ext.bodySig.Some? &&
      BodySigs.Parse(body) == Ok(r.value.ext.bodySig.value) &&
      r.value.ext == ExtSigs.ExtendedSig(None, TargetTypes.Any, offset, r.value.ext.bodySig, modifier)
    ensures r.Ok? ==> (r.value.Pcre? || r.value.Extended?) && ModifierOf(r.value) == modifier
    ensures pcre(body) == PcreRefused(false) && BodySigs.Parse(body).Err? ==> r == Err(BodySigParse(BodySigs.Parse(body).error))
  {
    match pcre(body)
    case PcreAccepted => Ok(Pcre(offset, body, modifier))
    case PcreRefused(identified) =>
      if identified then Err(PcreSubSigParse)
      else match BodySigs.Parse(body)
        case Err(e) => Err(BodySigParse(e))
        case Ok(bs) => Ok(Extended(ExtSigs.ExtendedSig(None, TargetTypes.Any, offset, Some(bs), modifier)))
  }

  /** A text none of the framed parsers claims: the offset split, then the PCRE and body parsers. */
  function ParseUnframed(b: Bytes, modifier: Modifier, pcre: Bytes -> PcreVerdict): (r: Result<SubSig, ParseError>)
    ensures r.Ok? ==> ModifierOf(r.value) == modifier
  {
    match SplitOffset(b)
    case Err(e) => Err(e)
    case Ok((offset, body)) => ParseBody(offset, body, modifier, pcre)
  }

  /**
   * `parse_bytes`: the macro, byte-compare and fuzzy-image parsers in that
   * order, each ending the dispatch with its result or with an identified
   * error; then the offset split, the PCRE parser and the body signature.
   */
  function Parse(b: Bytes, modifier: Modifier, pcre: Bytes -> PcreVerdict): (r: Result<SubSig, ParseError>)
    ensures r.Ok? ==> ModifierOf(r.value) == modifier
  {
    match MacroSigs.Parse(b, modifier)
    case Ok(m) => Ok(Macro(m))
    case Err(e) =>
      if MacroSigs.Identified(e) then Err(MacroSubSigParse(e))
      else AfterMacro(b, modifier, pcre)
  }

  /** The byte-compare parser, once the macro parser has passed. */
  function AfterMacro(b: Bytes, modifier: Modifier, pcre: Bytes -> PcreVerdict): (r: Result<SubSig, ParseError>)
    ensures r.Ok? ==> ModifierOf(r.value) == modifier
  {
    match ByteCmps.Parse(b, modifier)
    case Ok(c) => Ok(ByteCmp(c))
    case Err(e) =>
      if ByteCmps.Identified(e) then Err(ByteCmpSubSigParse(e))
      else AfterByteCmp(b, modifier, pcre)
  }

  /** The fuzzy-image parser, once the byte-compare parser has passed. */
  function AfterByteCmp(b: Bytes, modifier: Modifier, pcre: Bytes -> PcreVerdict): (r: Result<SubSig, ParseError>)
    ensures r.Ok? ==> ModifierOf(r.value) == modifier
  {
    match FuzzyImgs.Parse(b, modifier)
    case Ok(f) => Ok(FuzzyImg(f))
    case Err(e) =>
      if FuzzyImgs.Identified(e) then Err(FuzzyImgSubSigParse(e))
      else ParseUnframed(b, modifier, pcre)
  }

  /** A framed macro text gets the macro parser's answer, whatever else it looks like. */
  lemma MacroFirst(b: Bytes, modifier: Modifier, pcre: Bytes -> PcreVerdict)
    requires MacroFramed(b)
    ensures Parse(b, modifier, pcre) == match MacroSigs.Parse(b, modifier)
      case Ok(m) => Ok(Macro(m))
      case Err(e) => Err(MacroSubSigParse(e))
  {
    MacroClaim(b, modifier);
  }

  /** Next, a text of the `trigger(a#b#c)` shape gets the byte-compare parser's answer. */
  lemma ByteCmpSecond(b: Bytes, modifier: Modifier, pcre: Bytes -> PcreVerdict)
    requires !MacroFramed(b) && ByteCmpShaped(b)
    ensures Parse(b, modifier, pcre) == match ByteCmps.Parse(b, modifier)
      case Ok(c) => Ok(ByteCmp(c))
      case Err(e) => Err(ByteCmpSubSigParse(e))
  {
    MacroClaim(b, modifier);
    ByteCmpClaim(b, modifier);
  }

  /** Next, a text whose first `#` field is `fuzzy_img` gets the fuzzy-image parser's answer. */
  lemma FuzzyThird(b: Bytes, modifier: Modifier, pcre: Bytes -> PcreVerdict)
    requires !MacroFramed(b) && !ByteCmpShaped(b) && FuzzyPrefixed(b)
    ensures Parse(b, modifier, pcre) == match FuzzyImgs.Parse(b, modifier)
      case Ok(f) => Ok(FuzzyImg(f))
      case Err(e) => Err(FuzzyImgSubSigParse(e))
  {
    MacroClaim(b, modifier);
    ByteCmpClaim(b, modifier);
    FuzzyClaim(b, modifier);
  }

  /** A text none of the three claims falls through to the offset split, PCRE and body parsers. */
  lemma FallThrough(b: Bytes, modifier: Modifier, pcre: Bytes -> PcreVerdict)
    requires !MacroFramed(b) && !ByteCmpShaped(b) && !FuzzyPrefixed(b)
    ensures Parse(b, modifier, pcre) == ParseUnframed(b, modifier, pcre)
  {
    MacroClaim(b, modifier);
    ByteCmpClaim(b, modifier);
    FuzzyClaim(b, modifier);
  }

  /** Each kind of result comes from the parser for that kind, after the earlier ones passed. */
  lemma ResultKinds(b: Bytes, modifier: Modifier, pcre: Bytes -> PcreVerdict)
    requires Parse(b, modifier, pcre).Ok?
    ensures var s := Parse(b, modifier, pcre).value;
      (s.Macro? <==> MacroSigs.Parse(b, modifier).Ok?) &&
      (s.ByteCmp? ==> !MacroFramed(b) && ByteCmps.Parse(b, modifier) == Ok(s.byteCmp)) &&
      (s.FuzzyImg? ==> !MacroFramed(b) && !ByteCmpShaped(b) && FuzzyImgs.Parse(b, modifier) == Ok(s.fuzzyImg)) &&
      (s.Pcre? || s.Extended? ==> !MacroFramed(b) && !ByteCmpShaped(b) && !FuzzyPrefixed(b))
  {
    if MacroFramed(b) {
      MacroFirst(b, modifier, pcre);
    } else if ByteCmpShaped(b) {
      ByteCmpSecond(b, modifier, pcre);
      MacroClaim(b, modifier);
    } else if FuzzyPrefixed(b) {
      FuzzyThird(b, modifier, pcre);
      MacroClaim(b, modifier);
    } else {
      FallThrough(b, modifier, pcre);
      MacroClaim(b, modifier);
    }
  }

  /** `EngineReq` of each kind; the PCRE features come with the PCRE parser. */
  function SubSigFeatures(s: SubSig, pcreFeatures: Features.FeatureSet): Features.FeatureSet
  {
    match s
    case Macro(m) => MacroSigs.SubSigFeatures(m)
    case ByteCmp(c) => ByteCmps.SubSigFeatures(c)
    case FuzzyImg(f) => FuzzyImgs.SubSigFeatures(f)
    case Pcre(_, _, _) => pcreFeatures
    case Extended(e) => ExtSigs.SigFeatures(e)
  }

  /** Macros and extended signatures need nothing; byte-compare and fuzzy image one feature each. */
  lemma FeaturesOfKinds(s: SubSig, pcreFeatures: Features.FeatureSet)
    requires !s.Pcre?
    ensures Features.Items(SubSigFeatures(s, pcreFeatures)) ==
      if s.ByteCmp? then [Features.ByteCompareMin]
      else if s.FuzzyImg? then [Features.FuzzyImageMin]
      else []
  {
    if s.Extended? {
      ExtSigs.NeedsNothing(s.ext);
    }
  }

  // Round trips through the dispatcher

  /** A macro's text is read back as that macro. */
  lemma MacroRoundTrip(m: MacroSigs.MacroSubSig, pcre: Bytes -> PcreVerdict)
    requires MacroSigs.Fits(m)
    ensures Parse(MacroSigs.MacroText(m), m.modifier, pcre) == Ok(Macro(m))
  {
    MacroSigs.RoundTrip(m);
  }

  /** A byte-compare text, which begins with a digit, is read back as that byte-compare. */
  lemma ByteCmpRoundTrip(c: ByteCmps.ByteCmpSubSig, pcre: Bytes -> PcreVerdict)
    requires ByteCmps.Writable(c)
    ensures Parse(ByteCmps.ByteCmpText(c), c.modifier, pcre) == Ok(ByteCmp(c))
  {
    var t := ByteCmps.ByteCmpText(c);
    var d := Num.Dec(c.subsigIdTrigger);
    assert t[0] == d[0];
    assert !StartsWith(t, "${");
    MacroClaim(t, c.modifier);
    ByteCmps.RoundTrip(c);
  }

  import Num

  /** A fuzzy-image text, which begins with `f` and ends with a digit, is read back as that fuzzy image. */
  lemma FuzzyRoundTrip(f: FuzzyImgs.FuzzyImgSubSig, pcre: Bytes -> PcreVerdict)
    requires FuzzyImgs.Valid(f)
    ensures Parse(FuzzyImgs.ExportText(f), f.modifier, pcre) == Ok(FuzzyImg(f))
  {
    var t := FuzzyImgs.ExportText(f);
    FuzzyImgs.RoundTrip(f);
    assert t[0] == 'f';
    MacroClaim(t, f.modifier);
    assert !EndsWith(t, ")") by {
      var last := t[|t| - 1];
      if f.hammingDistance.Some? && f.hammingDistance.value >= 0 {
        var dt := Num.Dec(f.hammingDistance.value);
        assert last == dt[|dt| - 1];
        assert IsDigit(last);
      } else {
        assert last == f.hashString[15];
        assert IsHexDigit(last);
      }
    }
    ByteCmpClaim(t, f.modifier);
  }

  /** The text after the offset, for a sub-signature with a body that reads back. */
  predicate PlainBody(s: ExtSigs.ExtendedSig)
  {
    s.name.None? && s.targetType == TargetTypes.Any && s.bodySig.Some? &&
    ExtSigs.BodyReadsBack(s.bodySig) &&
    '#' !in BodySigs.BodySigText(s.bodySig.value) && '$' !in BodySigs.BodySigText(s.bodySig.value) &&
    (s.offset.Some? ==> Offsets.Fits(s.offset.value) &&
                        !(s.offset.value.pos.EP? && s.offset.value.pos.i == Num.ISIZE_MIN) &&
                        |Offsets.OffsetText(s.offset.value)| < OFFSET_WINDOW)
  }

  /** `fuzzy_img` is no body signature: `u` cannot follow the nyble `f`. */
  lemma FuzzyPrefixIsNoBody()
    ensures BodySigs.Parse(FuzzyImgs.PREFIX).Err?
  {
  }

  /**
   * How a logical signature writes an extended sub-signature, up to its
   * modifier: the offset, `:` when a body follows, and the body.
   */
  function ExtendedText(s: ExtSigs.ExtendedSig): Bytes
    requires ExtSigs.Exportable(s)
  {
    (if s.offset.Some? then Offsets.OffsetText(s.offset.value) + (if s.bodySig.Some? then ":" else "") else []) +
    (if s.bodySig.Some? then BodySigs.BodySigText(s.bodySig.value) else [])
  }

  /** The same text as the source writes it: the body's strings without their right-side flags. */
  function ExtendedTextAsWritten(s: ExtSigs.ExtendedSig): Bytes
    requires ExtSigs.Exportable(s)
  {
    (if s.offset.Some? then Offsets.OffsetText(s.offset.value) + (if s.bodySig.Some? then ":" else "") else []) +
    (if s.bodySig.Some? then BodySigs.BodySigTextAsWritten(s.bodySig.value) else [])
  }

  /** Without right-side flags in the body, the source's text and the corrected one are the same. */
  lemma ExtendedAsWrittenAgrees(s: ExtSigs.ExtendedSig)
    requires ExtSigs.Exportable(s)
    ensures s.bodySig.Some? ==> (ExtendedTextAsWritten(s) == ExtendedText(s) <==> BodySigs.NoRightFlags(s.bodySig.value))
    ensures s.bodySig.None? ==> ExtendedTextAsWritten(s) == ExtendedText(s)
  {
    if s.bodySig.Some? {
      var b := s.bodySig.value;
      BodySigs.AsWrittenAgrees(b);
      var pre := if s.offset.Some? then Offsets.OffsetText(s.offset.value) + ":" else [];
      assert ExtendedText(s) == pre + BodySigs.BodySigText(b);
      assert ExtendedTextAsWritten(s) == pre + BodySigs.BodySigTextAsWritten(b);
      if ExtendedTextAsWritten(s) == ExtendedText(s) {
        assert BodySigs.BodySigTextAsWritten(b) == (pre + BodySigs.BodySigTextAsWritten(b))[|pre|..];
        assert BodySigs.BodySigText(b) == (pre + BodySigs.BodySigText(b))[|pre|..];
      }
    }
  }

  /** The text of an extended sub-signature with a body: the offset and `:`, if any, then the body. */
  lemma ExtendedTextParts(s: ExtSigs.ExtendedSig)
    requires ExtSigs.Exportable(s) && s.bodySig.Some?
    ensures ExtendedText(s) == if s.offset.Some?
      then Offsets.OffsetText(s.offset.value) + [':'] + BodySigs.BodySigText(s.bodySig.value)
      else BodySigs.BodySigText(s.bodySig.value)
  {
  }

  /** A short offset's text, `:` and a body split back into the offset and the body. */
  lemma SplitAfterOffset(o: Offsets.Offset, body: Bytes)
    requires Offsets.Fits(o) && !(o.pos.EP? && o.pos.i == Num.ISIZE_MIN)
    requires |Offsets.OffsetText(o)| < OFFSET_WINDOW
    ensures SplitOffset(Offsets.OffsetText(o) + [':'] + body) == Ok((Some(o), body))
  {
    var ot := Offsets.OffsetText(o);
    var t := ot + [':'] + body;
    Offsets.OffsetTextHasNo(o, '/');
    assert forall j :: 0 <= j < |ot| ==> t[j] == ot[j];
    ColonAt(t, 0, |ot|);
    assert t[..|ot|] == ot;
    Offsets.RoundTrip(o);
    assert t[|ot| + 1..] == body;
  }

  /** A text with no `:` has no offset. */
  lemma SplitWithoutOffset(body: Bytes)
    requires ':' !in body
    ensures SplitOffset(body) == Ok((None, body))
  {
  }

  /** The body text is what follows the offset, and the text splits back into the two. */
  lemma PlainBodySplit(s: ExtSigs.ExtendedSig)
    requires PlainBody(s)
    ensures ExtSigs.Exportable(s)
    ensures SplitOffset(ExtendedText(s)) == Ok((s.offset, BodySigs.BodySigText(s.bodySig.value)))
  {
    ExtendedTextParts(s);
    if s.offset.Some? {
      SplitAfterOffset(s.offset.value, BodySigs.BodySigText(s.bodySig.value));
    } else {
      SplitWithoutOffset(BodySigs.BodySigText(s.bodySig.value));
    }
  }

  /** A text with no `#` and no `$` is claimed by none of the framed parsers unless it is `fuzzy_img`. */
  lemma PlainUnclaimed(t: Bytes)
    requires '#' !in t && '$' !in t && t != FuzzyImgs.PREFIX
    ensures !MacroFramed(t) && !ByteCmpShaped(t) && !FuzzyPrefixed(t)
  {
    SplitNNone(t, '#', 3);
    if EndsWith(t, ")") {
      NoHashNotShaped(t[..|t| - 1]);
    }
  }

  /** Without a `#`, the parameters after the trigger are never three. */
  lemma NoHashNotShaped(inner: Bytes)
    requires '#' !in inner
    ensures |SplitN(ByteCmps.Trigger(inner).1, '#', 3)| == 1
  {
    var tr := ByteCmps.Trigger(inner);
    if tr.0.Some? {
      assert inner == tr.0.value + "(" + tr.1;
      assert forall k :: 0 <= k < |tr.1| ==> tr.1[k] == inner[|tr.0.value| + 1 + k];
    }
    SplitNNone(tr.1, '#', 3);
  }

  /** The fallback: an unclaimed text whose body the PCRE parser leaves is a body signature. */
  lemma Fallback(t: Bytes, offset: Option<Offsets.Offset>, body: Bytes, bs: BodySigs.BodySig, modifier: Modifier, pcre: Bytes -> PcreVerdict)
    requires !MacroFramed(t) && !ByteCmpShaped(t) && !FuzzyPrefixed(t)
    requires SplitOffset(t) == Ok((offset, body))
    requires pcre(body) == PcreRefused(false) && BodySigs.Parse(body) == Ok(bs)
    ensures Parse(t, modifier, pcre) == Ok(Extended(ExtSigs.ExtendedSig(None, TargetTypes.Any, offset, Some(bs), modifier)))
  {
    FallThrough(t, modifier, pcre);
  }

  /**
   * An extended sub-signature with a body is read back from its text by the
   * fallback, when the PCRE parser leaves that body unclaimed.
   */
  lemma ExtendedRoundTrip(s: ExtSigs.ExtendedSig, pcre: Bytes -> PcreVerdict)
    requires PlainBody(s)
    requires pcre(BodySigs.BodySigText(s.bodySig.value)) == PcreRefused(false)
    ensures ExtSigs.Exportable(s)
    ensures Parse(ExtendedText(s), s.modifier, pcre) == Ok(Extended(s))
  {
    var body := BodySigs.BodySigText(s.bodySig.value);
    var t := ExtendedText(s);
    PlainBodySplit(s);
    ExtendedTextParts(s);
    if s.offset.Some? {
      OffsetTextUnclaimed(s.offset.value, body);
    } else {
      FuzzyPrefixIsNoBody();
    }
    PlainUnclaimed(t);
    Fallback(t, s.offset, body, s.bodySig.value, s.modifier, pcre);
  }

  /** An offset, `:` and a body with no `#` and no `$` have none either, and are not `fuzzy_img`. */
  lemma OffsetTextUnclaimed(o: Offsets.Offset, body: Bytes)
    requires '#' !in body && '$' !in body
    ensures var t := Offsets.OffsetText(o) + [':'] + body;
      '#' !in t && '$' !in t && t != FuzzyImgs.PREFIX
  {
    var t := Offsets.OffsetText(o) + [':'] + body;
    Offsets.OffsetTextHasNo(o, '#');
    Offsets.OffsetTextHasNo(o, '$');
    assert t[|Offsets.OffsetText(o)|] == ':';
    assert ':' !in FuzzyImgs.PREFIX;
  }
}
