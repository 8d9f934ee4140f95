/**
 * Extended signatures (src/signature/ext_sig.rs): the `.ndb` record
 * `Name:TargetType:Offset:HexSignature[:MinFL[:MaxFL]]`, which is also the
 * form a logical signature's body sub-signatures take.
 */
module ExtSigs {
  import opened Wrappers
  import opened ByteStr
  import Utf8
  import Util
  import Features
  import TargetTypes
  import Offsets
  import BodySigs
  import S = BodySigParse
  import SubSigModifiers
  import SigBytes
  import opened SigMetas

  /** `ExtendedSig`. The offset is optional only in sub-signatures; the modifier is only used there. */
  datatype ExtendedSig = ExtendedSig(
    name: Option<Bytes>,
    targetType: TargetTypes.TargetType,
    offset: Option<Offsets.Offset>,
    bodySig: Option<BodySigs.BodySig>,
    modifier: Option<SubSigModifiers.Modifier>)

  /** `ExtendedSigParseError`; `TargetDescParse` is never produced and is left out. */
  datatype ExtendedSigParseError =
    | MissingTargetType
    | MissingOffset
    | MissingHexSignature
    | BodySig(bodyErr: S.BodySigParseError)
    | TargetTypeParse(typeErr: TargetTypes.TargetTypeParseError)
    | ParseOffset(offsetErr: Offsets.OffsetParseError)
    | ParseMinFlevel(e: Num.NumberError)
    | ParseMaxFlevel(e: Num.NumberError)

  import Num

  type ParseResult = Result<(ExtendedSig, SigMeta), FromSigBytesParseError<ExtendedSigParseError>>

  /** The hex signature field: `*` for none, otherwise a body signature. */
  function ParseBody(field: Bytes): (r: Result<Option<BodySigs.BodySig>, ExtendedSigParseError>)
    ensures r == Ok(None) <==> field == "*"
    ensures field != "*" ==> r == (match BodySigs.Parse(field) case Ok(b) => Ok(Some(b)) case Err(e) => Err(BodySig(e)))
  {
    if field == "*" then Ok(None)
    else match BodySigs.Parse(field)
      case Ok(b) => Ok(Some(b))
      case Err(e) => Err(BodySig(e))
  }

  /** The fields after the name, in order; a missing field is reported by name. */
  function ParseFields(rest: seq<Bytes>): (r: Result<(TargetTypes.TargetType, Offsets.Offset, Option<BodySigs.BodySig>, SigMeta), ExtendedSigParseError>)
    ensures r == Err(MissingTargetType) <==> |rest| == 0
    ensures r == Err(MissingOffset) <==> |rest| == 1 && TargetTypes.Parse(rest[0]).Ok?
    ensures r.Ok? ==> |rest| >= 3 && TargetTypes.Parse(rest[0]) == Ok(r.value.0) &&
                      Offsets.Parse(rest[1]) == Ok(r.value.1) && ParseBody(rest[2]) == Ok(r.value.2) &&
                      ParseFlevelTail(rest[3..]) == Ok(r.value.3.fLevel)
  {
    if |rest| == 0 then Err(MissingTargetType)
    else match TargetTypes.Parse(rest[0])
      case Err(e) => Err(TargetTypeParse(e))
      case Ok(tt) =>
        if |rest| == 1 then Err(MissingOffset)
        else match Offsets.Parse(rest[1])
          case Err(e) => Err(ParseOffset(e))
          case Ok(off) =>
            if |rest| == 2 then Err(MissingHexSignature)
            else match ParseBody(rest[2])
              case Err(e) => Err(e)
              case Ok(body) =>
                match ParseFlevelTail(rest[3..])
                case Err(MinFlevel(e)) => Err(ParseMinFlevel(e))
                case Err(MaxFlevel(e)) => Err(ParseMaxFlevel(e))
                case Ok(f) => Ok((tt, off, body, SigMeta(f)))
  }

  /**
   * `from_sigbytes`: the record split on `:`; the name must be UTF-8. A
   * parsed signature always has a name and an offset and never a modifier.
   */
  function Parse(data: Bytes): (r: ParseResult)
    ensures r == Err(NameNotUnicode) <==> !Utf8.IsValid(Split(data, ':')[0])
    ensures r.Ok? ==> r.value.0.name == Some(Split(data, ':')[0]) && r.value.0.offset.Some? && r.value.0.modifier.None?
    ensures r.Ok? ==> |Split(data, ':')| >= 4
  {
    var fields := Split(data, ':');
    if !Utf8.IsValid(fields[0]) then Err(NameNotUnicode)
    else match ParseFields(fields[1..])
      case Err(e) => Err(Specific(e))
      case Ok((tt, off, body, meta)) => Ok((ExtendedSig(Some(fields[0]), tt, Some(off), body, None), meta))
  }

  /** `Signature::name`: `anonymous` when the signature has none. */
  function Name(sig: ExtendedSig): (r: Bytes)
    ensures sig.name.Some? ==> r == sig.name.value
    ensures sig.name.None? ==> r == "anonymous"
  {
    if sig.name.Some? then sig.name.value else "anonymous"
  }

  /** `EngineReq for ExtendedSig`: the body signature's features, or none. */
  function SigFeatures(sig: ExtendedSig): Features.FeatureSet
  {
    if sig.bodySig.Some? then BodySigs.BodySigFeatures(sig.bodySig.value) else Features.DEFAULT
  }

  /** An extended signature needs no feature. */
  lemma NeedsNothing(sig: ExtendedSig)
    ensures Features.Items(SigFeatures(sig)) == []
  {
    if sig.bodySig.Some? {
      BodySigs.BodySigNeedsNothing(sig.bodySig.value, _ => 0);
    }
  }

  /** `Signature::validate`: no sub-element check, then the flevel check. */
  function Validate(sig: ExtendedSig, meta: SigMeta, minFlevel: Features.Feature -> nat): Result<(), SigValidationError>
  {
    SigMetas.Validate(Ok(()), ValidateFeatureFlevel(SigFeatures(sig), minFlevel, meta))
  }

  /** Needing no feature, every extended signature passes validation, whatever flevel it declares. */
  lemma AlwaysValid(sig: ExtendedSig, meta: SigMeta, minFlevel: Features.Feature -> nat)
    ensures Validate(sig, meta, minFlevel).Ok?
  {
    NeedsNothing(sig);
    ValidateFeatureFlevelMeaning(SigFeatures(sig), minFlevel, meta);
  }

  /** What the exporter can write: every pattern of the body has a text. */
  predicate Exportable(sig: ExtendedSig)
  {
    sig.bodySig.Some? ==> S.AllExportable(sig.bodySig.value.patterns)
  }

  function NameText(sig: ExtendedSig): Bytes
  {
    if sig.name.Some? then sig.name.value + ":" else []
  }

  /** Everything up to the body: name, target type id, `:`, and the offset. */
  function HeadText(sig: ExtendedSig): Bytes
  {
    var id: Bytes := TargetTypes.IdText(sig.targetType);
    var pre: Bytes := NameText(sig) + id + ":";
    if sig.offset.Some? then pre + Offsets.OffsetText(sig.offset.value) else pre
  }

  function BodyText(b: BodySigs.BodySig): Bytes
    requires S.AllExportable(b.patterns)
  {
    var sep: Bytes := ":";
    sep + BodySigs.BodySigText(b)
  }

  /**
   * `append_sigbytes` as the source writes it: the name and `:` when there
   * is a name, the target type id, `:`, the offset, and `:` and the body
   * when there is a body, its strings without their right-side flags. The
   * flevel is not written.
   */
  function ExportTextAsWritten(sig: ExtendedSig): Bytes
    requires Exportable(sig)
  {
    if sig.bodySig.Some? then HeadText(sig) + ":" + BodySigs.BodySigTextAsWritten(sig.bodySig.value) else HeadText(sig)
  }

  /**
   * The export with a missing body written as the `*` it was read from and
   * a string's right-side flags written after its bytes.
   */
  function ExportText(sig: ExtendedSig): (t: Bytes)
    requires Exportable(sig)
    ensures sig.bodySig.Some? && BodySigs.NoRightFlags(sig.bodySig.value) ==> t == ExportTextAsWritten(sig)
    ensures sig.bodySig.Some? && !BodySigs.NoRightFlags(sig.bodySig.value) ==> |t| > |ExportTextAsWritten(sig)|
    ensures sig.bodySig.None? ==> t == ExportTextAsWritten(sig) + ":*"
  {
    if sig.bodySig.Some? then
      BodyAsWritten(sig);
      HeadText(sig) + BodyText(sig.bodySig.value)
    else HeadText(sig) + ":*"
  }

  lemma BodyAsWritten(sig: ExtendedSig)
    requires Exportable(sig) && sig.bodySig.Some?
    ensures BodySigs.NoRightFlags(sig.bodySig.value) ==> HeadText(sig) + BodyText(sig.bodySig.value) == ExportTextAsWritten(sig)
    ensures !BodySigs.NoRightFlags(sig.bodySig.value) ==> |HeadText(sig) + BodyText(sig.bodySig.value)| > |ExportTextAsWritten(sig)|
  {
    var b := sig.bodySig.value;
    var h, t, w := HeadText(sig), BodySigs.BodySigText(b), BodySigs.BodySigTextAsWritten(b);
    BodySigs.AsWrittenAgrees(b);
    assert ExportTextAsWritten(sig) == h + ":" + w;
    assert h + BodyText(b) == h + ":" + t by {
      AppendAssoc(h, ":", t, h + ":", ":" + t);
    }
  }

  /** `append_sigbytes`: the parts written one after the other into the buffer. */
  method AppendExtSig(sb: SigBytes.SigBytes, sig: ExtendedSig)
    requires Exportable(sig)
    modifies sb
    ensures sb.bytes == old(sb.bytes) + ExportText(sig)
  {
    ghost var start := sb.bytes;
    ghost var w: Bytes := [];
    assert sb.bytes == start + w;
    if sig.name.Some? {
      sb.Write(sig.name.value + ":");
      w := sig.name.value + ":";
    }
    var id := TargetTypes.IdText(sig.targetType);
    ghost var before := sb.bytes;
    sb.Write(id);
    AppendAssoc(start, w, id, before, w + id);
    w := w + id;
    before := sb.bytes;
    sb.Write(":");
    AppendAssoc(start, w, ":", before, w + ":");
    w := w + ":";
    if sig.offset.Some? {
      var o := Offsets.OffsetText(sig.offset.value);
      before := sb.bytes;
      sb.Write(o);
      AppendAssoc(start, w, o, before, w + o);
      w := w + o;
    }
    assert w == HeadText(sig);
    before := sb.bytes;
    if sig.bodySig.Some? {
      sb.Write(":");
      AppendAssoc(start, w, ":", before, w + ":");
      ghost var mid := sb.bytes;
      BodySigs.AppendBodySig(sb, sig.bodySig.value);
      var bt := BodySigs.BodySigText(sig.bodySig.value);
      AppendAssoc(start, w + ":", bt, mid, w + ":" + bt);
      AppendAssoc(w, ":", bt, w + ":", BodyText(sig.bodySig.value));
    } else {
      sb.Write(":*");
      AppendAssoc(start, w, ":*", before, w + ":*");
    }
  }

  /** A body that its export reads back as: no `:` in the text, which is not `*` either. */
  predicate BodyReadsBack(body: Option<BodySigs.BodySig>)
  {
    body.Some? ==>
      S.AllExportable(body.value.patterns) &&
      ':' !in BodySigs.BodySigText(body.value) && BodySigs.BodySigText(body.value) != "*" &&
      BodySigs.Parse(BodySigs.BodySigText(body.value)) == Ok(body.value)
  }

  /** The text of the body field the export writes. */
  function BodyField(body: Option<BodySigs.BodySig>): Bytes
    requires BodyReadsBack(body)
  {
    if body.Some? then BodySigs.BodySigText(body.value) else "*"
  }

  /** The kind of signature `from_sigbytes` makes: named, with an offset and no modifier. */
  predicate Readable(sig: ExtendedSig)
  {
    sig.name.Some? && Utf8.IsValid(sig.name.value) && ':' !in sig.name.value &&
    sig.offset.Some? && Offsets.Fits(sig.offset.value) &&
    !(sig.offset.value.pos.EP? && sig.offset.value.pos.i == Num.ISIZE_MIN) &&
    sig.modifier.None? && BodyReadsBack(sig.bodySig)
  }

  /** The export is the four fields joined by `:`. */
  lemma ExportFields(sig: ExtendedSig)
    requires Readable(sig)
    ensures Exportable(sig)
    ensures ExportText(sig) == Join([sig.name.value, TargetTypes.IdText(sig.targetType), Offsets.OffsetText(sig.offset.value), BodyField(sig.bodySig)], ':')
  {
    var n := sig.name.value;
    var id := TargetTypes.IdText(sig.targetType);
    var o := Offsets.OffsetText(sig.offset.value);
    var b := BodyField(sig.bodySig);
    JoinFour(n, id, o, b);
    assert HeadText(sig) == n + ":" + id + ":" + o;
    if sig.bodySig.None? {
      assert ":" + b == ":*";
    }
  }

  /** The export, field by field. */
  lemma ExportExact(sig: ExtendedSig, n: Bytes, id: Bytes, o: Bytes, b: Bytes)
    requires Readable(sig)
    requires n == sig.name.value && id == TargetTypes.IdText(sig.targetType)
    requires o == Offsets.OffsetText(sig.offset.value) && b == BodyField(sig.bodySig)
    ensures Exportable(sig) && ExportText(sig) == n + ":" + id + ":" + o + ":" + b
  {
    ExportFields(sig);
    JoinFour(n, id, o, b);
  }

  /** Four fields joined by `:`, grouped as the exporter writes them. */
  lemma JoinFour(a: Bytes, b: Bytes, c: Bytes, d: Bytes)
    ensures Join([a, b, c, d], ':') == (a + ":" + b + ":" + c) + (":" + d)
  {
    JoinCons(c, [d], ':');
    JoinCons(b, [c, d], ':');
    JoinCons(a, [b, c, d], ':');
    assert [a] + [b, c, d] == [a, b, c, d];
    assert [b] + [c, d] == [b, c, d];
    assert [c] + [d] == [c, d];
    assert Join([d], ':') == d;
  }

  /**
   * Reading the export gives the same signature back, with no flevel
   * (the exporter does not write it).
   */
  lemma RoundTrip(sig: ExtendedSig)
    requires Readable(sig)
    ensures Exportable(sig)
    ensures Parse(ExportText(sig)) == Ok((sig, DEFAULT_META))
  {
    var n := sig.name.value;
    var id := TargetTypes.IdText(sig.targetType);
    var o := Offsets.OffsetText(sig.offset.value);
    var b := BodyField(sig.bodySig);
    ExportFields(sig);
    Num.AllDigitsAscii(id);
    DigitsHaveNo(id, ':');
    SplitJoin([n, id, o, b], ':');
    FieldsRoundTrip(sig, id, o, b);
  }

  lemma FieldsRoundTrip(sig: ExtendedSig, id: Bytes, o: Bytes, b: Bytes)
    requires Readable(sig)
    requires id == TargetTypes.IdText(sig.targetType) && o == Offsets.OffsetText(sig.offset.value) && b == BodyField(sig.bodySig)
    ensures ParseFields([id, o, b]) == Ok((sig.targetType, sig.offset.value, sig.bodySig, DEFAULT_META))
  {
    TargetTypes.ParseText(sig.targetType);
    Offsets.RoundTrip(sig.offset.value);
    assert [id, o, b][3..] == [];
  }

  /**
   * As the source writes it, a signature read with `*` for its body exports
   * without a body field, and that text is refused for the missing field.
   */
  lemma BodylessExportRefused(sig: ExtendedSig)
    requires Readable(sig) && sig.bodySig.None?
    ensures Parse(ExportTextAsWritten(sig)) == Err(Specific(MissingHexSignature))
  {
    var n := sig.name.value;
    var id := TargetTypes.IdText(sig.targetType);
    var o := Offsets.OffsetText(sig.offset.value);
    JoinCons(id, [o], ':');
    JoinCons(n, [id, o], ':');
    assert [n] + [id, o] == [n, id, o];
    assert [id] + [o] == [id, o];
    assert ExportTextAsWritten(sig) == Join([n, id, o], ':');
    Num.AllDigitsAscii(id);
    DigitsHaveNo(id, ':');
    SplitJoin([n, id, o], ':');
    TargetTypes.ParseText(sig.targetType);
    Offsets.RoundTrip(sig.offset.value);
  }

  /** A hex body of two or more bytes reads back from its export. */
  lemma HexBodyReadsBack(b: Bytes)
    requires 2 <= |b| <= S.USIZE_MAX
    ensures BodySigs.Parse(Hex.Encode(b)).Ok?
    ensures BodyReadsBack(Some(BodySigs.Parse(Hex.Encode(b)).value))
  {
    BodySigs.HexRoundTrip(b);
    Hex.EncodeHasNoStarOrColon(b);
  }

  /** A body of the kinds the body round trip covers reads back from its export. */
  lemma FragmentBodyReadsBack(b: BodySigs.BodySig)
    requires BodySigRoundTrip.Fragment(b.patterns)
    ensures BodyReadsBack(Some(b))
  {
    BodySigRoundTrip.BodySigRoundTrip(b);
    BodySigRoundTrip.ParsedHasNoColon(BodySigs.BodySigText(b));
  }

  /** Two more fields joined after four. */
  lemma JoinSix(a: Bytes, b: Bytes, c: Bytes, d: Bytes, e: Bytes, f: Bytes)
    ensures Join([a, b, c, d, e, f], ':') == Join([a, b, c, d], ':') + ":" + e + ":" + f
  {
    var four, five := [a, b, c, d], [a, b, c, d, e];
    JoinSnoc(four, e, ':');
    JoinSnoc(five, f, ':');
    assert four + [e] == five && five + [f] == [a, b, c, d, e, f];
  }

  /** The fields after the name, with flevel fields after the body. */
  lemma FlevelFields(sig: ExtendedSig, id: Bytes, o: Bytes, b: Bytes, min: nat, max: nat)
    requires Readable(sig) && min <= Num.U32_MAX && max <= Num.U32_MAX
    requires id == TargetTypes.IdText(sig.targetType) && o == Offsets.OffsetText(sig.offset.value) && b == BodyField(sig.bodySig)
    ensures ParseFields([id, o, b, Num.Dec(min), Num.Dec(max)]) ==
      Ok((sig.targetType, sig.offset.value, sig.bodySig, SigMeta(Some(Util.Inclusive(min, max)))))
  {
    TargetTypes.ParseText(sig.targetType);
    Offsets.RoundTrip(sig.offset.value);
    SigMetas.FlevelTailText(min, max);
    assert [id, o, b, Num.Dec(min), Num.Dec(max)][3..] == [Num.Dec(min), Num.Dec(max)];
  }

  /**
   * The export followed by flevel fields `:min:max` reads back as the same
   * signature, with the flevel range `min..=max` in its metadata.
   */
  lemma FlevelRoundTrip(sig: ExtendedSig, min: nat, max: nat)
    requires Readable(sig) && min <= Num.U32_MAX && max <= Num.U32_MAX
    ensures Exportable(sig)
    ensures Parse(ExportText(sig) + ":" + Num.Dec(min) + ":" + Num.Dec(max)) ==
      Ok((sig, SigMeta(Some(Util.Inclusive(min, max)))))
  {
    var n := sig.name.value;
    var id := TargetTypes.IdText(sig.targetType);
    var o := Offsets.OffsetText(sig.offset.value);
    var b := BodyField(sig.bodySig);
    var lo, hi := Num.Dec(min), Num.Dec(max);
    ExportFields(sig);
    JoinSix(n, id, o, b, lo, hi);
    Num.AllDigitsAscii(id);
    DigitsHaveNo(id, ':');
    DigitsHaveNo(lo, ':');
    DigitsHaveNo(hi, ':');
    SplitJoin([n, id, o, b, lo, hi], ':');
    assert [n, id, o, b, lo, hi][1..] == [id, o, b, lo, hi];
    FlevelFields(sig, id, o, b, min, max);
  }

  import Hex
  import BodySigRoundTrip
}
