/**
 * Logical signatures (src/signature/logical_sig.rs): the `.ldb` record
 * `Name;TargetDescriptionBlock;LogicalExpression;Subsig0;Subsig1;...`,
 * read field by field, validated, and written back.
 */
module LogicalSigs {
  import opened Wrappers
  import opened ByteStr
  import Utf8
  import Util
  import Num
  import Collect
  import Features
  import TypeNames
  import FileTypes
  import TargetDescs
  import LogicalExpr
  import ExprRoundTrip
  import SubSigModifiers
  import SubSigs
  import ExtSigs
  import FuzzyImgs
  import BodySigs
  import Offsets
  import SigBytes
  import SigMetas

  /** `LogicalSig`. */
  datatype LogicalSig = LogicalSig(
    name: Bytes,
    targetDesc: TargetDescs.TargetDesc,
    expression: LogicalExpr.Element,
    subSigs: seq<SubSigs.SubSig>)

  /**
   * `logical_sig::ParseError`. `Empty` and `BodySigParse` are never
   * produced and are left out. The expression parser's panics are kept as
   * an outcome of their own.
   */
  datatype ParseError =
    | MissingTargetDesc
    | TargetDesc(tdErr: TargetDescs.ParseError)
    | MissingExpression
    | LogExprParse(exprErr: LogicalExpr.ParseError)
    | ExpressionPanicked(panic: LogicalExpr.Panic)
    | SubSigParse(idx: nat, subErr: SubSigs.ParseError)

  type ParseResult = Result<(LogicalSig, SigMetas.SigMeta), SigMetas.FromSigBytesParseError<ParseError>>

  // --------------------------------------------------------------- parsing

  /** One sub-signature field: its `::` modifier cut off, then the dispatcher. */
  function ParseField(field: Bytes, pcre: Bytes -> SubSigs.PcreVerdict): Result<SubSigs.SubSig, SubSigs.ParseError>
  {
    var (modifier, rest) := SubSigModifiers.FindModifierSpec(field);
    SubSigs.Parse(rest, modifier, pcre)
  }

  function FieldParser(pcre: Bytes -> SubSigs.PcreVerdict): Bytes -> Result<SubSigs.SubSig, SubSigs.ParseError>
  {
    field => ParseField(field, pcre)
  }

  /**
   * The sub-signature fields, numbered from `base`: every field parsed in
   * order, or the first failure with its number.
   */
  function ParseSubSigs(fields: seq<Bytes>, base: nat, parse: Bytes -> Result<SubSigs.SubSig, SubSigs.ParseError>)
    : (r: Result<seq<SubSigs.SubSig>, ParseError>)
    ensures r.Ok? ==> |r.value| == |fields| && forall k :: 0 <= k < |fields| ==> parse(fields[k]) == Ok(r.value[k])
    ensures r.Err? ==> r.error.SubSigParse? && base <= r.error.idx < base + |fields| &&
                       parse(fields[r.error.idx - base]) == Err(r.error.subErr) &&
                       forall j :: 0 <= j < r.error.idx - base ==> parse(fields[j]).Ok?
    decreases |fields|
  {
    if |fields| == 0 then Ok([])
    else match parse(fields[0])
      case Err(e) => Err(SubSigParse(base, e))
      case Ok(s) =>
        match ParseSubSigs(fields[1..], base + 1, parse)
        case Err(e) =>
          assert fields[e.idx - base] == fields[1..][e.idx - base - 1];
          assert forall j :: 1 <= j < e.idx - base ==> fields[j] == fields[1..][j - 1];
          Err(e)
        case Ok(rest) =>
          assert forall k :: 1 <= k < |fields| ==> fields[k] == fields[1..][k - 1];
          Ok([s] + rest)
  }

  /** The range of the first Engine attribute that holds an inclusive range. */
  function FirstInclusiveEngine(attrs: seq<TargetDescs.Attr>): (r: Option<Util.Range>)
    ensures r.Some? ==> r.value.Inclusive?
    ensures r.Some? ==> exists k :: 0 <= k < |attrs| && attrs[k] == TargetDescs.Engine(r.value) &&
                                    forall j :: 0 <= j < k ==> !(attrs[j].Engine? && attrs[j].range.Inclusive?)
    ensures r.None? ==> forall k :: 0 <= k < |attrs| ==> !(attrs[k].Engine? && attrs[k].range.Inclusive?)
    decreases |attrs|
  {
    if |attrs| == 0 then None
    else if attrs[0].Engine? && attrs[0].range.Inclusive? then Some(attrs[0].range)
    else
      var r := FirstInclusiveEngine(attrs[1..]);
      assert forall k :: 1 <= k < |attrs| ==> attrs[k] == attrs[1..][k - 1];
      assert r.Some? ==> exists k :: 0 <= k < |attrs| && attrs[k] == TargetDescs.Engine(r.value) &&
                                     forall j :: 0 <= j < k ==> !(attrs[j].Engine? && attrs[j].range.Inclusive?) by {
        if r.Some? {
          var k :| 0 <= k < |attrs[1..]| && attrs[1..][k] == TargetDescs.Engine(r.value) &&
            forall j :: 0 <= j < k ==> !(attrs[1..][j].Engine? && attrs[1..][j].range.Inclusive?);
          assert attrs[k + 1] == attrs[1..][k];
        }
      }
      r
  }

  /** The fields after the name: the target description block, the expression, the sub-signatures. */
  function ParseRest(tbl: TypeNames.Table, rest: seq<Bytes>, pcre: Bytes -> SubSigs.PcreVerdict)
    : (r: Result<(TargetDescs.TargetDesc, LogicalExpr.Element, seq<SubSigs.SubSig>), ParseError>)
    ensures r == Err(MissingTargetDesc) <==> |rest| == 0
    ensures r == Err(MissingExpression) <==> |rest| == 1 && TargetDescs.ParseSpec(tbl, rest[0]).Ok?
    ensures r.Ok? ==> |rest| >= 2 && TargetDescs.ParseSpec(tbl, rest[0]) == Ok(r.value.0) &&
                      LogicalExpr.Parse(rest[1]) == Ok(r.value.1) && ParseSubSigs(rest[2..], 0, FieldParser(pcre)) == Ok(r.value.2)
  {
    if |rest| == 0 then Err(MissingTargetDesc)
    else match TargetDescs.ParseSpec(tbl, rest[0])
      case Err(e) => Err(TargetDesc(e))
      case Ok(td) =>
        if |rest| == 1 then Err(MissingExpression)
        else match LogicalExpr.Parse(rest[1])
          case Err(f) => if f.Error? then Err(LogExprParse(f.err)) else Err(ExpressionPanicked(f.panic))
          case Ok(expr) =>
            match ParseSubSigs(rest[2..], 0, FieldParser(pcre))
            case Err(e) => Err(e)
            case Ok(subs) => Ok((td, expr, subs))
  }

  /**
   * `from_sigbytes`: the record split on `;`; the name must be UTF-8. The
   * metadata's flevel is the first inclusive Engine range of the block.
   */
  function ParseSpec(tbl: TypeNames.Table, data: Bytes, pcre: Bytes -> SubSigs.PcreVerdict): (r: ParseResult)
    ensures r == Err(SigMetas.NameNotUnicode) <==> !Utf8.IsValid(Split(data, ';')[0])
    ensures r.Ok? ==> r.value.0.name == Split(data, ';')[0] &&
                      r.value.1 == SigMetas.SigMeta(FirstInclusiveEngine(r.value.0.targetDesc.attrs))
  {
    var fields := Split(data, ';');
    if !Utf8.IsValid(fields[0]) then Err(SigMetas.NameNotUnicode)
    else match ParseRest(tbl, fields[1..], pcre)
      case Err(e) => Err(SigMetas.Specific(e))
      case Ok((td, expr, subs)) =>
        Ok((LogicalSig(fields[0], td, expr, subs), SigMetas.SigMeta(FirstInclusiveEngine(td.attrs))))
  }

  /** The run of the sub-signature fields from field `i`, by its first step. */
  lemma ParseSubSigsStep(fields: seq<Bytes>, i: nat, parse: Bytes -> Result<SubSigs.SubSig, SubSigs.ParseError>)
    requires i < |fields|
    ensures ParseSubSigs(fields[i..], i, parse) ==
      match parse(fields[i])
      case Err(e) => Err(SubSigParse(i, e))
      case Ok(s) => Collect.Prepend([s], ParseSubSigs(fields[i + 1..], i + 1, parse))
  {
    assert fields[i..][0] == fields[i];
    assert fields[i..][1..] == fields[i + 1..];
  }

  /**
   * The loop of `from_sigbytes` over the sub-signature fields: each field's
   * modifier cut off, the rest parsed and pushed; the first failure is
   * returned with the field's number.
   */
  method ParseSubSigFields(rest: seq<Bytes>, pcre: Bytes -> SubSigs.PcreVerdict) returns (r: Result<seq<SubSigs.SubSig>, ParseError>)
    ensures r == ParseSubSigs(rest, 0, FieldParser(pcre))
  {
    var subs: seq<SubSigs.SubSig> := [];
    var i := 0;
    var parse := FieldParser(pcre);
    Collect.PrependNil(ParseSubSigs(rest, 0, parse));
    assert rest[i..] == rest;
    while i < |rest|
      invariant 0 <= i <= |rest|
      invariant ParseSubSigs(rest, 0, parse) == Collect.Prepend(subs, ParseSubSigs(rest[i..], i, parse))
    {
      ParseSubSigsStep(rest, i, parse);
      var modifier, body := SubSigModifiers.FindModifier(rest[i]);
      var s := SubSigs.Parse(body, modifier, pcre);
      assert parse(rest[i]) == s;
      if s.Err? {
        return Err(SubSigParse(i, s.error));
      }
      Collect.PrependAssoc(subs, [s.value], ParseSubSigs(rest[i + 1..], i + 1, parse));
      subs := subs + [s.value];
      i := i + 1;
    }
    assert rest[i..] == [];
    Collect.PrependNil<SubSigs.SubSig, ParseError>(Ok(subs));
    r := Ok(subs);
  }

  /**
   * `from_sigbytes` as the source runs it: the block and expression
   * parsers, then a loop that cuts each field's modifier off, parses it and
   * pushes it, returning the first failure with the field's number.
   */
  method FromSigBytes(tbl: TypeNames.Table, data: Bytes, pcre: Bytes -> SubSigs.PcreVerdict) returns (r: ParseResult)
    ensures r == ParseSpec(tbl, data, pcre)
  {
    var fields := Split(data, ';');
    if !Utf8.IsValid(fields[0]) {
      return Err(SigMetas.NameNotUnicode);
    }
    if |fields| < 2 {
      return Err(SigMetas.Specific(MissingTargetDesc));
    }
    var td := TargetDescs.Parse(tbl, fields[1]);
    if td.Err? {
      return Err(SigMetas.Specific(TargetDesc(td.error)));
    }
    if |fields| < 3 {
      return Err(SigMetas.Specific(MissingExpression));
    }
    var expr := LogicalExpr.TryFrom(fields[2]);
    if expr.Err? {
      match expr.error {
        case Error(e) => return Err(SigMetas.Specific(LogExprParse(e)));
        case Panicked(p) => return Err(SigMetas.Specific(ExpressionPanicked(p)));
      }
    }
    var rest := fields[3..];
    assert fields[1..][2..] == rest;
    var subs := ParseSubSigFields(rest, pcre);
    if subs.Err? {
      return Err(SigMetas.Specific(subs.error));
    }
    var meta := SigMetas.SigMeta(FirstInclusiveEngine(td.value.attrs));
    r := Ok((LogicalSig(fields[0], td.value, expr.value, subs.value), meta));
  }

  /**
   * A failing sub-signature is reported with its zero-based number among
   * the sub-signature fields, and every field before it parses.
   */
  lemma SubSigErrorIndex(tbl: TypeNames.Table, data: Bytes, pcre: Bytes -> SubSigs.PcreVerdict)
    requires ParseSpec(tbl, data, pcre).Err? && ParseSpec(tbl, data, pcre).error.Specific?
    requires ParseSpec(tbl, data, pcre).error.e.SubSigParse?
    ensures var fields, err := Split(data, ';'), ParseSpec(tbl, data, pcre).error.e;
      3 + err.idx < |fields| && ParseField(fields[3 + err.idx], pcre) == Err(err.subErr) &&
      forall j :: 3 <= j < 3 + err.idx ==> ParseField(fields[j], pcre).Ok?
  {
    var fields := Split(data, ';');
    var rest := fields[1..];
    var err := ParseSpec(tbl, data, pcre).error.e;
    assert ParseRest(tbl, rest, pcre) == Err(err);
    RestSubSigError(tbl, rest, pcre);
    assert rest[2..] == fields[3..];
    ShiftIndex(fields, err, pcre);
  }

  /** A failing sub-signature is the failure of the sub-signature fields. */
  lemma RestSubSigError(tbl: TypeNames.Table, rest: seq<Bytes>, pcre: Bytes -> SubSigs.PcreVerdict)
    requires ParseRest(tbl, rest, pcre).Err? && ParseRest(tbl, rest, pcre).error.SubSigParse?
    ensures |rest| >= 2 && ParseSubSigs(rest[2..], 0, FieldParser(pcre)) == Err(ParseRest(tbl, rest, pcre).error)
  {
  }

  /** The number of a failing sub-signature, counted from the fourth field. */
  lemma ShiftIndex(fields: seq<Bytes>, err: ParseError, pcre: Bytes -> SubSigs.PcreVerdict)
    requires |fields| >= 3 && ParseSubSigs(fields[3..], 0, FieldParser(pcre)) == Err(err)
    ensures err.SubSigParse? && 3 + err.idx < |fields| && ParseField(fields[3 + err.idx], pcre) == Err(err.subErr) &&
      forall j :: 3 <= j < 3 + err.idx ==> ParseField(fields[j], pcre).Ok?
  {
    assert forall j :: 3 <= j < |fields| ==> fields[j] == fields[3..][j - 3];
  }

  /** The parser only makes inclusive Engine ranges, so the flevel is that of the first Engine attribute. */
  lemma FlevelIsFirstEngine(tbl: TypeNames.Table, data: Bytes, pcre: Bytes -> SubSigs.PcreVerdict)
    requires ParseSpec(tbl, data, pcre).Ok?
    ensures var (sig, meta) := ParseSpec(tbl, data, pcre).value;
      var attrs := sig.targetDesc.attrs;
      TargetDescs.EnginesInclusive(attrs) &&
      (TargetDescs.FirstEngine(attrs).None? ==> meta.fLevel.None?) &&
      (TargetDescs.FirstEngine(attrs).Some? ==> meta.fLevel == Some(attrs[TargetDescs.FirstEngine(attrs).value].range))
  {
    var fields := Split(data, ';');
    TargetDescs.ParsedEnginesInclusive(tbl, fields[1..][0]);
  }

  // ------------------------------------------------------------ validation

  /** The extended sub-signatures from number `i` on, each validated with the record's metadata. */
  function ValidateExtendedFrom(subs: seq<SubSigs.SubSig>, i: nat, meta: SigMetas.SigMeta, minFlevel: Features.Feature -> nat)
    : Result<(), SigMetas.SigValidationError>
    decreases |subs| - i
  {
    if i >= |subs| then Ok(())
    else if subs[i].Extended? && ExtSigs.Validate(subs[i].ext, meta, minFlevel).Err? then
      Err(SigMetas.LogicalSig(SigMetas.SubSig(i, ExtSigs.Validate(subs[i].ext, meta, minFlevel).error)))
    else ValidateExtendedFrom(subs, i + 1, meta, minFlevel)
  }

  /** `validate_subelements`: the block first, then each extended sub-signature with its number. */
  function ValidateSubelementsSpec(sig: LogicalSig, meta: SigMetas.SigMeta, minFlevel: Features.Feature -> nat)
    : Result<(), SigMetas.SigValidationError>
    requires TargetDescs.EnginesInclusive(sig.targetDesc.attrs)
  {
    match TargetDescs.ValidateSpec(sig.targetDesc)
    case Err(e) => Err(SigMetas.LogicalSig(SigMetas.TargetDesc(e)))
    case Ok(_) => ValidateExtendedFrom(sig.subSigs, 0, meta, minFlevel)
  }

  /** `validate_subelements` as the source runs it, a loop over the sub-signatures. */
  method ValidateSubelements(sig: LogicalSig, meta: SigMetas.SigMeta, minFlevel: Features.Feature -> nat)
    returns (r: Result<(), SigMetas.SigValidationError>)
    requires TargetDescs.EnginesInclusive(sig.targetDesc.attrs)
    ensures r == ValidateSubelementsSpec(sig, meta, minFlevel)
  {
    var td := TargetDescs.Validate(sig.targetDesc);
    if td.Err? {
      return Err(SigMetas.LogicalSig(SigMetas.TargetDesc(td.error)));
    }
    var i := 0;
    while i < |sig.subSigs|
      invariant 0 <= i <= |sig.subSigs|
      invariant ValidateSubelementsSpec(sig, meta, minFlevel) == ValidateExtendedFrom(sig.subSigs, i, meta, minFlevel)
    {
      var s := sig.subSigs[i];
      ExtendedFromStep(sig.subSigs, i, meta, minFlevel);
      if s.Extended? {
        var v := ExtSigs.Validate(s.ext, meta, minFlevel);
        if v.Err? {
          return Err(SigMetas.LogicalSig(SigMetas.SubSig(i, v.error)));
        }
      }
      i := i + 1;
    }
    r := Ok(());
  }

  /** One step of the check: sub-signature `i` fails with its number, or the rest decides. */
  lemma ExtendedFromStep(subs: seq<SubSigs.SubSig>, i: nat, meta: SigMetas.SigMeta, minFlevel: Features.Feature -> nat)
    requires i < |subs|
    ensures subs[i].Extended? && ExtSigs.Validate(subs[i].ext, meta, minFlevel).Err? ==>
      ValidateExtendedFrom(subs, i, meta, minFlevel) ==
        Err(SigMetas.LogicalSig(SigMetas.SubSig(i, ExtSigs.Validate(subs[i].ext, meta, minFlevel).error)))
    ensures !(subs[i].Extended? && ExtSigs.Validate(subs[i].ext, meta, minFlevel).Err?) ==>
      ValidateExtendedFrom(subs, i, meta, minFlevel) == ValidateExtendedFrom(subs, i + 1, meta, minFlevel)
  {
  }

  /** No extended sub-signature ever fails, whatever the metadata. */
  lemma {:induction false} ExtendedNeverFail(subs: seq<SubSigs.SubSig>, i: nat, meta: SigMetas.SigMeta, minFlevel: Features.Feature -> nat)
    ensures ValidateExtendedFrom(subs, i, meta, minFlevel) == Ok(())
    decreases |subs| - i
  {
    if i < |subs| {
      if subs[i].Extended? {
        ExtSigs.AlwaysValid(subs[i].ext, meta, minFlevel);
      }
      ExtendedNeverFail(subs, i + 1, meta, minFlevel);
    }
  }

  /** So only the block can make the sub-element check fail, and its error is reported as the block's. */
  lemma SubelementsAreTargetDesc(sig: LogicalSig, meta: SigMetas.SigMeta, minFlevel: Features.Feature -> nat)
    requires TargetDescs.EnginesInclusive(sig.targetDesc.attrs)
    ensures ValidateSubelementsSpec(sig, meta, minFlevel).Ok? <==> TargetDescs.ValidateSpec(sig.targetDesc).Ok?
    ensures TargetDescs.ValidateSpec(sig.targetDesc).Err? ==>
      ValidateSubelementsSpec(sig, meta, minFlevel) ==
        Err(SigMetas.LogicalSig(SigMetas.TargetDesc(TargetDescs.ValidateSpec(sig.targetDesc).error)))
  {
    ExtendedNeverFail(sig.subSigs, 0, meta, minFlevel);
  }

  // -------------------------------------------------------------- features

  /** The features of a PCRE sub-signature come from the PCRE parser; other kinds need none from it. */
  function PcreFeaturesOf(s: SubSigs.SubSig, pcreFeatures: Bytes -> Features.FeatureSet): Features.FeatureSet
  {
    if s.Pcre? then pcreFeatures(s.text) else Features.NoFeatures
  }

  function SubSigFeatures(s: SubSigs.SubSig, pcreFeatures: Bytes -> Features.FeatureSet): seq<Features.Feature>
  {
    Features.Items(SubSigs.SubSigFeatures(s, PcreFeaturesOf(s, pcreFeatures)))
  }

  /** The features of the sub-signatures, one after the other. */
  function SubSigsFeatures(subs: seq<SubSigs.SubSig>, pcreFeatures: Bytes -> Features.FeatureSet): (r: seq<Features.Feature>)
    ensures forall f :: f in r <==> exists k :: 0 <= k < |subs| && f in SubSigFeatures(subs[k], pcreFeatures)
    decreases |subs|
  {
    if |subs| == 0 then []
    else
      var rest := SubSigsFeatures(subs[1..], pcreFeatures);
      assert forall k :: 1 <= k < |subs| ==> subs[k] == subs[1..][k - 1];
      assert forall f :: f in rest ==> exists k :: 0 <= k < |subs| && f in SubSigFeatures(subs[k], pcreFeatures) by {
        forall f | f in rest ensures exists k :: 0 <= k < |subs| && f in SubSigFeatures(subs[k], pcreFeatures) {
          var j :| 0 <= j < |subs[1..]| && f in SubSigFeatures(subs[1..][j], pcreFeatures);
          assert subs[j + 1] == subs[1..][j];
        }
      }
      SubSigFeatures(subs[0], pcreFeatures) + rest
  }

  /** `features`: what the sub-signatures need, then what the block needs, and nothing else. */
  function SigFeatures(sig: LogicalSig, pcreFeatures: Bytes -> Features.FeatureSet, ftFeatures: FileTypes.FileType -> seq<Features.Feature>)
    : (r: Features.FeatureSet)
    ensures r.Built?
    ensures forall f :: f in Features.Items(r) <==>
      (exists k :: 0 <= k < |sig.subSigs| && f in SubSigFeatures(sig.subSigs[k], pcreFeatures)) ||
      f in Features.Items(TargetDescs.TargetDescFeatures(sig.targetDesc, ftFeatures))
  {
    Features.Built(SubSigsFeatures(sig.subSigs, pcreFeatures) +
                   Features.Items(TargetDescs.TargetDescFeatures(sig.targetDesc, ftFeatures)))
  }

  /** A byte-compare sub-signature brings its feature, and so does a fuzzy image. */
  lemma KindFeatures(sig: LogicalSig, k: nat, pcreFeatures: Bytes -> Features.FeatureSet, ftFeatures: FileTypes.FileType -> seq<Features.Feature>)
    requires k < |sig.subSigs|
    ensures sig.subSigs[k].ByteCmp? ==> Features.ByteCompareMin in Features.Items(SigFeatures(sig, pcreFeatures, ftFeatures))
    ensures sig.subSigs[k].FuzzyImg? ==> Features.FuzzyImageMin in Features.Items(SigFeatures(sig, pcreFeatures, ftFeatures))
  {
    var s := sig.subSigs[k];
    if !s.Pcre? {
      SubSigs.FeaturesOfKinds(s, PcreFeaturesOf(s, pcreFeatures));
    }
  }

  /** `Signature::validate` of a logical signature: the sub-element check, then the flevel check. */
  function Validate(sig: LogicalSig, meta: SigMetas.SigMeta, minFlevel: Features.Feature -> nat,
                    pcreFeatures: Bytes -> Features.FeatureSet, ftFeatures: FileTypes.FileType -> seq<Features.Feature>)
    : Result<(), SigMetas.SigValidationError>
    requires TargetDescs.EnginesInclusive(sig.targetDesc.attrs)
  {
    SigMetas.Validate(ValidateSubelementsSpec(sig, meta, minFlevel),
                      SigMetas.ValidateFeatureFlevel(SigFeatures(sig, pcreFeatures, ftFeatures), minFlevel, meta))
  }

  /**
   * A logical signature is valid exactly when its block is, and it needs
   * no feature or declares a minimum flevel no lower than each feature's.
   */
  lemma ValidateMeaning(sig: LogicalSig, meta: SigMetas.SigMeta, minFlevel: Features.Feature -> nat,
                        pcreFeatures: Bytes -> Features.FeatureSet, ftFeatures: FileTypes.FileType -> seq<Features.Feature>)
    requires TargetDescs.EnginesInclusive(sig.targetDesc.attrs)
    ensures var fs := Features.Items(SigFeatures(sig, pcreFeatures, ftFeatures));
      Validate(sig, meta, minFlevel, pcreFeatures, ftFeatures).Ok? <==>
        TargetDescs.ValidateSpec(sig.targetDesc).Ok? &&
        (|fs| == 0 ||
         (meta.fLevel.Some? && Util.Start(meta.fLevel.value).Some? &&
          forall k :: 0 <= k < |fs| ==> minFlevel(fs[k]) <= Util.Start(meta.fLevel.value).value))
  {
    SubelementsAreTargetDesc(sig, meta, minFlevel);
    SigMetas.ValidateFeatureFlevelMeaning(SigFeatures(sig, pcreFeatures, ftFeatures), minFlevel, meta);
  }

  /**
   * A declared minimum below what one feature needs is refused as too low
   * (a PCRE sub-signature under `Engine:80-255` when PCRE needs 81).
   */
  lemma DeclaredFlevelTooLow(sig: LogicalSig, lo: nat, hi: nat, f: Features.Feature, minFlevel: Features.Feature -> nat,
                             pcreFeatures: Bytes -> Features.FeatureSet, ftFeatures: FileTypes.FileType -> seq<Features.Feature>)
    requires TargetDescs.EnginesInclusive(sig.targetDesc.attrs) && TargetDescs.ValidateSpec(sig.targetDesc).Ok?
    requires f in Features.Items(SigFeatures(sig, pcreFeatures, ftFeatures)) && minFlevel(f) > lo
    ensures var r := Validate(sig, SigMetas.SigMeta(Some(Util.Inclusive(lo, hi))), minFlevel, pcreFeatures, ftFeatures);
      r.Err? && r.error.SpecifiedMinFLevelTooLow? && r.error.specMinFlevel == lo &&
      r.error.computedMinFlevel >= minFlevel(f) &&
      r.error.featureSet == Features.Items(SigFeatures(sig, pcreFeatures, ftFeatures))
  {
    var meta := SigMetas.SigMeta(Some(Util.Inclusive(lo, hi)));
    var fs := SigFeatures(sig, pcreFeatures, ftFeatures);
    SubelementsAreTargetDesc(sig, meta, minFlevel);
    SigMetas.ValidateFeatureFlevelMeaning(fs, minFlevel, meta);
    var i :| 0 <= i < |Features.Items(fs)| && Features.Items(fs)[i] == f;
    assert Features.MaxLevel(Features.Items(fs), minFlevel).Some?;
  }

  // ------------------------------------------------------------- exporting

  /**
   * What the exporter can write: an extended sub-signature whose body has a
   * text, or a fuzzy image. The macro and byte-compare exporters are not
   * written in the source, and the PCRE one is not part of this model.
   */
  predicate Exportable(s: SubSigs.SubSig)
  {
    (s.Extended? && ExtSigs.Exportable(s.ext)) || s.FuzzyImg?
  }

  function ModifierSuffix(m: SubSigs.Modifier): Bytes
  {
    if m.Some? then "::" + SubSigModifiers.ModifierText(m.value) else []
  }

  /**
   * One sub-signature as the record writes it: an extended one as its
   * offset, `:` and body, then `::` and its modifier; a fuzzy image as its
   * own export, which writes no modifier.
   */
  function SubSigText(s: SubSigs.SubSig): Bytes
    requires Exportable(s)
  {
    if s.Extended? then SubSigs.ExtendedText(s.ext) + ModifierSuffix(s.ext.modifier)
    else FuzzyImgs.ExportText(s.fuzzyImg)
  }

  function SubSigPrinter(): SubSigs.SubSig -> Bytes
  {
    s => if Exportable(s) then SubSigText(s) else []
  }

  /**
   * One sub-signature as the source writes it: an extended one with its
   * body's strings short of their right-side flags, a fuzzy image with its
   * distance glued to the hash.
   */
  function SubSigTextAsWritten(s: SubSigs.SubSig): Bytes
    requires Exportable(s)
  {
    if s.Extended? then SubSigs.ExtendedTextAsWritten(s.ext) + ModifierSuffix(s.ext.modifier)
    else FuzzyImgs.ExportTextAsWritten(s.fuzzyImg)
  }

  function SubSigPrinterAsWritten(): SubSigs.SubSig -> Bytes
  {
    s => if Exportable(s) then SubSigTextAsWritten(s) else []
  }

  /**
   * A sub-signature the two exporters write alike: no fuzzy image with a
   * distance, and no string with right-side flags in an extended body.
   */
  predicate WrittenAlike(s: SubSigs.SubSig)
  {
    && (s.FuzzyImg? ==> !(s.fuzzyImg.hammingDistance.Some? && s.fuzzyImg.hammingDistance.value >= 0))
    && (s.Extended? && s.ext.bodySig.Some? ==> BodySigs.NoRightFlags(s.ext.bodySig.value))
  }

  /** Each sub-signature is written alike by both exporters exactly when it is `WrittenAlike`. */
  lemma SubSigAsWrittenAgrees(s: SubSigs.SubSig)
    requires Exportable(s)
    ensures SubSigTextAsWritten(s) == SubSigText(s) <==> WrittenAlike(s)
  {
    if s.Extended? {
      SubSigs.ExtendedAsWrittenAgrees(s.ext);
      var m := ModifierSuffix(s.ext.modifier);
      var a, b := SubSigs.ExtendedTextAsWritten(s.ext), SubSigs.ExtendedText(s.ext);
      if a + m == b + m {
        assert a == (a + m)[..|a|] && b == (b + m)[..|b|];
      }
    } else {
      var f := s.fuzzyImg;
      if f.hammingDistance.Some? && f.hammingDistance.value >= 0 {
        var d := Num.Dec(f.hammingDistance.value);
        var h := FuzzyImgs.PREFIX + "#" + f.hashString;
        assert FuzzyImgs.ExportTextAsWritten(f) == h + d;
        assert FuzzyImgs.ExportText(f) == h + ("#" + d);
        assert |FuzzyImgs.ExportTextAsWritten(f)| < |FuzzyImgs.ExportText(f)|;
      }
    }
  }

  /** The name, the block and the expression, the fields every record has. */
  function HeadFields(tbl: TypeNames.Table, sig: LogicalSig): seq<Bytes>
  {
    [sig.name, TargetDescs.ExportText(tbl, sig.targetDesc), LogicalExpr.ElementText(sig.expression)]
  }

  /** The record with a `;` before each sub-signature and none after the expression when there is none. */
  function ExportText(tbl: TypeNames.Table, sig: LogicalSig): Bytes
  {
    Join(HeadFields(tbl, sig) + Collect.Map(SubSigPrinter(), sig.subSigs), ';')
  }

  /** `append_sigbytes` as the source writes it: `;` after the expression always, then the sub-signatures joined by `;`. */
  function ExportTextAsWritten(tbl: TypeNames.Table, sig: LogicalSig): Bytes
  {
    sig.name + ";" + TargetDescs.ExportTextAsWritten(tbl, sig.targetDesc) + ";" + LogicalExpr.ElementText(sig.expression) + ";" +
    Join(Collect.Map(SubSigPrinterAsWritten(), sig.subSigs), ';')
  }

  /** Three head fields and the rest joined by `;`: the rest, if any, after a `;`. */
  lemma {:induction false} JoinHead(a: Bytes, b: Bytes, c: Bytes, ts: seq<Bytes>)
    ensures Join([a, b, c] + ts, ';') == a + ";" + b + ";" + c + (if |ts| == 0 then [] else ";" + Join(ts, ';'))
  {
    assert [a, b, c] + ts == [a] + ([b] + ([c] + ts));
    if |ts| > 0 {
      JoinCons(c, ts, ';');
    } else {
      assert [c] + ts == [c];
    }
    JoinCons(b, [c] + ts, ';');
    JoinCons(a, [b] + ([c] + ts), ';');
  }

  /**
   * The two agree on every record with at least one sub-signature, no
   * `Intermediates` attribute in its block, no fuzzy image with a distance
   * and no body string with right-side flags.
   */
  lemma AsWrittenAgrees(tbl: TypeNames.Table, sig: LogicalSig)
    requires |sig.subSigs| >= 1 && TargetDescs.NoIntermediates(sig.targetDesc)
    requires forall k :: 0 <= k < |sig.subSigs| ==> WrittenAlike(sig.subSigs[k])
    ensures ExportTextAsWritten(tbl, sig) == ExportText(tbl, sig)
  {
    TargetDescs.ExportAsWrittenAgrees(tbl, sig.targetDesc);
    var h := HeadFields(tbl, sig);
    var ts := Collect.Map(SubSigPrinter(), sig.subSigs);
    assert Collect.Map(SubSigPrinterAsWritten(), sig.subSigs) == ts by {
      forall k | 0 <= k < |sig.subSigs| ensures SubSigPrinterAsWritten()(sig.subSigs[k]) == SubSigPrinter()(sig.subSigs[k]) {
        if Exportable(sig.subSigs[k]) {
          SubSigAsWrittenAgrees(sig.subSigs[k]);
        }
      }
    }
    JoinHead(h[0], h[1], h[2], ts);
    assert h == [h[0], h[1], h[2]];
  }

  /** One sub-signature written piece by piece, as the loop body of `append_sigbytes` does. */
  method AppendSubSig(sb: SigBytes.SigBytes, s: SubSigs.SubSig)
    requires Exportable(s)
    modifies sb
    ensures sb.bytes == old(sb.bytes) + SubSigText(s)
  {
    if s.FuzzyImg? {
      sb.Write(FuzzyImgs.ExportText(s.fuzzyImg));
      return;
    }
    var e := s.ext;
    AppendExtended(sb, e);
    if e.modifier.Some? {
      sb.Write("::" + SubSigModifiers.ModifierText(e.modifier.value));
    }
  }

  /** An extended sub-signature's offset, `:` and body, written piece by piece. */
  method AppendExtended(sb: SigBytes.SigBytes, e: ExtSigs.ExtendedSig)
    requires ExtSigs.Exportable(e)
    modifies sb
    ensures sb.bytes == old(sb.bytes) + SubSigs.ExtendedText(e)
  {
    ghost var start := sb.bytes;
    ghost var w: Bytes := [];
    if e.offset.Some? {
      var o := Offsets.OffsetText(e.offset.value);
      sb.Write(o);
      w := o;
      if e.bodySig.Some? {
        sb.Write(":");
        w := w + ":";
      }
    }
    assert sb.bytes == start + w;
    if e.bodySig.Some? {
      ghost var before := sb.bytes;
      BodySigs.AppendBodySig(sb, e.bodySig.value);
      var bt := BodySigs.BodySigText(e.bodySig.value);
      AppendAssoc(start, w, bt, before, w + bt);
      w := w + bt;
    }
  }

  /** The name, the block and the expression, written with a `;` between them. */
  method AppendHead(tbl: TypeNames.Table, sb: SigBytes.SigBytes, sig: LogicalSig)
    modifies sb
    ensures sb.bytes == old(sb.bytes) + Join(HeadFields(tbl, sig), ';')
  {
    ghost var start := sb.bytes;
    ghost var h := HeadFields(tbl, sig);
    sb.Write(sig.name + ";");
    TargetDescs.AppendSigBytes(tbl, sig.targetDesc, sb);
    sb.Write(";" + LogicalExpr.ElementText(sig.expression));
    assert sb.bytes == start + (h[0] + ";") + h[1] + (";" + h[2]);
    HeadJoined(h, start);
  }

  /** The three head fields joined, as they are written. */
  lemma HeadJoined(h: seq<Bytes>, start: Bytes)
    requires |h| == 3
    ensures start + (h[0] + ";") + h[1] + (";" + h[2]) == start + Join(h, ';')
  {
    JoinHead(h[0], h[1], h[2], []);
    assert h == [h[0], h[1], h[2]] + [];
  }

  /** Writing `;` and the next sub-signature extends the joined fields by that sub-signature. */
  lemma AppendStep(h: seq<Bytes>, subs: seq<SubSigs.SubSig>, i: nat, start: Bytes, cur: Bytes)
    requires |h| > 0 && i < |subs| && Exportable(subs[i])
    requires cur == start + Join(h + Collect.Map(SubSigPrinter(), subs[..i]), ';')
    ensures cur + [';'] + SubSigText(subs[i]) == start + Join(h + Collect.Map(SubSigPrinter(), subs[..i + 1]), ';')
  {
    var done := h + Collect.Map(SubSigPrinter(), subs[..i]);
    JoinAppend(done, SubSigText(subs[i]), start, cur, ';');
    PrintedSnoc(h, subs, i, done);
  }

  /** The fields printed so far, with the next sub-signature's text after them. */
  lemma PrintedSnoc(h: seq<Bytes>, subs: seq<SubSigs.SubSig>, i: nat, done: seq<Bytes>)
    requires i < |subs| && Exportable(subs[i]) && done == h + Collect.Map(SubSigPrinter(), subs[..i])
    ensures done + [SubSigText(subs[i])] == h + Collect.Map(SubSigPrinter(), subs[..i + 1])
  {
    Collect.MapSnoc(SubSigPrinter(), subs, i);
    assert SubSigPrinter()(subs[i]) == SubSigText(subs[i]);
  }

  /** `append_sigbytes`, with a `;` written before each sub-signature. */
  method AppendLogicalSig(tbl: TypeNames.Table, sb: SigBytes.SigBytes, sig: LogicalSig)
    requires forall k :: 0 <= k < |sig.subSigs| ==> Exportable(sig.subSigs[k])
    modifies sb
    ensures sb.bytes == old(sb.bytes) + ExportText(tbl, sig)
  {
    ghost var start := sb.bytes;
    ghost var h := HeadFields(tbl, sig);
    AppendHead(tbl, sb, sig);
    var i := 0;
    assert sig.subSigs[..0] == [];
    assert h + Collect.Map(SubSigPrinter(), sig.subSigs[..0]) == h;
    while i < |sig.subSigs|
      invariant 0 <= i <= |sig.subSigs|
      invariant sb.bytes == start + Join(h + Collect.Map(SubSigPrinter(), sig.subSigs[..i]), ';')
    {
      ghost var cur := sb.bytes;
      sb.Write(";");
      AppendSubSig(sb, sig.subSigs[i]);
      AppendStep(h, sig.subSigs, i, start, cur);
      i := i + 1;
    }
    assert sig.subSigs[..i] == sig.subSigs;
  }

  // ------------------------------------------------------------ round trip

  /**
   * A sub-signature whose text reads back: an extended one with a body
   * that reads back and holds no `#`, `$` or `;`, which the PCRE parser
   * leaves alone; or a valid fuzzy image without a modifier.
   */
  predicate SubSigReadable(s: SubSigs.SubSig, pcre: Bytes -> SubSigs.PcreVerdict)
  {
    match s
    case Extended(e) =>
      SubSigs.PlainBody(e) && ';' !in BodySigs.BodySigText(e.bodySig.value) &&
      pcre(BodySigs.BodySigText(e.bodySig.value)) == SubSigs.PcreRefused(false)
    case FuzzyImg(f) => FuzzyImgs.Valid(f) && f.modifier.None?
    case _ => false
  }

  /** A record whose every field reads back from its text. */
  predicate Readable(tbl: TypeNames.Table, sig: LogicalSig, pcre: Bytes -> SubSigs.PcreVerdict)
  {
    && Utf8.IsValid(sig.name) && ';' !in sig.name
    && TypeNames.WellFormed(tbl) && |sig.targetDesc.attrs| >= 1
    && TargetDescs.AllExportable(tbl, sig.targetDesc.attrs)
    && (forall k :: 0 <= k < |sig.targetDesc.attrs| ==> TargetDescs.IconGroupHasNo(sig.targetDesc.attrs[k], ';'))
    && ExprRoundTrip.Canonical(sig.expression)
    && (forall k :: 0 <= k < |sig.subSigs| ==> SubSigReadable(sig.subSigs[k], pcre))
  }

  /** An expression's display holds no `;`. */
  lemma {:induction false} ElementTextHasNo(e: LogicalExpr.Element)
    ensures ';' !in LogicalExpr.ElementText(e)
    decreases e, 1
  {
    match e
    case SigIndex(op, idx, m) =>
      DigitsHaveNo(Num.Dec(idx), ';');
      ModifierTextHasNo(m);
    case Expr(d, op, es, m) =>
      ElementsTextHasNo(es);
      ModifierTextHasNo(m);
  }

  lemma {:induction false} ElementsTextHasNo(es: seq<LogicalExpr.Element>)
    ensures ';' !in LogicalExpr.ElementsText(es)
    decreases es, 0
  {
    if |es| > 0 {
      ElementTextHasNo(es[0]);
      ElementsTextHasNo(es[1..]);
    }
  }

  lemma ModifierTextHasNo(m: Option<LogicalExpr.Modifier>)
    ensures ';' !in LogicalExpr.ModifierText(m)
  {
    if m.Some? {
      DigitsHaveNo(Num.Dec(m.value.matchReq), ';');
      if m.value.matchUniq.Some? {
        DigitsHaveNo(Num.Dec(m.value.matchUniq.value), ';');
      }
    }
  }

  /** An offset, `:` and a body, neither holding `:`, have no two `:` in a row. */
  lemma OneColon(ot: Bytes, body: Bytes)
    requires ':' !in ot && ':' !in body
    ensures var t := ot + [':'] + body;
      forall k :: 0 < k < |t| && t[k] == ':' ==> t[k - 1] != ':'
  {
    var t := ot + [':'] + body;
    assert forall j :: 0 <= j < |ot| ==> t[j] == ot[j];
    assert forall j :: |ot| < j < |t| ==> t[j] == body[j - |ot| - 1];
    assert forall k :: 0 <= k < |t| && t[k] == ':' ==> k == |ot|;
  }

  /** An extended sub-signature's text has no two `:` in a row and no `;`. */
  lemma ExtendedTextShape(e: ExtSigs.ExtendedSig)
    requires SubSigs.PlainBody(e) && ';' !in BodySigs.BodySigText(e.bodySig.value)
    ensures ExtSigs.Exportable(e)
    ensures var t := SubSigs.ExtendedText(e);
      ';' !in t && forall k :: 0 < k < |t| && t[k] == ':' ==> t[k - 1] != ':'
  {
    var body := BodySigs.BodySigText(e.bodySig.value);
    SubSigs.ExtendedTextParts(e);
    if e.offset.Some? {
      var ot := Offsets.OffsetText(e.offset.value);
      Offsets.OffsetTextHasNo(e.offset.value, ':');
      Offsets.OffsetTextHasNo(e.offset.value, ';');
      OneColon(ot, body);
    }
  }

  /** An extended sub-signature's field reads back. */
  lemma ExtendedFieldRoundTrip(e: ExtSigs.ExtendedSig, pcre: Bytes -> SubSigs.PcreVerdict)
    requires SubSigReadable(SubSigs.Extended(e), pcre)
    ensures Exportable(SubSigs.Extended(e))
    ensures ';' !in SubSigText(SubSigs.Extended(e))
    ensures ParseField(SubSigText(SubSigs.Extended(e)), pcre) == Ok(SubSigs.Extended(e))
  {
    ExtendedTextShape(e);
    var t := SubSigs.ExtendedText(e);
    SubSigs.ExtendedRoundTrip(e, pcre);
    ModifierSuffixHasNo(e.modifier);
    var field := SubSigText(SubSigs.Extended(e));
    assert field == t + ModifierSuffix(e.modifier);
    FindSuffix(t, e.modifier);
    ParseFieldOf(field, pcre, e.modifier, t);
  }

  /** A modifier suffix holds no `;`. */
  lemma ModifierSuffixHasNo(m: SubSigs.Modifier)
    ensures ';' !in ModifierSuffix(m)
  {
    if m.Some? {
      var mt := SubSigModifiers.ModifierText(m.value);
      SubSigModifiers.ModifierRoundTrip(m.value);
      forall k | 0 <= k < |"::" + mt| ensures ("::" + mt)[k] != ';' {
        if k >= 2 {
          assert ("::" + mt)[k] == mt[k - 2];
        }
      }
    }
  }

  /** The modifier of a text with no two `:` in a row, written after it, is found again. */
  lemma FindSuffix(t: Bytes, m: SubSigs.Modifier)
    requires forall k :: 0 < k < |t| && t[k] == ':' ==> t[k - 1] != ':'
    ensures SubSigModifiers.FindModifierSpec(t + ModifierSuffix(m)) == (m, t)
  {
    if m.Some? {
      var w := "::" + SubSigModifiers.ModifierText(m.value);
      assert ModifierSuffix(m) == w;
      assert t + w == t + "::" + SubSigModifiers.ModifierText(m.value);
      SubSigModifiers.FindWrittenModifier(t, m.value);
    } else {
      assert ModifierSuffix(m) == [] && t + [] == t;
      SubSigModifiers.NoModifierWithoutDelimiter(t);
    }
  }

  /** A field is parsed by the dispatcher after its modifier is cut off. */
  lemma ParseFieldOf(field: Bytes, pcre: Bytes -> SubSigs.PcreVerdict, m: SubSigs.Modifier, rest: Bytes)
    requires SubSigModifiers.FindModifierSpec(field) == (m, rest)
    ensures ParseField(field, pcre) == SubSigs.Parse(rest, m, pcre)
  {
  }

  /** A fuzzy image's field reads back. */
  lemma FuzzyFieldRoundTrip(f: FuzzyImgs.FuzzyImgSubSig, pcre: Bytes -> SubSigs.PcreVerdict)
    requires FuzzyImgs.Valid(f) && f.modifier.None?
    ensures ';' !in FuzzyImgs.ExportText(f)
    ensures ParseField(FuzzyImgs.ExportText(f), pcre) == Ok(SubSigs.FuzzyImg(f))
  {
    FuzzyImgs.TextHasNo(f, ':');
    FuzzyImgs.TextHasNo(f, ';');
    SubSigModifiers.NoModifierWithoutDelimiter(FuzzyImgs.ExportText(f));
    SubSigs.FuzzyRoundTrip(f, pcre);
  }

  /** A readable sub-signature's text holds no `;`, and its field reads back as the sub-signature. */
  lemma SubSigRoundTrip(s: SubSigs.SubSig, pcre: Bytes -> SubSigs.PcreVerdict)
    requires SubSigReadable(s, pcre)
    ensures Exportable(s)
    ensures ';' !in SubSigText(s)
    ensures ParseField(SubSigText(s), pcre) == Ok(s)
  {
    if s.Extended? {
      ExtendedFieldRoundTrip(s.ext, pcre);
    } else {
      FuzzyFieldRoundTrip(s.fuzzyImg, pcre);
    }
  }

  /** Fields that each read back as a sub-signature read back as the list of them. */
  lemma {:induction false} ParseSubSigsEach(fields: seq<Bytes>, subs: seq<SubSigs.SubSig>, base: nat,
                                            parse: Bytes -> Result<SubSigs.SubSig, SubSigs.ParseError>)
    requires |fields| == |subs| && forall k :: 0 <= k < |fields| ==> parse(fields[k]) == Ok(subs[k])
    ensures ParseSubSigs(fields, base, parse) == Ok(subs)
    decreases |fields|
  {
    if |fields| > 0 {
      assert parse(fields[0]) == Ok(subs[0]);
      ParseSubSigsEach(fields[1..], subs[1..], base + 1, parse);
      assert subs == [subs[0]] + subs[1..];
    }
  }

  /** The sub-signature fields of the export are free of `;` and read back. */
  lemma SubSigFields(subs: seq<SubSigs.SubSig>, pcre: Bytes -> SubSigs.PcreVerdict)
    requires forall k :: 0 <= k < |subs| ==> SubSigReadable(subs[k], pcre)
    ensures var ts := Collect.Map(SubSigPrinter(), subs);
      (forall k :: 0 <= k < |ts| ==> ';' !in ts[k]) && ParseSubSigs(ts, 0, FieldParser(pcre)) == Ok(subs)
  {
    var ts := Collect.Map(SubSigPrinter(), subs);
    forall k | 0 <= k < |ts| ensures ';' !in ts[k] && FieldParser(pcre)(ts[k]) == Ok(subs[k]) {
      SubSigRoundTrip(subs[k], pcre);
    }
    ParseSubSigsEach(ts, subs, 0, FieldParser(pcre));
  }

  /** A record joined from `;`-free fields is read field by field. */
  lemma ReadFields(tbl: TypeNames.Table, a: Bytes, b: Bytes, c: Bytes, ts: seq<Bytes>, pcre: Bytes -> SubSigs.PcreVerdict,
                   td: TargetDescs.TargetDesc, e: LogicalExpr.Element)
    requires ';' !in a && ';' !in b && ';' !in c && forall k :: 0 <= k < |ts| ==> ';' !in ts[k]
    requires Utf8.IsValid(a) && TargetDescs.ParseSpec(tbl, b) == Ok(td) && LogicalExpr.Parse(c) == Ok(e)
    ensures ParseSpec(tbl, Join([a, b, c] + ts, ';'), pcre) ==
      match ParseSubSigs(ts, 0, FieldParser(pcre))
      case Err(err) => Err(SigMetas.Specific(err))
      case Ok(subs) => Ok((LogicalSig(a, td, e, subs), SigMetas.SigMeta(FirstInclusiveEngine(td.attrs))))
  {
    var parts := [a, b, c] + ts;
    PartsHaveNo(a, b, c, ts);
    SplitJoin(parts, ';');
    ParseFromFields(tbl, Join(parts, ';'), a, b, c, ts, pcre, td, e);
  }

  lemma PartsHaveNo(a: Bytes, b: Bytes, c: Bytes, ts: seq<Bytes>)
    requires ';' !in a && ';' !in b && ';' !in c && forall k :: 0 <= k < |ts| ==> ';' !in ts[k]
    ensures forall k :: 0 <= k < |[a, b, c] + ts| ==> ';' !in ([a, b, c] + ts)[k]
  {
    var parts := [a, b, c] + ts;
    assert forall k :: 3 <= k < |parts| ==> parts[k] == ts[k - 3];
  }

  /** A record whose fields are the name, the block, the expression and the sub-signatures. */
  lemma ParseFromFields(tbl: TypeNames.Table, data: Bytes, a: Bytes, b: Bytes, c: Bytes, ts: seq<Bytes>,
                        pcre: Bytes -> SubSigs.PcreVerdict, td: TargetDescs.TargetDesc, e: LogicalExpr.Element)
    requires Split(data, ';') == [a, b, c] + ts
    requires Utf8.IsValid(a) && TargetDescs.ParseSpec(tbl, b) == Ok(td) && LogicalExpr.Parse(c) == Ok(e)
    ensures ParseSpec(tbl, data, pcre) ==
      match ParseSubSigs(ts, 0, FieldParser(pcre))
      case Err(err) => Err(SigMetas.Specific(err))
      case Ok(subs) => Ok((LogicalSig(a, td, e, subs), SigMetas.SigMeta(FirstInclusiveEngine(td.attrs))))
  {
    var rest := ([a, b, c] + ts)[1..];
    assert rest[0] == b && rest[1] == c && rest[2..] == ts;
  }

  /**
   * Reading the export of a readable record gives it back, with the
   * metadata its first inclusive Engine range declares.
   */
  lemma RoundTrip(tbl: TypeNames.Table, sig: LogicalSig, pcre: Bytes -> SubSigs.PcreVerdict)
    requires Readable(tbl, sig, pcre)
    ensures ParseSpec(tbl, ExportText(tbl, sig), pcre) ==
      Ok((sig, SigMetas.SigMeta(FirstInclusiveEngine(sig.targetDesc.attrs))))
  {
    var h := HeadFields(tbl, sig);
    var ts := Collect.Map(SubSigPrinter(), sig.subSigs);
    SubSigFields(sig.subSigs, pcre);
    TargetDescs.ExportHasNoSemicolon(tbl, sig.targetDesc);
    ElementTextHasNo(sig.expression);
    TargetDescs.ExportParse(tbl, sig.targetDesc);
    ExprRoundTrip.ParseDisplay(sig.expression);
    ReadFields(tbl, h[0], h[1], h[2], ts, pcre, sig.targetDesc, sig.expression);
    assert h == [h[0], h[1], h[2]];
  }

  /**
   * As the source writes it, a record with no sub-signature exports with a
   * `;` after its expression, which reads back as an empty sub-signature
   * field and is refused (unless the PCRE parser accepts the empty text).
   * A block holding `Intermediates` is refused before that, see
   * `TargetDescs.IntermediatesExportAsWritten`.
   */
  lemma NoSubSigExportRefused(tbl: TypeNames.Table, sig: LogicalSig, pcre: Bytes -> SubSigs.PcreVerdict)
    requires Readable(tbl, sig, pcre) && |sig.subSigs| == 0 && !pcre([]).PcreAccepted?
    requires TargetDescs.NoIntermediates(sig.targetDesc)
    ensures ParseField([], pcre).Err?
    ensures ParseSpec(tbl, ExportTextAsWritten(tbl, sig), pcre) == Err(SigMetas.Specific(SubSigParse(0, ParseField([], pcre).error)))
  {
    var a, b, c := NoSubSigFields(tbl, sig);
    TargetDescs.ExportHasNoSemicolon(tbl, sig.targetDesc);
    ElementTextHasNo(sig.expression);
    TargetDescs.ExportParse(tbl, sig.targetDesc);
    ExprRoundTrip.ParseDisplay(sig.expression);
    ReadFields(tbl, a, b, c, [[]], pcre, sig.targetDesc, sig.expression);
    EmptyFieldRefused(pcre);
  }

  /** With no sub-signature and no `Intermediates`, the text as written is the head fields and an empty field. */
  lemma NoSubSigFields(tbl: TypeNames.Table, sig: LogicalSig) returns (a: Bytes, b: Bytes, c: Bytes)
    requires |sig.subSigs| == 0 && TargetDescs.NoIntermediates(sig.targetDesc)
    ensures a == sig.name && b == TargetDescs.ExportText(tbl, sig.targetDesc) && c == LogicalExpr.ElementText(sig.expression)
    ensures ExportTextAsWritten(tbl, sig) == Join([a, b, c] + [[]], ';')
  {
    TargetDescs.ExportAsWrittenAgrees(tbl, sig.targetDesc);
    a, b, c := sig.name, TargetDescs.ExportText(tbl, sig.targetDesc), LogicalExpr.ElementText(sig.expression);
    assert Collect.Map(SubSigPrinterAsWritten(), sig.subSigs) == [];
    JoinHead(a, b, c, [[]]);
  }

  /** An empty sub-signature field is refused, unless the PCRE parser accepts the empty text. */
  lemma EmptyFieldRefused(pcre: Bytes -> SubSigs.PcreVerdict)
    requires !pcre([]).PcreAccepted?
    ensures ParseField([], pcre).Err?
  {
    assert SubSigModifiers.FindModifierSpec([]) == (None, []);
    SubSigs.FallThrough([], None, pcre);
    SubSigs.SplitWithoutOffset([]);
  }
}
