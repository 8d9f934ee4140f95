/**
 * Signature metadata and the functionality-level check every signature runs
 * (src/signature.rs). A record may declare the engine functionality levels
 * ("flevels") it is meant for; the check compares the declared minimum with
 * the minimum the signature's features need.
 */
module SigMetas {
  import opened Wrappers
  import opened ByteStr
  import Num
  import Util
  import opened Features
  import TargetDescs

  /** `SigMeta`: what a record declares besides the signature itself. */
  datatype SigMeta = SigMeta(fLevel: Option<Util.Range>)

  const DEFAULT_META: SigMeta := SigMeta(None)

  /**
   * `SigValidationError`. The hash-based and container-metadata validation
   * errors are empty enumerations in the source and have no variant here.
   */
  datatype SigValidationError =
    | LogicalSig(e: LogicalValidationError)
    | SpecifiedMinFLevelTooLow(specMinFlevel: nat, computedMinFlevel: nat, featureSet: seq<Feature>)
    | MinFLevelNotSpecified(computedMinFlevel: nat, featureSet: seq<Feature>)

  /** `logical_sig::ValidationError`; a sub-signature's error is kept whole. */
  datatype LogicalValidationError =
    | TargetDesc(e: TargetDescs.ValidationError)
    | SubSig(idx: nat, err: SigValidationError)

  /**
   * The computed functionality level of a signature: the range starting at
   * the largest minimum flevel of its features, or none when it needs none.
   */
  function ComputedLevel(fs: FeatureSet, minFlevel: Feature -> nat): (r: Option<Util.Range>)
    ensures r.None? <==> |Items(fs)| == 0
    ensures r.Some? ==> Util.Start(r.value) == FeatureLevels(fs, minFlevel).0
  {
    match FeatureLevels(fs, minFlevel).0
    case None => None
    case Some(m) => Some(Util.From(m))
  }

  /**
   * `validate_flevel`: a computed minimum must be met by a declared minimum
   * at least as high; the declared maximum is never looked at.
   */
  function ValidateFlevel(computed: Option<Util.Range>, features: FeatureSet, meta: SigMeta): (r: Result<(), SigValidationError>)
    ensures r.Ok? <==>
      computed.None? || Util.Start(computed.value).None? ||
      (meta.fLevel.Some? && Util.Start(meta.fLevel.value).Some? &&
       Util.Start(meta.fLevel.value).value >= Util.Start(computed.value).value)
    ensures r.Err? && r.error.SpecifiedMinFLevelTooLow? ==>
      computed.Some? && Util.Start(computed.value).Some? && meta.fLevel.Some? && Util.Start(meta.fLevel.value).Some? &&
      r.error == SpecifiedMinFLevelTooLow(Util.Start(meta.fLevel.value).value, Util.Start(computed.value).value, Items(features))
    ensures r.Err? && !r.error.SpecifiedMinFLevelTooLow? ==>
      computed.Some? && Util.Start(computed.value).Some? &&
      r.error == MinFLevelNotSpecified(Util.Start(computed.value).value, Items(features)) &&
      (meta.fLevel.None? || Util.Start(meta.fLevel.value).None?)
  {
    if computed.Some? && Util.Start(computed.value).Some? then
      var computedMin := Util.Start(computed.value).value;
      match meta.fLevel
      case Some(fLevel) =>
        (match Util.Start(fLevel)
         case Some(specMin) =>
           if specMin < computedMin then Err(SpecifiedMinFLevelTooLow(specMin, computedMin, Items(features)))
           else Ok(())
         case None => Err(MinFLevelNotSpecified(computedMin, Items(features))))
      case None => Err(MinFLevelNotSpecified(computedMin, Items(features)))
    else Ok(())
  }

  /** `validate_flevel` of a signature whose computed level comes from its features. */
  function ValidateFeatureFlevel(features: FeatureSet, minFlevel: Feature -> nat, meta: SigMeta): Result<(), SigValidationError>
  {
    ValidateFlevel(ComputedLevel(features, minFlevel), features, meta)
  }

  /**
   * What the check means: it passes exactly when the signature needs no
   * feature, or it declares a minimum flevel no lower than any feature's.
   */
  lemma ValidateFeatureFlevelMeaning(features: FeatureSet, minFlevel: Feature -> nat, meta: SigMeta)
    ensures ValidateFeatureFlevel(features, minFlevel, meta).Ok? <==>
      |Items(features)| == 0 ||
      (meta.fLevel.Some? && Util.Start(meta.fLevel.value).Some? &&
       forall k :: 0 <= k < |Items(features)| ==> minFlevel(Items(features)[k]) <= Util.Start(meta.fLevel.value).value)
  {
    var items := Items(features);
    if |items| > 0 && meta.fLevel.Some? && Util.Start(meta.fLevel.value).Some? {
      var m := MaxLevel(items, minFlevel).value;
      var i :| 0 <= i < |items| && minFlevel(items[i]) == m;
    }
  }

  /** Raising the declared minimum never makes a passing signature fail. */
  lemma ValidateFlevelMonotone(computed: Option<Util.Range>, features: FeatureSet, lo: nat, hi: nat, r1: Util.Range, r2: Util.Range)
    requires Util.Start(r1) == Some(lo) && Util.Start(r2) == Some(hi) && lo <= hi
    requires ValidateFlevel(computed, features, SigMeta(Some(r1))).Ok?
    ensures ValidateFlevel(computed, features, SigMeta(Some(r2))).Ok?
  {
  }

  /** Only the declared minimum matters: two declarations with the same start are judged alike. */
  lemma ValidateFlevelByStart(computed: Option<Util.Range>, features: FeatureSet, m1: SigMeta, m2: SigMeta)
    requires (m1.fLevel.None? && m2.fLevel.None?) ||
             (m1.fLevel.Some? && m2.fLevel.Some? && Util.Start(m1.fLevel.value) == Util.Start(m2.fLevel.value)) ||
             (m1.fLevel.None? && m2.fLevel.Some? && Util.Start(m2.fLevel.value).None?)
    ensures ValidateFlevel(computed, features, m1) == ValidateFlevel(computed, features, m2)
  {
  }

  /** `Signature::validate`: the sub-element check first, then the flevel check. */
  function Validate(subelements: Result<(), SigValidationError>, flevel: Result<(), SigValidationError>): (r: Result<(), SigValidationError>)
    ensures r.Ok? <==> subelements.Ok? && flevel.Ok?
    ensures subelements.Err? ==> r == subelements
  {
    if subelements.Err? then subelements else flevel
  }

  /**
   * `FromSigBytesParseError`, the error of reading one record. The
   * variants every record type shares are here; `Specific` carries the
   * error of the record type being read.
   */
  datatype FromSigBytesParseError<E> =
    | UnsupportedSigType
    | MissingField(field: Bytes)
    | InvalidValueFor(field: Bytes)
    | MissingName
    | NameNotUnicode
    | Specific(e: E)

  /** The errors of the optional minimum / maximum flevel fields that close many records. */
  datatype FlevelError = MinFlevel(e: Num.NumberError) | MaxFlevel(e: Num.NumberError)

  /**
   * The flevel tail of extended and file hash signatures: no field means no
   * flevel; one field is a `u32` minimum (`min..`); a second field a `u32`
   * maximum (`min..=max`). Further fields are ignored.
   */
  function ParseFlevelTail(rest: seq<Bytes>): (r: Result<Option<Util.Range>, FlevelError>)
    ensures |rest| == 0 ==> r == Ok(None)
    ensures r.Ok? && |rest| > 0 ==> Num.ParseDec(rest[0], Num.U32_MAX).Ok? && r.value.Some? && Util.Start(r.value.value) == Some(Num.ParseDec(rest[0], Num.U32_MAX).value)
    ensures r.Ok? && |rest| == 1 ==> r.value.value.From?
    ensures r.Ok? && |rest| > 1 ==> Num.ParseDec(rest[1], Num.U32_MAX).Ok? && r.value.value.Inclusive? && r.value.value.end == Num.ParseDec(rest[1], Num.U32_MAX).value
    ensures r.Err? <==> |rest| > 0 && (Num.ParseDec(rest[0], Num.U32_MAX).Err? || (|rest| > 1 && Num.ParseDec(rest[1], Num.U32_MAX).Err?))
  {
    if |rest| == 0 then Ok(None)
    else match Num.ParseDec(rest[0], Num.U32_MAX)
      case Err(e) => Err(MinFlevel(e))
      case Ok(min) =>
        if |rest| == 1 then Ok(Some(Util.From(min)))
        else match Num.ParseDec(rest[1], Num.U32_MAX)
          case Err(e) => Err(MaxFlevel(e))
          case Ok(max) => Ok(Some(Util.Inclusive(min, max)))
  }

  /** Written flevel fields read back as the range they denote. */
  lemma FlevelTailText(min: nat, max: nat)
    requires min <= Num.U32_MAX && max <= Num.U32_MAX
    ensures ParseFlevelTail([Num.Dec(min)]) == Ok(Some(Util.From(min)))
    ensures ParseFlevelTail([Num.Dec(min), Num.Dec(max)]) == Ok(Some(Util.Inclusive(min, max)))
  {
    Num.ParseDecRoundTrip(min, Num.U32_MAX);
    Num.ParseDecRoundTrip(max, Num.U32_MAX);
  }
}
