/**
 * The base and byte order a byte-compare sub-signature reads a number in
 * (src/signature/logical/subsig/bytecmp.rs).
 */
module ByteCmpEncodings {
  datatype Encoding = Hex | Decimal | Automatic | RawBinary

  datatype Endianness = Little | Big
}

/**
 * Byte-compare sub-signatures (src/signature/logical/subsig/bytecmp.rs):
 * `trigger(offset#options#comparison[,comparison])`, which reads a number at
 * an offset from where sub-signature `trigger` matched and compares it.
 */
module ByteCmps {
  import opened Wrappers
  import opened ByteStr
  import Num
  import Features
  import SubSigModifiers
  import ByteCmpOffsets
  import ByteOpts
  import CompSets

  /** `ByteCmpSubSig`; `comparisons` is the two-slot array, the second slot optional. */
  datatype ByteCmpSubSig = ByteCmpSubSig(
    subsigIdTrigger: nat,
    offset: ByteCmpOffsets.Offset,
    byteOptions: ByteOpts.ByteOptions,
    comparisons: seq<Option<CompSets.ComparisonSet>>,
    modifier: Option<SubSigModifiers.Modifier>)

  /**
   * `ByteCmpSubSigParseError`. `MissingParameters`, `MissingOffset` and
   * `TooManyFields` cannot happen (`rsplitn` and `splitn` always yield a
   * first field, and `splitn(3, ..)` never a fourth); `InvalidOffset` and
   * `MissingOffsetModifier` are never returned (offset errors arrive as
   * `OffsetParse`). They are left out.
   */
  datatype ParseError =
    | MissingClosingParen
    | MissingSubSigIdTrigger
    | InvalidTrigger(e: Num.NumberError)
    | MissingByteOptions
    | ByteOptionsParse(optionsErr: ByteOpts.ParseError)
    | MissingComparison
    | TooManyComparisons
    | ComparisonSetParse(setErr: CompSets.ParseError)
    | OffsetParse(offsetErr: ByteCmpOffsets.ParseError)

  /** `identified`: the structural "missing" errors say the text is not a byte-compare at all. */
  predicate Identified(e: ParseError)
  {
    !(e.MissingClosingParen? || e.MissingSubSigIdTrigger? || e.MissingByteOptions? || e.MissingComparison?)
  }

  /** The comparisons field: one or two `,`-separated comparisons. */
  function Comparisons(text: Bytes): (r: Result<seq<Option<CompSets.ComparisonSet>>, ParseError>)
    ensures var parts := Split(text, ',');
      r.Ok? ==> |parts| <= 2 && |r.value| == 2 &&
                r.value[0].Some? && CompSets.Parse(parts[0]) == Ok(r.value[0].value) &&
                (r.value[1].Some? <==> |parts| == 2) &&
                (r.value[1].Some? ==> CompSets.Parse(parts[1]) == Ok(r.value[1].value))
    ensures r == Err(TooManyComparisons) ==> |Split(text, ',')| > 2
  {
    var parts := Split(text, ',');
    match CompSets.Parse(parts[0])
    case Err(e) => Err(ComparisonSetParse(e))
    case Ok(c0) =>
      if |parts| == 1 then Ok([Some(c0), None])
      else match CompSets.Parse(parts[1])
        case Err(e) => Err(ComparisonSetParse(e))
        case Ok(c1) => if |parts| == 2 then Ok([Some(c0), Some(c1)]) else Err(TooManyComparisons)
  }

  /**
   * The loop of `from_bytes` that fills the two comparison slots in order; a
   * third comparison is refused once the first two have been read.
   */
  method FillComparisons(text: Bytes) returns (r: Result<seq<Option<CompSets.ComparisonSet>>, ParseError>)
    ensures r == Comparisons(text)
  {
    var parts := Split(text, ',');
    var comparisons: seq<Option<CompSets.ComparisonSet>> := [None, None];
    var idx := 0;
    while idx < |parts|
      invariant 0 <= idx <= |parts| && idx <= 2 && |comparisons| == 2
      invariant forall j :: 0 <= j < idx ==> comparisons[j].Some? && CompSets.Parse(parts[j]) == Ok(comparisons[j].value)
      invariant forall j :: idx <= j < 2 ==> comparisons[j] == None
    {
      if idx >= 2 {
        ComparisonsStop(text, idx, comparisons);
        return Err(TooManyComparisons);
      }
      var parsed := CompSets.Parse(parts[idx]);
      if parsed.Err? {
        ComparisonsStop(text, idx, comparisons);
        return Err(ComparisonSetParse(parsed.error));
      }
      comparisons := comparisons[idx := Some(parsed.value)];
      idx := idx + 1;
    }
    ComparisonsStop(text, idx, comparisons);
    return Ok(comparisons);
  }

  /** Where the loop stops, the slots it has filled or the error it meets are what `Comparisons` gives. */
  lemma ComparisonsStop(text: Bytes, idx: nat, comparisons: seq<Option<CompSets.ComparisonSet>>)
    requires var parts := Split(text, ',');
      idx <= |parts| && idx <= 2 && |comparisons| == 2 &&
      (forall j :: 0 <= j < idx ==> comparisons[j].Some? && CompSets.Parse(parts[j]) == Ok(comparisons[j].value)) &&
      (forall j :: idx <= j < 2 ==> comparisons[j] == None)
    ensures var parts := Split(text, ',');
      (idx == |parts| ==> Comparisons(text) == Ok(comparisons)) &&
      (idx < |parts| && idx == 2 ==> Comparisons(text) == Err(TooManyComparisons)) &&
      (idx < |parts| && idx < 2 && CompSets.Parse(parts[idx]).Err? ==>
         Comparisons(text) == Err(ComparisonSetParse(CompSets.Parse(parts[idx]).error)))
  {
    var parts := Split(text, ',');
    if idx >= 1 {
      assert CompSets.Parse(parts[0]) == Ok(comparisons[0].value);
    }
    if idx >= 2 {
      assert CompSets.Parse(parts[1]) == Ok(comparisons[1].value);
    }
    assert comparisons == [comparisons[0], comparisons[1]];
  }

  /** The text before the last `(`, if there is one, and the parameters after it. */
  function Trigger(inner: Bytes): (r: (Option<Bytes>, Bytes))
    ensures '(' !in r.1
    ensures r.0.None? <==> '(' !in inner
    ensures r.0.Some? ==> inner == r.0.value + "(" + r.1
    ensures r.0.None? ==> r.1 == inner
  {
    match FindLast(inner, '(')
    case None => (None, inner)
    case Some(i) =>
      assert inner == inner[..i] + "(" + inner[i + 1..];
      (Some(inner[..i]), inner[i + 1..])
  }

  /**
   * `ByteCmpSubSig::from_bytes`: drop the closing `)`, cut at the last `(`,
   * require three `#`-separated parameters and a trigger, then read them.
   */
  function Parse(bytes: Bytes, modifier: Option<SubSigModifiers.Modifier>): (r: Result<ByteCmpSubSig, ParseError>)
    ensures r == Err(MissingClosingParen) <==> !EndsWith(bytes, ")")
    ensures r.Ok? ==> EndsWith(bytes, ")") && '(' in bytes[..|bytes| - 1]
    ensures r.Ok? ==> r.value.subsigIdTrigger <= Num.U8_MAX && r.value.modifier == modifier
    ensures r.Ok? ==> ByteOpts.Valid(r.value.byteOptions) && r.value.offset.encoding.Decimal?
    ensures r.Ok? ==> |r.value.comparisons| == 2 && r.value.comparisons[0].Some?
  {
    match StripSuffix(bytes, ")")
    case None => Err(MissingClosingParen)
    case Some(inner) =>
      assert inner == bytes[..|bytes| - 1];
      ParseInner(inner, modifier)
  }

  /** The text inside the closing `)`: the shape first, then the fields. */
  function ParseInner(inner: Bytes, modifier: Option<SubSigModifiers.Modifier>): (r: Result<ByteCmpSubSig, ParseError>)
    ensures r.Ok? ==> '(' in inner
    ensures r.Ok? ==> r.value.subsigIdTrigger <= Num.U8_MAX && r.value.modifier == modifier
    ensures r.Ok? ==> ByteOpts.Valid(r.value.byteOptions) && r.value.offset.encoding.Decimal?
    ensures r.Ok? ==> |r.value.comparisons| == 2 && r.value.comparisons[0].Some?
    ensures r.Err? && !Identified(r.error) <==> |SplitN(Trigger(inner).1, '#', 3)| < 3 || '(' !in inner
    ensures r.Err? ==> !r.error.MissingClosingParen?
  {
    var (trigger, paramsText) := Trigger(inner);
    var params := SplitN(paramsText, '#', 3);
    if |params| < 2 then Err(MissingByteOptions)
    else if |params| < 3 then Err(MissingComparison)
    else if trigger.None? then Err(MissingSubSigIdTrigger)
    else ParseFields(trigger.value, params[0], params[1], params[2], modifier)
  }

  /** The trigger, offset, options and comparisons, read in that order. */
  function ParseFields(trigger: Bytes, offset: Bytes, options: Bytes, comparisons: Bytes,
                       modifier: Option<SubSigModifiers.Modifier>): (r: Result<ByteCmpSubSig, ParseError>)
    ensures r.Ok? ==> Num.ParseDec(trigger, Num.U8_MAX) == Ok(r.value.subsigIdTrigger) && r.value.modifier == modifier
    ensures r.Ok? ==> ByteCmpOffsets.Parse(offset) == Ok(r.value.offset)
    ensures r.Ok? ==> ByteOpts.ParseSpec(options) == Ok(r.value.byteOptions) && ByteOpts.Valid(r.value.byteOptions)
    ensures r.Ok? ==> Comparisons(comparisons) == Ok(r.value.comparisons)
    ensures r.Err? ==> Identified(r.error)
  {
    match Num.ParseDec(trigger, Num.U8_MAX)
    case Err(e) => Err(InvalidTrigger(e))
    case Ok(t) =>
      match ByteCmpOffsets.Parse(offset)
      case Err(e) => Err(OffsetParse(e))
      case Ok(o) =>
        match ByteOpts.ParseSpec(options)
        case Err(e) => Err(ByteOptionsParse(e))
        case Ok(opts) =>
          assert ByteOpts.Valid(opts) by { ByteOpts.ParseValid(options); }
          match Comparisons(comparisons)
          case Err(e) =>
            assert e.ComparisonSetParse? || e.TooManyComparisons? by { ComparisonsErrors(comparisons); }
            Err(e)
          case Ok(cs) => Ok(ByteCmpSubSig(t, o, opts, cs, modifier))
  }

  lemma ComparisonsErrors(text: Bytes)
    ensures Comparisons(text).Err? ==> Comparisons(text).error.ComparisonSetParse? || Comparisons(text).error.TooManyComparisons?
  {
  }

  /**
   * An error is unidentified exactly when the text lacks the shape of a
   * byte-compare: no closing `)`, fewer than three `#`-separated parameters,
   * or no `(` before them.
   */
  lemma UnidentifiedMeansShape(bytes: Bytes, modifier: Option<SubSigModifiers.Modifier>)
    requires Parse(bytes, modifier).Err?
    ensures !Identified(Parse(bytes, modifier).error) <==>
      !EndsWith(bytes, ")") ||
      |SplitN(Trigger(bytes[..|bytes| - 1]).1, '#', 3)| < 3 ||
      '(' !in bytes[..|bytes| - 1]
  {
    if EndsWith(bytes, ")") {
      assert Parse(bytes, modifier) == ParseInner(bytes[..|bytes| - 1], modifier);
    }
  }

  /** `EngineReq`: always the byte-compare feature. */
  function SubSigFeatures(s: ByteCmpSubSig): (r: Features.FeatureSet)
    ensures Features.Items(r) == [Features.ByteCompareMin]
  {
    Features.Static([Features.ByteCompareMin])
  }

  /**
   * The written form of a byte-compare. The source's exporter is a stub
   * (`todo!()`); this is the text the parser reads.
   */
  function ByteCmpText(s: ByteCmpSubSig): Bytes
    requires Writable(s)
  {
    Num.Dec(s.subsigIdTrigger) + "(" + ParamsText(s) + ")"
  }

  /** The three `#`-separated parameters. */
  function ParamsText(s: ByteCmpSubSig): Bytes
    requires Writable(s)
  {
    ByteCmpOffsets.OffsetText(s.offset) + "#" + (ByteOpts.OptionsText(s.byteOptions) + "#" + ComparisonsText(s.comparisons))
  }

  function ComparisonsText(cs: seq<Option<CompSets.ComparisonSet>>): Bytes
    requires |cs| == 2 && cs[0].Some?
  {
    CompSets.SetText(cs[0].value) + (if cs[1].Some? then "," + CompSets.SetText(cs[1].value) else "")
  }

  /** What the parser can produce. */
  predicate Writable(s: ByteCmpSubSig)
  {
    s.subsigIdTrigger <= Num.U8_MAX &&
    ByteCmpOffsets.Fits(s.offset) &&
    ByteOpts.Valid(s.byteOptions) &&
    |s.comparisons| == 2 && s.comparisons[0].Some? && CompSets.Fits(s.comparisons[0].value) &&
    (s.comparisons[1].Some? ==> CompSets.Fits(s.comparisons[1].value))
  }

  /** Reading the written form gives the byte-compare back. */
  lemma RoundTrip(s: ByteCmpSubSig)
    requires Writable(s)
    ensures Parse(ByteCmpText(s), s.modifier) == Ok(s)
  {
    var tr := Num.Dec(s.subsigIdTrigger);
    var params := ParamsText(s);
    var inner: Bytes := tr + "(" + params;
    assert ByteCmpText(s) == inner + ")";
    assert Parse(ByteCmpText(s), s.modifier) == ParseInner(inner, s.modifier);
    TriggerOfText(s);
    ParamsOfText(s);
    FieldsRoundTrip(s);
  }

  lemma TriggerOfText(s: ByteCmpSubSig)
    requires Writable(s)
    ensures Trigger(Num.Dec(s.subsigIdTrigger) + "(" + ParamsText(s)) == (Some(Num.Dec(s.subsigIdTrigger)), ParamsText(s))
  {
    var tr := Num.Dec(s.subsigIdTrigger);
    var params := ParamsText(s);
    var inner := tr + "(" + params;
    ParamsHaveNo(s, '(');
    FindLastSep(tr, params, '(');
    assert inner[..|tr|] == tr && inner[|tr| + 1..] == params;
  }

  lemma ParamsOfText(s: ByteCmpSubSig)
    requires Writable(s)
    ensures SplitN(ParamsText(s), '#', 3) ==
      [ByteCmpOffsets.OffsetText(s.offset), ByteOpts.OptionsText(s.byteOptions), ComparisonsText(s.comparisons)]
  {
    var o := ByteCmpOffsets.OffsetText(s.offset);
    var b := ByteOpts.OptionsText(s.byteOptions);
    var c := ComparisonsText(s.comparisons);
    var rest: Bytes := b + "#" + c;
    assert ParamsText(s) == o + "#" + rest;
    ByteCmpOffsets.TextHasNo(s.offset, '#');
    ByteOpts.TextHasNo(s.byteOptions, '#');
    SplitNCons(o, rest, '#', 3);
    SplitNTwo(b, c, '#');
  }

  lemma FieldsRoundTrip(s: ByteCmpSubSig)
    requires Writable(s)
    ensures ParseFields(Num.Dec(s.subsigIdTrigger), ByteCmpOffsets.OffsetText(s.offset), ByteOpts.OptionsText(s.byteOptions),
                        ComparisonsText(s.comparisons), s.modifier) == Ok(s)
  {
    Num.ParseDecRoundTrip(s.subsigIdTrigger, Num.U8_MAX);
    ByteCmpOffsets.RoundTrip(s.offset);
    ByteOpts.RoundTrip(s.byteOptions);
    ComparisonsRoundTrip(s.comparisons);
  }

  /** The parameters of the written form hold no parenthesis. */
  lemma ParamsHaveNo(s: ByteCmpSubSig, x: Byte)
    requires Writable(s) && (x == '(' || x == ')')
    ensures x !in ParamsText(s)
  {
    ByteCmpOffsets.TextHasNo(s.offset, x);
    ByteOpts.TextHasNo(s.byteOptions, x);
    ComparisonsHaveNo(s.comparisons, x);
  }

  lemma ComparisonsHaveNo(cs: seq<Option<CompSets.ComparisonSet>>, x: Byte)
    requires |cs| == 2 && cs[0].Some?
    requires x == '#' || x == '(' || x == ')'
    ensures x !in ComparisonsText(cs)
  {
    CompSets.TextHasNo(cs[0].value, x);
    if cs[1].Some? {
      CompSets.TextHasNo(cs[1].value, x);
    }
  }

  /** Reading the written comparisons gives both slots back. */
  lemma ComparisonsRoundTrip(cs: seq<Option<CompSets.ComparisonSet>>)
    requires |cs| == 2 && cs[0].Some? && CompSets.Fits(cs[0].value)
    requires cs[1].Some? ==> CompSets.Fits(cs[1].value)
    ensures Comparisons(ComparisonsText(cs)) == Ok(cs)
  {
    if cs[1].Some? {
      TwoComparisonsRoundTrip(cs);
    } else {
      var t0 := CompSets.SetText(cs[0].value);
      assert ComparisonsText(cs) == t0;
      CompSets.TextHasNo(cs[0].value, ',');
      CompSets.RoundTrip(cs[0].value);
      assert Split(t0, ',') == [t0] by { assert Find(t0, ',') == None; }
      ComparisonsOfParts(ComparisonsText(cs), [t0], [cs[0].value]);
      assert cs == [cs[0], cs[1]];
    }
  }

  /** Both slots written, separated by a comma. */
  lemma TwoComparisonsRoundTrip(cs: seq<Option<CompSets.ComparisonSet>>)
    requires |cs| == 2 && cs[0].Some? && CompSets.Fits(cs[0].value)
    requires cs[1].Some? && CompSets.Fits(cs[1].value)
    ensures Comparisons(ComparisonsText(cs)) == Ok(cs)
  {
    var t0 := CompSets.SetText(cs[0].value);
    var t1 := CompSets.SetText(cs[1].value);
    TwoComparisonsText(cs, t0, t1);
    CompSets.TextHasNo(cs[0].value, ',');
    CompSets.TextHasNo(cs[1].value, ',');
    CompSets.RoundTrip(cs[0].value);
    CompSets.RoundTrip(cs[1].value);
    SplitCons(t0, t1, ',');
    assert Split(t1, ',') == [t1] by { assert Find(t1, ',') == None; }
    ComparisonsOfParts(ComparisonsText(cs), [t0, t1], [cs[0].value, cs[1].value]);
    assert cs == [cs[0], cs[1]];
  }

  lemma TwoComparisonsText(cs: seq<Option<CompSets.ComparisonSet>>, t0: Bytes, t1: Bytes)
    requires |cs| == 2 && cs[0].Some? && cs[1].Some?
    requires t0 == CompSets.SetText(cs[0].value) && t1 == CompSets.SetText(cs[1].value)
    ensures ComparisonsText(cs) == t0 + [','] + t1
  {
  }

  /** One or two comparisons that each read back fill the slots in order. */
  lemma ComparisonsOfParts(text: Bytes, parts: seq<Bytes>, sets: seq<CompSets.ComparisonSet>)
    requires Split(text, ',') == parts && 1 <= |parts| <= 2 && |sets| == |parts|
    requires forall j :: 0 <= j < |parts| ==> CompSets.Parse(parts[j]) == Ok(sets[j])
    ensures Comparisons(text) == Ok([Some(sets[0]), if |parts| == 2 then Some(sets[1]) else None])
  {
    assert CompSets.Parse(parts[0]) == Ok(sets[0]);
    if |parts| == 2 {
      assert CompSets.Parse(parts[1]) == Ok(sets[1]);
    }
  }
}
