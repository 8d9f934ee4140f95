/**
 * Macro sub-signatures (src/signature/logical_sig/subsig/macrosig.rs):
 * `${min-max}id$`, a reference to a macro group with a distance range.
 */
module MacroSigs {
  import opened Wrappers
  import opened ByteStr
  import Num
  import Features
  import SubSigModifiers

  datatype MacroSubSig = MacroSubSig(min: nat, max: nat, macroId: nat, modifier: Option<SubSigModifiers.Modifier>)

  /**
   * `MacroSubSigParseError`. `MissingRange` and `MissingRangeMin` cannot
   * happen (`splitn` always yields a first field) and are left out.
   */
  datatype ParseError =
    | MissingMacroID
    | MissingPrefix
    | MissingSuffix
    | MissingRangeMax
    | ParseMacroID(e: Num.NumberError)
    | ParseRangeMin(e: Num.NumberError)
    | ParseRangeMax(e: Num.NumberError)

  /** `identified`: all errors but a missing `${` or `$` say the text was meant as a macro. */
  predicate Identified(e: ParseError) { !(e.MissingPrefix? || e.MissingSuffix?) }

  function ParseUsize(s: Bytes): Result<nat, Num.NumberError>
  {
    Num.ParseDec(s, Num.USIZE_MAX)
  }

  /** The part between `${` and `$`: `min-max`, `}`, and the macro id, which is read first. */
  function ParseInner(inner: Bytes, modifier: Option<SubSigModifiers.Modifier>): (r: Result<MacroSubSig, ParseError>)
    ensures r.Ok? ==> |SplitN(inner, '}', 2)| == 2 && ParseUsize(SplitN(inner, '}', 2)[1]) == Ok(r.value.macroId)
    ensures r.Ok? ==> var range := SplitN(SplitN(inner, '}', 2)[0], '-', 2);
                      |range| == 2 && ParseUsize(range[0]) == Ok(r.value.min) && ParseUsize(range[1]) == Ok(r.value.max)
    ensures r.Ok? ==> r.value.modifier == modifier
  {
    var tokens := SplitN(inner, '}', 2);
    if |tokens| < 2 then Err(MissingMacroID)
    else match ParseUsize(tokens[1])
      case Err(e) => Err(ParseMacroID(e))
      case Ok(id) =>
        var range := SplitN(tokens[0], '-', 2);
        match ParseUsize(range[0])
        case Err(e) => Err(ParseRangeMin(e))
        case Ok(min) =>
          if |range| < 2 then Err(MissingRangeMax)
          else match ParseUsize(range[1])
            case Err(e) => Err(ParseRangeMax(e))
            case Ok(max) => Ok(MacroSubSig(min, max, id, modifier))
  }

  /** `MacroSubSig::from_bytes`: `${` first, then `$` last, then the inner fields. */
  function Parse(bytes: Bytes, modifier: Option<SubSigModifiers.Modifier>): (r: Result<MacroSubSig, ParseError>)
    ensures r == Err(MissingPrefix) <==> !StartsWith(bytes, "${")
    ensures r == Err(MissingSuffix) <==> StartsWith(bytes, "${") && !EndsWith(bytes[2..], "$")
    ensures r.Ok? ==> StartsWith(bytes, "${") && EndsWith(bytes[2..], "$") && r == ParseInner(bytes[2..|bytes| - 1], modifier)
  {
    match StripPrefix(bytes, "${")
    case None => Err(MissingPrefix)
    case Some(rest) =>
      match StripSuffix(rest, "$")
      case None => Err(MissingSuffix)
      case Some(inner) =>
        assert inner == bytes[2..|bytes| - 1];
        match ParseInner(inner, modifier)
        case Err(e) =>
          assert e != MissingPrefix && e != MissingSuffix by { InnerErrorsIdentified(inner, modifier); }
          Err(e)
        case Ok(m) => Ok(m)
  }

  lemma InnerErrorsIdentified(inner: Bytes, modifier: Option<SubSigModifiers.Modifier>)
    ensures ParseInner(inner, modifier).Err? ==> Identified(ParseInner(inner, modifier).error)
  {
  }

  /** An error is identified exactly when the text has the `${ … $` frame. */
  lemma IdentifiedMeansFramed(bytes: Bytes, modifier: Option<SubSigModifiers.Modifier>)
    requires Parse(bytes, modifier).Err?
    ensures Identified(Parse(bytes, modifier).error) <==> StartsWith(bytes, "${") && EndsWith(bytes[2..], "$")
  {
    if StartsWith(bytes, "${") && EndsWith(bytes[2..], "$") {
      InnerErrorsIdentified(bytes[2..|bytes| - 1], modifier);
    }
  }

  /** `EngineReq` keeps the default: a macro needs no feature. */
  function SubSigFeatures(m: MacroSubSig): Features.FeatureSet
  {
    Features.DEFAULT
  }

  /**
   * The macro form `${min-max}id$`. The source's exporter is a stub
   * (`todo!()`); this is the text the parser reads.
   */
  function MacroText(m: MacroSubSig): Bytes
  {
    "${" + Num.Dec(m.min) + "-" + Num.Dec(m.max) + "}" + Num.Dec(m.macroId) + "$"
  }

  predicate Fits(m: MacroSubSig)
  {
    m.min <= Num.USIZE_MAX && m.max <= Num.USIZE_MAX && m.macroId <= Num.USIZE_MAX
  }

  /** Reading the macro form gives the macro back, for every value that fits a `usize`. */
  lemma RoundTrip(m: MacroSubSig)
    requires Fits(m)
    ensures Parse(MacroText(m), m.modifier) == Ok(m)
  {
    var lo := Num.Dec(m.min);
    var hi := Num.Dec(m.max);
    var id := Num.Dec(m.macroId);
    var range := lo + ['-'] + hi;
    var inner := range + ['}'] + id;
    var t := MacroText(m);
    assert t == "${" + (inner + "$");
    assert StartsWith(t, "${") && t[2..] == inner + "$";
    assert EndsWith(t[2..], "$") && t[2..][..|t[2..]| - 1] == inner;
    DigitsHaveNo(lo, '}');
    DigitsHaveNo(hi, '}');
    DigitsHaveNo(lo, '-');
    assert '}' !in range;
    SplitNTwo(range, id, '}');
    SplitNTwo(lo, hi, '-');
    Num.ParseDecRoundTrip(m.min, Num.USIZE_MAX);
    Num.ParseDecRoundTrip(m.max, Num.USIZE_MAX);
    Num.ParseDecRoundTrip(m.macroId, Num.USIZE_MAX);
    assert ParseInner(inner, m.modifier) == Ok(m);
  }
}
