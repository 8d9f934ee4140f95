/**
 * Body signatures (src/signature/bodysig.rs): the list of patterns a body
 * signature is made of, its export as the patterns' texts one after the
 * other, and its engine features, which are always none.
 */
module BodySigs {
  import opened Wrappers
  import opened ByteStr
  import opened Patterns
  import opened PatternModifiers
  import Features
  import SigBytes
  import Hex
  import S = BodySigParse
  import Collect

  datatype BodySig = BodySig(patterns: seq<Pattern>)

  /** The texts of `ps`, in order; the last pattern's text comes last. */
  function PatternsText(ps: seq<Pattern>): Bytes
    requires S.AllExportable(ps)
    decreases |ps|
  {
    if |ps| == 0 then [] else PatternsText(ps[..|ps| - 1]) + PatternText(ps[|ps| - 1])
  }

  /** `append_sigbytes` of a body signature, as text. */
  function BodySigText(sig: BodySig): Bytes
    requires S.AllExportable(sig.patterns)
  {
    PatternsText(sig.patterns)
  }

  /** The texts of `ps` as the source writes them, strings without their right-side flags. */
  function PatternsTextAsWritten(ps: seq<Pattern>): Bytes
    requires S.AllExportable(ps)
    decreases |ps|
  {
    if |ps| == 0 then [] else PatternsTextAsWritten(ps[..|ps| - 1]) + PatternTextAsWritten(ps[|ps| - 1])
  }

  /** `append_sigbytes` of a body signature as the source writes it. */
  function BodySigTextAsWritten(sig: BodySig): Bytes
    requires S.AllExportable(sig.patterns)
  {
    PatternsTextAsWritten(sig.patterns)
  }

  /** No string of the body carries a right-side flag. */
  predicate NoRightFlags(sig: BodySig)
  {
    forall k :: 0 <= k < |sig.patterns| ==> Patterns.NoRightFlags(sig.patterns[k])
  }

  /**
   * The source's export of a body and the corrected one are the same text
   * exactly when no string of the body has a right-side flag; otherwise the
   * source's text is shorter.
   */
  lemma AsWrittenAgrees(sig: BodySig)
    requires S.AllExportable(sig.patterns)
    ensures |BodySigTextAsWritten(sig)| <= |BodySigText(sig)|
    ensures BodySigTextAsWritten(sig) == BodySigText(sig) <==> NoRightFlags(sig)
    ensures |BodySigTextAsWritten(sig)| < |BodySigText(sig)| <==> !NoRightFlags(sig)
  {
    PatternsAsWrittenAgrees(sig.patterns);
  }

  lemma {:induction false} PatternsAsWrittenAgrees(ps: seq<Pattern>)
    requires S.AllExportable(ps)
    ensures |PatternsTextAsWritten(ps)| <= |PatternsText(ps)|
    ensures PatternsTextAsWritten(ps) == PatternsText(ps) <==> NoRightFlags(BodySig(ps))
    ensures |PatternsTextAsWritten(ps)| == |PatternsText(ps)| <==> NoRightFlags(BodySig(ps))
    decreases |ps|
  {
    if |ps| > 0 {
      var init, last := ps[..|ps| - 1], ps[|ps| - 1];
      ExportableConcat([], ps);
      PatternsAsWrittenAgrees(init);
      PatternAsWrittenAgrees(last);
      var a, b := PatternsTextAsWritten(init), PatternsText(init);
      var x, y := PatternTextAsWritten(last), PatternText(last);
      assert PatternsTextAsWritten(ps) == a + x && PatternsText(ps) == b + y;
      if a + x == b + y {
        ShorterPartsEqual(a, x, b, y);
        NoRightFlagsSnoc(ps);
      }
      if NoRightFlags(BodySig(ps)) || |a + x| == |b + y| {
        NoRightFlagsSnoc(ps);
      }
    }
  }

  /** Two joins whose parts are each no longer than the other's equal only part by part. */
  lemma ShorterPartsEqual(a: Bytes, x: Bytes, b: Bytes, y: Bytes)
    requires |a| <= |b| && |x| <= |y| && a + x == b + y
    ensures a == b && x == y
  {
    assert |a| == |b|;
    assert a == (a + x)[..|a|];
    assert b == (b + y)[..|b|];
    assert x == (a + x)[|a|..];
    assert y == (b + y)[|b|..];
  }

  /** A list has no right-side flags exactly when its first part and its last pattern have none. */
  lemma NoRightFlagsSnoc(ps: seq<Pattern>)
    requires |ps| > 0
    ensures NoRightFlags(BodySig(ps)) <==> NoRightFlags(BodySig(ps[..|ps| - 1])) && Patterns.NoRightFlags(ps[|ps| - 1])
  {
    var init := ps[..|ps| - 1];
    if NoRightFlags(BodySig(init)) && Patterns.NoRightFlags(ps[|ps| - 1]) {
      forall k | 0 <= k < |ps| ensures Patterns.NoRightFlags(ps[k]) {
        if k < |ps| - 1 { assert ps[k] == init[k]; }
      }
    }
    if NoRightFlags(BodySig(ps)) {
      forall k | 0 <= k < |init| ensures Patterns.NoRightFlags(init[k]) { assert init[k] == ps[k]; }
    }
  }

  /** Export distributes over joining two pattern lists; an empty list exports nothing. */
  lemma {:induction false} PatternsTextConcat(a: seq<Pattern>, b: seq<Pattern>)
    requires S.AllExportable(a) && S.AllExportable(b)
    ensures S.AllExportable(a + b)
    ensures PatternsText(a + b) == PatternsText(a) + PatternsText(b)
    ensures PatternsText([]) == []
    decreases |b|
  {
    ExportableConcat(a, b);
    if |b| == 0 {
      assert a + b == a;
    } else {
      var b0 := b[..|b| - 1];
      ExportableConcat(a, b0);
      PatternsTextConcat(a, b0);
      Collect.DropLastOfConcat(a, b);
      assert PatternsText(a + b) == PatternsText(a + b0) + PatternText(b[|b| - 1]);
      AppendAssoc(PatternsText(a), PatternsText(b0), PatternText(b[|b| - 1]),
                  PatternsText(a + b0), PatternsText(b));
    }
  }

  /** Two lists of exportable patterns, and every prefix of the second, join to exportable lists. */
  lemma ExportableConcat(a: seq<Pattern>, b: seq<Pattern>)
    requires S.AllExportable(a) && S.AllExportable(b)
    ensures S.AllExportable(a + b)
    ensures forall n :: 0 <= n <= |b| ==> S.AllExportable(b[..n])
  {
    forall k | 0 <= k < |a + b| ensures Exportable((a + b)[k]) {
      if k < |a| { assert (a + b)[k] == a[k]; } else { assert (a + b)[k] == b[k - |a|]; }
    }
    forall n, k | 0 <= n <= |b| && 0 <= k < n ensures Exportable(b[..n][k]) { assert b[..n][k] == b[k]; }
  }

  /** A single pattern exports as its own text. */
  lemma PatternsTextOne(p: Pattern)
    requires Exportable(p)
    ensures S.AllExportable([p])
    ensures PatternsText([p]) == PatternText(p)
  {
    assert [p][..0] == [];
  }

  /** `AppendSigBytes for BodySig`: each pattern is appended in turn. */
  method AppendBodySig(sb: SigBytes.SigBytes, sig: BodySig)
    requires S.AllExportable(sig.patterns)
    modifies sb
    ensures sb.bytes == old(sb.bytes) + BodySigText(sig)
  {
    var ps := sig.patterns;
    ExportableConcat([], ps);
    for i := 0 to |ps|
      invariant S.AllExportable(ps[..i])
      invariant sb.bytes == old(sb.bytes) + PatternsText(ps[..i])
    {
      ghost var before := sb.bytes;
      AppendPattern(sb, ps[i]);
      PatternsTextSnoc(ps, i);
      AppendAssoc(old(sb.bytes), PatternsText(ps[..i]), PatternText(ps[i]), before, PatternsText(ps[..i + 1]));
    }
    assert ps[..|ps|] == ps;
  }

  /** The text of the first `i + 1` patterns is that of the first `i`, then the next one's. */
  lemma PatternsTextSnoc(ps: seq<Pattern>, i: nat)
    requires S.AllExportable(ps) && i < |ps|
    ensures S.AllExportable(ps[..i]) && S.AllExportable(ps[..i + 1])
    ensures PatternsText(ps[..i + 1]) == PatternsText(ps[..i]) + PatternText(ps[i])
  {
    ExportableConcat([], ps);
    assert ps[..i + 1][..i] == ps[..i];
  }

  /** `EngineReq for Pattern` keeps the default: no features. */
  function PatternFeatures(p: Pattern): Features.FeatureSet
  {
    Features.DEFAULT
  }

  /** The features of each pattern, one after the other. */
  function PatternsFeatures(ps: seq<Pattern>): seq<Features.Feature>
    decreases |ps|
  {
    if |ps| == 0 then [] else Features.Items(PatternFeatures(ps[0])) + PatternsFeatures(ps[1..])
  }

  /** `EngineReq for BodySig`: the union of the patterns' features. */
  function BodySigFeatures(sig: BodySig): Features.FeatureSet
  {
    Features.Built(PatternsFeatures(sig.patterns))
  }

  /** A body signature requires no feature and so no functionality level. */
  lemma {:induction false} BodySigNeedsNothing(sig: BodySig, minFlevel: Features.Feature -> nat)
    ensures Features.Items(BodySigFeatures(sig)) == []
    ensures Features.FeatureLevels(BodySigFeatures(sig), minFlevel) == (None, None)
  {
    NoPatternFeatures(sig.patterns);
  }

  lemma {:induction false} NoPatternFeatures(ps: seq<Pattern>)
    ensures PatternsFeatures(ps) == []
    decreases |ps|
  {
    if |ps| > 0 {
      NoPatternFeatures(ps[1..]);
    }
  }

  /** `BodySig::try_from`: the patterns the parser reads. */
  function Parse(value: Bytes): Result<BodySig, S.BodySigParseError>
  {
    var ps :- S.Parse(value);
    Ok(BodySig(ps))
  }

  /**
   * What parses can be exported: the list is non-empty, starts and ends
   * with a sized pattern, and every pattern has a text.
   */
  lemma ParsedExportable(value: Bytes)
    requires Parse(value).Ok?
    ensures S.AllExportable(Parse(value).value.patterns)
    ensures |Parse(value).value.patterns| > 0
    ensures !IsWildcard(Parse(value).value.patterns[0])
  {
    S.ParseShape(value);
  }

  /** A flag set with no flags writes nothing. */
  lemma NoFlagsText()
    ensures FlagsText(Ordered({} * LEFT_FLAGS)) == [] && FlagsText(Ordered({} * RIGHT_FLAGS)) == []
  {
    OrderedFlags({});
  }

  /** The one string of plain bytes exports as their hex text. */
  lemma PlainStringText(b: Bytes)
    ensures S.AllExportable([String(FromBytes(b), {})])
    ensures PatternsText([String(FromBytes(b), {})]) == Hex.Encode(b)
  {
    var p := String(FromBytes(b), {});
    PatternsTextOne(p);
    NoFlagsText();
    FromBytesText(b);
    assert PatternText(p) == [] + MatchBytesText(FromBytes(b)) + [];
  }

  /**
   * The hex text of two or more plain bytes is a body signature, and its
   * export gives the same text back.
   */
  lemma HexRoundTrip(b: Bytes)
    requires 2 <= |b| <= S.USIZE_MAX
    ensures Parse(Hex.Encode(b)).Ok?
    ensures S.AllExportable(Parse(Hex.Encode(b)).value.patterns)
    ensures BodySigText(Parse(Hex.Encode(b)).value) == Hex.Encode(b)
  {
    var ps := [String(FromBytes(b), {})];
    S.ParseHex(b);
    assert Parse(Hex.Encode(b)) == Ok(BodySig(ps));
    PlainStringText(b);
  }
}
