/**
 * Fuzzy image sub-signatures (src/signature/logical_sig/subsig/fuzzy_img.rs):
 * `fuzzy_img#<16 hex digits>[#<hamming distance>]`.
 */
module FuzzyImgs {
  import opened Wrappers
  import opened ByteStr
  import Utf8
  import Num
  import Features
  import SubSigModifiers

  datatype FuzzyImgSubSig = FuzzyImgSubSig(hashString: Bytes, hammingDistance: Option<int>, modifier: Option<SubSigModifiers.Modifier>)

  /** Why a hash string is refused; the source reports each as a message. */
  datatype HashStringProblem = NotUnicode | NotHexDigits(s: Bytes) | WrongLength(len: nat)

  /**
   * `FuzzyImgSubSigParseError`. `TooManyFields` cannot happen (`splitn(3, ..)`
   * never yields a fourth field) and is left out.
   */
  datatype ParseError =
    | InvalidHashString(problem: HashStringProblem)
    | InvalidHammingDistance(e: Num.NumberError)
    | MissingFuzzyImgHashPrefix
    | TooFewFields

  /** `identified`: every error but a missing `fuzzy_img` prefix says the text was meant as one. */
  predicate Identified(e: ParseError) { !e.MissingFuzzyImgHashPrefix? }

  const PREFIX: Bytes := "fuzzy_img"

  predicate AllHex(s: Bytes) { forall i :: 0 <= i < |s| ==> IsHexDigit(s[i]) }

  /** The hash field: UTF-8, then all hexadecimal digits, then exactly 16 of them. */
  function CheckHash(h: Bytes): (r: Result<Bytes, ParseError>)
    ensures r.Ok? <==> AllHex(h) && |h| == 16
    ensures r.Ok? ==> r.value == h
  {
    if !Utf8.IsValid(h) then
      assert !AllHex(h) by { if AllHex(h) { HexIsAscii(h); } }
      Err(InvalidHashString(NotUnicode))
    else if !AllHex(h) then Err(InvalidHashString(NotHexDigits(h)))
    else if |h| != 16 then Err(InvalidHashString(WrongLength(|h|)))
    else Ok(h)
  }

  lemma HexIsAscii(h: Bytes)
    requires AllHex(h)
    ensures Utf8.IsValid(h)
  {
    Utf8.AsciiIsValid(h);
  }

  /** The optional distance: an `isize` in decimal that is not negative. */
  function ParseDistance(d: Bytes): (r: Result<int, ParseError>)
    ensures r.Ok? <==> Num.ParseDecSigned(d, Num.ISIZE_MIN, Num.ISIZE_MAX).Ok? && Num.ParseDecSigned(d, Num.ISIZE_MIN, Num.ISIZE_MAX).value >= 0
    ensures r.Ok? ==> r.value == Num.ParseDecSigned(d, Num.ISIZE_MIN, Num.ISIZE_MAX).value
    ensures r.Err? ==> r.error.InvalidHammingDistance?
  {
    match Num.ParseDecSigned(d, Num.ISIZE_MIN, Num.ISIZE_MAX)
    case Err(e) => Err(InvalidHammingDistance(e))
    case Ok(v) => if v < 0 then Err(InvalidHammingDistance(Num.NegativeValue(v))) else Ok(v)
  }

  /** `FuzzyImgSubSig::from_bytes`: at most three `#`-separated fields. */
  function Parse(bytes: Bytes, modifier: Option<SubSigModifiers.Modifier>): (r: Result<FuzzyImgSubSig, ParseError>)
    ensures r == Err(MissingFuzzyImgHashPrefix) <==> SplitN(bytes, '#', 3)[0] != PREFIX
    ensures r.Ok? ==> SplitN(bytes, '#', 3)[0] == PREFIX && |SplitN(bytes, '#', 3)| >= 2 &&
                      r.value.hashString == SplitN(bytes, '#', 3)[1] && AllHex(r.value.hashString) && |r.value.hashString| == 16
    ensures r == Err(TooFewFields) <==> SplitN(bytes, '#', 3)[0] == PREFIX && |SplitN(bytes, '#', 3)| < 2
    ensures r.Ok? ==> (r.value.hammingDistance.Some? <==> |SplitN(bytes, '#', 3)| == 3)
    ensures r.Ok? && r.value.hammingDistance.Some? ==> r.value.hammingDistance.value >= 0
    ensures r.Ok? && |SplitN(bytes, '#', 3)| == 3 ==>
      ParseDistance(SplitN(bytes, '#', 3)[2]) == Ok(r.value.hammingDistance.value)
    ensures r.Ok? ==> r.value.modifier == modifier
  {
    var parts := SplitN(bytes, '#', 3);
    if parts[0] != PREFIX then Err(MissingFuzzyImgHashPrefix)
    else if |parts| < 2 then Err(TooFewFields)
    else
      var hash :- CheckHash(parts[1]);
      if |parts| == 3 then
        var d :- ParseDistance(parts[2]);
        Ok(FuzzyImgSubSig(hash, Some(d), modifier))
      else Ok(FuzzyImgSubSig(hash, None, modifier))
  }

  /** An error is identified exactly when the text's first `#` field is `fuzzy_img`. */
  lemma IdentifiedMeansPrefix(bytes: Bytes, modifier: Option<SubSigModifiers.Modifier>)
    requires Parse(bytes, modifier).Err?
    ensures Identified(Parse(bytes, modifier).error) <==> SplitN(bytes, '#', 3)[0] == PREFIX
  {
  }

  /** `EngineReq`: always the fuzzy image feature. */
  function SubSigFeatures(s: FuzzyImgSubSig): (r: Features.FeatureSet)
    ensures Features.Items(r) == [Features.FuzzyImageMin]
  {
    Features.Static([Features.FuzzyImageMin])
  }

  /** The export as the source writes it: the distance follows the hash with no `#` between them. */
  function ExportTextAsWritten(s: FuzzyImgSubSig): Bytes
  {
    PREFIX + "#" + s.hashString + (if s.hammingDistance.Some? && s.hammingDistance.value >= 0 then Num.Dec(s.hammingDistance.value) else [])
  }

  /** The export with the `#` before the distance, which the parser needs. */
  function ExportText(s: FuzzyImgSubSig): Bytes
  {
    PREFIX + "#" + s.hashString + (if s.hammingDistance.Some? && s.hammingDistance.value >= 0 then "#" + Num.Dec(s.hammingDistance.value) else [])
  }

  /** What the parser makes: a 16-digit hex hash and a distance that fits an `isize` and is not negative. */
  predicate Valid(s: FuzzyImgSubSig)
  {
    AllHex(s.hashString) && |s.hashString| == 16 &&
    (s.hammingDistance.Some? ==> 0 <= s.hammingDistance.value <= Num.ISIZE_MAX)
  }

  /** Reading the export gives the sub-signature back. */
  lemma RoundTrip(s: FuzzyImgSubSig)
    requires Valid(s)
    ensures Parse(ExportText(s), s.modifier) == Ok(s)
  {
    var h := s.hashString;
    assert '#' !in h by { forall i | 0 <= i < |h| ensures h[i] != '#' { assert IsHexDigit(h[i]); } }
    HexIsAscii(h);
    if s.hammingDistance.Some? {
      var d := s.hammingDistance.value;
      var dt := Num.Dec(d);
      assert ExportText(s) == PREFIX + ['#'] + (h + ['#'] + dt);
      SplitNCons(PREFIX, h + ['#'] + dt, '#', 3);
      SplitNTwo(h, dt, '#');
      Num.ParseDecSignedRoundTrip(d, Num.ISIZE_MIN, Num.ISIZE_MAX);
      assert Num.DecInt(d) == dt;
    } else {
      assert ExportText(s) == PREFIX + ['#'] + h;
      SplitNCons(PREFIX, h, '#', 3);
      SplitNNone(h, '#', 2);
    }
  }

  /** As written, a distance is read back as part of the hash, which is then too long. */
  lemma ExportedDistanceRefused(s: FuzzyImgSubSig)
    requires Valid(s) && s.hammingDistance.Some?
    ensures Parse(ExportTextAsWritten(s), s.modifier) == Err(InvalidHashString(WrongLength(16 + |Num.Dec(s.hammingDistance.value)|)))
  {
    var h := s.hashString + Num.Dec(s.hammingDistance.value);
    assert AllHex(h);
    assert '#' !in h by { forall i | 0 <= i < |h| ensures h[i] != '#' { assert IsHexDigit(h[i]); } }
    assert ExportTextAsWritten(s) == PREFIX + ['#'] + h;
    SplitNCons(PREFIX, h, '#', 3);
    SplitNNone(h, '#', 2);
    HexIsAscii(h);
  }

  /** The export holds none of the separators of a logical signature record. */
  lemma TextHasNo(s: FuzzyImgSubSig, c: Byte)
    requires Valid(s) && (c == ':' || c == ';')
    ensures c !in ExportText(s)
  {
    var h := s.hashString;
    assert c !in h by { forall i | 0 <= i < |h| ensures h[i] != c { assert IsHexDigit(h[i]); } }
    if s.hammingDistance.Some? {
      DigitsHaveNo(Num.Dec(s.hammingDistance.value), c);
    }
  }
}
