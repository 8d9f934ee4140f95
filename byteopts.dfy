/**
 * The byte-options field of a byte-compare sub-signature
 * (src/signature/logical_sig/subsig/bytecmp/byteopts.rs): letters for the
 * encoding, the byte order and "evaluate if it can be extracted", and a digit
 * for the number of bytes to extract.
 */
module ByteOpts {
  import opened Wrappers
  import opened ByteStr
  import opened ByteCmpEncodings

  /** `ByteOptions`; the encoding and the byte order may be left unspecified. */
  datatype ByteOptions = ByteOptions(
    encoding: Option<Encoding>,
    endianness: Option<Endianness>,
    evaluateIfCanExtract: bool,
    extractBytes: nat)

  /** `ByteOptionsParseError`. */
  datatype ParseError = Unrecognized | IncompatibleOptions | MissingNumBytes | InvalidNumBytes

  predicate IsEncodingChar(b: Byte) { b == 'h' || b == 'd' || b == 'a' || b == 'i' }
  predicate IsEndianChar(b: Byte) { b == 'l' || b == 'b' }
  predicate IsCountChar(b: Byte) { b == '1' || b == '2' || b == '4' || b == '8' }
  predicate IsOptionChar(b: Byte) { IsEncodingChar(b) || IsEndianChar(b) || b == 'e' || IsCountChar(b) }
  predicate AllOptions(s: Bytes) { forall i :: 0 <= i < |s| ==> IsOptionChar(s[i]) }

  function EncodingOf(b: Byte): Encoding
    requires IsEncodingChar(b)
  {
    if b == 'h' then Hex else if b == 'd' then Decimal else if b == 'a' then Automatic else RawBinary
  }

  function EndianOf(b: Byte): Endianness
    requires IsEndianChar(b)
  {
    if b == 'l' then Little else Big
  }

  /** The three kinds of option letter where a later one overrides an earlier one. */
  datatype Kind = EncodingKind | EndianKind | CountKind

  predicate OfKind(b: Byte, k: Kind)
  {
    match k
    case EncodingKind => IsEncodingChar(b)
    case EndianKind => IsEndianChar(b)
    case CountKind => IsCountChar(b)
  }

  /** The last byte of `s` of kind `k`, if any. */
  function LastOf(s: Bytes, k: Kind): (r: Option<Byte>)
    ensures r.Some? ==> OfKind(r.value, k) && r.value in s
    ensures r.None? <==> forall i :: 0 <= i < |s| ==> !OfKind(s[i], k)
    decreases |s|
  {
    if |s| == 0 then None
    else if OfKind(s[|s| - 1], k) then Some(s[|s| - 1])
    else
      var r := LastOf(s[..|s| - 1], k);
      assert forall i :: 0 <= i < |s| - 1 ==> s[..|s| - 1][i] == s[i];
      r
  }

  /** The four variables of the scan: what the letters read so far have set. */
  datatype Scan = Scan(encoding: Option<Encoding>, endianness: Option<Endianness>, evaluate: bool, extract: Option<nat>)

  const START: Scan := Scan(None, None, false, None)

  /** One byte of the scan: a letter sets its variable, any other byte stops the scan. */
  function Step(st: Scan, b: Byte): Result<Scan, ParseError>
  {
    if IsEncodingChar(b) then Ok(st.(encoding := Some(EncodingOf(b))))
    else if IsEndianChar(b) then Ok(st.(endianness := Some(EndianOf(b))))
    else if b == 'e' then Ok(st.(evaluate := true))
    else if IsCountChar(b) then Ok(st.(extract := Some(DigitVal(b))))
    else if IsDigit(b) then Err(InvalidNumBytes)
    else Err(Unrecognized)
  }

  /** The scan over a whole prefix, byte by byte from the left. */
  function Scanned(s: Bytes): Result<Scan, ParseError>
    decreases |s|
  {
    if |s| == 0 then Ok(START)
    else match Scanned(s[..|s| - 1])
      case Err(e) => Err(e)
      case Ok(st) => Step(st, s[|s| - 1])
  }

  /** The checks after the scan: a byte count is required, and decimal is big-endian. */
  function Finish(st: Scan): Result<ByteOptions, ParseError>
  {
    if st.extract.None? then Err(MissingNumBytes)
    else if st.encoding == Some(Decimal) && st.endianness == Some(Little) then Err(IncompatibleOptions)
    else
      var endianness := if st.encoding == Some(Decimal) && st.endianness.None? then Some(Big) else st.endianness;
      Ok(ByteOptions(st.encoding, endianness, st.evaluate, st.extract.value))
  }

  /** What `ByteOptions::from_bytes` returns for `bytes`. */
  function ParseSpec(bytes: Bytes): Result<ByteOptions, ParseError>
  {
    match Scanned(bytes)
    case Err(e) => Err(e)
    case Ok(st) => Finish(st)
  }

  /** `ByteOptions::from_bytes`: a loop over the bytes that updates four variables, then the checks. */
  method Parse(bytes: Bytes) returns (r: Result<ByteOptions, ParseError>)
    ensures r == ParseSpec(bytes)
  {
    var encoding: Option<Encoding> := None;
    var endianness: Option<Endianness> := None;
    var evaluate := false;
    var extract: Option<nat> := None;
    var i := 0;
    while i < |bytes|
      invariant 0 <= i <= |bytes|
      invariant Scanned(bytes[..i]) == Ok(Scan(encoding, endianness, evaluate, extract))
    {
      var b := bytes[i];
      assert bytes[..i + 1][..i] == bytes[..i];
      if b == 'h' {
        encoding := Some(Hex);
      } else if b == 'd' {
        encoding := Some(Decimal);
      } else if b == 'a' {
        encoding := Some(Automatic);
      } else if b == 'i' {
        encoding := Some(RawBinary);
      } else if b == 'l' {
        endianness := Some(Little);
      } else if b == 'b' {
        endianness := Some(Big);
      } else if b == 'e' {
        evaluate := true;
      } else if b == '1' || b == '2' || b == '4' || b == '8' {
        extract := Some(b as int - '0' as int);
      } else if '0' <= b <= '9' {
        ErrPersists(bytes, i + 1);
        return Err(InvalidNumBytes);
      } else {
        ErrPersists(bytes, i + 1);
        return Err(Unrecognized);
      }
      i := i + 1;
    }
    assert bytes[..|bytes|] == bytes;
    if extract.None? {
      return Err(MissingNumBytes);
    }
    if encoding == Some(Decimal) {
      match endianness {
        case Some(Little) => return Err(IncompatibleOptions);
        case None => endianness := Some(Big);
        case Some(Big) =>
      }
    }
    return Ok(ByteOptions(encoding, endianness, evaluate, extract.value));
  }

  /** Once the scan has stopped with an error, the rest of the bytes do not change it. */
  lemma {:induction false} ErrPersists(s: Bytes, i: nat)
    requires i <= |s| && Scanned(s[..i]).Err?
    ensures Scanned(s) == Scanned(s[..i])
    decreases |s| - i
  {
    if i < |s| {
      assert s[..i + 1][..i] == s[..i];
      ErrPersists(s, i + 1);
    } else {
      assert s[..i] == s;
    }
  }

  /** The scan of letters only: each variable holds what the last letter of its kind set. */
  lemma {:induction false} ScanMeaning(s: Bytes)
    ensures AllOptions(s) ==> Scanned(s) == Ok(LettersScan(s))
    ensures !AllOptions(s) ==> Scanned(s).Err?
    decreases |s|
  {
    if |s| > 0 {
      var p := s[..|s| - 1];
      var b := s[|s| - 1];
      ScanMeaning(p);
      assert AllOptions(s) <==> AllOptions(p) && IsOptionChar(b) by {
        assert forall i :: 0 <= i < |p| ==> p[i] == s[i];
      }
      if AllOptions(s) {
        LettersStep(s);
      }
    }
  }

  /** One more option letter changes the letter-described state as one step of the scan does. */
  lemma LettersStep(s: Bytes)
    requires |s| > 0 && IsOptionChar(s[|s| - 1])
    ensures Step(LettersScan(s[..|s| - 1]), s[|s| - 1]) == Ok(LettersScan(s))
  {
    var p := s[..|s| - 1];
    var b := s[|s| - 1];
    assert s == p + [b];
    assert ('e' in s) <==> ('e' in p || b == 'e');
  }

  /** The scan state described by the last letter of each kind, independently of the loop. */
  function LettersScan(s: Bytes): Scan
  {
    var enc := LastOf(s, EncodingKind);
    var end := LastOf(s, EndianKind);
    var cnt := LastOf(s, CountKind);
    Scan(if enc.Some? then Some(EncodingOf(enc.value)) else None,
         if end.Some? then Some(EndianOf(end.value)) else None,
         'e' in s,
         if cnt.Some? then Some(DigitVal(cnt.value)) else None)
  }

  /**
   * The options parse exactly when every byte is an option letter, a byte
   * count is given, and a decimal encoding is not little-endian; the last
   * letter of each kind wins, and decimal without a byte order is big-endian.
   */
  lemma ParseMeaning(bytes: Bytes)
    ensures var enc := LastOf(bytes, EncodingKind); var end := LastOf(bytes, EndianKind); var cnt := LastOf(bytes, CountKind);
      (ParseSpec(bytes).Ok? <==> AllOptions(bytes) && cnt.Some? && !(enc == Some('d') && end == Some('l'))) &&
      (ParseSpec(bytes) == Err(MissingNumBytes) <==> AllOptions(bytes) && cnt.None?) &&
      (ParseSpec(bytes) == Err(IncompatibleOptions) <==> AllOptions(bytes) && cnt.Some? && enc == Some('d') && end == Some('l')) &&
      (ParseSpec(bytes).Ok? ==>
        var o := ParseSpec(bytes).value;
        o.extractBytes == DigitVal(cnt.value) &&
        o.evaluateIfCanExtract == ('e' in bytes) &&
        o.encoding == (if enc.Some? then Some(EncodingOf(enc.value)) else None) &&
        o.endianness == (if end.Some? then Some(EndianOf(end.value)) else if enc == Some('d') then Some(Big) else None))
  {
    ScanMeaning(bytes);
    if !AllOptions(bytes) {
      var e := Scanned(bytes).error;
      assert e != MissingNumBytes && e != IncompatibleOptions by { ScanErrors(bytes); }
    }
  }

  /** Every parse result is valid: a count of 1, 2, 4 or 8, and decimal only big-endian. */
  lemma ParseValid(bytes: Bytes)
    ensures ParseSpec(bytes).Ok? ==> Valid(ParseSpec(bytes).value)
  {
    ParseMeaning(bytes);
  }

  /** The scan itself only stops with an error about a byte. */
  lemma {:induction false} ScanErrors(s: Bytes)
    ensures Scanned(s).Err? ==> Scanned(s).error == InvalidNumBytes || Scanned(s).error == Unrecognized
    decreases |s|
  {
    if |s| > 0 {
      ScanErrors(s[..|s| - 1]);
    }
  }

  /** The first byte that is not an option letter decides the error: a digit is a bad count. */
  lemma FirstBadByte(bytes: Bytes, k: nat)
    requires k < |bytes| && AllOptions(bytes[..k]) && !IsOptionChar(bytes[k])
    ensures ParseSpec(bytes) == Err(if IsDigit(bytes[k]) then InvalidNumBytes else Unrecognized)
  {
    ScanMeaning(bytes[..k]);
    assert bytes[..k + 1][..k] == bytes[..k];
    ErrPersists(bytes, k + 1);
  }

  /** Option letters for one choice of each option, in the order encoding, byte order, evaluate, count. */
  function OptionsText(o: ByteOptions): (t: Bytes)
    requires IsCountValue(o.extractBytes)
  {
    EncodingPart(o) + EndianPart(o) + EvaluatePart(o) + [DecimalDigit(o.extractBytes)]
  }

  function EncodingPart(o: ByteOptions): (t: Bytes)
    ensures |t| <= 1
  {
    if o.encoding.Some? then [EncodingLetter(o.encoding.value)] else []
  }

  function EndianPart(o: ByteOptions): (t: Bytes)
    ensures |t| <= 1
  {
    if o.endianness.Some? then [EndianLetter(o.endianness.value)] else []
  }

  function EvaluatePart(o: ByteOptions): (t: Bytes)
    ensures |t| <= 1
  {
    if o.evaluateIfCanExtract then "e" else ""
  }

  predicate IsCountValue(n: nat) { n == 1 || n == 2 || n == 4 || n == 8 }

  /** What the parser can produce: a valid count, and a decimal encoding that is big-endian. */
  predicate Valid(o: ByteOptions)
  {
    IsCountValue(o.extractBytes) && (o.encoding == Some(Decimal) ==> o.endianness == Some(Big))
  }

  /** Reading the written options gives the options back. */
  lemma RoundTrip(o: ByteOptions)
    requires Valid(o)
    ensures ParseSpec(OptionsText(o)) == Ok(o)
  {
    var t := OptionsText(o);
    var c := DecimalDigit(o.extractBytes);
    assert t[|t| - 1] == c && IsCountChar(c);
    assert AllOptions(t);
    ParseMeaning(t);
    assert LastOf(t, CountKind) == Some(c);
    LettersOf(o);
    EvaluateOf(o);
  }

  /** The last letter of each kind in the written options is the one written for it. */
  lemma LettersOf(o: ByteOptions)
    requires Valid(o)
    ensures LastOf(OptionsText(o), EncodingKind) == (if o.encoding.Some? then Some(EncodingLetter(o.encoding.value)) else None)
    ensures LastOf(OptionsText(o), EndianKind) == (if o.endianness.Some? then Some(EndianLetter(o.endianness.value)) else None)
  {
    var a, b, e, c := EncodingPart(o), EndianPart(o), EvaluatePart(o), [DecimalDigit(o.extractBytes)];
    LastOfShort(a, EncodingKind);
    LastOfShort(b, EncodingKind);
    LastOfShort(e, EncodingKind);
    LastOfShort(c, EncodingKind);
    LastOfShort(a, EndianKind);
    LastOfShort(b, EndianKind);
    LastOfShort(e, EndianKind);
    LastOfShort(c, EndianKind);
    LastOfFour(a, b, e, c, EncodingKind);
    LastOfFour(a, b, e, c, EndianKind);
  }

  /** The last letter of a kind in a text of at most one byte. */
  lemma LastOfShort(x: Bytes, k: Kind)
    requires |x| <= 1
    ensures LastOf(x, k) == if |x| == 1 && OfKind(x[0], k) then Some(x[0]) else None
  {
  }

  /** The written options hold `e` exactly when the flag is set. */
  lemma EvaluateOf(o: ByteOptions)
    requires Valid(o)
    ensures 'e' in OptionsText(o) <==> o.evaluateIfCanExtract
  {
    assert 'e' !in EncodingPart(o) && 'e' !in EndianPart(o) && 'e' !in [DecimalDigit(o.extractBytes)];
  }

  /** The last letter of a kind in four concatenated parts comes from the last part that has one. */
  lemma LastOfFour(a: Bytes, b: Bytes, e: Bytes, c: Bytes, k: Kind)
    ensures LastOf(a + b + e + c, k) ==
      if LastOf(c, k).Some? then LastOf(c, k)
      else if LastOf(e, k).Some? then LastOf(e, k)
      else if LastOf(b, k).Some? then LastOf(b, k)
      else LastOf(a, k)
  {
    LastOfAppend(a + b + e, c, k);
    LastOfAppend(a + b, e, k);
    LastOfAppend(a, b, k);
  }

  function EncodingLetter(e: Encoding): (b: Byte)
    ensures IsEncodingChar(b) && EncodingOf(b) == e
  {
    match e
    case Hex => 'h'
    case Decimal => 'd'
    case Automatic => 'a'
    case RawBinary => 'i'
  }

  function EndianLetter(e: Endianness): (b: Byte)
    ensures IsEndianChar(b) && EndianOf(b) == e
  {
    match e
    case Little => 'l'
    case Big => 'b'
  }

  /** The last letter of a kind in `a + b` is `b`'s, or `a`'s when `b` has none. */
  lemma {:induction false} LastOfAppend(a: Bytes, b: Bytes, k: Kind)
    ensures LastOf(a + b, k) == if LastOf(b, k).Some? then LastOf(b, k) else LastOf(a, k)
    decreases |b|
  {
    if |b| == 0 {
      assert a + b == a;
    } else {
      var s := a + b;
      assert s[..|s| - 1] == a + b[..|b| - 1];
      LastOfAppend(a, b[..|b| - 1], k);
    }
  }

  /** The written options hold none of the separators of the enclosing sub-signature. */
  lemma TextHasNo(o: ByteOptions, c: Byte)
    requires IsCountValue(o.extractBytes)
    requires c == '#' || c == '(' || c == ')' || c == ','
    ensures c !in OptionsText(o)
  {
  }
}
