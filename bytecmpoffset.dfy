/**
 * The offset field of a byte-compare sub-signature
 * (src/signature/logical_sig/subsig/bytecmp/offset.rs): `>>n` or `<<n`.
 */
module ByteCmpOffsets {
  import opened Wrappers
  import opened ByteStr
  import Num
  import opened ByteCmpEncodings

  /** `>>` reads forward from the trigger's match, `<<` backward. */
  datatype Modifier = Positive | Negative

  datatype Offset = Offset(modifier: Modifier, offset: int, encoding: Encoding)

  /** `ParseError` of the offset field. */
  datatype ParseError = MissingOffsetModifier | ParseNum(e: Num.NumberError)

  /** `Offset::try_from`: the direction, then a decimal `isize`, recorded as decimal. */
  function Parse(bytes: Bytes): (r: Result<Offset, ParseError>)
    ensures r == Err(MissingOffsetModifier) <==> !StartsWith(bytes, ">>") && !StartsWith(bytes, "<<")
    ensures r.Ok? ==> r.value.encoding == Decimal
    ensures r.Ok? ==> (r.value.modifier == Positive <==> StartsWith(bytes, ">>"))
    ensures r.Ok? ==> Num.ParseDecSigned(bytes[2..], Num.ISIZE_MIN, Num.ISIZE_MAX) == Ok(r.value.offset)
  {
    var modifier := if StartsWith(bytes, ">>") then Some(Positive)
                    else if StartsWith(bytes, "<<") then Some(Negative)
                    else None;
    match modifier
    case None => Err(MissingOffsetModifier)
    case Some(m) =>
      match Num.ParseDecSigned(bytes[2..], Num.ISIZE_MIN, Num.ISIZE_MAX)
      case Err(e) => Err(ParseNum(e))
      case Ok(n) => Ok(Offset(m, n, Decimal))
  }

  /** The written form of an offset field: the direction and the decimal value. */
  function OffsetText(o: Offset): (t: Bytes)
    ensures |t| > 2
  {
    (if o.modifier.Positive? then ">>" else "<<") + Num.DecInt(o.offset)
  }

  /** What the parser can produce: a decimal `isize`. */
  predicate Fits(o: Offset)
  {
    o.encoding == Decimal && Num.ISIZE_MIN <= o.offset <= Num.ISIZE_MAX
  }

  /** Reading the written form gives the offset back. */
  lemma RoundTrip(o: Offset)
    requires Fits(o)
    ensures Parse(OffsetText(o)) == Ok(o)
  {
    var t := OffsetText(o);
    assert t[2..] == Num.DecInt(o.offset);
    Num.ParseDecSignedRoundTrip(o.offset, Num.ISIZE_MIN, Num.ISIZE_MAX);
  }

  /** The written form holds none of the separators of the enclosing sub-signature. */
  lemma TextHasNo(o: Offset, c: Byte)
    requires c == '#' || c == '(' || c == ')' || c == ','
    ensures c !in OffsetText(o)
  {
    var d := Num.Dec(if o.offset < 0 then -o.offset else o.offset);
    DigitsHaveNo(d, c);
    assert OffsetText(o) == (if o.modifier.Positive? then ">>" else "<<") + (if o.offset < 0 then "-" else "") + d;
  }
}
