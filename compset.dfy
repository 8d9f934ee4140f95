/**
 * One comparison of a byte-compare sub-signature
 * (src/signature/logical_sig/subsig/bytecmp/compset.rs): an operator and a
 * value, `<12`, `=0x1f`, `>-3`.
 */
module CompSets {
  import opened Wrappers
  import opened ByteStr
  import Num
  import opened ByteCmpEncodings

  datatype ComparisonOp = LessThan | Equal | GreaterThan

  /** `ComparisonSet`: the value is an `i64`, kept with the base it was written in. */
  datatype ComparisonSet = ComparisonSet(symbol: ComparisonOp, value: int, encoding: Encoding)

  /** `ComparisonSetParseError`. */
  datatype ParseError =
    | Empty
    | MissingOperator
    | UnknownOperator
    | ParseValue(e: Num.NumberError)
    | ParseHexValue(e: Num.NumberError)
    | TooLarge

  /** The byte each operator is written with. */
  function OpChar(op: ComparisonOp): (b: Byte)
    ensures b == '<' || b == '=' || b == '>'
  {
    match op
    case LessThan => '<'
    case Equal => '='
    case GreaterThan => '>'
  }

  /** `ComparisonOp::try_from(u8)`. */
  function ParseOp(b: Byte): (r: Result<ComparisonOp, ParseError>)
    ensures r.Ok? <==> b == '<' || b == '=' || b == '>'
    ensures r.Ok? ==> OpChar(r.value) == b
    ensures r.Err? ==> r.error == UnknownOperator
  {
    if b == '<' then Ok(LessThan)
    else if b == '=' then Ok(Equal)
    else if b == '>' then Ok(GreaterThan)
    else Err(UnknownOperator)
  }

  /**
   * `ComparisonSet::try_from`: the operator byte (a digit there is reported
   * as a missing operator), then a hexadecimal `u64` after `0x` that must fit
   * an `i64`, or else a decimal `i64`.
   */
  function Parse(value: Bytes): (r: Result<ComparisonSet, ParseError>)
    ensures r == Err(Empty) <==> |value| == 0
    ensures r == Err(MissingOperator) <==> |value| > 0 && IsDigit(value[0])
    ensures r == Err(UnknownOperator) <==> |value| > 0 && !IsDigit(value[0]) && ParseOp(value[0]).Err?
    ensures r.Ok? ==> OpChar(r.value.symbol) == value[0] && Num.I64_MIN <= r.value.value <= Num.I64_MAX
    ensures r.Ok? ==> (r.value.encoding == Hex <==> StartsWith(value[1..], "0x"))
    ensures r.Ok? ==> (r.value.encoding == Hex || r.value.encoding == Decimal)
    ensures r.Ok? && r.value.encoding == Hex ==> Num.ParseHex(value[3..]) == Ok(r.value.value)
    ensures r.Ok? && r.value.encoding == Decimal ==> Num.ParseDecSigned(value[1..], Num.I64_MIN, Num.I64_MAX) == Ok(r.value.value)
    ensures r == Err(TooLarge) <==> |value| > 0 && ParseOp(value[0]).Ok? && StartsWith(value[1..], "0x") &&
                                    Num.ParseHex(value[3..]).Ok? && Num.ParseHex(value[3..]).value > Num.I64_MAX
  {
    if |value| == 0 then Err(Empty)
    else
      var sym := value[0];
      var rest := value[1..];
      match ParseOp(sym)
      case Err(e) => Err(if e == UnknownOperator && IsDigit(sym) then MissingOperator else e)
      case Ok(op) =>
        if StartsWith(rest, "0x") then
          assert rest[2..] == value[3..];
          HexValue(op, rest[2..])
        else DecimalValue(op, rest)
  }

  /** The value after `0x`: a hexadecimal `u64` that must also fit an `i64`. */
  function HexValue(op: ComparisonOp, digits: Bytes): (r: Result<ComparisonSet, ParseError>)
    ensures r.Ok? ==> r.value == ComparisonSet(op, r.value.value, Hex) && Num.ParseHex(digits) == Ok(r.value.value) &&
                      0 <= r.value.value <= Num.I64_MAX
    ensures r == Err(TooLarge) <==> Num.ParseHex(digits).Ok? && Num.ParseHex(digits).value > Num.I64_MAX
  {
    match Num.ParseHex(digits)
    case Err(e) => Err(ParseHexValue(e))
    case Ok(v) => if v > Num.I64_MAX then Err(TooLarge) else Ok(ComparisonSet(op, v, Hex))
  }

  /** A value without `0x`: a decimal `i64`. */
  function DecimalValue(op: ComparisonOp, digits: Bytes): (r: Result<ComparisonSet, ParseError>)
    ensures r.Ok? ==> r.value == ComparisonSet(op, r.value.value, Decimal) &&
                      Num.ParseDecSigned(digits, Num.I64_MIN, Num.I64_MAX) == Ok(r.value.value)
    ensures r.Err? ==> r.error.ParseValue?
  {
    match Num.ParseDecSigned(digits, Num.I64_MIN, Num.I64_MAX)
    case Err(e) => Err(ParseValue(e))
    case Ok(v) => Ok(ComparisonSet(op, v, Decimal))
  }

  /** A comparison written in its own base: `0x` and lower-case hex digits, or signed decimal. */
  function SetText(c: ComparisonSet): (t: Bytes)
    ensures |t| > 1 && t[0] == OpChar(c.symbol)
  {
    [OpChar(c.symbol)] + (if c.encoding == Hex && c.value >= 0 then "0x" + Num.HexText(c.value) else Num.DecInt(c.value))
  }

  /** What the parser can produce. */
  predicate Fits(c: ComparisonSet)
  {
    Num.I64_MIN <= c.value <= Num.I64_MAX &&
    (c.encoding == Decimal || (c.encoding == Hex && c.value >= 0))
  }

  /** Reading the written form gives the comparison back, base included. */
  lemma RoundTrip(c: ComparisonSet)
    requires Fits(c)
    ensures Parse(SetText(c)) == Ok(c)
  {
    var t := SetText(c);
    assert ParseOp(t[0]) == Ok(c.symbol);
    if c.encoding == Hex {
      var h := Num.HexText(c.value);
      assert t[1..] == "0x" + h && t[3..] == h;
      assert Parse(t) == HexValue(c.symbol, h);
      Num.ParseHexBare(c.value);
    } else {
      var d := Num.DecInt(c.value);
      assert t[1..] == d;
      DecIsNotHex(c.value);
      assert Parse(t) == DecimalValue(c.symbol, d);
      Num.ParseDecSignedRoundTrip(c.value, Num.I64_MIN, Num.I64_MAX);
    }
  }

  /** Decimal text never begins with `0x`. */
  lemma DecIsNotHex(i: int)
    ensures !StartsWith(Num.DecInt(i), "0x")
  {
    var d := Num.DecInt(i);
    if i < 0 {
      assert d[0] == '-';
    } else if |d| >= 2 {
      assert d == Num.Dec(i);
      assert IsDigit(d[1]);
    }
    assert StartsWith(d, "0x") ==> d[..2][0] == d[0] && d[..2][1] == d[1];
  }

  /** The written form holds none of the separators of the enclosing sub-signature. */
  lemma TextHasNo(c: ComparisonSet, b: Byte)
    requires b == '#' || b == '(' || b == ')' || b == ','
    ensures b !in SetText(c)
  {
    var t := SetText(c);
    if c.encoding == Hex && c.value >= 0 {
      var h := Num.HexText(c.value);
      assert t == [OpChar(c.symbol)] + "0x" + h;
      assert b !in h by { forall i | 0 <= i < |h| ensures h[i] != b { assert IsHexDigit(h[i]); } }
    } else {
      var d := Num.Dec(if c.value < 0 then -c.value else c.value);
      DigitsHaveNo(d, b);
      assert t == [OpChar(c.symbol)] + (if c.value < 0 then "-" else "") + d;
    }
  }
}
