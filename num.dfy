/**
 * Integer text: Rust's `str::parse` / `from_str_radix` for the integer
 * widths the signature formats use, the decimal and hexadecimal number
 * parsers of src/util.rs built on them, and decimal rendering (`{}`).
 * `usize` and `isize` are taken to be 64 bits wide.
 */
module Num {
  import opened Wrappers
  import opened ByteStr
  import Utf8

  const U8_MAX: nat := 0xFF
  const U32_MAX: nat := 0xFFFF_FFFF
  const USIZE_MAX: nat := 0xFFFF_FFFF_FFFF_FFFF
  const U64_MAX: nat := 0xFFFF_FFFF_FFFF_FFFF
  const ISIZE_MIN: int := -0x8000_0000_0000_0000
  const ISIZE_MAX: int := 0x7FFF_FFFF_FFFF_FFFF
  const I64_MIN: int := -0x8000_0000_0000_0000
  const I64_MAX: int := 0x7FFF_FFFF_FFFF_FFFF

  /** Rust's `IntErrorKind`: why a string is not an integer of the target type. */
  datatype IntErrorKind = Empty | InvalidDigit | PosOverflow | NegOverflow

  /** `ParseNumberError` of src/util.rs. */
  datatype NumberError = Utf8Error | Unparseable(kind: IntErrorKind) | NegativeValue(value: int)

  predicate IsRadixDigit(b: Byte, radix: nat)
    requires radix == 10 || radix == 16
  {
    if radix == 10 then IsDigit(b) else IsHexDigit(b)
  }

  function RadixVal(b: Byte, radix: nat): (n: nat)
    requires radix == 10 || radix == 16
    requires IsRadixDigit(b, radix)
    ensures n < radix
  {
    if radix == 10 then DigitVal(b) else HexVal(b)
  }

  /** `acc * radix`, written per radix so that the arithmetic stays linear. */
  function Shift(acc: int, radix: nat): int
    requires radix == 10 || radix == 16
  {
    if radix == 10 then acc * 10 else acc * 16
  }

  /** Value of a run of digits, most significant first. */
  function DigitsValue(s: Bytes, radix: nat): nat
    requires radix == 10 || radix == 16
    requires forall i :: 0 <= i < |s| ==> IsRadixDigit(s[i], radix)
    decreases |s|
  {
    if |s| == 0 then 0 else Shift(DigitsValue(s[..|s| - 1], radix), radix) + RadixVal(s[|s| - 1], radix)
  }

  /**
   * Digits accumulated from the left with checked arithmetic: the first
   * non-digit gives InvalidDigit, the first step past `max` gives PosOverflow.
   */
  function AccPos(s: Bytes, radix: nat, max: nat): (r: Result<nat, IntErrorKind>)
    requires radix == 10 || radix == 16
    ensures r.Ok? ==> r.value <= max
    ensures r.Err? ==> r.error == InvalidDigit || r.error == PosOverflow
    decreases |s|
  {
    if |s| == 0 then Ok(0)
    else match AccPos(s[..|s| - 1], radix, max)
      case Err(e) => Err(e)
      case Ok(acc) =>
        var c := s[|s| - 1];
        if !IsRadixDigit(c, radix) then Err(InvalidDigit)
        else if Shift(acc, radix) + RadixVal(c, radix) > max then Err(PosOverflow)
        else Ok(Shift(acc, radix) + RadixVal(c, radix))
  }

  /** The same for the magnitude of a negative number, bounded below by `min`. */
  function AccNeg(s: Bytes, min: int): (r: Result<int, IntErrorKind>)
    requires min <= 0
    ensures r.Ok? ==> min <= r.value <= 0
    ensures r.Err? ==> r.error == InvalidDigit || r.error == NegOverflow
    decreases |s|
  {
    if |s| == 0 then Ok(0)
    else match AccNeg(s[..|s| - 1], min)
      case Err(e) => Err(e)
      case Ok(acc) =>
        var c := s[|s| - 1];
        if !IsDigit(c) then Err(InvalidDigit)
        else if acc * 10 - DigitVal(c) < min then Err(NegOverflow)
        else Ok(acc * 10 - DigitVal(c))
  }

  /** `from_str_radix` for an unsigned type: an optional `+`, then digits. */
  function FromStrUnsigned(s: Bytes, radix: nat, max: nat): (r: Result<nat, IntErrorKind>)
    requires radix == 10 || radix == 16
    ensures r.Ok? ==> r.value <= max
  {
    if |s| == 0 then Err(Empty)
    else if (s[0] == '+' || s[0] == '-') && |s| == 1 then Err(InvalidDigit)
    else if s[0] == '+' then AccPos(s[1..], radix, max)
    else AccPos(s, radix, max)
  }

  /** `from_str` for a signed decimal type: an optional `+` or `-`, then digits. */
  function FromStrSigned(s: Bytes, min: int, max: int): (r: Result<int, IntErrorKind>)
    requires min <= 0 <= max
    ensures r.Ok? ==> min <= r.value <= max
  {
    if |s| == 0 then Err(Empty)
    else if (s[0] == '+' || s[0] == '-') && |s| == 1 then Err(InvalidDigit)
    else if s[0] == '+' then
      match AccPos(s[1..], 10, max) case Ok(v) => Ok(v) case Err(e) => Err(e)
    else if s[0] == '-' then AccNeg(s[1..], min)
    else match AccPos(s, 10, max) case Ok(v) => Ok(v) case Err(e) => Err(e)
  }

  /** `parse_number_dec` (src/util.rs) for an unsigned type with largest value `max`. */
  function ParseDec(s: Bytes, max: nat): (r: Result<nat, NumberError>)
    ensures r.Ok? ==> r.value <= max
    ensures r == Err(Utf8Error) <==> !Utf8.IsValid(s)
  {
    if !Utf8.IsValid(s) then Err(Utf8Error)
    else match FromStrUnsigned(s, 10, max)
      case Ok(v) => Ok(v)
      case Err(k) => Err(Unparseable(k))
  }

  /** `parse_number_dec` for a signed type with range `min..=max`. */
  function ParseDecSigned(s: Bytes, min: int, max: int): (r: Result<int, NumberError>)
    requires min <= 0 <= max
    ensures r.Ok? ==> min <= r.value <= max
    ensures r == Err(Utf8Error) <==> !Utf8.IsValid(s)
  {
    if !Utf8.IsValid(s) then Err(Utf8Error)
    else match FromStrSigned(s, min, max)
      case Ok(v) => Ok(v)
      case Err(k) => Err(Unparseable(k))
  }

  /** `trim_start_matches("0x")`: every leading "0x" is removed. */
  function TrimHexPrefix(s: Bytes): (r: Bytes)
    ensures |r| <= |s| && s[|s| - |r|..] == r
    ensures !StartsWith(r, "0x")
    decreases |s|
  {
    if StartsWith(s, "0x") then TrimHexPrefix(s[2..]) else s
  }

  /** `parse_number_hex` (src/util.rs): a `u64` in hexadecimal after the "0x" prefixes. */
  function ParseHex(s: Bytes): (r: Result<nat, NumberError>)
    ensures r.Ok? ==> r.value <= U64_MAX
  {
    if !Utf8.IsValid(s) then Err(Utf8Error)
    else match FromStrUnsigned(TrimHexPrefix(s), 16, U64_MAX)
      case Ok(v) => Ok(v)
      case Err(k) => Err(Unparseable(k))
  }

  /** Decimal rendering of a natural number (`{}`), without leading zeros. */
  function Dec(n: nat): (r: Bytes)
    ensures |r| > 0 && AllDigits(r)
    ensures r[0] == '0' ==> n == 0
    decreases n
  {
    if n < 10 then [DecimalDigit(n)] else Dec(n / 10) + [DecimalDigit(n % 10)]
  }

  /** Decimal rendering of an integer: a `-` sign for negatives only. */
  function DecInt(i: int): (r: Bytes)
    ensures |r| > 0
  {
    if i < 0 then "-" + Dec(-i) else Dec(i)
  }

  lemma AllDigitsAscii(s: Bytes)
    requires AllDigits(s)
    ensures Utf8.IsAscii(s) && Utf8.IsValid(s)
  {
    Utf8.AsciiIsValid(s);
  }

  /** A digit string is accumulated to its value when that value fits. */
  lemma {:induction false} AccPosDigits(s: Bytes, radix: nat, max: nat)
    requires radix == 10 || radix == 16
    requires forall i :: 0 <= i < |s| ==> IsRadixDigit(s[i], radix)
    ensures DigitsValue(s, radix) <= max ==> AccPos(s, radix, max) == Ok(DigitsValue(s, radix))
    ensures DigitsValue(s, radix) > max ==> AccPos(s, radix, max) == Err(PosOverflow)
    decreases |s|
  {
    if |s| > 0 {
      var p := s[..|s| - 1];
      assert forall i :: 0 <= i < |p| ==> p[i] == s[i];
      AccPosDigits(p, radix, max);
    }
  }

  /** Conversely, an accepted string is all digits and denotes its result. */
  lemma {:induction false} AccPosSound(s: Bytes, radix: nat, max: nat)
    requires radix == 10 || radix == 16
    requires AccPos(s, radix, max).Ok?
    ensures forall i :: 0 <= i < |s| ==> IsRadixDigit(s[i], radix)
    ensures AccPos(s, radix, max).value == DigitsValue(s, radix)
    decreases |s|
  {
    if |s| > 0 {
      AccPosSound(s[..|s| - 1], radix, max);
      assert forall i :: 0 <= i < |s| - 1 ==> s[i] == s[..|s| - 1][i];
    }
  }

  lemma {:induction false} DecValue(n: nat)
    ensures DigitsValue(Dec(n), 10) == n
    decreases n
  {
    if n >= 10 {
      DecValue(n / 10);
      var r := Dec(n);
      assert r[..|r| - 1] == Dec(n / 10);
    }
  }

  /** Parsing a rendered number gives the number back (n fits the type). */
  lemma ParseDecRoundTrip(n: nat, max: nat)
    requires n <= max
    ensures ParseDec(Dec(n), max) == Ok(n)
  {
    AllDigitsAscii(Dec(n));
    DecValue(n);
    AccPosDigits(Dec(n), 10, max);
  }

  /** The accepted decimal texts are exactly an optional `+` and digits whose value fits. */
  lemma ParseDecAccepts(s: Bytes, max: nat)
    ensures ParseDec(s, max).Ok? <==>
      exists d: Bytes :: (s == d || s == "+" + d) && |d| > 0 && AllDigits(d) && DigitsValue(d, 10) <= max
  {
    if ParseDec(s, max).Ok? {
      var d := if s[0] == '+' then s[1..] else s;
      AccPosSound(d, 10, max);
      assert s == d || s == "+" + d;
    } else {
      forall d: Bytes | (s == d || s == "+" + d) && |d| > 0 && AllDigits(d)
        ensures DigitsValue(d, 10) > max
      {
        AllDigitsAscii(d);
        Utf8.AsciiIsValid(s);
        AccPosDigits(d, 10, max);
      }
    }
  }

  lemma {:induction false} AccNegDigits(s: Bytes, min: int)
    requires min <= 0 && AllDigits(s)
    requires DigitsValue(s, 10) <= -min
    ensures AccNeg(s, min) == Ok(-(DigitsValue(s, 10) as int))
    decreases |s|
  {
    if |s| > 0 {
      var p := s[..|s| - 1];
      assert forall i :: 0 <= i < |p| ==> p[i] == s[i];
      AccNegDigits(p, min);
    }
  }

  /** Signed round trip: a rendered `isize`/`i64` parses back to itself. */
  lemma ParseDecSignedRoundTrip(i: int, min: int, max: int)
    requires min <= 0 <= max && min <= i <= max
    ensures ParseDecSigned(DecInt(i), min, max) == Ok(i)
  {
    if i < 0 {
      NegRoundTrip(i, min, max);
    } else {
      DecValue(i);
      AllDigitsAscii(Dec(i));
      AccPosDigits(Dec(i), 10, max);
    }
  }

  lemma NegRoundTrip(i: int, min: int, max: int)
    requires min <= i < 0 <= max
    ensures ParseDecSigned(DecInt(i), min, max) == Ok(i)
  {
    var d := Dec(-i);
    var t := "-" + d;
    assert DecInt(i) == t;
    assert t[1..] == d && t[0] == '-' && |t| > 1;
    NegDigits(d, -i, min);
    FromStrSignedNeg(t, min, max);
    AllDigitsAscii(d);
    assert Utf8.IsAscii(t);
    Utf8.AsciiIsValid(t);
    ParseDecSignedOk(t, min, max);
  }

  lemma NegDigits(d: Bytes, n: nat, min: int)
    requires min <= 0 && n <= -min && d == Dec(n)
    ensures AccNeg(d, min) == Ok(-(n as int))
  {
    DecValue(n);
    AccNegDigits(d, min);
  }

  lemma ParseDecSignedOk(t: Bytes, min: int, max: int)
    requires min <= 0 <= max && Utf8.IsValid(t) && FromStrSigned(t, min, max).Ok?
    ensures ParseDecSigned(t, min, max) == Ok(FromStrSigned(t, min, max).value)
  {
  }

  lemma FromStrSignedNeg(t: Bytes, min: int, max: int)
    requires min <= 0 <= max && |t| > 1 && t[0] == '-'
    ensures FromStrSigned(t, min, max) == AccNeg(t[1..], min)
  {
  }

  /** Lower-case hexadecimal rendering of a number, without leading zeros (`{:x}`). */
  function HexText(n: nat): (r: Bytes)
    ensures |r| > 0 && forall i :: 0 <= i < |r| ==> IsHexDigit(r[i])
    decreases n
  {
    if n < 16 then [LowerHexDigit(n)] else HexText(n / 16) + [LowerHexDigit(n % 16)]
  }

  lemma {:induction false} HexTextValue(n: nat)
    ensures DigitsValue(HexText(n), 16) == n
    decreases n
  {
    if n >= 16 {
      HexTextValue(n / 16);
      var r := HexText(n);
      assert r[..|r| - 1] == HexText(n / 16);
    }
  }

  lemma TrimOneHexPrefix(h: Bytes)
    requires !StartsWith(h, "0x")
    ensures TrimHexPrefix("0x" + h) == h
  {
    var s := "0x" + h;
    assert s[..2] == "0x" && s[2..] == h;
  }

  lemma HexTextAscii(n: nat)
    ensures Utf8.IsAscii(HexText(n)) && !StartsWith(HexText(n), "0x")
    ensures HexText(n)[0] != '+' && HexText(n)[0] != '-'
  {
    var h := HexText(n);
    forall i | 0 <= i < |h| ensures h[i] as int < 0x80 { assert IsHexDigit(h[i]); }
    if |h| >= 2 { assert IsHexDigit(h[1]); }
    assert IsHexDigit(h[0]);
  }

  /** `parse_number_hex` reads back `0x` followed by the `{:x}` rendering. */
  lemma ParseHexRoundTrip(n: nat)
    requires n <= U64_MAX
    ensures ParseHex("0x" + HexText(n)) == Ok(n)
  {
    var h := HexText(n);
    var s := "0x" + h;
    HexTextValue(n);
    HexTextAscii(n);
    Utf8.AsciiConcat("0x", h);
    Utf8.AsciiIsValid(s);
    TrimOneHexPrefix(h);
    AccPosDigits(h, 16, U64_MAX);
    FromStrUnsignedDigits(h, 16, U64_MAX, n);
    ParseHexOk(s, h, n);
  }

  /** `parse_number_hex` also reads the `{:x}` rendering without a prefix. */
  lemma ParseHexBare(n: nat)
    requires n <= U64_MAX
    ensures ParseHex(HexText(n)) == Ok(n)
  {
    var h := HexText(n);
    HexTextValue(n);
    HexTextAscii(n);
    Utf8.AsciiIsValid(h);
    AccPosDigits(h, 16, U64_MAX);
    FromStrUnsignedDigits(h, 16, U64_MAX, n);
    ParseHexOk(h, h, n);
  }

  lemma FromStrUnsignedDigits(h: Bytes, radix: nat, max: nat, n: nat)
    requires radix == 10 || radix == 16
    requires |h| > 0 && h[0] != '+' && h[0] != '-' && AccPos(h, radix, max) == Ok(n)
    ensures FromStrUnsigned(h, radix, max) == Ok(n)
  {
  }

  lemma ParseHexOk(s: Bytes, h: Bytes, n: nat)
    requires Utf8.IsValid(s) && TrimHexPrefix(s) == h && FromStrUnsigned(h, 16, U64_MAX) == Ok(n)
    ensures ParseHex(s) == Ok(n)
  {
  }
}
