/**
 * Hexadecimal byte strings as the `hex` crate writes and reads them: two
 * lower-case digits per byte on output; on input an even number of digits
 * of either case, with the first offending character reported.
 */
module Hex {
  import opened Wrappers
  import opened ByteStr
  import Utf8

  datatype FromHexError = InvalidHexCharacter(c: Byte, index: nat) | OddLength | InvalidStringLength

  /** `{:02x}` of one byte. */
  function Hex2(b: Byte): (r: Bytes)
    ensures |r| == 2 && IsHexDigit(r[0]) && IsHexDigit(r[1])
    ensures HexVal(r[0]) * 16 + HexVal(r[1]) == b as int
  {
    [LowerHexDigit(b as int / 16), LowerHexDigit(b as int % 16)]
  }

  /** Every byte as two lower-case hex digits, in order. */
  function Encode(data: Bytes): (r: Bytes)
    ensures |r| == 2 * |data|
    decreases |data|
  {
    if |data| == 0 then [] else Hex2(data[0]) + Encode(data[1..])
  }

  /** Decode digit pairs; `base` is the index of `s[0]` in the whole input. */
  function DecodePairs(s: Bytes, base: nat): (r: Result<Bytes, FromHexError>)
    requires |s| % 2 == 0
    ensures r.Ok? ==> 2 * |r.value| == |s|
    ensures r.Err? ==> r.error.InvalidHexCharacter?
    decreases |s|
  {
    if |s| == 0 then Ok([])
    else if !IsHexDigit(s[0]) then Err(InvalidHexCharacter(s[0], base))
    else if !IsHexDigit(s[1]) then Err(InvalidHexCharacter(s[1], base + 1))
    else match DecodePairs(s[2..], base + 2)
      case Err(e) => Err(e)
      case Ok(rest) => Ok([ByteOf(HexVal(s[0]) * 16 + HexVal(s[1]))] + rest)
  }

  /** `hex::decode`: any even number of digits. */
  function Decode(s: Bytes): (r: Result<Bytes, FromHexError>)
    ensures r.Ok? ==> 2 * |r.value| == |s|
    ensures r == Err(OddLength) <==> |s| % 2 == 1
  {
    if |s| % 2 != 0 then Err(OddLength) else DecodePairs(s, 0)
  }

  /** `decode_hex::<SIZE>` (src/util.rs:115-121): exactly `2 * size` digits. */
  function DecodeSized(s: Bytes, size: nat): (r: Result<Bytes, FromHexError>)
    ensures r.Ok? ==> |r.value| == size && |s| == 2 * size
    ensures r == Err(InvalidStringLength) <==> |s| % 2 == 0 && |s| / 2 != size
  {
    if |s| % 2 != 0 then Err(OddLength)
    else if |s| / 2 != size then Err(InvalidStringLength)
    else DecodePairs(s, 0)
  }

  lemma {:induction false} DecodePairsEncode(data: Bytes, base: nat)
    ensures DecodePairs(Encode(data), base) == Ok(data)
    decreases |data|
  {
    if |data| > 0 {
      var e := Encode(data);
      assert e[2..] == Encode(data[1..]);
      assert e[..2] == Hex2(data[0]);
      DecodePairsEncode(data[1..], base + 2);
      assert data == [data[0]] + data[1..];
    }
  }

  /** Decoding inverts encoding. */
  lemma DecodeEncode(data: Bytes)
    ensures Decode(Encode(data)) == Ok(data)
    ensures DecodeSized(Encode(data), |data|) == Ok(data)
  {
    var e := Encode(data);
    assert |e| % 2 == 0 && |e| / 2 == |data|;
    DecodePairsEncode(data, 0);
  }

  /** A digit that is not an upper-case letter is the digit written for its own value. */
  lemma LowerDigitOfVal(b: Byte)
    requires IsHexDigit(b) && !('A' <= b <= 'F')
    ensures LowerHexDigit(HexVal(b)) == b
  {
  }

  lemma {:induction false} EncodeDecodePairs(s: Bytes, base: nat)
    requires |s| % 2 == 0 && DecodePairs(s, base).Ok?
    requires forall i :: 0 <= i < |s| ==> !('A' <= s[i] <= 'F')
    ensures Encode(DecodePairs(s, base).value) == s
    decreases |s|
  {
    if |s| > 0 {
      EncodeDecodePairs(s[2..], base + 2);
      var hi, lo := HexVal(s[0]), HexVal(s[1]);
      var b := ByteOf(hi * 16 + lo);
      assert b as int / 16 == hi && b as int % 16 == lo;
      LowerDigitOfVal(s[0]);
      LowerDigitOfVal(s[1]);
      var d := DecodePairs(s, base).value;
      assert d[1..] == DecodePairs(s[2..], base + 2).value;
      assert s == [s[0], s[1]] + s[2..];
    }
  }

  /**
   * Encoding inverts decoding on text without upper-case digits: such text
   * is written back exactly as it was read.
   */
  lemma EncodeDecode(s: Bytes)
    requires Decode(s).Ok? && forall i :: 0 <= i < |s| ==> !('A' <= s[i] <= 'F')
    ensures Encode(Decode(s).value) == s
  {
    EncodeDecodePairs(s, 0);
  }

  /** Lower-case hexadecimal text, checked digit by digit. */
  predicate LowerHexText(s: Bytes)
    decreases |s|
  {
    |s| == 0 || (IsHexDigit(s[0]) && !('A' <= s[0] <= 'F') && LowerHexText(s[1..]))
  }

  lemma {:induction false} LowerHexPairs(s: Bytes, base: nat)
    requires |s| % 2 == 0 && LowerHexText(s)
    ensures DecodePairs(s, base).Ok?
    ensures forall i :: 0 <= i < |s| ==> !('A' <= s[i] <= 'F')
    decreases |s|
  {
    if |s| > 0 {
      assert LowerHexText(s[1..]);
      assert s[2..] == s[1..][1..];
      LowerHexPairs(s[2..], base + 2);
      assert forall i :: 2 <= i < |s| ==> s[i] == s[2..][i - 2];
    }
  }

  lemma {:induction false} LowerHexConcat(a: Bytes, b: Bytes)
    requires LowerHexText(a) && LowerHexText(b)
    ensures LowerHexText(a + b)
    decreases |a|
  {
    if |a| > 0 {
      assert (a + b)[1..] == a[1..] + b;
      LowerHexConcat(a[1..], b);
    } else {
      assert a + b == b;
    }
  }

  /** An even number of lower-case hex digits decodes, and encodes back to the same text. */
  lemma DecodeLowerHex(s: Bytes)
    requires |s| % 2 == 0 && LowerHexText(s)
    ensures Decode(s).Ok? && Encode(Decode(s).value) == s
  {
    LowerHexPairs(s, 0);
    EncodeDecode(s);
  }

  lemma {:induction false} EncodeIsLowerHex(data: Bytes)
    ensures forall i :: 0 <= i < |Encode(data)| ==> IsHexDigit(Encode(data)[i]) && !('A' <= Encode(data)[i] <= 'F')
    decreases |data|
  {
    if |data| > 0 {
      EncodeIsLowerHex(data[1..]);
      var e := Encode(data);
      assert forall i :: 2 <= i < |e| ==> e[i] == Encode(data[1..])[i - 2];
    }
  }

  /** Hex text holds neither `*` nor `:`, the markers of the signature fields around it. */
  lemma EncodeHasNoStarOrColon(data: Bytes)
    ensures ':' !in Encode(data) && '*' !in Encode(data)
    ensures Encode(data) != "*"
  {
    EncodeIsLowerHex(data);
    var e := Encode(data);
    assert !IsHexDigit(':') && !IsHexDigit('*');
  }

  lemma EncodeAscii(data: Bytes)
    ensures Utf8.IsAscii(Encode(data)) && Utf8.IsValid(Encode(data))
  {
    EncodeIsLowerHex(data);
    var e := Encode(data);
    forall i | 0 <= i < |e| ensures e[i] as int < 0x80 { assert IsHexDigit(e[i]); }
    Utf8.AsciiIsValid(e);
  }

  lemma {:induction false} EncodeConcat(a: Bytes, b: Bytes)
    ensures Encode(a + b) == Encode(a) + Encode(b)
    decreases |a|
  {
    if |a| > 0 {
      assert (a + b)[1..] == a[1..] + b;
      EncodeConcat(a[1..], b);
    } else {
      assert a + b == b;
    }
  }

  /** Encoding one more byte appends its two digits. */
  lemma EncodeSnoc(data: Bytes, i: nat)
    requires i < |data|
    ensures Encode(data[..i + 1]) == Encode(data[..i]) + Hex2(data[i])
  {
    EncodeConcat(data[..i], [data[i]]);
    assert data[..i + 1] == data[..i] + [data[i]];
    assert Encode([data[i]]) == Hex2(data[i]) + Encode([]);
  }

  /** Byte `k` is encoded at positions `2k` and `2k + 1`. */
  lemma {:induction false} EncodeAt(data: Bytes, k: nat)
    requires k < |data|
    ensures Encode(data)[2 * k] == Hex2(data[k])[0] && Encode(data)[2 * k + 1] == Hex2(data[k])[1]
    decreases k
  {
    if k > 0 {
      EncodeAt(data[1..], k - 1);
      var e, t := Encode(data), Encode(data[1..]);
      assert e == Hex2(data[0]) + t;
      assert e[2 * k] == t[2 * (k - 1)];
      assert e[2 * k + 1] == t[2 * (k - 1) + 1];
    }
  }
}
