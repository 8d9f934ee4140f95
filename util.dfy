/**
 * Helpers shared by every signature parser (src/util.rs): hash digests and
 * their hex form, hex nybles, inclusive ranges, number ranges with their
 * text form, splitting on a separator that may be escaped, and the small
 * field parsers for booleans and `*` placeholders.
 */
module Util {
  import opened Wrappers
  import opened ByteStr
  import Hex
  import Num
  import Utf8

  const MD5_LEN: nat := 16
  const SHA1_LEN: nat := 20
  const SHA2_256_LEN: nat := 32

  /** A digest. In the source each variant is a fixed-size byte array. */
  datatype Hash = Md5(data: Bytes) | Sha1(data: Bytes) | Sha2_256(data: Bytes)

  /** The array length fixed by the variant. */
  function DigestLen(h: Hash): nat
  {
    match h
    case Md5(_) => MD5_LEN
    case Sha1(_) => SHA1_LEN
    case Sha2_256(_) => SHA2_256_LEN
  }

  /** The byte count agrees with the variant, as the Rust array types guarantee. */
  predicate WellSized(h: Hash) { |h.data| == DigestLen(h) }

  /** `Hash::size`: the number of bytes held. */
  function Size(h: Hash): (r: nat)
    ensures WellSized(h) ==> r == DigestLen(h) && (r == 16 || r == 20 || r == 32)
  {
    |h.data|
  }

  /** Export and `Display` of a hash: its bytes in lower-case hex. */
  function HashText(h: Hash): Bytes
  {
    Hex.Encode(h.data)
  }

  /** The text of a hash is `2 * size` lower-case hex digits. */
  lemma HashTextShape(h: Hash)
    requires WellSized(h)
    ensures |HashText(h)| == 2 * Size(h)
    ensures forall i :: 0 <= i < |HashText(h)| ==> IsHexDigit(HashText(h)[i]) && !('A' <= HashText(h)[i] <= 'F')
  {
    Hex.EncodeIsLowerHex(h.data);
  }

  datatype ParseHashError = InvalidHexChar(e: Hex.FromHexError) | UnsupportedHashLength(len: nat)

  function HashFromHex(hex: Bytes, size: nat, make: Bytes -> Hash): Result<Hash, ParseHashError>
  {
    match Hex.DecodeSized(hex, size)
    case Ok(d) => Ok(make(d))
    case Err(e) => Err(InvalidHexChar(e))
  }

  /**
   * `parse_hash`: the digest kind is chosen by half the text length, so an
   * odd length whose half is a digest size is reported by the hex decoder.
   */
  function ParseHash(hex: Bytes): (r: Result<Hash, ParseHashError>)
    ensures r.Ok? ==> WellSized(r.value) && |hex| == 2 * Size(r.value)
    ensures r.Ok? ==> Hex.Decode(hex) == Ok(r.value.data)
    ensures r.Ok? ==> (r.value.Md5? <==> |hex| == 32) && (r.value.Sha1? <==> |hex| == 40)
    ensures |hex| / 2 != MD5_LEN && |hex| / 2 != SHA1_LEN && |hex| / 2 != SHA2_256_LEN
      ==> r == Err(UnsupportedHashLength(|hex| / 2))
    ensures |hex| % 2 == 1 ==> r.Err?
  {
    var n := |hex| / 2;
    if n == MD5_LEN then HashFromHex(hex, MD5_LEN, d => Md5(d))
    else if n == SHA1_LEN then HashFromHex(hex, SHA1_LEN, d => Sha1(d))
    else if n == SHA2_256_LEN then HashFromHex(hex, SHA2_256_LEN, d => Sha2_256(d))
    else Err(UnsupportedHashLength(n))
  }

  /** A hash parses back from its own text. */
  lemma ParseHashRoundTrip(h: Hash)
    requires WellSized(h)
    ensures ParseHash(HashText(h)) == Ok(h)
  {
    Hex.DecodeEncode(h.data);
    assert |HashText(h)| / 2 == |h.data|;
  }

  /**
   * `hex_nyble`: the value of a hex digit, moved to the high half of the
   * byte when `high`. Any other byte panics in the source.
   */
  function HexNyble(c: Byte, high: bool): (r: nat)
    requires IsHexDigit(c)
    ensures r < 256
    ensures high ==> r % 16 == 0 && r / 16 == HexVal(c)
    ensures !high ==> r < 16 && r == HexVal(c)
  {
    var v := if IsDigit(c) then c as int - '0' as int
      else if 'a' <= c <= 'f' then c as int - 'a' as int + 0x0a
      else c as int - 'A' as int + 0x0a;
    if high then v * 16 else v
  }

  /** The two nybles of a byte's hex text add up to the byte. */
  lemma HexNybleHex2(b: Byte)
    ensures HexNyble(Hex.Hex2(b)[0], true) + HexNyble(Hex.Hex2(b)[1], false) == b as int
  {
  }

  // ---------------------------------------------------------------- ranges

  datatype RangeInclusiveParseError = MissingUpperBound | MissingLowerBound | BoundParse(e: Num.NumberError)

  /**
   * `parse_range_inclusive` for an unsigned type with largest value `max`:
   * split at the first `-`, lower bound first.
   */
  function ParseRangeInclusive(s: Bytes, max: nat): (r: Result<(nat, nat), RangeInclusiveParseError>)
    ensures r.Ok? ==> r.value.0 <= max && r.value.1 <= max
    ensures r.Err? ==> r.error != MissingLowerBound
    ensures r == Err(MissingUpperBound) <==> '-' !in s && Num.ParseDec(s, max).Ok?
  {
    var parts := SplitN(s, '-', 2);
    match Num.ParseDec(parts[0], max)
    case Err(e) => Err(BoundParse(e))
    case Ok(lo) =>
      if |parts| < 2 then Err(MissingUpperBound)
      else match Num.ParseDec(parts[1], max)
        case Err(e) => Err(BoundParse(e))
        case Ok(hi) => Ok((lo, hi))
  }

  /** Text of an inclusive range as the exporters write it. */
  function RangeInclusiveText(lo: nat, hi: nat): Bytes
  {
    Num.Dec(lo) + "-" + Num.Dec(hi)
  }

  lemma DigitsNoDash(d: Bytes)
    requires AllDigits(d)
    ensures '-' !in d
  {
  }

  /** Splitting `a-b` at its first dash, for digit strings `a`. */
  lemma SplitAtDash(a: Bytes, b: Bytes)
    requires AllDigits(a)
    ensures SplitN(a + "-" + b, '-', 2) == [a, b]
  {
    DigitsNoDash(a);
    FindFirstSep(a, b, '-');
    var s := a + "-" + b;
    assert s[..|a|] == a && s[|a| + 1..] == b;
  }

  lemma ParseRangeInclusiveRoundTrip(lo: nat, hi: nat, max: nat)
    requires lo <= max && hi <= max
    ensures ParseRangeInclusive(RangeInclusiveText(lo, hi), max) == Ok((lo, hi))
  {
    SplitAtDash(Num.Dec(lo), Num.Dec(hi));
    Num.ParseDecRoundTrip(lo, max);
    Num.ParseDecRoundTrip(hi, max);
  }

  /** `Range<T>` for an unsigned `T`: `n`, `..=n`, `n..` or `n..=m`. */
  datatype Range = Exact(n: nat) | ToInclusive(end: nat) | From(start: nat) | Inclusive(start: nat, end: nat)

  /** `Range::start`. */
  function Start(r: Range): (s: Option<nat>)
    ensures s.None? <==> r.ToInclusive?
  {
    match r
    case Exact(n) => Some(n)
    case ToInclusive(_) => None
    case From(s) => Some(s)
    case Inclusive(s, _) => Some(s)
  }

  /** `Range::contains`. */
  predicate Contains(r: Range, x: nat)
  {
    match r
    case Exact(n) => x == n
    case ToInclusive(e) => x <= e
    case From(s) => x >= s
    case Inclusive(s, e) => s <= x <= e
  }

  /**
   * The start of a range is its least member: nothing below it is contained,
   * and it is contained unless the range is an inverted inclusive one. A range
   * without a start contains zero.
   */
  lemma StartIsLeast(r: Range, x: nat)
    ensures Start(r).Some? && Contains(r, x) ==> Start(r).value <= x
    ensures Start(r).Some? && !(r.Inclusive? && r.start > r.end) ==> Contains(r, Start(r).value)
    ensures Start(r).None? ==> Contains(r, 0)
  {
  }

  /** Every bound of the range fits the integer type. */
  predicate Fits(r: Range, max: nat)
  {
    match r
    case Exact(n) => n <= max
    case ToInclusive(e) => e <= max
    case From(s) => s <= max
    case Inclusive(s, e) => s <= max && e <= max
  }

  /** Export of a range, without surrounding braces. */
  function RangeText(r: Range): (t: Bytes)
    ensures |t| > 0
  {
    match r
    case Exact(n) => Num.Dec(n)
    case ToInclusive(e) => "-" + Num.Dec(e)
    case From(s) => Num.Dec(s) + "-"
    case Inclusive(s, e) => RangeInclusiveText(s, e)
  }

  datatype RangeParseError = StartError(e: Num.NumberError) | EndError(e: Num.NumberError) | ExactError(e: Num.NumberError)

  /**
   * `Range::try_from`: a leading `-` is `..=n`, else a trailing `-` is `n..`,
   * else a `-` inside is `n..=m`, else the text is one number.
   */
  function RangeTryFrom(v: Bytes, max: nat): (r: Result<Range, RangeParseError>)
    ensures r.Ok? ==> Fits(r.value, max)
    ensures r.Ok? && r.value.ToInclusive? <==> StartsWith(v, "-") && r.Ok?
    ensures r.Ok? && r.value.Exact? ==> '-' !in v
  {
    if StartsWith(v, "-") then
      match Num.ParseDec(v[1..], max)
      case Ok(e) => Ok(ToInclusive(e))
      case Err(e) => Err(EndError(e))
    else if EndsWith(v, "-") then
      match Num.ParseDec(v[..|v| - 1], max)
      case Ok(s) => Ok(From(s))
      case Err(e) => Err(StartError(e))
    else match Find(v, '-')
      case Some(i) =>
        (match Num.ParseDec(v[..i], max)
         case Err(e) => Err(StartError(e))
         case Ok(s) =>
           match Num.ParseDec(v[i + 1..], max)
           case Err(e) => Err(EndError(e))
           case Ok(e) => Ok(Inclusive(s, e)))
      case None =>
        match Num.ParseDec(v, max)
        case Ok(n) => Ok(Exact(n))
        case Err(e) => Err(ExactError(e))
  }

  /** Parsing the exported text of a range gives the range back. */
  lemma RangeRoundTrip(r: Range, max: nat)
    requires Fits(r, max)
    ensures RangeTryFrom(RangeText(r), max) == Ok(r)
  {
    match r
    case Exact(n) => ExactRoundTrip(n, max);
    case ToInclusive(e) => ToInclusiveRoundTrip(e, max);
    case From(s) => FromRoundTrip(s, max);
    case Inclusive(s, e) => InclusiveRoundTrip(s, e, max);
  }

  lemma ExactRoundTrip(n: nat, max: nat)
    requires n <= max
    ensures RangeTryFrom(Num.Dec(n), max) == Ok(Exact(n))
  {
    Num.ParseDecRoundTrip(n, max);
    DigitsNoDash(Num.Dec(n));
    assert !StartsWith(Num.Dec(n), "-");
    assert !EndsWith(Num.Dec(n), "-") by { assert Num.Dec(n)[|Num.Dec(n)| - 1] in Num.Dec(n); }
  }

  lemma ToInclusiveRoundTrip(e: nat, max: nat)
    requires e <= max
    ensures RangeTryFrom("-" + Num.Dec(e), max) == Ok(ToInclusive(e))
  {
    Num.ParseDecRoundTrip(e, max);
    var t := "-" + Num.Dec(e);
    assert t[1..] == Num.Dec(e);
  }

  lemma FromRoundTrip(s: nat, max: nat)
    requires s <= max
    ensures RangeTryFrom(Num.Dec(s) + "-", max) == Ok(From(s))
  {
    Num.ParseDecRoundTrip(s, max);
    var t := Num.Dec(s) + "-";
    assert t[..|t| - 1] == Num.Dec(s);
    assert t[0] == Num.Dec(s)[0] && IsDigit(Num.Dec(s)[0]);
  }

  lemma InclusiveRoundTrip(s: nat, e: nat, max: nat)
    requires s <= max && e <= max
    ensures RangeTryFrom(RangeInclusiveText(s, e), max) == Ok(Inclusive(s, e))
  {
    Num.ParseDecRoundTrip(s, max);
    Num.ParseDecRoundTrip(e, max);
    var a, b := Num.Dec(s), Num.Dec(e);
    var t := a + "-" + b;
    assert t == RangeInclusiveText(s, e);
    DigitsNoDash(a);
    FindFirstSep(a, b, '-');
    assert t[..|a|] == a && t[|a| + 1..] == b;
    assert t[0] == a[0] && IsDigit(a[0]);
    assert t[|t| - 1] == b[|b| - 1] && IsDigit(b[|b| - 1]);
  }

  // ------------------------------------------------------- small field parsers

  datatype ParseBoolFromIntError = ParseBoolFromIntError

  /** `parse_bool_from_int`: exactly `0` or `1`. */
  function ParseBoolFromInt(bytes: Bytes): (r: Result<bool, ParseBoolFromIntError>)
    ensures r.Ok? <==> bytes == "0" || bytes == "1"
    ensures r.Ok? ==> bytes == BoolText(r.value)
  {
    if bytes == "0" then Ok(false) else if bytes == "1" then Ok(true) else Err(ParseBoolFromIntError)
  }

  /** A flag written back as `0` or `1`. */
  function BoolText(b: bool): Bytes { if b then "1" else "0" }

  /** `opt_field_value`: a lone `*` stands for "no value". */
  function OptFieldValue(bytes: Bytes): (r: Option<Bytes>)
    ensures r.None? <==> bytes == "*"
    ensures r.Some? ==> r.value == bytes
  {
    if bytes == "*" then None else Some(bytes)
  }

  /** `string_from_bytes`: the bytes unchanged when they are valid UTF-8. */
  function StringFromBytes(bytes: Bytes): (r: Option<Bytes>)
    ensures r.Some? <==> Utf8.IsValid(bytes)
    ensures r.Some? ==> r.value == bytes
  {
    if Utf8.IsValid(bytes) then Some(bytes) else None
  }

  /** A location in the input, for error reports. */
  datatype Position = End | Absolute(pos: nat) | Relative(pos: nat) | PosRange(lo: nat, hi: nat)

  /** `From<Option<usize>> for Position`. */
  function PositionOf(p: Option<nat>): (r: Position)
    ensures r.End? <==> p.None?
    ensures p.Some? ==> r == Absolute(p.value)
  {
    match p
    case Some(n) => Absolute(n)
    case None => End
  }

  // --------------------------------------------------- escaped field splitting

  /**
   * One call of the predicate built by `unescaped_element`, from the flag it
   * keeps between calls: returns whether `b` separates fields, and the new flag.
   * The escape character escapes whatever follows it, itself included.
   */
  function Step(esc: Byte, needle: Byte, escaped: bool, b: Byte): (bool, bool)
  {
    if escaped then (false, false)
    else if b == esc then (false, true)
    else if b == needle then (true, false)
    else (false, false)
  }

  /**
   * `slice::split` driven by that predicate, from flag `escaped` with `cur`
   * already collected in the current field.
   */
  function SplitFrom(s: Bytes, esc: Byte, needle: Byte, escaped: bool, cur: Bytes): (r: seq<Bytes>)
    ensures |r| >= 1
    decreases |s|
  {
    if |s| == 0 then [cur]
    else
      var (sep, next) := Step(esc, needle, escaped, s[0]);
      if sep then [cur] + SplitFrom(s[1..], esc, needle, next, [])
      else SplitFrom(s[1..], esc, needle, next, cur + [s[0]])
  }

  /** `s.split(unescaped_element(esc, needle))`: the fields of `s`. */
  function UnescapedSplit(s: Bytes, esc: Byte, needle: Byte): seq<Bytes>
  {
    SplitFrom(s, esc, needle, false, [])
  }

  /** The closure of `unescaped_element`, holding its `escaped` flag. */
  class UnescapedElement {
    const esc: Byte
    const needle: Byte
    var escaped: bool

    constructor (esc: Byte, needle: Byte)
      ensures this.esc == esc && this.needle == needle && !escaped
    {
      this.esc := esc;
      this.needle := needle;
      escaped := false;
    }

    /** One call of the predicate. */
    method Test(b: Byte) returns (sep: bool)
      modifies this
      ensures (sep, escaped) == Step(esc, needle, old(escaped), b)
    {
      if escaped {
        escaped := false;
        sep := false;
      } else if b == esc {
        escaped := true;
        sep := false;
      } else if !escaped && b == needle {
        sep := true;
      } else {
        escaped := false;
        sep := false;
      }
    }
  }

  /** Splitting a byte string on unescaped separators, one predicate call per byte. */
  method SplitUnescaped(s: Bytes, esc: Byte, needle: Byte) returns (fields: seq<Bytes>)
    ensures fields == UnescapedSplit(s, esc, needle)
    ensures Join(fields, needle) == s
  {
    var pred := new UnescapedElement(esc, needle);
    var cur: Bytes := [];
    fields := [];
    var i := 0;
    while i < |s|
      invariant 0 <= i <= |s|
      invariant pred.esc == esc && pred.needle == needle
      invariant fields + SplitFrom(s[i..], esc, needle, pred.escaped, cur) == UnescapedSplit(s, esc, needle)
    {
      assert s[i..][1..] == s[i + 1..];
      var sep := pred.Test(s[i]);
      if sep {
        fields := fields + [cur];
        cur := [];
      } else {
        cur := cur + [s[i]];
      }
      i := i + 1;
    }
    fields := fields + [cur];
    JoinUnescapedSplit(s, esc, needle);
  }

  lemma JoinCons(a: Bytes, rest: seq<Bytes>, c: Byte)
    requires |rest| >= 1
    ensures Join([a] + rest, c) == a + [c] + Join(rest, c)
  {
    assert ([a] + rest)[1..] == rest;
  }

  lemma {:induction false} JoinSplitFrom(s: Bytes, esc: Byte, needle: Byte, escaped: bool, cur: Bytes)
    ensures Join(SplitFrom(s, esc, needle, escaped, cur), needle) == cur + s
    decreases |s|
  {
    if |s| > 0 {
      var (sep, next) := Step(esc, needle, escaped, s[0]);
      if sep {
        JoinSplitFrom(s[1..], esc, needle, next, []);
        JoinCons(cur, SplitFrom(s[1..], esc, needle, next, []), needle);
        assert s == [needle] + s[1..];
      } else {
        JoinSplitFrom(s[1..], esc, needle, next, cur + [s[0]]);
        assert cur + [s[0]] + s[1..] == cur + s;
      }
    }
  }

  /** Splitting loses nothing: the fields joined with the separator are the input. */
  lemma JoinUnescapedSplit(s: Bytes, esc: Byte, needle: Byte)
    ensures Join(UnescapedSplit(s, esc, needle), needle) == s
  {
    JoinSplitFrom(s, esc, needle, false, []);
  }

  /**
   * A field that, read from flag `escaped`, holds no unescaped separator and
   * does not end on a pending escape.
   */
  predicate Unbroken(f: Bytes, esc: Byte, needle: Byte, escaped: bool)
    decreases |f|
  {
    if |f| == 0 then !escaped
    else
      var (sep, next) := Step(esc, needle, escaped, f[0]);
      !sep && Unbroken(f[1..], esc, needle, next)
  }

  /** A field holding neither the escape byte nor the separator is read whole. */
  lemma {:induction false} PlainUnbroken(f: Bytes, esc: Byte, needle: Byte)
    requires esc !in f && needle !in f
    ensures Unbroken(f, esc, needle, false)
    decreases |f|
  {
    if |f| > 0 {
      PlainUnbroken(f[1..], esc, needle);
    }
  }

  /** A field read whole, followed by another read whole, is read whole. */
  lemma {:induction false} UnbrokenConcat(a: Bytes, b: Bytes, esc: Byte, needle: Byte, escaped: bool)
    requires Unbroken(a, esc, needle, escaped) && Unbroken(b, esc, needle, false)
    ensures Unbroken(a + b, esc, needle, escaped)
    decreases |a|
  {
    if |a| == 0 {
      assert a + b == b;
    } else {
      var (sep, next) := Step(esc, needle, escaped, a[0]);
      UnbrokenConcat(a[1..], b, esc, needle, next);
      assert (a + b)[0] == a[0] && (a + b)[1..] == a[1..] + b;
    }
  }

  lemma {:induction false} SplitFromUnbroken(f: Bytes, rest: Bytes, esc: Byte, needle: Byte, escaped: bool, cur: Bytes)
    requires esc != needle && Unbroken(f, esc, needle, escaped)
    ensures SplitFrom(f + [needle] + rest, esc, needle, escaped, cur) == [cur + f] + SplitFrom(rest, esc, needle, false, [])
    ensures SplitFrom(f, esc, needle, escaped, cur) == [cur + f]
    decreases |f|
  {
    var s := f + [needle] + rest;
    if |f| == 0 {
      assert s[1..] == rest;
      assert s[0] == needle;
      assert cur + f == cur;
    } else {
      var (sep, next) := Step(esc, needle, escaped, f[0]);
      assert s[0] == f[0] && s[1..] == f[1..] + [needle] + rest;
      SplitFromUnbroken(f[1..], rest, esc, needle, next, cur + [f[0]]);
      assert cur + [f[0]] + f[1..] == cur + f;
    }
  }

  /**
   * Joining unbroken fields and splitting again gives the same fields, as in
   * the test at src/util.rs:473-481 where `def\:ghi` and `hij\:\:` stay whole.
   */
  lemma {:induction false} UnescapedSplitJoin(fs: seq<Bytes>, esc: Byte, needle: Byte)
    requires |fs| >= 1 && esc != needle
    requires forall k :: 0 <= k < |fs| ==> Unbroken(fs[k], esc, needle, false)
    ensures UnescapedSplit(Join(fs, needle), esc, needle) == fs
    decreases |fs|
  {
    if |fs| == 1 {
      SplitFromUnbroken(fs[0], [], esc, needle, false, []);
      assert [] + fs[0] == fs[0];
    } else {
      var rest := Join(fs[1..], needle);
      SplitFromUnbroken(fs[0], rest, esc, needle, false, []);
      UnescapedSplitJoin(fs[1..], esc, needle);
      assert [] + fs[0] == fs[0];
      assert fs == [fs[0]] + fs[1..];
    }
  }

  lemma SplitCons(s: Bytes, c: Byte)
    requires |s| > 0 && s[0] != c
    ensures Split(s, c)[0] == [s[0]] + Split(s[1..], c)[0]
    ensures Split(s, c)[1..] == Split(s[1..], c)[1..]
  {
    match Find(s[1..], c)
    case None =>
      assert s == [s[0]] + s[1..];
    case Some(i) =>
      assert Find(s, c) == Some(i + 1);
      assert s[..i + 1] == [s[0]] + s[1..][..i];
      assert s[i + 2..] == s[1..][i + 1..];
  }

  lemma {:induction false} SplitFromNoEscape(s: Bytes, esc: Byte, needle: Byte, cur: Bytes)
    requires esc !in s
    ensures SplitFrom(s, esc, needle, false, cur) == [cur + Split(s, needle)[0]] + Split(s, needle)[1..]
    decreases |s|
  {
    if |s| > 0 {
      assert esc !in s[1..] by { assert forall k :: 0 <= k < |s| - 1 ==> s[1..][k] == s[k + 1]; }
      if s[0] == needle {
        SplitFromNoEscape(s[1..], esc, needle, []);
        assert Split(s, needle) == [[]] + Split(s[1..], needle);
        assert cur + Split(s, needle)[0] == cur;
        assert [] + Split(s[1..], needle)[0] == Split(s[1..], needle)[0];
        assert Split(s[1..], needle) == [Split(s[1..], needle)[0]] + Split(s[1..], needle)[1..];
      } else {
        SplitFromNoEscape(s[1..], esc, needle, cur + [s[0]]);
        SplitCons(s, needle);
        assert cur + [s[0]] + Split(s[1..], needle)[0] == cur + Split(s, needle)[0];
      }
    } else {
      assert Split(s, needle) == [[]];
      assert cur + Split(s, needle)[0] == cur;
    }
  }

  /** Without any escape character the split is the plain one. */
  lemma UnescapedSplitNoEscape(s: Bytes, esc: Byte, needle: Byte)
    requires esc !in s
    ensures UnescapedSplit(s, esc, needle) == Split(s, needle)
  {
    SplitFromNoEscape(s, esc, needle, []);
    var sp := Split(s, needle);
    assert [] + sp[0] == sp[0];
    assert sp == [sp[0]] + sp[1..];
  }
}
