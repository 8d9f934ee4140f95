/**
 * The ContainerSize field of container metadata signatures
 * (src/signature/container_metadata_sig/container_size.rs): an exact size,
 * or an inclusive range `a-b`.
 */
module ContainerSizes {
  import opened Wrappers
  import opened ByteStr
  import Num
  import Util

  /** `ContainerSize`, over `usize`. */
  datatype ContainerSize = Exact(size: nat) | Range(lo: nat, hi: nat)

  /** `container_size::ParseError`. */
  datatype ParseError = ParseRange(rangeErr: Util.RangeInclusiveParseError) | ParseExact(numErr: Num.NumberError)

  /** `ContainerSize::try_from`: a text holding a `-` is a range, any other a single decimal size. */
  function TryFrom(value: Bytes): (r: Result<ContainerSize, ParseError>)
    ensures r.Ok? && r.value.Range? ==> '-' in value && Util.ParseRangeInclusive(value, Num.USIZE_MAX) == Ok((r.value.lo, r.value.hi))
    ensures r.Ok? && r.value.Exact? ==> '-' !in value && Num.ParseDec(value, Num.USIZE_MAX) == Ok(r.value.size)
    ensures r.Err? <==>
      if '-' in value then Util.ParseRangeInclusive(value, Num.USIZE_MAX).Err? else Num.ParseDec(value, Num.USIZE_MAX).Err?
  {
    if '-' in value then
      match Util.ParseRangeInclusive(value, Num.USIZE_MAX)
      case Ok((lo, hi)) => Ok(Range(lo, hi))
      case Err(e) => Err(ParseRange(e))
    else
      match Num.ParseDec(value, Num.USIZE_MAX)
      case Ok(n) => Ok(Exact(n))
      case Err(e) => Err(ParseExact(e))
  }

  /** `container_size::parse`, the free function the record parser calls; written out on its own in the source. */
  function Parse(bytes: Bytes): Result<ContainerSize, ParseError>
  {
    if exists i :: 0 <= i < |bytes| && bytes[i] == '-' then
      match Util.ParseRangeInclusive(bytes, Num.USIZE_MAX)
      case Ok((lo, hi)) => Ok(Range(lo, hi))
      case Err(e) => Err(ParseRange(e))
    else
      match Num.ParseDec(bytes, Num.USIZE_MAX)
      case Ok(n) => Ok(Exact(n))
      case Err(e) => Err(ParseExact(e))
  }

  /** The free function and `try_from` agree on every input. */
  lemma ParseIsTryFrom(bytes: Bytes)
    ensures Parse(bytes) == TryFrom(bytes)
  {
    assert ('-' in bytes) == (exists i :: 0 <= i < |bytes| && bytes[i] == '-');
  }

  /** Export: the size, or `lo-hi`. */
  function Text(c: ContainerSize): (t: Bytes)
    ensures |t| > 0 && ':' !in t && '\\' !in t
  {
    match c
    case Exact(n) =>
      DigitsHaveNo(Num.Dec(n), ':');
      DigitsHaveNo(Num.Dec(n), '\\');
      Num.Dec(n)
    case Range(lo, hi) =>
      DigitsHaveNo(Num.Dec(lo), ':');
      DigitsHaveNo(Num.Dec(hi), ':');
      DigitsHaveNo(Num.Dec(lo), '\\');
      DigitsHaveNo(Num.Dec(hi), '\\');
      Util.RangeInclusiveText(lo, hi)
  }

  /** What the parser can produce: sizes that fit a `usize`. */
  predicate Fits(c: ContainerSize)
  {
    match c
    case Exact(n) => n <= Num.USIZE_MAX
    case Range(lo, hi) => lo <= Num.USIZE_MAX && hi <= Num.USIZE_MAX
  }

  /** The export reads back as the same size, and is never `*`. */
  lemma RoundTrip(c: ContainerSize)
    requires Fits(c)
    ensures TryFrom(Text(c)) == Ok(c)
    ensures Text(c) != "*"
  {
    match c
    case Exact(n) =>
      Util.DigitsNoDash(Num.Dec(n));
      Num.ParseDecRoundTrip(n, Num.USIZE_MAX);
      assert IsDigit(Text(c)[0]);
    case Range(lo, hi) =>
      var t := Util.RangeInclusiveText(lo, hi);
      assert t[|Num.Dec(lo)|] == '-';
      Util.ParseRangeInclusiveRoundTrip(lo, hi, Num.USIZE_MAX);
      assert IsDigit(t[0]);
  }

  /** The test's example: `12345` is an exact size. */
  lemma ExactExample()
    ensures TryFrom("12345") == Ok(Exact(12345))
  {
    assert Num.Dec(12345) == "12345" by {
      assert Num.Dec(1) == "1";
      assert Num.Dec(12) == "12";
      assert Num.Dec(123) == "123";
      assert Num.Dec(1234) == "1234";
    }
    RoundTrip(Exact(12345));
  }
}
