/**
 * The offset grammar of extended signatures (src/signature/ext_sig.rs):
 * where in the scanned file a body signature may match, optionally with a
 * maximum shift (`pos,shift`) that makes the offset floating.
 */
module Offsets {
  import opened Wrappers
  import opened ByteStr
  import Num

  datatype OffsetPos =
    | Any
    | Absolute(n: nat)
    | FromEOF(n: nat)
    | EP(i: int)
    | StartOfSection(sectionNo: nat, offset: nat)
    | EntireSection(n: nat)
    | StartOfLastSection(n: nat)
    | PEVersionInfo

  datatype Offset = Normal(pos: OffsetPos) | Floating(pos: OffsetPos, maxShift: nat)

  /**
   * `OffsetPosParseError`. `MissingOffsetSectionNo` cannot happen (`splitn`
   * always yields a first field) and is left out. `EPNegationOverflow` is
   * the overflow of `0 - n` for the most negative `isize`, where the source
   * stops with an arithmetic-overflow panic.
   */
  datatype OffsetPosParseError =
    | ParseEOFOffset(e: Num.NumberError)
    | ParseEPOffset(e: Num.NumberError)
    | EPNegationOverflow
    | ParseEntireSectionOffset(e: Num.NumberError)
    | ParseStartOfLastSectionOffset(e: Num.NumberError)
    | ParseSectionNo(e: Num.NumberError)
    | MissingOffsetSectionOffset
    | ParseSectionOffset(e: Num.NumberError)
    | ParseAbsoluteOffset(e: Num.NumberError)

  /** `OffsetParseError`; `Missing` cannot happen and is left out. */
  datatype OffsetParseError = OffsetPosParse(posErr: OffsetPosParseError) | ParseMaxShift(e: Num.NumberError)

  function ParseUsize(s: Bytes): (r: Result<nat, Num.NumberError>)
  {
    Num.ParseDec(s, Num.USIZE_MAX)
  }

  function ParseIsize(s: Bytes): (r: Result<int, Num.NumberError>)
  {
    Num.ParseDecSigned(s, Num.ISIZE_MIN, Num.ISIZE_MAX)
  }

  /** The values of a position fit the Rust types that hold them. */
  predicate PosFits(p: OffsetPos)
  {
    match p
    case Absolute(n) => n <= Num.USIZE_MAX
    case FromEOF(n) => n <= Num.USIZE_MAX
    case EP(i) => Num.ISIZE_MIN <= i <= Num.ISIZE_MAX
    case StartOfSection(s, o) => s <= Num.USIZE_MAX && o <= Num.USIZE_MAX
    case EntireSection(n) => n <= Num.USIZE_MAX
    case StartOfLastSection(n) => n <= Num.USIZE_MAX
    case _ => true
  }

  predicate Fits(o: Offset)
  {
    PosFits(o.pos) && (o.Floating? ==> o.maxShift <= Num.USIZE_MAX)
  }

  /** The `S#+n` form, after its `S`: section number, `+`, offset. */
  function ParseSection(s: Bytes): (r: Result<OffsetPos, OffsetPosParseError>)
    ensures r.Ok? ==> r.value.StartOfSection? && PosFits(r.value)
  {
    var parts := SplitN(s, '+', 2);
    match ParseUsize(parts[0])
    case Err(e) => Err(ParseSectionNo(e))
    case Ok(sec) =>
      if |parts| < 2 then Err(MissingOffsetSectionOffset)
      else match ParseUsize(parts[1])
        case Err(e) => Err(ParseSectionOffset(e))
        case Ok(off) => Ok(StartOfSection(sec, off))
  }

  /** `EP-n`: the negation of a parsed `isize`. */
  function ParseEPMinus(s: Bytes): (r: Result<OffsetPos, OffsetPosParseError>)
    ensures r.Ok? ==> r.value.EP? && PosFits(r.value) && ParseIsize(s) == Ok(0 - r.value.i)
  {
    match ParseIsize(s)
    case Err(e) => Err(ParseEPOffset(e))
    case Ok(i) => if i == Num.ISIZE_MIN then Err(EPNegationOverflow) else Ok(EP(0 - i))
  }

  /**
   * `OffsetPos::try_from`: the prefixes are tried in order `*`, `EOF-`,
   * `EP+`, `EP-`, `SE`, `SL+`, `S`, `VI`; anything else is an absolute offset.
   */
  function ParsePos(value: Bytes): (r: Result<OffsetPos, OffsetPosParseError>)
    ensures r.Ok? ==> PosFits(r.value)
    ensures r == Ok(Any) <==> value == "*"
    ensures r == Ok(PEVersionInfo) <==> value == "VI"
    ensures r.Ok? && r.value.Absolute? ==> ParseUsize(value) == Ok(r.value.n)
  {
    assert value == "VI" ==> value[0] == 'V';
    if value == "*" then Ok(Any)
    else if StartsWith(value, "EOF-") then
      match ParseUsize(value[4..])
      case Err(e) => Err(ParseEOFOffset(e))
      case Ok(n) => Ok(FromEOF(n))
    else if StartsWith(value, "EP+") then
      match ParseIsize(value[3..])
      case Err(e) => Err(ParseEPOffset(e))
      case Ok(i) => Ok(EP(i))
    else if StartsWith(value, "EP-") then ParseEPMinus(value[3..])
    else if StartsWith(value, "SE") then
      match ParseUsize(value[2..])
      case Err(e) => Err(ParseEntireSectionOffset(e))
      case Ok(n) => Ok(EntireSection(n))
    else if StartsWith(value, "SL+") then
      match ParseUsize(value[3..])
      case Err(e) => Err(ParseStartOfLastSectionOffset(e))
      case Ok(n) => Ok(StartOfLastSection(n))
    else if StartsWith(value, "S") then ParseSection(value[1..])
    else if value == "VI" then Ok(PEVersionInfo)
    else
      match ParseUsize(value)
      case Err(e) => Err(ParseAbsoluteOffset(e))
      case Ok(n) => Ok(Absolute(n))
  }

  /** `Offset::try_from`: a position, and after the first `,` a maximum shift. */
  function Parse(value: Bytes): (r: Result<Offset, OffsetParseError>)
    ensures r.Ok? ==> Fits(r.value)
    ensures r.Ok? ==> (r.value.Floating? <==> ',' in value)
    ensures ',' !in value ==> r == (match ParsePos(value) case Ok(p) => Ok(Normal(p)) case Err(e) => Err(OffsetPosParse(e)))
  {
    var tokens := SplitN(value, ',', 2);
    JoinSplitN(value, ',', 2);
    match ParsePos(tokens[0])
    case Err(e) => Err(OffsetPosParse(e))
    case Ok(pos) =>
      if |tokens| == 1 then Ok(Normal(pos))
      else match ParseUsize(tokens[1])
        case Err(e) => Err(ParseMaxShift(e))
        case Ok(n) => Ok(Floating(pos, n))
  }

  /** `Offset::absolute`: a value only for a normal absolute offset. */
  function AbsoluteValue(o: Offset): (r: Option<nat>)
    ensures r.Some? <==> o.Normal? && o.pos.Absolute?
  {
    if o.Normal? && o.pos.Absolute? then Some(o.pos.n) else None
  }

  /** A plain decimal offset is absolute, with the number it denotes. */
  lemma AbsoluteOfDecimal(n: nat)
    requires n <= Num.USIZE_MAX
    ensures Parse(Num.Dec(n)).Ok? && AbsoluteValue(Parse(Num.Dec(n)).value) == Some(n)
  {
    AbsoluteRoundTrip(n);
    DigitsHaveNo(Num.Dec(n), ',');
  }

  /** `{n:+}`: an explicit sign, then the magnitude. */
  function SignedText(i: int): (t: Bytes)
    ensures |t| > 1 && (t[0] == '+' <==> i >= 0) && (t[0] == '-' <==> i < 0)
  {
    if i >= 0 then "+" + Num.Dec(i) else "-" + Num.Dec(-i)
  }

  /** How `append_sigbytes` writes a position. */
  function PosText(p: OffsetPos): (t: Bytes)
    ensures ',' !in t && ':' !in t
  {
    var t := match p
      case Any => "*"
      case Absolute(n) => Num.Dec(n)
      case FromEOF(n) => "EOF-" + Num.Dec(n)
      case EP(i) => "EP" + SignedText(i)
      case StartOfSection(s, o) => "S" + Num.Dec(s) + "+" + Num.Dec(o)
      case EntireSection(n) => "SE" + Num.Dec(n)
      case StartOfLastSection(n) => "SL+" + Num.Dec(n)
      case PEVersionInfo => "VI";
    PosTextHasNo(p, t, ',');
    PosTextHasNo(p, t, ':');
    t
  }

  lemma PosTextHasNo(p: OffsetPos, t: Bytes, c: Byte)
    requires c == ',' || c == ':' || c == '/' || c == '#' || c == '$' || c == ';'
    requires t == match p
      case Any => "*"
      case Absolute(n) => Num.Dec(n)
      case FromEOF(n) => "EOF-" + Num.Dec(n)
      case EP(i) => "EP" + SignedText(i)
      case StartOfSection(s, o) => "S" + Num.Dec(s) + "+" + Num.Dec(o)
      case EntireSection(n) => "SE" + Num.Dec(n)
      case StartOfLastSection(n) => "SL+" + Num.Dec(n)
      case PEVersionInfo => "VI"
    ensures c !in t
  {
    match p
    case Absolute(n) => DigitsHaveNo(Num.Dec(n), c);
    case FromEOF(n) => DigitsHaveNo(Num.Dec(n), c);
    case EP(i) => DigitsHaveNo(Num.Dec(if i >= 0 then i else -i), c);
    case StartOfSection(s, o) => DigitsHaveNo(Num.Dec(s), c); DigitsHaveNo(Num.Dec(o), c);
    case EntireSection(n) => DigitsHaveNo(Num.Dec(n), c);
    case StartOfLastSection(n) => DigitsHaveNo(Num.Dec(n), c);
    case _ =>
  }

  /**
   * The export of an offset, with a floating `*` written as `*,n`. The
   * source instead stops with `unreachable!()` on `Floating(Any, n)`
   * (see `ExportPanics`).
   */
  function OffsetText(o: Offset): (t: Bytes)
    ensures |t| > 0 && ':' !in t
  {
    match o
    case Normal(p) => PosText(p)
    case Floating(p, n) => DigitsHaveNo(Num.Dec(n), ':'); PosText(p) + "," + Num.Dec(n)
  }

  /** The export holds none of the bytes that frame a sub-signature or split a record. */
  lemma OffsetTextHasNo(o: Offset, c: Byte)
    requires c == ':' || c == '/' || c == '#' || c == '$' || c == ';'
    ensures c !in OffsetText(o)
  {
    PosTextHasNo(o.pos, PosText(o.pos), c);
    if o.Floating? {
      DigitsHaveNo(Num.Dec(o.maxShift), c);
    }
  }

  /** The offsets whose export stops the source with `unreachable!()`. */
  predicate ExportPanics(o: Offset) { o.Floating? && o.pos.Any? }

  /** As written, the parser makes such an offset from `*,5`, which the exporter then refuses. */
  lemma FloatingAnyParses()
    ensures Parse("*,5") == Ok(Floating(Any, 5))
    ensures ExportPanics(Parse("*,5").value)
  {
    var v: Bytes := "*,5";
    assert v == "*" + [','] + "5";
    SplitNTwo("*", "5", ',');
    Num.ParseDecRoundTrip(5, Num.USIZE_MAX);
    assert Num.Dec(5) == "5";
  }

  /**
   * Every offset that fits its types reads back from its export, except
   * `EP` at the most negative `isize`, whose magnitude does not fit.
   */
  lemma RoundTrip(o: Offset)
    requires Fits(o) && !(o.pos.EP? && o.pos.i == Num.ISIZE_MIN)
    ensures Parse(OffsetText(o)) == Ok(o)
  {
    var pt := PosText(o.pos);
    PosRoundTrip(o.pos);
    match o
    case Normal(p) =>
      SplitNNone(pt, ',', 2);
    case Floating(p, n) =>
      SplitNTwo(pt, Num.Dec(n), ',');
      Num.ParseDecRoundTrip(n, Num.USIZE_MAX);
  }

  lemma PosRoundTrip(p: OffsetPos)
    requires PosFits(p) && !(p.EP? && p.i == Num.ISIZE_MIN)
    ensures ParsePos(PosText(p)) == Ok(p)
  {
    match p
    case Any =>
    case Absolute(n) => AbsoluteRoundTrip(n);
    case FromEOF(n) => FromEOFRoundTrip(n);
    case EP(i) => if i >= 0 { EPPlusRoundTrip(i); } else { EPMinusRoundTrip(i); }
    case StartOfSection(s, o) => SectionRoundTrip(s, o);
    case EntireSection(n) => EntireSectionRoundTrip(n);
    case StartOfLastSection(n) => LastSectionRoundTrip(n);
    case PEVersionInfo =>
  }

  lemma AbsoluteRoundTrip(n: nat)
    requires n <= Num.USIZE_MAX
    ensures ParsePos(PosText(Absolute(n))) == Ok(Absolute(n))
  {
    var t := Num.Dec(n);
    assert IsDigit(t[0]);
    assert !StartsWith(t, "EOF-") && !StartsWith(t, "EP+") && !StartsWith(t, "EP-");
    assert !StartsWith(t, "SE") && !StartsWith(t, "SL+") && !StartsWith(t, "S");
    assert t != "*" && t != "VI";
    Num.ParseDecRoundTrip(n, Num.USIZE_MAX);
  }

  lemma FromEOFRoundTrip(n: nat)
    requires n <= Num.USIZE_MAX
    ensures ParsePos(PosText(FromEOF(n))) == Ok(FromEOF(n))
  {
    var t := PosText(FromEOF(n));
    assert t[..4] == "EOF-" && t[4..] == Num.Dec(n);
    Num.ParseDecRoundTrip(n, Num.USIZE_MAX);
  }

  lemma EPPlusRoundTrip(i: nat)
    requires i <= Num.ISIZE_MAX
    ensures ParsePos(PosText(EP(i))) == Ok(EP(i))
  {
    assert PosText(EP(i)) == "EP+" + Num.Dec(i);
    ParsePosEP("EP+", Num.Dec(i));
    Num.ParseDecSignedRoundTrip(i, Num.ISIZE_MIN, Num.ISIZE_MAX);
  }

  lemma EPMinusRoundTrip(i: int)
    requires Num.ISIZE_MIN < i < 0
    ensures ParsePos(PosText(EP(i))) == Ok(EP(i))
  {
    assert PosText(EP(i)) == "EP-" + Num.Dec(-i);
    ParsePosEP("EP-", Num.Dec(-i));
    Num.ParseDecSignedRoundTrip(-i, Num.ISIZE_MIN, Num.ISIZE_MAX);
  }

  /** A position of `EP+` or `EP-` and more is read by the entry-point rules. */
  lemma ParsePosEP(p: Bytes, x: Bytes)
    requires p == "EP+" || p == "EP-"
    ensures p == "EP+" ==> ParsePos(p + x) == (match ParseIsize(x) case Err(e) => Err(ParseEPOffset(e)) case Ok(i) => Ok(EP(i)))
    ensures p == "EP-" ==> ParsePos(p + x) == ParseEPMinus(x)
  {
    var t := p + x;
    assert t[0] == 'E' && t[1] == 'P' && t[2] == p[2] && t[..3] == p && t[3..] == x;
  }

  lemma SectionRoundTrip(s: nat, o: nat)
    requires s <= Num.USIZE_MAX && o <= Num.USIZE_MAX
    ensures ParsePos(PosText(StartOfSection(s, o))) == Ok(StartOfSection(s, o))
  {
    var rest := Num.Dec(s) + "+" + Num.Dec(o);
    assert PosText(StartOfSection(s, o)) == "S" + rest;
    ParsePosSection(rest);
    SectionTextRoundTrip(s, o);
  }

  /** A position of `S` and a digit is read as a section offset. */
  lemma ParsePosSection(x: Bytes)
    requires |x| > 0 && IsDigit(x[0])
    ensures ParsePos("S" + x) == ParseSection(x)
  {
    var t := "S" + x;
    assert t[0] == 'S' && t[1] == x[0];
    assert t != "*" && !StartsWith(t, "EOF-") && !StartsWith(t, "EP+") && !StartsWith(t, "EP-");
    assert !StartsWith(t, "SE") && !StartsWith(t, "SL+");
    assert t[..1] == "S" && t[1..] == x;
  }

  lemma SectionTextRoundTrip(s: nat, o: nat)
    requires s <= Num.USIZE_MAX && o <= Num.USIZE_MAX
    ensures ParseSection(Num.Dec(s) + "+" + Num.Dec(o)) == Ok(StartOfSection(s, o))
  {
    var ds := Num.Dec(s);
    assert ds + "+" + Num.Dec(o) == ds + ['+'] + Num.Dec(o);
    DigitsHaveNo(ds, '+');
    SplitNTwo(ds, Num.Dec(o), '+');
    Num.ParseDecRoundTrip(s, Num.USIZE_MAX);
    Num.ParseDecRoundTrip(o, Num.USIZE_MAX);
  }

  lemma EntireSectionRoundTrip(n: nat)
    requires n <= Num.USIZE_MAX
    ensures ParsePos(PosText(EntireSection(n))) == Ok(EntireSection(n))
  {
    var t := PosText(EntireSection(n));
    assert t[..2] == "SE" && t[2..] == Num.Dec(n);
    Num.ParseDecRoundTrip(n, Num.USIZE_MAX);
  }

  lemma LastSectionRoundTrip(n: nat)
    requires n <= Num.USIZE_MAX
    ensures ParsePos(PosText(StartOfLastSection(n))) == Ok(StartOfLastSection(n))
  {
    var t := PosText(StartOfLastSection(n));
    assert t[1] == 'L' && t[..3] == "SL+" && t[3..] == Num.Dec(n);
    Num.ParseDecRoundTrip(n, Num.USIZE_MAX);
  }
}
