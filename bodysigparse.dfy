/**
 * The body-signature parser of src/signature/bodysig/parse.rs, as pure
 * functions on the parser's context: one function per `ParseContext`
 * helper, one per state of the byte-driven state machine, the run over the
 * whole input and the end-of-input checks. The imperative parser in
 * bodysigparser.dfy is proved to compute exactly these functions.
 */
module BodySigParse {
  import opened Wrappers
  import opened ByteStr
  import Util
  import Bits
  import opened PatternModifiers
  import opened CharClasses
  import opened Patterns

  /** The fewest bytes the string beside an anchored byte may have. */
  const ANCHORED_BYTE_MATCH_STRING_MIN_BYTES: nat := 2
  /** The largest bound of an anchored-byte range. */
  const ANCHORED_BYTE_RANGE_MAX: nat := 32
  /** The largest `usize`, a 64-bit target. */
  const USIZE_MAX: nat := 0xFFFF_FFFF_FFFF_FFFF
  /** The largest `{n}` kept as a match byte inside its string. */
  const WILDCARD_MANY_MAX: nat := 128

  datatype Context = CurlyBraceRange | PatternContext

  datatype BodySigParseError =
    | AnchoredByteExpectingSingleByte(startPos: Util.Position, pos: Util.Position)
    | AnchoredByteInvalidLowerBound(bracketPos: Util.Position, bound: nat)
    | AnchoredByteInvalidUpperBound(bracketPos: Util.Position, bound: nat, lower: nat)
    | AnchoredByteNoLeftBytes(pos: Util.Position)
    | AnchoredByteMissingSingleByte(startPos: Util.Position)
    | AnchoredByteStringTooSmall(startPos: Util.Position)
    | BracketNotClosed(startPos: Util.Position)
    | BracketRangeMissingLowerBound(startPos: Util.Position)
    | BracketRangeEmpty(startPos: Util.Position)
    | BracketRangeUnexpectedChar(pos: Util.Position, found: Byte)
    | CharClassExpectCloseParen(pos: Util.Position, found: Byte)
    | CharClassNothingAdjacent(pos: Util.Position)
    | CharClassUnterminated(startPos: Util.Position)
    | CurlyBraceNotClosed(startPos: Util.Position)
    | DecimalOverflow(pos: Util.Position)
    | Empty
    | EmptyParens(pos: Util.Position)
    | EmptyBraces(startPos: Util.Position)
    | ExpectingLowNyble(pos: Util.Position, foundOpt: Option<Byte>)
    | LeadingWildcard(pattern: Pattern)
    | MinStaticBytes(startPos: Util.Position)
    | NegatedGenericAltStr(startPos: Util.Position)
    | NegateUnexpectedChar(pos: Util.Position, found: Byte)
    | NegationTargetless
    | NoBraceBounds(startPos: Util.Position)
    | RangeBoundsInverted(startPos: Util.Position, start: nat, end: nat)
    | TrailingUnsizedPattern(pattern: Pattern)
    | UnexpectedChar(context: Context, pos: Util.Position, found: Byte)
    | UnmatchedClosingParen(pos: Util.Position)
    | UnexpectedPipeChar(pos: Util.Position)

  /** The states of the machine; the parser starts in `HighNyble`. */
  datatype State =
    | HighNyble | LowNyble | CurlyBraceLower | CurlyBraceUpper
    | BracketLower | BracketUpper | Negate | InCharacterClass

  /** Which nybles of the byte being read are wildcards (`?`). */
  datatype MatchMask = MaskNone | MaskHigh | MaskLow | MaskFull

  /** `PendingAnchoredByte`: an anchored-byte pattern waiting for what follows its `]`. */
  datatype Pending =
    | HaveByte(startPos: nat, byte: MatchByte, lo: nat, hi: nat)
    | HaveString(startPos: nat, bytes: seq<MatchByte>, lo: nat, hi: nat)

  /**
   * `ParentheticalContext`: the alternatives read so far, back to back in
   * `astrData` with the index range of each, or the character class found.
   */
  datatype Paren = Paren(
    startPos: nat,
    flushed: bool,
    astrData: seq<MatchByte>,
    ranges: seq<(nat, nat)>,
    isGeneric: bool,
    characterClass: Option<CharacterClass>)

  /** `ParseContext`, field for field. */
  datatype Ctx = Ctx(
    curByte: Byte,
    mask: MatchMask,
    decValue: Option<nat>,
    curRange: Option<Util.Range>,
    patterns: seq<Pattern>,
    matchBytes: seq<MatchByte>,
    matchBytesStart: nat,
    staticRange: Option<(nat, nat)>,
    staticRanges: seq<(nat, nat)>,
    modifier: Flags,
    pending: Option<Pending>,
    paren: Option<Paren>,
    negated: bool,
    leftBracketPos: nat,
    leftBracePos: nat,
    leftParenPos: nat)

  /** `ParseContext::default()`. */
  const INIT: Ctx := Ctx(0 as char, MaskNone, None, None, [], [], 0, None, [], {}, None, None, false, 0, 0, 0)

  function NewParen(pos: nat): Paren
  {
    Paren(pos, false, [], [], false, None)
  }

  /** `usize` subtraction `a - b`, wrapping modulo 2^64 as a release build does. */
  function UsizeSub(a: nat, b: nat): nat
  {
    (a - b) % (USIZE_MAX + 1)
  }

  /** Without underflow, `usize` subtraction is subtraction. */
  lemma UsizeSubExact(a: nat, b: nat)
    requires b <= a <= USIZE_MAX
    ensures UsizeSub(a, b) == a - b
  {
    var d := a - b;
    assert 0 <= d < USIZE_MAX + 1;
    assert d % (USIZE_MAX + 1) == d;
  }

  /**
   * A start position computed as `a - b` in `usize`; on the inputs the parser
   * meets `b` never exceeds `a`, and a larger `b` is clamped to 0 here.
   */
  function PosSub(a: nat, b: nat): nat
  {
    if b <= a then a - b else 0
  }

  /** An open parenthesis that has a stored group: its ranges lie inside its data. */
  predicate ParenWF(pa: Paren)
  {
    && (forall k :: 0 <= k < |pa.ranges| ==> pa.ranges[k].0 <= pa.ranges[k].1 <= |pa.astrData|)
    && (|pa.ranges| > 0 ==> pa.ranges[0].0 == 0 && (!pa.isGeneric ==> pa.ranges[0].1 > 0))
    && (|pa.ranges| == 0 ==> |pa.astrData| == 0)
  }

  /** No stored pattern list begins with an unsized pattern. */
  predicate NoLeadingWildcard(ps: seq<Pattern>)
  {
    |ps| > 0 ==> !IsWildcard(ps[0])
  }

  /** Every stored pattern can be exported. */
  predicate AllExportable(ps: seq<Pattern>)
  {
    forall k :: 0 <= k < |ps| ==> Exportable(ps[k])
  }

  /** What the parser keeps true of its context between two input bytes. */
  predicate Good(c: Ctx)
  {
    && NoLeadingWildcard(c.patterns)
    && AllExportable(c.patterns)
    && (c.paren.Some? ==> ParenWF(c.paren.value))
  }

  // ------------------------------------------------------- ParseContext helpers

  /** `flush_static_range`: a finished run of at least two full bytes is recorded. */
  function FlushStaticRange(c: Ctx): (r: Ctx)
    ensures r == c.(staticRange := None, staticRanges := r.staticRanges)
    ensures c.staticRange.None? ==> r.staticRanges == c.staticRanges
    ensures c.staticRange.Some? ==>
      r.staticRanges == c.staticRanges +
        (if UsizeSub(c.staticRange.value.1, c.staticRange.value.0) >= 2 then [c.staticRange.value] else [])
  {
    match c.staticRange
    case None => c
    case Some((start, end)) =>
      c.(staticRange := None,
         staticRanges := if UsizeSub(end, start) >= 2 then c.staticRanges + [(start, end)] else c.staticRanges)
  }

  /**
   * `push_pattern`: a string needs a recorded run of static bytes, a generic
   * group may not be negated, and an unsized pattern may not come first.
   */
  function PushPattern(c: Ctx, p: Pattern): (r: Result<Ctx, BodySigParseError>)
    ensures r.Ok? ==> r.value.patterns == c.patterns + [p]
    ensures r.Ok? <==>
      && (p.String? ==> |FlushStaticRange(c).staticRanges| > 0)
      && (p.AlternativeStrings? && p.alts.Generic? ==> !c.negated)
      && (IsWildcard(p) ==> |c.patterns| > 0)
    ensures r.Err? && p.String? ==> r.error == MinStaticBytes(Util.Absolute(c.matchBytesStart))
    ensures r.Err? && IsWildcard(p) ==> r.error == LeadingWildcard(p)
    ensures r.Err? && p.AlternativeStrings? ==> r.error == NegatedGenericAltStr(Util.Absolute(c.leftParenPos))
    ensures r.Ok? && !p.String? ==> r.value == c.(patterns := c.patterns + [p])
    ensures r.Ok? && p.String? ==>
      r.value == c.(staticRange := None, staticRanges := [], patterns := c.patterns + [p])
  {
    match p
    case String(_, _) =>
      var c1 := FlushStaticRange(c);
      if |c1.staticRanges| == 0 then Err(MinStaticBytes(Util.Absolute(c1.matchBytesStart)))
      else Ok(c1.(staticRange := None, staticRanges := [], patterns := c1.patterns + [p]))
    case AnchoredByte(_, _, _, _, _) => Ok(c.(patterns := c.patterns + [p]))
    case AlternativeStrings(FixedWidth(_, _, _)) => Ok(c.(patterns := c.patterns + [p]))
    case AlternativeStrings(Generic(_, _)) =>
      if c.negated then Err(NegatedGenericAltStr(Util.Absolute(c.leftParenPos)))
      else Ok(c.(patterns := c.patterns + [p]))
    case ByteRange(_) =>
      if |c.patterns| == 0 then Err(LeadingWildcard(p)) else Ok(c.(patterns := c.patterns + [p]))
    case Wildcard =>
      if |c.patterns| == 0 then Err(LeadingWildcard(p)) else Ok(c.(patterns := c.patterns + [p]))
  }

  /**
   * `flush_match_bytes`: the match bytes read so far become a string pattern
   * with the pending modifier flags. Inside parentheses this happens at most
   * once, and only the first time is anything pushed.
   */
  function FlushMatchBytes(c: Ctx): (r: Result<Ctx, BodySigParseError>)
  {
    if c.paren.Some? && c.paren.value.flushed then Ok(c)
    else
      var c1 := if c.paren.Some? then c.(paren := Some(c.paren.value.(flushed := true))) else c;
      PushString(c1)
  }

  /** The bytes read so far, if any, become a string pattern with the current flags. */
  function PushString(c: Ctx): (r: Result<Ctx, BodySigParseError>)
  {
    if |c.matchBytes| == 0 then Ok(c)
    else
      var c2 :- PushPattern(c, String(c.matchBytes, c.modifier));
      Ok(c2.(matchBytes := [], modifier := {}))
  }

  /** The match byte the current byte and mask stand for. */
  function MaskedByte(c: Ctx): MatchByte
  {
    match c.mask
    case MaskNone => Full(c.curByte)
    case MaskHigh => MatchByte.LowNyble(c.curByte)
    case MaskLow => MatchByte.HighNyble(c.curByte)
    case MaskFull => Any
  }

  /**
   * `push_matchbyte`: the byte joins the current string. Inside parentheses
   * a nyble or wildcard byte makes the group generic; outside, a full byte
   * extends the current run of static bytes and anything else ends it.
   */
  function PushMatchByte(c: Ctx, mb: MatchByte, startPos: nat): (r: Ctx)
    ensures r.matchBytes == c.matchBytes + [mb]
    ensures r.patterns == c.patterns
    ensures r.paren.Some? <==> c.paren.Some?
    ensures c.paren.Some? ==> r.paren.value == c.paren.value.(isGeneric := c.paren.value.isGeneric || !mb.Full?)
  {
    var c1 := if c.paren.None? && |c.matchBytes| == 0 then c.(matchBytesStart := startPos) else c;
    var c2 := c1.(matchBytes := c1.matchBytes + [mb]);
    if c2.paren.Some? then
      if !mb.Full? then c2.(paren := Some(c2.paren.value.(isGeneric := true))) else c2
    else if mb.Full? then
      var len := |c2.matchBytes|;
      c2.(staticRange := Some(match c2.staticRange
                              case None => (len - 1, len)
                              case Some((start, _)) => (start, len)))
    else FlushStaticRange(c2)
  }

  /** `update_dec_value`: one more decimal digit, or `DecimalOverflow` past `usize`. */
  function UpdateDecValue(c: Ctx, b: Byte, pos: nat): (r: Result<Ctx, BodySigParseError>)
    requires IsDigit(b)
    ensures r.Ok? <==> (if c.decValue.Some? then c.decValue.value else 0) * 10 + DigitVal(b) <= USIZE_MAX
    ensures r.Ok? ==> r.value == c.(decValue := Some((if c.decValue.Some? then c.decValue.value else 0) * 10 + DigitVal(b)))
    ensures r.Err? ==> r.error == DecimalOverflow(Util.Absolute(pos))
  {
    var v := (if c.decValue.Some? then c.decValue.value else 0) * 10;
    if v > USIZE_MAX then Err(DecimalOverflow(Util.Absolute(pos)))
    else
      var w := v + DigitVal(b);
      if w > USIZE_MAX then Err(DecimalOverflow(Util.Absolute(pos)))
      else Ok(c.(decValue := Some(w)))
  }

  /**
   * `handle_anchored_byte_range`, at the `]` of `[lo-hi]`: the upper bound
   * (the lower one when none was given) must lie in 1..=32 and not below
   * the lower one. One match byte before the bracket becomes a left anchor,
   * several become the string of a right anchor.
   */
  function HandleAnchoredByteRange(c: Ctx, pos: nat): (r: Result<Ctx, BodySigParseError>)
    ensures !(c.curRange.Some? && c.curRange.value.From?) ==> r == Err(BracketRangeEmpty(Util.Absolute(c.leftBracketPos)))
    ensures r.Ok? <==>
      && c.curRange.Some? && c.curRange.value.From? && |c.matchBytes| > 0
      && var end := if c.decValue.Some? then c.decValue.value else c.curRange.value.start;
         1 <= end <= ANCHORED_BYTE_RANGE_MAX && c.curRange.value.start <= end
    ensures r.Ok? ==> r.value.matchBytes == [] && r.value.patterns == c.patterns && r.value.pending.Some?
    ensures r.Ok? ==> r.value.pending.value.lo == c.curRange.value.start
    ensures r.Ok? ==> r.value.pending.value.hi == if c.decValue.Some? then c.decValue.value else c.curRange.value.start
    ensures r.Ok? ==> (r.value.pending.value.HaveByte? <==> |c.matchBytes| == 1)
    ensures r.Ok? && r.value.pending.value.HaveByte? ==> r.value.pending.value.byte == c.matchBytes[0]
    ensures r.Ok? && r.value.pending.value.HaveString? ==> r.value.pending.value.bytes == c.matchBytes
  {
    if c.curRange.Some? && c.curRange.value.From? then
      var start := c.curRange.value.start;
      var end := if c.decValue.Some? then c.decValue.value else start;
      var c1 := c.(curRange := None, decValue := None);
      if !(1 <= end <= ANCHORED_BYTE_RANGE_MAX) || end < start then
        Err(AnchoredByteInvalidUpperBound(Util.Absolute(c.leftBracketPos), end, start))
      else if |c1.matchBytes| == 0 then Err(AnchoredByteNoLeftBytes(Util.Absolute(pos)))
      else if |c1.matchBytes| == 1 then
        Ok(c1.(pending := Some(HaveByte(PosSub(c.leftBracketPos, 2), c1.matchBytes[0], start, end)),
               matchBytes := []))
      else
        Ok(c1.(pending := Some(HaveString(PosSub(c.leftBracketPos, |c1.matchBytes| * 2), c1.matchBytes, start, end)),
               matchBytes := []))
    else Err(BracketRangeEmpty(Util.Absolute(c.leftBracketPos)))
  }

  /**
   * `handle_cc_close`: a character class found in the parentheses becomes a
   * modifier flag, on the left of the string that follows when no match
   * byte precedes it and on the right of the preceding one otherwise.
   */
  function HandleCcClose(c: Ctx): (r: Ctx)
    requires c.paren.Some?
    ensures r.paren.None? && r.patterns == c.patterns && r.matchBytes == c.matchBytes
    ensures c.paren.value.characterClass.None? ==> r == c.(paren := None)
    ensures c.paren.value.characterClass.Some? ==>
      r == c.(paren := None, negated := false,
               modifier := c.modifier + {PatternModifierOf(c.paren.value.characterClass.value, |c.matchBytes| == 0, c.negated)})
  {
    var pa := c.paren.value;
    var c1 := c.(paren := None);
    match pa.characterClass
    case None => c1
    case Some(cc) => c1.(modifier := c1.modifier + {PatternModifierOf(cc, |c.matchBytes| == 0, c.negated)}, negated := false)
  }

  /**
   * `push_alternative_string`: the current match bytes become one more
   * alternative. An empty final alternative with nothing before it is
   * `EmptyParens`; an empty alternative, or one whose length differs from
   * the first one's, makes the group generic.
   */
  function PushAlternativeString(pa: Paren, mb: seq<MatchByte>, isFinal: bool): (r: Result<Paren, BodySigParseError>)
    ensures r.Err? <==> |mb| == 0 && isFinal && |pa.astrData| == 0
    ensures r.Err? ==> r.error == EmptyParens(Util.Absolute(pa.startPos))
    ensures r.Ok? ==> r.value.astrData == pa.astrData + mb
    ensures r.Ok? ==> r.value.ranges == pa.ranges + [(|pa.astrData|, |pa.astrData| + |mb|)]
    ensures r.Ok? ==> (r.value.isGeneric <==>
      pa.isGeneric || |mb| == 0 || (|pa.ranges| > 0 && pa.ranges[0].1 as int - pa.ranges[0].0 as int != |mb|))
    ensures r.Ok? ==> r.value == pa.(astrData := r.value.astrData, ranges := r.value.ranges, isGeneric := r.value.isGeneric)
    ensures r.Ok? && ParenWF(pa) ==> ParenWF(r.value)
  {
    if |mb| == 0 && isFinal && |pa.astrData| == 0 then Err(EmptyParens(Util.Absolute(pa.startPos)))
    else
      var generic := pa.isGeneric || |mb| == 0;
      var start := |pa.astrData|;
      var data := pa.astrData + mb;
      var generic' := generic || (|pa.ranges| > 0 && pa.ranges[0].1 as int - pa.ranges[0].0 as int != |data| - start);
      Ok(pa.(isGeneric := generic', astrData := data, ranges := pa.ranges + [(start, |data|)]))
  }

  /**
   * The first half of `handle_non_matchbyte`: a pending anchored byte takes
   * the match bytes read since its `]`. A left anchor needs at least two of
   * them, a right anchor exactly one.
   */
  function ResolvePending(c: Ctx, pos: Option<nat>): (r: Result<Ctx, BodySigParseError>)
    ensures c.pending.None? ==> r == Ok(c)
    ensures c.pending.Some? && c.pending.value.HaveByte? ==>
      (r.Ok? <==> |c.matchBytes| >= ANCHORED_BYTE_MATCH_STRING_MIN_BYTES)
    ensures c.pending.Some? && c.pending.value.HaveString? ==> (r.Ok? <==> |c.matchBytes| == 1)
    ensures c.pending.Some? && r.Ok? ==> r.value.pending.None? && r.value.matchBytes == []
    ensures c.pending.Some? && c.pending.value.HaveByte? && r.Ok? ==>
      var p := c.pending.value;
      r.value.patterns == c.patterns + [AnchoredByte(Left, p.byte, p.lo, p.hi, c.matchBytes)]
    ensures c.pending.Some? && c.pending.value.HaveString? && r.Ok? ==>
      var p := c.pending.value;
      r.value.patterns == c.patterns + [AnchoredByte(Right, c.matchBytes[0], p.lo, p.hi, p.bytes)]
  {
    match c.pending
    case None => Ok(c)
    case Some(HaveByte(startPos, byte, lo, hi)) =>
      var c1 := c.(pending := None);
      if |c1.matchBytes| < ANCHORED_BYTE_MATCH_STRING_MIN_BYTES then
        Err(AnchoredByteStringTooSmall(Util.Absolute(startPos)))
      else Ok(c1.(patterns := c1.patterns + [AnchoredByte(Left, byte, lo, hi, c1.matchBytes)], matchBytes := []))
    case Some(HaveString(startPos, s, lo, hi)) =>
      var c1 := c.(pending := None);
      if |c1.matchBytes| == 0 then
        Err(AnchoredByteExpectingSingleByte(Util.Absolute(PosSub(c.leftBracketPos, |s| * 2)), Util.PositionOf(pos)))
      else if |c1.matchBytes| > 1 then Err(AnchoredByteMissingSingleByte(Util.Absolute(startPos)))
      else Ok(c1.(patterns := c1.patterns + [AnchoredByte(Right, c1.matchBytes[0], lo, hi, s)], matchBytes := []))
  }

  /** `)` outside a character class: the group is closed and stored. */
  function CloseGroup(c: Ctx, pos: nat): (r: Result<Ctx, BodySigParseError>)
  {
    match c.paren
    case None => Err(UnmatchedClosingParen(Util.Absolute(pos)))
    case Some(pa0) =>
      var pa :- PushAlternativeString(pa0, c.matchBytes, true);
      PushGroup(c.(paren := None, matchBytes := []), pa)
  }

  /** A closed group becomes an alternative-strings pattern: generic, or fixed-width and possibly negated. */
  function PushGroup(c: Ctx, pa: Paren): (r: Result<Ctx, BodySigParseError>)
    requires !pa.isGeneric ==> |pa.ranges| > 0
    ensures r.Err? <==> pa.isGeneric && c.negated
    ensures r.Err? ==> r.error == NegatedGenericAltStr(Util.Absolute(c.leftParenPos))
    ensures r.Ok? ==> !r.value.negated && r.value.matchBytes == c.matchBytes
    ensures r.Ok? && pa.isGeneric ==> r.value.patterns == c.patterns + [AlternativeStrings(Generic(pa.ranges, pa.astrData))]
    ensures r.Ok? && !pa.isGeneric ==>
      r.value.patterns == c.patterns + [AlternativeStrings(FixedWidth(c.negated, pa.ranges[0].1, pa.astrData))]
  {
    if pa.isGeneric then
      var c2 :- PushPattern(c, AlternativeStrings(Generic(pa.ranges, pa.astrData)));
      Ok(c2.(negated := false))
    else
      Ok(c.(patterns := c.patterns + [AlternativeStrings(FixedWidth(c.negated, pa.ranges[0].1, pa.astrData))],
            negated := false))
  }

  /**
   * The second half of `handle_non_matchbyte`: a byte that is neither a hex
   * digit nor `?` starts a wildcard, a range, a group or a negation, adds or
   * closes an alternative, or is an error.
   */
  function NonMatchByteChar(c: Ctx, pos: nat, b: Byte): (r: Result<(Ctx, State), BodySigParseError>)
    ensures b == '|' && c.paren.None? ==> r == Err(UnexpectedPipeChar(Util.Absolute(pos)))
    ensures b == '*' && r.Ok? ==> |r.value.0.patterns| > 0 && r.value.0.patterns[|r.value.0.patterns| - 1] == Wildcard
    ensures b == ')' && c.paren.None? ==> r == Err(UnmatchedClosingParen(Util.Absolute(pos)))
    ensures b !in "*{[(!|)" ==> r == Err(UnexpectedChar(PatternContext, Util.Absolute(pos), b))
  {
    if b == '*' then
      var c1 :- FlushMatchBytes(c);
      var c2 :- PushPattern(c1, Wildcard);
      Ok((c2, State.HighNyble))
    else if b == '{' then Ok((c.(leftBracePos := pos, decValue := None), CurlyBraceLower))
    else if b == '[' then Ok((c.(leftBracketPos := pos, decValue := None), BracketLower))
    else if b == '(' then
      var c1 :- FlushMatchBytes(c);
      Ok((c1.(leftParenPos := pos, paren := Some(NewParen(pos))), State.HighNyble))
    else if b == '!' then Ok((c, Negate))
    else if b == '|' then
      if c.paren.None? then Err(UnexpectedPipeChar(Util.Absolute(pos)))
      else
        var pa := PushAlternativeString(c.paren.value, c.matchBytes, false).value;
        Ok((c.(paren := Some(pa), matchBytes := []), State.HighNyble))
    else if b == ')' then
      var c1 :- CloseGroup(c, pos);
      Ok((c1, State.HighNyble))
    else Err(UnexpectedChar(PatternContext, Util.Absolute(pos), b))
  }

  /** `handle_non_matchbyte`; `None` stands for the end of the input. */
  function HandleNonMatchByte(c: Ctx, at: Option<(nat, Byte)>): (r: Result<(Ctx, State), BodySigParseError>)
  {
    var c1 :- ResolvePending(c, if at.Some? then Some(at.value.0) else None);
    match at
    case None => Ok((c1, State.HighNyble))
    case Some((pos, b)) => NonMatchByteChar(c1, pos, b)
  }

  // ------------------------------------------------------------------ states

  /**
   * `HighNyble`: a hex digit is the high half of a byte (a `B` inside
   * parentheses may also be a character class), `?` a wildcard high nyble,
   * `L` or `W` inside parentheses a character class; outside parentheses
   * `L` and `W` are skipped. Anything else goes to `handle_non_matchbyte`.
   */
  function StepHighNyble(c: Ctx, pos: nat, b: Byte): (r: Result<(Ctx, State), BodySigParseError>)
  {
    if IsHexDigit(b) then
      var paren := if c.paren.Some? && b == 'B' then Some(c.paren.value.(characterClass := Some(WordBoundary))) else c.paren;
      Ok((c.(mask := MaskNone, curByte := ByteOf(Util.HexNyble(b, true)), paren := paren), State.LowNyble))
    else if b == 'L' || b == 'W' then
      if c.paren.None? then Ok((c, State.HighNyble))
      else
        var cc := if b == 'L' then LineOrFileBoundary else NonAlphaChar;
        Ok((c.(paren := Some(c.paren.value.(characterClass := Some(cc)))), InCharacterClass))
    else if b == '?' then Ok((c.(curByte := 0 as char, mask := MaskHigh), State.LowNyble))
    else HandleNonMatchByte(c, Some((pos, b)))
  }

  /** The first time inside parentheses, the bytes before them are flushed. */
  function FlushInParen(c: Ctx): Result<Ctx, BodySigParseError>
  {
    if c.paren.Some? then FlushMatchBytes(c) else Ok(c)
  }

  /**
   * `LowNyble`: a hex digit or `?` completes the byte, which joins the
   * current string; `)` closes a character class. Inside parentheses the
   * bytes before them are flushed first, and a flush that fails is an
   * error. A `)` with no open parenthesis is `ExpectingLowNyble`.
   */
  function StepLowNyble(c: Ctx, pos: nat, b: Byte): (r: Result<(Ctx, State), BodySigParseError>)
    ensures (IsHexDigit(b) || b == '?') && FlushInParen(c).Err? ==> r == Err(FlushInParen(c).error)
    ensures (IsHexDigit(b) || b == '?') && FlushInParen(c).Ok? ==>
      r.Ok? && r.value.1 == State.HighNyble && r.value.0.patterns == FlushInParen(c).value.patterns &&
      |r.value.0.matchBytes| == |FlushInParen(c).value.matchBytes| + 1
    ensures IsHexDigit(b) && FlushInParen(c).Ok? && c.mask == MaskNone ==>
      r.value.0.matchBytes == FlushInParen(c).value.matchBytes + [Full(ByteOf(Bits.OrByte(c.curByte as int, Util.HexNyble(b, false))))]
    ensures IsHexDigit(b) && FlushInParen(c).Ok? && c.mask == MaskHigh ==>
      r.value.0.matchBytes == FlushInParen(c).value.matchBytes + [MatchByte.LowNyble(ByteOf(Bits.OrByte(c.curByte as int, Util.HexNyble(b, false))))]
    ensures b == '?' && FlushInParen(c).Ok? && c.mask == MaskNone ==>
      r.value.0.matchBytes == FlushInParen(c).value.matchBytes + [MatchByte.HighNyble(c.curByte)]
    ensures b == '?' && FlushInParen(c).Ok? && c.mask == MaskHigh ==>
      r.value.0.matchBytes == FlushInParen(c).value.matchBytes + [Any]
    ensures b == ')' && c.paren.Some? && !IsHexDigit(b) ==> r == Ok((HandleCcClose(c), State.HighNyble))
    ensures !IsHexDigit(b) && b != '?' && !(b == ')' && c.paren.Some?) ==> r == Err(ExpectingLowNyble(Util.Absolute(pos), Some(b)))
  {
    if IsHexDigit(b) then
      var c1 :- FlushInParen(c);
      var c2 := c1.(curByte := ByteOf(Bits.OrByte(c1.curByte as int, Util.HexNyble(b, false))));
      Ok((PushMatchByte(c2, MaskedByte(c2), PosSub(pos, 1)), State.HighNyble))
    else if b == '?' then
      var c1 :- FlushInParen(c);
      var c2 := c1.(mask := if c1.mask == MaskHigh then MaskFull else MaskLow);
      Ok((PushMatchByte(c2, MaskedByte(c2), PosSub(pos, 1)), State.HighNyble))
    else if b == ')' && c.paren.Some? then Ok((HandleCcClose(c), State.HighNyble))
    else Err(ExpectingLowNyble(Util.Absolute(pos), Some(b)))
  }

  /**
   * `CurlyBraceLower`: digits of the lower bound; `-` moves to the upper
   * bound; `}` ends `{n}`, which is a match byte when n <= 128 and a byte
   * range pattern otherwise.
   */
  function StepCurlyBraceLower(c: Ctx, pos: nat, b: Byte): (r: Result<(Ctx, State), BodySigParseError>)
    ensures b == '}' && c.decValue.None? ==> r == Err(EmptyBraces(Util.Absolute(c.leftBracePos)))
    ensures b == '}' && c.decValue.Some? && c.decValue.value <= WILDCARD_MANY_MAX ==>
      r.Ok? && r.value.1 == State.HighNyble && r.value.0.patterns == c.patterns &&
      r.value.0.matchBytes == c.matchBytes + [WildcardMany(ByteOf(c.decValue.value))]
    ensures b == '}' && c.decValue.Some? && c.decValue.value > WILDCARD_MANY_MAX && r.Ok? ==>
      |r.value.0.patterns| > 0 && r.value.0.patterns[|r.value.0.patterns| - 1] == ByteRange(Util.Exact(c.decValue.value))
    ensures b == '-' ==> r.Ok? && r.value.1 == CurlyBraceUpper
    ensures !IsDigit(b) && b != '-' && b != '}' ==> r == Err(UnexpectedChar(CurlyBraceRange, Util.Absolute(pos), b))
  {
    if IsDigit(b) then
      var c1 :- UpdateDecValue(c, b, pos);
      Ok((c1, CurlyBraceLower))
    else if b == '-' then
      Ok((c.(curRange := if c.decValue.Some? then Some(Util.From(c.decValue.value)) else None, decValue := None),
          CurlyBraceUpper))
    else if b == '}' then
      if c.decValue.None? then Err(EmptyBraces(Util.Absolute(c.leftBracePos)))
      else
        var n := c.decValue.value;
        var c1 := c.(decValue := None, curRange := None);
        if n <= WILDCARD_MANY_MAX then Ok((PushMatchByte(c1, WildcardMany(ByteOf(n)), c1.leftBracePos), State.HighNyble))
        else
          var c2 :- FlushMatchBytes(c1);
          var c3 :- PushPattern(c2, ByteRange(Util.Exact(n)));
          Ok((c3, State.HighNyble))
    else Err(UnexpectedChar(CurlyBraceRange, Util.Absolute(pos), b))
  }

  /** The range a `}` closes in `CurlyBraceUpper`. */
  function UpperBraceRange(c: Ctx): (r: Result<Util.Range, BodySigParseError>)
    ensures c.curRange.Some? && c.curRange.value.From? && c.decValue.Some? ==>
      var lo, hi := c.curRange.value.start, c.decValue.value;
      if hi < lo then r == Err(RangeBoundsInverted(Util.Absolute(c.leftBracePos), lo, hi)) else r == Ok(Util.Inclusive(lo, hi))
    ensures c.curRange.Some? && c.curRange.value.From? && c.decValue.None? ==> r == Ok(c.curRange.value)
    ensures !(c.curRange.Some? && c.curRange.value.From?) ==>
      r == if c.decValue.Some? then Ok(Util.ToInclusive(c.decValue.value)) else Err(NoBraceBounds(Util.Absolute(c.leftBracePos)))
  {
    if c.curRange.Some? && c.curRange.value.From? then
      var start := c.curRange.value.start;
      match c.decValue
      case Some(end) =>
        if end < start then Err(RangeBoundsInverted(Util.Absolute(c.leftBracePos), start, end))
        else Ok(Util.Inclusive(start, end))
      case None => Ok(Util.From(start))
    else
      match c.decValue
      case Some(end) => Ok(Util.ToInclusive(end))
      case None => Err(NoBraceBounds(Util.Absolute(c.leftBracePos)))
  }

  /**
   * `CurlyBraceUpper`: digits of the upper bound; `}` stores `{n-m}`, `{n-}`
   * or `{-m}` as a byte range pattern after flushing the current string.
   */
  function StepCurlyBraceUpper(c: Ctx, pos: nat, b: Byte): (r: Result<(Ctx, State), BodySigParseError>)
    ensures b == '}' && UpperBraceRange(c).Err? ==> r == Err(UpperBraceRange(c).error)
    ensures b == '}' && r.Ok? ==>
      r.value.1 == State.HighNyble && |r.value.0.patterns| > 0 &&
      r.value.0.patterns[|r.value.0.patterns| - 1] == ByteRange(UpperBraceRange(c).value)
    ensures b == '}' && UpperBraceRange(c).Ok? && FlushMatchBytes(c.(curRange := None, decValue := None)).Err? ==>
      r == Err(FlushMatchBytes(c.(curRange := None, decValue := None)).error)
  {
    if IsDigit(b) then
      var c1 :- UpdateDecValue(c, b, pos);
      Ok((c1, CurlyBraceUpper))
    else if b == '}' then
      var range :- UpperBraceRange(c);
      var c1 :- FlushMatchBytes(c.(curRange := None, decValue := None));
      var c2 :- PushPattern(c1, ByteRange(range));
      Ok((c2, State.HighNyble))
    else Err(UnexpectedChar(CurlyBraceRange, Util.Absolute(pos), b))
  }

  /**
   * `BracketLower`: digits of the lower bound, at most 32; `-` moves to the
   * upper bound and `]` closes `[n]`, whose upper bound is then `n`.
   */
  function StepBracketLower(c: Ctx, pos: nat, b: Byte): (r: Result<(Ctx, State), BodySigParseError>)
  {
    if IsDigit(b) then
      var c1 :- UpdateDecValue(c, b, pos);
      Ok((c1, BracketLower))
    else if b == '-' || b == ']' then
      var c1 :- BracketLowerBound(c, pos, b);
      if b == ']' then
        var c2 :- HandleAnchoredByteRange(c1, pos);
        Ok((c2, State.HighNyble))
      else Ok((c1, BracketUpper))
    else Err(BracketRangeUnexpectedChar(Util.Absolute(pos), b))
  }

  /**
   * The first half of `-` or `]` in `BracketLower`: a lower bound above 32
   * is an error, a missing one is an error before `-` and an empty range
   * before `]`.
   */
  function BracketLowerBound(c: Ctx, pos: nat, b: Byte): (r: Result<Ctx, BodySigParseError>)
    ensures c.decValue.Some? && c.decValue.value > ANCHORED_BYTE_RANGE_MAX ==>
      r == Err(AnchoredByteInvalidLowerBound(Util.Absolute(c.leftBracketPos), c.decValue.value))
    ensures c.decValue.Some? && c.decValue.value <= ANCHORED_BYTE_RANGE_MAX ==>
      r == Ok(c.(decValue := None, curRange := Some(Util.From(c.decValue.value))))
    ensures c.decValue.None? && b == '-' ==> r == Err(BracketRangeMissingLowerBound(Util.Absolute(c.leftBracketPos)))
  {
    match c.decValue
    case Some(n) =>
      if n > ANCHORED_BYTE_RANGE_MAX then Err(AnchoredByteInvalidLowerBound(Util.Absolute(c.leftBracketPos), n))
      else Ok(c.(decValue := None, curRange := Some(Util.From(n))))
    case None =>
      if b == '-' then Err(BracketRangeMissingLowerBound(Util.Absolute(c.leftBracketPos)))
      else HandleAnchoredByteRange(c, pos)
  }

  /** `BracketUpper`: digits of the upper bound until `]`. */
  function StepBracketUpper(c: Ctx, pos: nat, b: Byte): (r: Result<(Ctx, State), BodySigParseError>)
  {
    if IsDigit(b) then
      var c1 :- UpdateDecValue(c, b, pos);
      Ok((c1, BracketUpper))
    else if b == ']' then
      var c1 :- HandleAnchoredByteRange(c, pos);
      Ok((c1, State.HighNyble))
    else Err(BracketRangeUnexpectedChar(Util.Absolute(pos), b))
  }

  /** `Negate`: only `(` may follow `!`; it opens a negated group. */
  function StepNegate(c: Ctx, pos: nat, b: Byte): (r: Result<(Ctx, State), BodySigParseError>)
    ensures r.Ok? <==> b == '('
    ensures r.Ok? ==> r.value == (c.(leftParenPos := pos, negated := true, paren := Some(NewParen(pos))), State.HighNyble)
    ensures r.Err? ==> r.error == NegateUnexpectedChar(Util.Absolute(pos), b)
  {
    if b == '(' then Ok((c.(leftParenPos := pos, negated := true, paren := Some(NewParen(pos))), State.HighNyble))
    else Err(NegateUnexpectedChar(Util.Absolute(pos), b))
  }

  /** `CharacterClass`: the class letter must be followed by `)`. */
  function StepCharacterClass(c: Ctx, pos: nat, b: Byte): (r: Result<(Ctx, State), BodySigParseError>)
    requires c.paren.Some?
    ensures r.Ok? <==> b == ')'
    ensures r.Ok? ==> r.value == (HandleCcClose(c), State.HighNyble)
    ensures r.Err? ==> r.error == CharClassExpectCloseParen(Util.Absolute(pos), b)
  {
    if b == ')' then Ok((HandleCcClose(c), State.HighNyble))
    else Err(CharClassExpectCloseParen(Util.Absolute(pos), b))
  }

  /** The state is `InCharacterClass` only inside parentheses. */
  predicate Consistent(c: Ctx, st: State)
  {
    st == InCharacterClass ==> c.paren.Some?
  }

  /** One byte of input, at position `pos`, in state `st`. */
  function Step(c: Ctx, st: State, pos: nat, b: Byte): (r: Result<(Ctx, State), BodySigParseError>)
    requires Consistent(c, st)
    ensures r.Ok? ==> Consistent(r.value.0, r.value.1)
  {
    match st
    case HighNyble => StepHighNyble(c, pos, b)
    case LowNyble => StepLowNyble(c, pos, b)
    case CurlyBraceLower => StepCurlyBraceLower(c, pos, b)
    case CurlyBraceUpper => StepCurlyBraceUpper(c, pos, b)
    case BracketLower => StepBracketLower(c, pos, b)
    case BracketUpper => StepBracketUpper(c, pos, b)
    case Negate => StepNegate(c, pos, b)
    case InCharacterClass => StepCharacterClass(c, pos, b)
  }

  /** The machine's context and state after the bytes of `value` from index `i` on. */
  function RunFrom(c: Ctx, st: State, value: Bytes, i: nat): (r: Result<(Ctx, State), BodySigParseError>)
    requires i <= |value| && Consistent(c, st)
    ensures r.Ok? ==> Consistent(r.value.0, r.value.1)
    decreases |value| - i
  {
    if i == |value| then Ok((c, st))
    else
      var next :- Step(c, st, i, value[i]);
      RunFrom(next.0, next.1, value, i + 1)
  }

  /** The end-of-input checks on a well-formed pattern list. */
  function FinalPatterns(c: Ctx): (r: Result<seq<Pattern>, BodySigParseError>)
    ensures r.Ok? ==> r.value == c.patterns
    ensures r.Ok? <==> |c.modifier| == 0 && |c.patterns| > 0 && !IsWildcard(c.patterns[|c.patterns| - 1])
  {
    if |c.modifier| > 0 then Err(CharClassNothingAdjacent(Util.End))
    else if |c.patterns| == 0 then Err(Empty)
    else if IsWildcard(c.patterns[|c.patterns| - 1]) then Err(TrailingUnsizedPattern(c.patterns[|c.patterns| - 1]))
    else Ok(c.patterns)
  }

  /**
   * After the last byte: only `HighNyble` may end the input; a pending
   * anchored byte is resolved and the last string flushed, and then no
   * modifier may be left over and the list must be non-empty and not end
   * with an unsized pattern.
   */
  function Finish(c: Ctx, st: State): (r: Result<seq<Pattern>, BodySigParseError>)
    ensures st == State.LowNyble ==> r == Err(ExpectingLowNyble(Util.End, None))
    ensures st == CurlyBraceLower || st == CurlyBraceUpper ==> r == Err(CurlyBraceNotClosed(Util.Absolute(c.leftBracePos)))
    ensures st == BracketLower || st == BracketUpper ==> r == Err(BracketNotClosed(Util.Absolute(c.leftBracketPos)))
    ensures st == Negate ==> r == Err(NegationTargetless)
    ensures st == InCharacterClass ==> r == Err(CharClassUnterminated(Util.Absolute(c.leftParenPos)))
    ensures r.Ok? ==> st == State.HighNyble && |r.value| > 0 && !IsWildcard(r.value[|r.value| - 1])
  {
    match st
    case HighNyble =>
      var cs :- HandleNonMatchByte(c, None);
      var c2 :- FlushMatchBytes(cs.0);
      FinalPatterns(c2)
    case LowNyble => Err(ExpectingLowNyble(Util.End, None))
    case CurlyBraceLower => Err(CurlyBraceNotClosed(Util.Absolute(c.leftBracePos)))
    case CurlyBraceUpper => Err(CurlyBraceNotClosed(Util.Absolute(c.leftBracePos)))
    case BracketLower => Err(BracketNotClosed(Util.Absolute(c.leftBracketPos)))
    case BracketUpper => Err(BracketNotClosed(Util.Absolute(c.leftBracketPos)))
    case Negate => Err(NegationTargetless)
    case InCharacterClass => Err(CharClassUnterminated(Util.Absolute(c.leftParenPos)))
  }

  /** `BodySig::try_from`: the patterns of a body signature, or the first error. */
  function Parse(value: Bytes): (r: Result<seq<Pattern>, BodySigParseError>)
  {
    var cs :- RunFrom(INIT, State.HighNyble, value, 0);
    Finish(cs.0, cs.1)
  }

  // ------------------------------------------------------- what parsing keeps

  /** Storing an exportable pattern keeps the context good. */
  lemma PushPatternGood(c: Ctx, p: Pattern)
    requires Good(c) && Exportable(p)
    ensures PushPattern(c, p).Ok? ==> Good(PushPattern(c, p).value)
  {
    if PushPattern(c, p).Ok? && |c.patterns| > 0 {
      assert PushPattern(c, p).value.patterns[0] == c.patterns[0];
    }
  }

  lemma FlushMatchBytesGood(c: Ctx)
    requires Good(c)
    ensures FlushMatchBytes(c).Ok? ==> Good(FlushMatchBytes(c).value)
  {
    if !(c.paren.Some? && c.paren.value.flushed) {
      var c1 := if c.paren.Some? then c.(paren := Some(c.paren.value.(flushed := true))) else c;
      assert Good(c1);
      if |c1.matchBytes| > 0 {
        PushPatternGood(c1, String(c1.matchBytes, c1.modifier));
      }
    }
  }

  lemma ResolvePendingGood(c: Ctx, pos: Option<nat>)
    requires Good(c)
    ensures ResolvePending(c, pos).Ok? ==> Good(ResolvePending(c, pos).value)
  {
    if ResolvePending(c, pos).Ok? && |c.patterns| > 0 {
      assert ResolvePending(c, pos).value.patterns[0] == c.patterns[0];
    }
  }

  /** A closed group is exportable: its ranges lie in its data and a fixed width is positive. */
  lemma CloseGroupGood(c: Ctx, pos: nat)
    requires Good(c)
    ensures CloseGroup(c, pos).Ok? ==> Good(CloseGroup(c, pos).value)
  {
    if c.paren.Some? && PushAlternativeString(c.paren.value, c.matchBytes, true).Ok? {
      var pa := PushAlternativeString(c.paren.value, c.matchBytes, true).value;
      var c1 := c.(paren := None, matchBytes := []);
      assert ParenWF(pa);
      if pa.isGeneric {
        PushPatternGood(c1, AlternativeStrings(Generic(pa.ranges, pa.astrData)));
      } else {
        var p := AlternativeStrings(FixedWidth(c1.negated, pa.ranges[0].1, pa.astrData));
        assert Exportable(p);
        if |c1.patterns| > 0 {
          assert (c1.patterns + [p])[0] == c1.patterns[0];
        }
      }
    }
  }

  lemma NonMatchByteCharGood(c: Ctx, pos: nat, b: Byte)
    requires Good(c)
    ensures NonMatchByteChar(c, pos, b).Ok? ==> Good(NonMatchByteChar(c, pos, b).value.0)
  {
    if b == '*' || b == '(' {
      FlushMatchBytesGood(c);
      if b == '*' && FlushMatchBytes(c).Ok? {
        PushPatternGood(FlushMatchBytes(c).value, Wildcard);
      }
    } else if b == ')' {
      CloseGroupGood(c, pos);
    }
  }

  lemma HandleNonMatchByteGood(c: Ctx, at: Option<(nat, Byte)>)
    requires Good(c)
    ensures HandleNonMatchByte(c, at).Ok? ==> Good(HandleNonMatchByte(c, at).value.0)
  {
    var pos := if at.Some? then Some(at.value.0) else None;
    ResolvePendingGood(c, pos);
    if ResolvePending(c, pos).Ok? && at.Some? {
      NonMatchByteCharGood(ResolvePending(c, pos).value, at.value.0, at.value.1);
    }
  }

  lemma StepLowNybleGood(c: Ctx, pos: nat, b: Byte)
    requires Good(c)
    ensures StepLowNyble(c, pos, b).Ok? ==> Good(StepLowNyble(c, pos, b).value.0)
  {
    FlushMatchBytesGood(c);
  }

  lemma StepHighNybleGood(c: Ctx, pos: nat, b: Byte)
    requires Good(c)
    ensures StepHighNyble(c, pos, b).Ok? ==> Good(StepHighNyble(c, pos, b).value.0)
  {
    if !IsHexDigit(b) && b != 'L' && b != 'W' && b != '?' {
      HandleNonMatchByteGood(c, Some((pos, b)));
    }
  }

  lemma StepCurlyBraceLowerGood(c: Ctx, pos: nat, b: Byte)
    requires Good(c)
    ensures StepCurlyBraceLower(c, pos, b).Ok? ==> Good(StepCurlyBraceLower(c, pos, b).value.0)
  {
    if b == '}' && c.decValue.Some? {
      var n := c.decValue.value;
      var c1 := c.(decValue := None, curRange := None);
      if n <= WILDCARD_MANY_MAX {
        PushMatchByteGood(c1, WildcardMany(ByteOf(n)), c1.leftBracePos);
      } else {
        FlushMatchBytesGood(c1);
        if FlushMatchBytes(c1).Ok? {
          PushPatternGood(FlushMatchBytes(c1).value, ByteRange(Util.Exact(n)));
        }
      }
    }
  }

  /** Storing a match byte keeps the context good. */
  lemma PushMatchByteGood(c: Ctx, mb: MatchByte, startPos: nat)
    requires Good(c)
    ensures Good(PushMatchByte(c, mb, startPos))
  {
  }

  lemma StepCurlyBraceUpperGood(c: Ctx, pos: nat, b: Byte)
    requires Good(c)
    ensures StepCurlyBraceUpper(c, pos, b).Ok? ==> Good(StepCurlyBraceUpper(c, pos, b).value.0)
  {
    if b == '}' && UpperBraceRange(c).Ok? {
      var c1 := c.(decValue := None, curRange := None);
      FlushMatchBytesGood(c1);
      if FlushMatchBytes(c1).Ok? {
        PushPatternGood(FlushMatchBytes(c1).value, ByteRange(UpperBraceRange(c).value));
      }
    }
  }

  /** Every step keeps the context good. */
  lemma StepGood(c: Ctx, st: State, pos: nat, b: Byte)
    requires Good(c) && Consistent(c, st)
    ensures Step(c, st, pos, b).Ok? ==> Good(Step(c, st, pos, b).value.0)
  {
    match st
    case HighNyble => StepHighNybleGood(c, pos, b);
    case LowNyble => StepLowNybleGood(c, pos, b);
    case CurlyBraceLower => StepCurlyBraceLowerGood(c, pos, b);
    case CurlyBraceUpper => StepCurlyBraceUpperGood(c, pos, b);
    case _ =>
  }

  lemma {:induction false} RunFromGood(c: Ctx, st: State, value: Bytes, i: nat)
    requires i <= |value| && Consistent(c, st) && Good(c)
    ensures RunFrom(c, st, value, i).Ok? ==> Good(RunFrom(c, st, value, i).value.0)
    decreases |value| - i
  {
    if i < |value| {
      StepGood(c, st, i, value[i]);
      var next := Step(c, st, i, value[i]);
      if next.Ok? {
        RunFromGood(next.value.0, next.value.1, value, i + 1);
      }
    }
  }

  /**
   * A body signature that parses is a non-empty list of exportable
   * patterns that neither begins nor ends with an unsized pattern.
   */
  lemma ParseShape(value: Bytes)
    requires Parse(value).Ok?
    ensures |Parse(value).value| > 0
    ensures !IsWildcard(Parse(value).value[0])
    ensures !IsWildcard(Parse(value).value[|Parse(value).value| - 1])
    ensures AllExportable(Parse(value).value)
  {
    RunFromGood(INIT, State.HighNyble, value, 0);
    var cs := RunFrom(INIT, State.HighNyble, value, 0).value;
    assert cs.1 == State.HighNyble;
    HandleNonMatchByteGood(cs.0, None);
    var c1 := HandleNonMatchByte(cs.0, None).value.0;
    FlushMatchBytesGood(c1);
  }

  // ------------------------------------------------------------ plain hex

  /** The context after the hex text of `b[..k]`. */
  function HexCtx(b: Bytes, k: nat): Ctx
    requires k <= |b|
  {
    INIT.(curByte := if k == 0 then 0 as char else b[k - 1],
          matchBytes := FromBytes(b[..k]),
          staticRange := if k == 0 then None else Some((0, k)))
  }

  /** Two steps that both succeed can be taken before the rest of the run. */
  lemma RunTwo(c: Ctx, st: State, value: Bytes, i: nat, mid: (Ctx, State), next: (Ctx, State))
    requires i + 2 <= |value| && Consistent(c, st) && Consistent(mid.0, mid.1)
    requires Step(c, st, i, value[i]) == Ok(mid)
    requires Step(mid.0, mid.1, i + 1, value[i + 1]) == Ok(next)
    ensures Consistent(next.0, next.1)
    ensures RunFrom(c, st, value, i) == RunFrom(next.0, next.1, value, i + 2)
  {
  }

  /** A run over `v + w` first runs over `v`, and stops there if that fails. */
  lemma {:induction false} RunPrefix(c: Ctx, st: State, v: Bytes, w: Bytes, i: nat)
    requires i <= |v| && Consistent(c, st)
    ensures RunFrom(c, st, v, i).Err? ==> RunFrom(c, st, v + w, i) == RunFrom(c, st, v, i)
    ensures RunFrom(c, st, v, i).Ok? ==>
      RunFrom(c, st, v + w, i) == RunFrom(RunFrom(c, st, v, i).value.0, RunFrom(c, st, v, i).value.1, v + w, |v|)
    decreases |v| - i
  {
    if i < |v| {
      assert (v + w)[i] == v[i];
      var r := Step(c, st, i, v[i]);
      if r.Ok? {
        RunPrefix(r.value.0, r.value.1, v, w, i + 1);
      }
    }
  }

  /** Outside parentheses a hex digit in `HighNyble` starts a full byte. */
  lemma HexHigh(c: Ctx, pos: nat, h: Byte)
    requires IsHexDigit(h) && c.paren.None?
    ensures Step(c, State.HighNyble, pos, h) == Ok((c.(mask := MaskNone, curByte := ByteOf(Util.HexNyble(h, true))), State.LowNyble))
  {
  }

  /** Outside parentheses a hex digit in `LowNyble` completes the byte and stores it. */
  lemma HexLow(c: Ctx, pos: nat, l: Byte)
    requires IsHexDigit(l) && c.paren.None? && c.mask == MaskNone
    ensures Step(c, State.LowNyble, pos, l)
         == Ok((PushMatchByte(c.(curByte := ByteOf(Bits.OrByte(c.curByte as int, Util.HexNyble(l, false)))),
                              Full(ByteOf(Bits.OrByte(c.curByte as int, Util.HexNyble(l, false)))), PosSub(pos, 1)),
                State.HighNyble))
  {
  }

  /** The two hex digits of a byte, read as high and low nyble and OR-ed, give the byte. */
  lemma HexDigitsByte(x: Byte)
    ensures ByteOf(Bits.OrByte(ByteOf(Util.HexNyble(Hex.Hex2(x)[0], true)) as int, Util.HexNyble(Hex.Hex2(x)[1], false))) == x
  {
    var h, l := Hex.Hex2(x)[0], Hex.Hex2(x)[1];
    Bits.OrNybles(HexVal(h), HexVal(l));
  }

  /** Storing byte `k` of `b` after the first `k` gives the context after `k + 1`. */
  lemma HexCtxPush(b: Bytes, k: nat, c: Ctx)
    requires k < |b| && c == HexCtx(b, k).(mask := MaskNone, curByte := b[k])
    ensures PushMatchByte(c, Full(b[k]), 2 * k) == HexCtx(b, k + 1)
  {
    assert FromBytes(b[..k]) + [Full(b[k])] == FromBytes(b[..k + 1]);
  }

  /** Two hex digits add one full byte to the current string. */
  lemma HexPair(b: Bytes, k: nat, i: nat)
    requires k < |b| && i == 2 * k
    ensures RunFrom(HexCtx(b, k), State.HighNyble, Hex.Encode(b), i)
         == RunFrom(HexCtx(b, k + 1), State.HighNyble, Hex.Encode(b), i + 2)
  {
    var e := Hex.Encode(b);
    Hex.EncodeAt(b, k);
    var h, l := e[i], e[i + 1];
    var c := HexCtx(b, k);
    var c1 := c.(mask := MaskNone, curByte := ByteOf(Util.HexNyble(h, true)));
    HexHigh(c, i, h);
    HexLow(c1, i + 1, l);
    HexDigitsByte(b[k]);
    HexCtxPush(b, k, c1.(curByte := b[k]));
    RunTwo(c, State.HighNyble, e, i, (c1, State.LowNyble), (HexCtx(b, k + 1), State.HighNyble));
  }

  lemma {:induction false} HexRun(b: Bytes, k: nat, i: nat)
    requires k <= |b| && i == 2 * k
    ensures RunFrom(HexCtx(b, k), State.HighNyble, Hex.Encode(b), i) == Ok((HexCtx(b, |b|), State.HighNyble))
    decreases |b| - k
  {
    if k < |b| {
      HexPair(b, k, i);
      HexRun(b, k + 1, i + 2);
    }
  }

  /** At the end of the input in `HighNyble` with nothing pending, the last string is flushed. */
  lemma FinishPlain(c: Ctx)
    requires c.pending.None?
    ensures FlushMatchBytes(c).Err? ==> Finish(c, State.HighNyble) == Err(FlushMatchBytes(c).error)
    ensures FlushMatchBytes(c).Ok? ==> Finish(c, State.HighNyble) == FinalPatterns(FlushMatchBytes(c).value)
  {
    assert HandleNonMatchByte(c, None) == Ok((c, State.HighNyble));
  }

  /** Outside parentheses, flushing stores the match bytes as a string with the pending flags. */
  lemma FlushPlain(c: Ctx)
    requires c.paren.None? && |c.matchBytes| > 0
    ensures FlushMatchBytes(c) == (var c2 :- PushPattern(c, String(c.matchBytes, c.modifier)); Ok(c2.(matchBytes := [], modifier := {})))
  {
  }

  /** The end of the input after plain hex text. */
  lemma FinishHex(b: Bytes)
    requires |b| <= USIZE_MAX
    ensures |b| == 0 ==> Finish(HexCtx(b, |b|), State.HighNyble) == Err(Empty)
    ensures |b| == 1 ==> Finish(HexCtx(b, |b|), State.HighNyble) == Err(MinStaticBytes(Util.Absolute(0)))
    ensures |b| >= 2 ==> Finish(HexCtx(b, |b|), State.HighNyble) == Ok([String(FromBytes(b), {})])
  {
    assert b[..|b|] == b;
    var cn := HexCtx(b, |b|);
    FinishPlain(cn);
    if |b| == 0 {
      assert FlushMatchBytes(cn) == Ok(cn);
    } else {
      FlushPlain(cn);
      UsizeSubExact(|b|, 0);
      var p := String(FromBytes(b), {});
      if |b| >= 2 {
        assert FlushStaticRange(cn).staticRanges == [(0, |b|)];
        assert cn.matchBytes == FromBytes(b) && cn.modifier == {} && cn.patterns == [];
        var c2 := PushPattern(cn, p).value.(matchBytes := [], modifier := {});
        assert c2.patterns == [p];
        assert FlushMatchBytes(cn) == Ok(c2);
        assert FinalPatterns(c2) == Ok([p]);
      } else {
        assert FlushStaticRange(cn).staticRanges == [];
        assert PushPattern(cn, p) == Err(MinStaticBytes(Util.Absolute(0)));
        assert FlushMatchBytes(cn) == Err(MinStaticBytes(Util.Absolute(0)));
      }
    }
  }

  /**
   * Plain hex text parses as one string of full bytes; one byte is too few
   * static bytes and no bytes is an empty signature.
   */
  lemma ParseHex(b: Bytes)
    requires |b| <= USIZE_MAX
    ensures |b| == 0 ==> Parse(Hex.Encode(b)) == Err(Empty)
    ensures |b| == 1 ==> Parse(Hex.Encode(b)) == Err(MinStaticBytes(Util.Absolute(0)))
    ensures |b| >= 2 ==> Parse(Hex.Encode(b)) == Ok([String(FromBytes(b), {})])
  {
    assert HexCtx(b, 0) == INIT;
    HexRun(b, 0, 0);
    FinishHex(b);
  }

  // ------------------------------------------------------------- findings

  /**
   * `flush_match_bytes().unwrap()` as the source writes it after `*`, after a
   * `{n-m}` range and before the first byte inside parentheses: `None`
   * stands for the panic when the flush fails.
   */
  function FlushUnwrapped(c: Ctx): (r: Option<Ctx>)
    ensures r.None? <==> FlushMatchBytes(c).Err?
    ensures r.Some? ==> r.value == FlushMatchBytes(c).value
  {
    match FlushMatchBytes(c)
    case Ok(c1) => Some(c1)
    case Err(_) => None
  }

  /**
   * After `a?` the current string has no static byte, so the flush that `*`
   * performs fails: the source panics on `a?*`, where the model reports
   * `MinStaticBytes` at the string's start.
   */
  lemma WildcardAfterNybleOnly(v: Bytes)
    requires v == "a?"
    ensures RunFrom(INIT, State.HighNyble, v, 0).Ok?
    ensures FlushUnwrapped(RunFrom(INIT, State.HighNyble, v, 0).value.0) == None
    ensures Parse(v + "*") == Err(MinStaticBytes(Util.Absolute(0)))
  {
    var c1 := HighDigitStep(INIT, 0, 'a');
    RunStep(INIT, State.HighNyble, v, 0, c1, State.LowNyble);
    var c2 := FirstNybleStep(c1, 1);
    RunStep(c1, State.LowNyble, v, 1, c2, State.HighNyble);
    assert RunFrom(c2, State.HighNyble, v, 2) == Ok((c2, State.HighNyble));
    ShortStringFlushFails(c2);
    ParseStopsAfter(v, "*", MinStaticBytes(Util.Absolute(0)));
  }

  /** A run that gets through `v` and fails on the next byte makes the parse fail with that error. */
  lemma ParseStopsAfter(v: Bytes, w: Bytes, e: BodySigParseError)
    requires |w| > 0 && RunFrom(INIT, State.HighNyble, v, 0).Ok?
    requires Step(RunFrom(INIT, State.HighNyble, v, 0).value.0, RunFrom(INIT, State.HighNyble, v, 0).value.1, |v|, w[0]) == Err(e)
    ensures Parse(v + w) == Err(e)
  {
    var x := RunFrom(INIT, State.HighNyble, v, 0).value;
    assert RunFrom(INIT, State.HighNyble, v + w, 0) == Err(e) by {
      RunPrefix(INIT, State.HighNyble, v, w, 0);
      assert (v + w)[|v|] == w[0];
      RunStopsAt(x.0, x.1, v + w, |v|, e);
    }
    ParseOfFailedRun(v + w, e);
  }

  /** A run that fails makes the parse fail with its error. */
  lemma ParseOfFailedRun(value: Bytes, e: BodySigParseError)
    requires RunFrom(INIT, State.HighNyble, value, 0) == Err(e)
    ensures Parse(value) == Err(e)
  {
  }

  /** A run whose step at `i` fails ends with that step's error. */
  lemma RunStopsAt(c: Ctx, st: State, value: Bytes, i: nat, e: BodySigParseError)
    requires i < |value| && Consistent(c, st) && Step(c, st, i, value[i]) == Err(e)
    ensures RunFrom(c, st, value, i) == Err(e)
  {
  }

  /** A step that succeeds hands the run on to the next byte. */
  lemma RunStep(c: Ctx, st: State, value: Bytes, i: nat, c1: Ctx, st1: State)
    requires i < |value| && Consistent(c, st) && Step(c, st, i, value[i]) == Ok((c1, st1))
    ensures Consistent(c1, st1) && RunFrom(c, st, value, i) == RunFrom(c1, st1, value, i + 1)
  {
  }

  /** A hex digit other than `B` in `HighNyble` is the high half of the current byte. */
  lemma HighDigitStep(c: Ctx, pos: nat, b: Byte) returns (c1: Ctx)
    requires IsHexDigit(b) && b != 'B'
    ensures c1 == c.(mask := MaskNone, curByte := ByteOf(Util.HexNyble(b, true)))
    ensures Step(c, State.HighNyble, pos, b) == Ok((c1, State.LowNyble))
  {
    c1 := c.(mask := MaskNone, curByte := ByteOf(Util.HexNyble(b, true)));
  }

  /** The second digit of the first byte of a string outside parentheses starts a run of static bytes. */
  lemma FirstByteStep(c: Ctx, pos: nat, b: Byte) returns (c1: Ctx)
    requires IsHexDigit(b) && 0 < pos
    requires c.paren.None? && c.mask == MaskNone && c.matchBytes == [] && c.staticRange.None?
    ensures c1.matchBytes == [Full(ByteOf(Bits.OrByte(c.curByte as int, Util.HexNyble(b, false))))]
    ensures c1 == c.(curByte := c1.matchBytes[0].value, matchBytesStart := pos - 1, matchBytes := c1.matchBytes,
                     staticRange := Some((0, 1)))
    ensures Step(c, State.LowNyble, pos, b) == Ok((c1, State.HighNyble))
  {
    var x := ByteOf(Bits.OrByte(c.curByte as int, Util.HexNyble(b, false)));
    c1 := c.(curByte := x, matchBytesStart := pos - 1, matchBytes := [Full(x)], staticRange := Some((0, 1)));
    assert FlushInParen(c) == Ok(c);
    var d := c.(curByte := x);
    assert MaskedByte(d) == Full(x);
    assert PushMatchByte(d, Full(x), PosSub(pos, 1)) == c1;
  }

  /** A hex digit completing a later byte of a string outside parentheses extends its static run. */
  lemma NextByteStep(c: Ctx, pos: nat, b: Byte) returns (c1: Ctx)
    requires IsHexDigit(b) && c.paren.None? && c.mask == MaskNone && |c.matchBytes| > 0 && c.staticRange.Some?
    ensures var x := ByteOf(Bits.OrByte(c.curByte as int, Util.HexNyble(b, false)));
      c1 == c.(curByte := x, matchBytes := c.matchBytes + [Full(x)],
               staticRange := Some((c.staticRange.value.0, |c.matchBytes| + 1)))
    ensures Step(c, State.LowNyble, pos, b) == Ok((c1, State.HighNyble))
  {
    var x := ByteOf(Bits.OrByte(c.curByte as int, Util.HexNyble(b, false)));
    c1 := c.(curByte := x, matchBytes := c.matchBytes + [Full(x)],
             staticRange := Some((c.staticRange.value.0, |c.matchBytes| + 1)));
    assert FlushInParen(c) == Ok(c);
    var d := c.(curByte := x);
    assert MaskedByte(d) == Full(x);
    assert PushMatchByte(d, Full(x), PosSub(pos, 1)) == c1;
  }

  /** `?` as the second digit of the first byte of a string outside parentheses leaves no static byte. */
  lemma FirstNybleStep(c: Ctx, pos: nat) returns (c1: Ctx)
    requires 0 < pos && c.paren.None? && c.mask == MaskNone && c.matchBytes == [] && c.staticRange.None?
    ensures c1 == c.(mask := MaskLow, matchBytesStart := pos - 1, matchBytes := [MatchByte.HighNyble(c.curByte)])
    ensures Step(c, State.LowNyble, pos, '?') == Ok((c1, State.HighNyble))
  {
    c1 := c.(mask := MaskLow, matchBytesStart := pos - 1, matchBytes := [MatchByte.HighNyble(c.curByte)]);
    var d := c.(mask := MaskLow);
    assert MaskedByte(d) == MatchByte.HighNyble(c.curByte);
    assert PushMatchByte(d, MatchByte.HighNyble(c.curByte), PosSub(pos, 1)) == c1;
  }

  /** `!` in `HighNyble`, with no anchored byte pending, only moves to `Negate`. */
  lemma NegateStep(c: Ctx, pos: nat)
    requires c.pending.None?
    ensures Step(c, State.HighNyble, pos, '!') == Ok((c, Negate))
  {
  }

  /** `(` after `!` opens a negated group. */
  lemma NegatedParenStep(c: Ctx, pos: nat) returns (c1: Ctx)
    ensures c1 == c.(leftParenPos := pos, negated := true, paren := Some(NewParen(pos)))
    ensures Step(c, Negate, pos, '(') == Ok((c1, State.HighNyble))
  {
    c1 := c.(leftParenPos := pos, negated := true, paren := Some(NewParen(pos)));
  }

  /** `{` in `HighNyble`, with no anchored byte pending, opens a brace range. */
  lemma BraceStep(c: Ctx, pos: nat) returns (c1: Ctx)
    requires c.pending.None?
    ensures c1 == c.(leftBracePos := pos, decValue := None)
    ensures Step(c, State.HighNyble, pos, '{') == Ok((c1, CurlyBraceLower))
  {
    c1 := c.(leftBracePos := pos, decValue := None);
  }

  /** The first digit of a brace's lower bound. */
  lemma BraceDigitStep(c: Ctx, pos: nat, b: Byte) returns (c1: Ctx)
    requires IsDigit(b) && c.decValue.None?
    ensures c1 == c.(decValue := Some(DigitVal(b)))
    ensures Step(c, CurlyBraceLower, pos, b) == Ok((c1, CurlyBraceLower))
  {
    c1 := c.(decValue := Some(DigitVal(b)));
  }

  /** `-` after a brace's lower bound starts the open range from it. */
  lemma BraceDashStep(c: Ctx, pos: nat) returns (c1: Ctx)
    requires c.decValue.Some?
    ensures c1 == c.(curRange := Some(Util.From(c.decValue.value)), decValue := None)
    ensures Step(c, CurlyBraceLower, pos, '-') == Ok((c1, CurlyBraceUpper))
  {
    c1 := c.(curRange := Some(Util.From(c.decValue.value)), decValue := None);
  }

  /**
   * The first flush of a string with no run of static bytes, or with one
   * of a single byte, fails with `MinStaticBytes` at the string's start.
   */
  lemma ShortStringFlushFails(c: Ctx)
    requires c.paren.Some? ==> !c.paren.value.flushed
    requires |c.matchBytes| > 0 && (c.staticRange.None? || c.staticRange == Some((0, 1))) && c.staticRanges == []
    ensures FlushMatchBytes(c) == Err(MinStaticBytes(Util.Absolute(c.matchBytesStart)))
  {
  }

  /** Inside parentheses a byte's second digit fails when the flush before it does. */
  lemma LowNybleFlushFails(c: Ctx, pos: nat, b: Byte)
    requires Consistent(c, State.LowNyble) && c.paren.Some? && FlushMatchBytes(c).Err?
    requires IsHexDigit(b) || b == '?'
    ensures Step(c, State.LowNyble, pos, b) == Err(FlushMatchBytes(c).error)
  {
  }

  /** After a first byte `aa` the string holds one static byte and the machine waits for the next byte. */
  lemma FullBytePrefix(v: Bytes) returns (c2: Ctx)
    requires 2 <= |v| && v[0] == 'a' && v[1] == 'a'
    ensures c2.paren.None? && c2.pending.None? && c2.matchBytesStart == 0 && |c2.matchBytes| == 1
    ensures c2.staticRange == Some((0, 1)) && c2.staticRanges == [] && c2.decValue.None?
    ensures RunFrom(INIT, State.HighNyble, v, 0) == RunFrom(c2, State.HighNyble, v, 2)
  {
    var c1 := HighDigitStep(INIT, 0, 'a');
    RunStep(INIT, State.HighNyble, v, 0, c1, State.LowNyble);
    c2 := FirstByteStep(c1, 1, 'a');
    RunStep(c1, State.LowNyble, v, 1, c2, State.HighNyble);
  }

  /**
   * After `aa!(b` the bytes before the group are still unflushed (a
   * negation does not flush), and the string `aa` has a single static
   * byte, so the flush before the group's first byte fails.
   */
  lemma NegatedGroupPrefix(v: Bytes)
    requires v == "aa!(b"
    ensures RunFrom(INIT, State.HighNyble, v, 0).Ok?
    ensures RunFrom(INIT, State.HighNyble, v, 0).value.1 == State.LowNyble
    ensures RunFrom(INIT, State.HighNyble, v, 0).value.0.paren.Some?
    ensures FlushMatchBytes(RunFrom(INIT, State.HighNyble, v, 0).value.0) == Err(MinStaticBytes(Util.Absolute(0)))
  {
    var c2 := FullBytePrefix(v);
    NegateStep(c2, 2);
    RunStep(c2, State.HighNyble, v, 2, c2, Negate);
    var c4 := NegatedParenStep(c2, 3);
    RunStep(c2, Negate, v, 3, c4, State.HighNyble);
    var c5 := HighDigitStep(c4, 4, 'b');
    RunStep(c4, State.HighNyble, v, 4, c5, State.LowNyble);
    assert RunFrom(c5, State.LowNyble, v, 5) == Ok((c5, State.LowNyble));
    ShortStringFlushFails(c5);
  }

  /**
   * The source panics on `aa!(bb|cc)`, and on every text that starts with
   * `aa!(bb`, in the unwrapped flush before the group's first byte, where
   * the model reports `MinStaticBytes`.
   */
  lemma FirstByteInNegatedGroup(v: Bytes, rest: Bytes)
    requires v == "aa!(b"
    ensures RunFrom(INIT, State.HighNyble, v, 0).Ok? && FlushUnwrapped(RunFrom(INIT, State.HighNyble, v, 0).value.0) == None
    ensures Parse(v + "b" + rest) == Err(MinStaticBytes(Util.Absolute(0)))
  {
    NegatedGroupPrefix(v);
    var x := RunFrom(INIT, State.HighNyble, v, 0).value;
    LowNybleFlushFails(x.0, 5, 'b');
    ParseStopsAfter(v, "b" + rest, MinStaticBytes(Util.Absolute(0)));
    assert v + ("b" + rest) == v + "b" + rest;
  }

  /** The same unwrapped flush when the group's first byte ends in `?`, as in `aa!(b?|cc)`. */
  lemma FirstNybleInNegatedGroup(v: Bytes, rest: Bytes)
    requires v == "aa!(b"
    ensures RunFrom(INIT, State.HighNyble, v, 0).Ok? && FlushUnwrapped(RunFrom(INIT, State.HighNyble, v, 0).value.0) == None
    ensures Parse(v + "?" + rest) == Err(MinStaticBytes(Util.Absolute(0)))
  {
    NegatedGroupPrefix(v);
    var x := RunFrom(INIT, State.HighNyble, v, 0).value;
    LowNybleFlushFails(x.0, 5, '?');
    ParseStopsAfter(v, "?" + rest, MinStaticBytes(Util.Absolute(0)));
    assert v + ("?" + rest) == v + "?" + rest;
  }

  /** After `aa{5-` the brace holds `From(5)` and the one-byte string `aa` is unflushed. */
  lemma OpenRangePrefix(v: Bytes)
    requires v == "aa{5-"
    ensures RunFrom(INIT, State.HighNyble, v, 0).Ok?
    ensures RunFrom(INIT, State.HighNyble, v, 0).value.1 == CurlyBraceUpper
    ensures UpperBraceRange(RunFrom(INIT, State.HighNyble, v, 0).value.0) == Ok(Util.From(5))
    ensures FlushMatchBytes(RunFrom(INIT, State.HighNyble, v, 0).value.0.(curRange := None, decValue := None)) ==
      Err(MinStaticBytes(Util.Absolute(0)))
  {
    var c5 := OpenRangeRun(v);
    ShortStringFlushFails(c5.(curRange := None, decValue := None));
  }

  /** The run over `aa{5-`, byte by byte. */
  lemma OpenRangeRun(v: Bytes) returns (c5: Ctx)
    requires v == "aa{5-"
    ensures RunFrom(INIT, State.HighNyble, v, 0) == Ok((c5, CurlyBraceUpper))
    ensures c5.curRange == Some(Util.From(5)) && c5.decValue.None?
    ensures c5.paren.None? && c5.matchBytesStart == 0 && |c5.matchBytes| == 1
    ensures c5.staticRange == Some((0, 1)) && c5.staticRanges == []
  {
    var c2 := FullBytePrefix(v);
    var c3 := BraceStep(c2, 2);
    RunStep(c2, State.HighNyble, v, 2, c3, CurlyBraceLower);
    var c4 := BraceDigitStep(c3, 3, '5');
    RunStep(c3, CurlyBraceLower, v, 3, c4, CurlyBraceLower);
    c5 := BraceDashStep(c4, 4);
    RunStep(c4, CurlyBraceLower, v, 4, c5, CurlyBraceUpper);
    assert RunFrom(c5, CurlyBraceUpper, v, 5) == Ok((c5, CurlyBraceUpper));
  }

  /**
   * `{5-}` after the one-byte string `aa`: the flush that closing the
   * range performs fails, so the source panics on `aa{5-}bbcc`, and on
   * every text that starts with `aa{5-}`, where the model reports
   * `MinStaticBytes`.
   */
  lemma OpenRangeAfterShortString(v: Bytes, rest: Bytes)
    requires v == "aa{5-"
    ensures RunFrom(INIT, State.HighNyble, v, 0).Ok? &&
      FlushUnwrapped(RunFrom(INIT, State.HighNyble, v, 0).value.0.(curRange := None, decValue := None)) == None
    ensures Parse(v + "}" + rest) == Err(MinStaticBytes(Util.Absolute(0)))
  {
    OpenRangePrefix(v);
    var x := RunFrom(INIT, State.HighNyble, v, 0).value;
    assert Step(x.0, x.1, 5, '}') == Err(MinStaticBytes(Util.Absolute(0)));
    ParseStopsAfter(v, "}" + rest, MinStaticBytes(Util.Absolute(0)));
    assert v + ("}" + rest) == v + "}" + rest;
  }

  /**
   * `handle_cc_close` as the source writes it: it unwraps the open
   * parenthesis, and `None` stands for the panic when there is none.
   */
  function HandleCcCloseAsWritten(c: Ctx): (r: Option<Ctx>)
    ensures r.None? <==> c.paren.None?
    ensures r.Some? ==> r.value == HandleCcClose(c)
  {
    if c.paren.None? then None else Some(HandleCcClose(c))
  }

  /**
   * A `)` after a single hex digit outside parentheses reaches
   * `handle_cc_close` with no open parenthesis: the source panics on `0)`,
   * where the model reports the `)` as an unexpected low nyble.
   */
  lemma CloseParenAfterHighNyble()
    ensures RunFrom(INIT, State.HighNyble, "0", 0).Ok?
    ensures RunFrom(INIT, State.HighNyble, "0", 0).value.1 == State.LowNyble
    ensures HandleCcCloseAsWritten(RunFrom(INIT, State.HighNyble, "0", 0).value.0) == None
    ensures Parse("0)") == Err(ExpectingLowNyble(Util.Absolute(1), Some(')')))
  {
  }

  /** An empty body signature is `Empty`. */
  lemma ParseEmpty()
    ensures Parse([]) == Err(Empty)
  {
  }

  /** A signature may not start with `*`. */
  lemma LeadingStarRefused()
    ensures Parse("*aabb") == Err(LeadingWildcard(Wildcard))
  {
    assert Step(INIT, State.HighNyble, 0, '*') == Err(LeadingWildcard(Wildcard));
  }

  /** `{}` has no bound at all. */
  lemma EmptyBracesRefused(v: Bytes)
    requires v == "aabb{}"
    ensures Parse(v) == Err(EmptyBraces(Util.Absolute(4)))
  {
    var c2 := FullBytePrefix(v);
    var c3 := HighDigitStep(c2, 2, 'b');
    RunStep(c2, State.HighNyble, v, 2, c3, State.LowNyble);
    var c4 := NextByteStep(c3, 3, 'b');
    RunStep(c3, State.LowNyble, v, 3, c4, State.HighNyble);
    var c5 := BraceStep(c4, 4);
    RunStep(c4, State.HighNyble, v, 4, c5, CurlyBraceLower);
    assert RunFrom(c5, CurlyBraceLower, v, 5) == Err(EmptyBraces(Util.Absolute(4)));
  }
}
