/**
 * The body-signature parser of src/signature/bodysig/parse.rs as the source
 * writes it: a `ParseContext` object whose methods update its fields in
 * place, a `ParentheticalContext` object for an open group, and a loop over
 * the input bytes. Each method is proved to compute the function of the
 * same name in module BodySigParse, and `TryFrom` to compute `Parse`.
 */
module BodySigParser {
  import opened Wrappers
  import opened ByteStr
  import Util
  import Bits
  import opened PatternModifiers
  import opened CharClasses
  import opened Patterns
  import S = BodySigParse

  type Error = S.BodySigParseError

  /** The result of a helper that returns `Result<(), _>`, together with the value it leaves. */
  function UnitThen<T>(r: Result<(), Error>, x: T): Result<T, Error>
  {
    if r.Ok? then Ok(x) else Err(r.error)
  }

  /** The result of a helper that returns the next state, together with the context it leaves. */
  function StateThen(r: Result<S.State, Error>, c: S.Ctx): Result<(S.Ctx, S.State), Error>
  {
    if r.Ok? then Ok((c, r.value)) else Err(r.error)
  }

  /** `ParentheticalContext`: the alternatives of an open group, or the character class found in it. */
  class ParenContext {
    var startPos: nat
    var flushed: bool
    var astrData: seq<MatchByte>
    var ranges: seq<(nat, nat)>
    var isGeneric: bool
    var characterClass: Option<CharacterClass>

    /** The group as a value. */
    function Value(): S.Paren
      reads this
    {
      S.Paren(startPos, flushed, astrData, ranges, isGeneric, characterClass)
    }

    constructor (pos: nat)
      ensures Value() == S.NewParen(pos)
    {
      startPos, flushed, astrData, ranges, isGeneric, characterClass := pos, false, [], [], false, None;
    }

    /** `push_alternative_string`; the caller clears its match bytes afterwards. */
    method PushAlternativeString(matchBytes: seq<MatchByte>, isFinal: bool) returns (r: Result<(), Error>)
      modifies this
      ensures UnitThen(r, Value()) == S.PushAlternativeString(old(Value()), matchBytes, isFinal)
    {
      if |matchBytes| == 0 {
        if isFinal && |astrData| == 0 {
          return Err(S.EmptyParens(Util.Absolute(startPos)));
        } else {
          isGeneric := true;
        }
      }
      var thisRangeStart := |astrData|;
      astrData := astrData + matchBytes;
      var thisRangeEnd := |astrData|;
      if !isGeneric && |ranges| > 0 {
        if ranges[0].1 as int - ranges[0].0 as int != thisRangeEnd - thisRangeStart {
          isGeneric := true;
        }
      }
      ranges := ranges + [(thisRangeStart, thisRangeEnd)];
      r := Ok(());
    }
  }

  /** `ParseContext`, field for field. */
  class ParseContext {
    var curByte: Byte
    var mask: S.MatchMask
    var decValue: Option<nat>
    var curRange: Option<Util.Range>
    var patterns: seq<Pattern>
    var matchBytes: seq<MatchByte>
    var matchBytesStart: nat
    var staticRange: Option<(nat, nat)>
    var staticRanges: seq<(nat, nat)>
    var modifier: Flags
    var pending: Option<S.Pending>
    var paren: ParenContext?
    var negated: bool
    var leftBracketPos: nat
    var leftBracePos: nat
    var leftParenPos: nat

    /** The context as a value. */
    function Snap(): S.Ctx
      reads this, paren
    {
      S.Ctx(curByte, mask, decValue, curRange, patterns, matchBytes, matchBytesStart, staticRange,
            staticRanges, modifier, pending, if paren == null then None else Some(paren.Value()),
            negated, leftBracketPos, leftBracePos, leftParenPos)
    }

    /** `ParseContext::default()`. */
    constructor ()
      ensures Snap() == S.INIT
    {
      curByte, mask, decValue, curRange, patterns, matchBytes := 0 as char, S.MaskNone, None, None, [], [];
      matchBytesStart, staticRange, staticRanges, modifier, pending := 0, None, [], {}, None;
      paren, negated, leftBracketPos, leftBracePos, leftParenPos := null, false, 0, 0, 0;
    }

    method FlushStaticRange()
      modifies this
      ensures paren == old(paren)
      ensures Snap() == S.FlushStaticRange(old(Snap()))
    {
      if staticRange.Some? {
        var (start, end) := staticRange.value;
        staticRange := None;
        if S.UsizeSub(end, start) >= 2 {
          staticRanges := staticRanges + [(start, end)];
        }
      }
    }

    method PushPattern(p: Pattern) returns (r: Result<(), Error>)
      modifies this
      ensures paren == old(paren)
      ensures UnitThen(r, Snap()) == S.PushPattern(old(Snap()), p)
    {
      match p {
        case String(_, _) =>
          FlushStaticRange();
          if |staticRanges| == 0 {
            return Err(S.MinStaticBytes(Util.Absolute(matchBytesStart)));
          }
          staticRange := None;
          staticRanges := [];
        case AnchoredByte(_, _, _, _, _) =>
        case AlternativeStrings(FixedWidth(_, _, _)) =>
        case AlternativeStrings(Generic(_, _)) =>
          if negated {
            return Err(S.NegatedGenericAltStr(Util.Absolute(leftParenPos)));
          }
        case ByteRange(_) =>
          if |patterns| == 0 {
            return Err(S.LeadingWildcard(p));
          }
        case Wildcard =>
          if |patterns| == 0 {
            return Err(S.LeadingWildcard(p));
          }
      }
      patterns := patterns + [p];
      r := Ok(());
    }

    /** `flush_match_bytes`. */
    method FlushMatchBytes() returns (r: Result<(), Error>)
      modifies this, paren
      ensures paren == old(paren)
      ensures UnitThen(r, Snap()) == S.FlushMatchBytes(old(Snap()))
    {
      if paren != null {
        if paren.flushed {
          return Ok(());
        } else {
          paren.flushed := true;
        }
      }
      r := PushString();
    }

    /** The bytes read so far, if any, become a string pattern. */
    method PushString() returns (r: Result<(), Error>)
      modifies this, paren
      ensures paren == old(paren)
      ensures UnitThen(r, Snap()) == S.PushString(old(Snap()))
    {
      if |matchBytes| > 0 {
        var pushed := PushPattern(String(matchBytes, modifier));
        if pushed.Err? {
          return pushed;
        }
        matchBytes := [];
        modifier := {};
      }
      r := Ok(());
    }

    /** `push_matchbyte`, which cannot fail. */
    method PushMatchByte(mb: MatchByte, startPos: nat) returns (r: Result<(), Error>)
      modifies this, paren
      ensures paren == old(paren)
      ensures r.Ok? && Snap() == S.PushMatchByte(old(Snap()), mb, startPos)
    {
      if paren == null && |matchBytes| == 0 {
        matchBytesStart := startPos;
      }
      matchBytes := matchBytes + [mb];
      if paren != null {
        if !mb.Full? {
          paren.isGeneric := true;
        }
      } else if mb.Full? {
        var len := |matchBytes|;
        staticRange := Some(match staticRange
                            case None => (len - 1, len)
                            case Some((start, _)) => (start, len));
      } else {
        FlushStaticRange();
      }
      r := Ok(());
    }

    /** `update_dec_value`. */
    method UpdateDecValue(b: Byte, pos: nat) returns (r: Result<(), Error>)
      requires IsDigit(b)
      modifies this
      ensures paren == old(paren)
      ensures UnitThen(r, Snap()) == S.UpdateDecValue(old(Snap()), b, pos)
    {
      var v := (if decValue.Some? then decValue.value else 0) * 10;
      if v > S.USIZE_MAX {
        return Err(S.DecimalOverflow(Util.Absolute(pos)));
      }
      var w := v + DigitVal(b);
      if w > S.USIZE_MAX {
        return Err(S.DecimalOverflow(Util.Absolute(pos)));
      }
      decValue := Some(w);
      r := Ok(());
    }

    /** `handle_anchored_byte_range`. */
    method HandleAnchoredByteRange(pos: nat) returns (r: Result<S.State, Error>)
      modifies this
      ensures paren == old(paren)
      ensures r.Ok? ==> r.value == S.State.HighNyble
      ensures UnitThen(if r.Ok? then Ok(()) else Err(r.error), Snap()) == S.HandleAnchoredByteRange(old(Snap()), pos)
    {
      var range := curRange;
      curRange := None;
      if range.Some? && range.value.From? {
        var start := range.value.start;
        var end := if decValue.Some? then decValue.value else start;
        decValue := None;
        if !(1 <= end <= S.ANCHORED_BYTE_RANGE_MAX) || end < start {
          return Err(S.AnchoredByteInvalidUpperBound(Util.Absolute(leftBracketPos), end, start));
        }
        if |matchBytes| == 0 {
          return Err(S.AnchoredByteNoLeftBytes(Util.Absolute(pos)));
        } else if |matchBytes| == 1 {
          pending := Some(S.HaveByte(S.PosSub(leftBracketPos, 2), matchBytes[0], start, end));
          matchBytes := [];
        } else {
          pending := Some(S.HaveString(S.PosSub(leftBracketPos, |matchBytes| * 2), matchBytes, start, end));
          matchBytes := [];
        }
        r := Ok(S.State.HighNyble);
      } else {
        r := Err(S.BracketRangeEmpty(Util.Absolute(leftBracketPos)));
      }
    }

    /** `handle_cc_close`. */
    method HandleCcClose() returns (st: S.State)
      requires paren != null
      modifies this
      ensures st == S.State.HighNyble && paren == null
      ensures Snap() == S.HandleCcClose(old(Snap()))
    {
      var pa := paren;
      paren := null;
      if pa.characterClass.Some? {
        modifier := modifier + {PatternModifierOf(pa.characterClass.value, |matchBytes| == 0, negated)};
        negated := false;
      }
      st := S.State.HighNyble;
    }

    /** The first half of `handle_non_matchbyte`: a pending anchored byte is resolved. */
    method ResolvePending(pos: Option<nat>) returns (r: Result<(), Error>)
      modifies this
      ensures paren == old(paren)
      ensures UnitThen(r, Snap()) == S.ResolvePending(old(Snap()), pos)
    {
      if pending.None? {
        return Ok(());
      }
      var pend := pending.value;
      pending := None;
      match pend {
        case HaveByte(startPos, byte, lo, hi) =>
          if |matchBytes| < S.ANCHORED_BYTE_MATCH_STRING_MIN_BYTES {
            return Err(S.AnchoredByteStringTooSmall(Util.Absolute(startPos)));
          }
          var pushed := PushPattern(AnchoredByte(Left, byte, lo, hi, matchBytes));
        case HaveString(startPos, str, lo, hi) =>
          if |matchBytes| == 0 {
            return Err(S.AnchoredByteExpectingSingleByte(
              Util.Absolute(S.PosSub(leftBracketPos, |str| * 2)), Util.PositionOf(pos)));
          }
          if |matchBytes| > 1 {
            return Err(S.AnchoredByteMissingSingleByte(Util.Absolute(startPos)));
          }
          var pushed := PushPattern(AnchoredByte(Right, matchBytes[0], lo, hi, str));
      }
      matchBytes := [];
      r := Ok(());
    }

    /** `)` outside a character class: the group is taken, closed and stored. */
    method CloseGroup(pos: nat) returns (r: Result<(), Error>)
      modifies this, paren
      ensures paren == null || paren == old(paren)
      ensures UnitThen(r, Snap()) == S.CloseGroup(old(Snap()), pos)
    {
      if paren == null {
        return Err(S.UnmatchedClosingParen(Util.Absolute(pos)));
      }
      var pa := paren;
      paren := null;
      var closed := pa.PushAlternativeString(matchBytes, true);
      if closed.Err? {
        return closed;
      }
      matchBytes := [];
      r := PushGroup(pa);
    }

    /** The closed group `pa` becomes an alternative-strings pattern. */
    method PushGroup(pa: ParenContext) returns (r: Result<(), Error>)
      requires paren == null
      requires !pa.isGeneric ==> |pa.ranges| > 0
      modifies this
      ensures paren == null
      ensures UnitThen(r, Snap()) == S.PushGroup(old(Snap()), pa.Value())
    {
      if pa.isGeneric {
        var pushed := PushPattern(AlternativeStrings(Generic(pa.ranges, pa.astrData)));
        if pushed.Err? {
          return pushed;
        }
      } else {
        var pushed := PushPattern(AlternativeStrings(FixedWidth(negated, pa.ranges[0].1, pa.astrData)));
      }
      negated := false;
      r := Ok(());
    }

    /** The second half of `handle_non_matchbyte`: a byte that changes state. */
    method NonMatchByteChar(pos: nat, b: Byte) returns (r: Result<S.State, Error>)
      modifies this, paren
      ensures paren == null || paren == old(paren) || fresh(paren)
      ensures StateThen(r, Snap()) == S.NonMatchByteChar(old(Snap()), pos, b)
    {
      if b == '*' {
        r := StarChar(pos);
      } else if b == '{' {
        leftBracePos, decValue := pos, None;
        r := Ok(S.CurlyBraceLower);
      } else if b == '[' {
        leftBracketPos, decValue := pos, None;
        r := Ok(S.BracketLower);
      } else if b == '(' {
        r := OpenParenChar(pos);
      } else if b == '!' {
        r := Ok(S.Negate);
      } else if b == '|' {
        r := PipeChar(pos);
      } else if b == ')' {
        var closed := CloseGroup(pos);
        if closed.Err? {
          return Err(closed.error);
        }
        r := Ok(S.State.HighNyble);
      } else {
        r := Err(S.UnexpectedChar(S.PatternContext, Util.Absolute(pos), b));
      }
    }

    /** `*`: the bytes so far are flushed and a wildcard follows them. */
    method StarChar(pos: nat) returns (r: Result<S.State, Error>)
      modifies this, paren
      ensures paren == old(paren)
      ensures StateThen(r, Snap()) == S.NonMatchByteChar(old(Snap()), pos, '*')
    {
      var flushed := FlushMatchBytes();
      if flushed.Err? {
        return Err(flushed.error);
      }
      var pushed := PushPattern(Wildcard);
      if pushed.Err? {
        return Err(pushed.error);
      }
      r := Ok(S.State.HighNyble);
    }

    /** `(`: the bytes so far are flushed and a group opens. */
    method OpenParenChar(pos: nat) returns (r: Result<S.State, Error>)
      modifies this, paren
      ensures paren == old(paren) || fresh(paren)
      ensures StateThen(r, Snap()) == S.NonMatchByteChar(old(Snap()), pos, '(')
    {
      var flushed := FlushMatchBytes();
      if flushed.Err? {
        return Err(flushed.error);
      }
      OpenGroup(pos);
      r := Ok(S.State.HighNyble);
    }

    /** A fresh, empty group opened at `pos`. */
    method OpenGroup(pos: nat)
      modifies this
      ensures fresh(paren)
      ensures Snap() == old(Snap()).(leftParenPos := pos, paren := Some(S.NewParen(pos)))
    {
      leftParenPos := pos;
      paren := new ParenContext(pos);
    }

    /** `|`: the bytes so far become an alternative of the open group. */
    method PipeChar(pos: nat) returns (r: Result<S.State, Error>)
      modifies this, paren
      ensures paren == old(paren)
      ensures StateThen(r, Snap()) == S.NonMatchByteChar(old(Snap()), pos, '|')
    {
      if paren == null {
        return Err(S.UnexpectedPipeChar(Util.Absolute(pos)));
      }
      var pushed := paren.PushAlternativeString(matchBytes, false);
      matchBytes := [];
      r := Ok(S.State.HighNyble);
    }

    /** `handle_non_matchbyte`; `None` stands for the end of the input. */
    method HandleNonMatchByte(at: Option<(nat, Byte)>) returns (r: Result<S.State, Error>)
      modifies this, paren
      ensures paren == null || paren == old(paren) || fresh(paren)
      ensures StateThen(r, Snap()) == S.HandleNonMatchByte(old(Snap()), at)
    {
      var resolved := ResolvePending(if at.Some? then Some(at.value.0) else None);
      if resolved.Err? {
        return Err(resolved.error);
      }
      if at.None? {
        return Ok(S.State.HighNyble);
      }
      r := NonMatchByteChar(at.value.0, at.value.1);
    }

    /** The `HighNyble` arm of the loop in `try_from`. */
    method StepHighNyble(pos: nat, b: Byte) returns (r: Result<S.State, Error>)
      modifies this, paren
      ensures paren == null || paren == old(paren) || fresh(paren)
      ensures StateThen(r, Snap()) == S.StepHighNyble(old(Snap()), pos, b)
    {
      if IsHexDigit(b) {
        mask := S.MaskNone;
        curByte := ByteOf(Util.HexNyble(b, true));
        if paren != null && b == 'B' {
          paren.characterClass := Some(WordBoundary);
        }
        r := Ok(S.State.LowNyble);
      } else if b == 'L' || b == 'W' {
        if paren != null {
          paren.characterClass := Some(if b == 'L' then LineOrFileBoundary else NonAlphaChar);
          r := Ok(S.InCharacterClass);
        } else {
          r := Ok(S.State.HighNyble);
        }
      } else if b == '?' {
        curByte, mask := 0 as char, S.MaskHigh;
        r := Ok(S.State.LowNyble);
      } else {
        r := HandleNonMatchByte(Some((pos, b)));
      }
    }

    /**
     * The `LowNyble` arm: the byte is completed and pushed. A failed flush
     * inside parentheses is returned as an error, and `)` closes a
     * character class only inside parentheses.
     */
    method StepLowNyble(pos: nat, b: Byte) returns (r: Result<S.State, Error>)
      modifies this, paren
      ensures paren == null || paren == old(paren)
      ensures StateThen(r, Snap()) == S.StepLowNyble(old(Snap()), pos, b)
    {
      if IsHexDigit(b) || b == '?' {
        if paren != null {
          var flushed := FlushMatchBytes();
          if flushed.Err? {
            return Err(flushed.error);
          }
        }
        if IsHexDigit(b) {
          curByte := ByteOf(Bits.OrByte(curByte as int, Util.HexNyble(b, false)));
        } else {
          mask := if mask == S.MaskHigh then S.MaskFull else S.MaskLow;
        }
      } else if b == ')' && paren != null {
        var st := HandleCcClose();
        return Ok(st);
      } else {
        return Err(S.ExpectingLowNyble(Util.Absolute(pos), Some(b)));
      }
      var pushed := PushMatchByte(S.MaskedByte(Snap()), S.PosSub(pos, 1));
      r := Ok(S.State.HighNyble);
    }

    /** The `CurlyBraceLower` arm. */
    method StepCurlyBraceLower(pos: nat, b: Byte) returns (r: Result<S.State, Error>)
      modifies this, paren
      ensures paren == old(paren)
      ensures StateThen(r, Snap()) == S.StepCurlyBraceLower(old(Snap()), pos, b)
    {
      if IsDigit(b) {
        var updated := UpdateDecValue(b, pos);
        if updated.Err? {
          return Err(updated.error);
        }
        r := Ok(S.CurlyBraceLower);
      } else if b == '-' {
        curRange := if decValue.Some? then Some(Util.From(decValue.value)) else None;
        decValue := None;
        r := Ok(S.CurlyBraceUpper);
      } else if b == '}' {
        if decValue.None? {
          return Err(S.EmptyBraces(Util.Absolute(leftBracePos)));
        }
        var n := decValue.value;
        decValue, curRange := None, None;
        if n <= S.WILDCARD_MANY_MAX {
          var pushed := PushMatchByte(WildcardMany(ByteOf(n)), leftBracePos);
        } else {
          var flushed := FlushMatchBytes();
          if flushed.Err? {
            return Err(flushed.error);
          }
          var pushed := PushPattern(ByteRange(Util.Exact(n)));
          if pushed.Err? {
            return Err(pushed.error);
          }
        }
        r := Ok(S.State.HighNyble);
      } else {
        r := Err(S.UnexpectedChar(S.CurlyBraceRange, Util.Absolute(pos), b));
      }
    }

    /** The `CurlyBraceUpper` arm; the flush before the range is propagated. */
    method StepCurlyBraceUpper(pos: nat, b: Byte) returns (r: Result<S.State, Error>)
      modifies this, paren
      ensures paren == old(paren)
      ensures StateThen(r, Snap()) == S.StepCurlyBraceUpper(old(Snap()), pos, b)
    {
      if IsDigit(b) {
        var updated := UpdateDecValue(b, pos);
        if updated.Err? {
          return Err(updated.error);
        }
        r := Ok(S.CurlyBraceUpper);
      } else if b == '}' {
        var range := S.UpperBraceRange(Snap());
        if range.Err? {
          return Err(range.error);
        }
        curRange, decValue := None, None;
        var flushed := FlushMatchBytes();
        if flushed.Err? {
          return Err(flushed.error);
        }
        var pushed := PushPattern(ByteRange(range.value));
        if pushed.Err? {
          return Err(pushed.error);
        }
        r := Ok(S.State.HighNyble);
      } else {
        r := Err(S.UnexpectedChar(S.CurlyBraceRange, Util.Absolute(pos), b));
      }
    }

    /** The `BracketLower` arm: at `]` the anchored-byte range is handled as the source does, twice when a bound was read. */
    method StepBracketLower(pos: nat, b: Byte) returns (r: Result<S.State, Error>)
      modifies this
      ensures paren == old(paren)
      ensures StateThen(r, Snap()) == S.StepBracketLower(old(Snap()), pos, b)
    {
      if IsDigit(b) {
        var updated := UpdateDecValue(b, pos);
        if updated.Err? {
          return Err(updated.error);
        }
        r := Ok(S.BracketLower);
      } else if b == '-' || b == ']' {
        if decValue.Some? {
          var n := decValue.value;
          decValue := None;
          if n > S.ANCHORED_BYTE_RANGE_MAX {
            return Err(S.AnchoredByteInvalidLowerBound(Util.Absolute(leftBracketPos), n));
          }
          curRange := Some(Util.From(n));
          r := Ok(S.BracketUpper);
        } else if b == '-' {
          return Err(S.BracketRangeMissingLowerBound(Util.Absolute(leftBracketPos)));
        } else {
          r := HandleAnchoredByteRange(pos);
          if r.Err? {
            return;
          }
        }
        if b == ']' {
          r := HandleAnchoredByteRange(pos);
        }
      } else {
        r := Err(S.BracketRangeUnexpectedChar(Util.Absolute(pos), b));
      }
    }

    /** The `BracketUpper` arm. */
    method StepBracketUpper(pos: nat, b: Byte) returns (r: Result<S.State, Error>)
      modifies this
      ensures paren == old(paren)
      ensures StateThen(r, Snap()) == S.StepBracketUpper(old(Snap()), pos, b)
    {
      if IsDigit(b) {
        var updated := UpdateDecValue(b, pos);
        if updated.Err? {
          return Err(updated.error);
        }
        r := Ok(S.BracketUpper);
      } else if b == ']' {
        r := HandleAnchoredByteRange(pos);
      } else {
        r := Err(S.BracketRangeUnexpectedChar(Util.Absolute(pos), b));
      }
    }

    /** One pass of the loop in `try_from`: the arm of state `st` for byte `b` at `pos`. */
    method Step(st: S.State, pos: nat, b: Byte) returns (r: Result<S.State, Error>)
      requires S.Consistent(Snap(), st)
      modifies this, paren
      ensures paren == null || paren == old(paren) || fresh(paren)
      ensures StateThen(r, Snap()) == S.Step(old(Snap()), st, pos, b)
    {
      match st {
        case HighNyble => r := StepHighNyble(pos, b);
        case LowNyble => r := StepLowNyble(pos, b);
        case CurlyBraceLower => r := StepCurlyBraceLower(pos, b);
        case CurlyBraceUpper => r := StepCurlyBraceUpper(pos, b);
        case BracketLower => r := StepBracketLower(pos, b);
        case BracketUpper => r := StepBracketUpper(pos, b);
        case Negate =>
          if b == '(' {
            leftParenPos, negated := pos, true;
            paren := new ParenContext(pos);
            r := Ok(S.State.HighNyble);
          } else {
            r := Err(S.NegateUnexpectedChar(Util.Absolute(pos), b));
          }
        case InCharacterClass =>
          if b == ')' {
            var next := HandleCcClose();
            r := Ok(next);
          } else {
            r := Err(S.CharClassExpectCloseParen(Util.Absolute(pos), b));
          }
      }
    }

    /** The end-of-input checks of `try_from`, in final state `st`. */
    method Finish(st: S.State) returns (r: Result<seq<Pattern>, Error>)
      modifies this, paren
      ensures r == S.Finish(old(Snap()), st)
    {
      match st {
        case HighNyble =>
          var resolved := HandleNonMatchByte(None);
          if resolved.Err? {
            return Err(resolved.error);
          }
          var flushed := FlushMatchBytes();
          if flushed.Err? {
            return Err(flushed.error);
          }
        case LowNyble => return Err(S.ExpectingLowNyble(Util.End, None));
        case CurlyBraceLower => return Err(S.CurlyBraceNotClosed(Util.Absolute(leftBracePos)));
        case CurlyBraceUpper => return Err(S.CurlyBraceNotClosed(Util.Absolute(leftBracePos)));
        case BracketLower => return Err(S.BracketNotClosed(Util.Absolute(leftBracketPos)));
        case BracketUpper => return Err(S.BracketNotClosed(Util.Absolute(leftBracketPos)));
        case Negate => return Err(S.NegationTargetless);
        case InCharacterClass => return Err(S.CharClassUnterminated(Util.Absolute(leftParenPos)));
      }
      if |modifier| > 0 {
        return Err(S.CharClassNothingAdjacent(Util.End));
      }
      if |patterns| == 0 {
        return Err(S.Empty);
      }
      var last := patterns[|patterns| - 1];
      if IsWildcard(last) {
        return Err(S.TrailingUnsizedPattern(last));
      }
      r := Ok(patterns);
    }
  }

  /**
   * `BodySig::try_from`: a fresh context is driven byte by byte through the
   * state machine and then checked at the end; the result is exactly `Parse`.
   */
  method TryFrom(value: Bytes) returns (r: Result<seq<Pattern>, Error>)
    ensures r == S.Parse(value)
  {
    var pc := new ParseContext();
    var state := S.State.HighNyble;
    for pos := 0 to |value|
      invariant fresh(pc) && (pc.paren != null ==> fresh(pc.paren))
      invariant S.Consistent(pc.Snap(), state)
      invariant S.RunFrom(pc.Snap(), state, value, pos) == S.RunFrom(S.INIT, S.State.HighNyble, value, 0)
    {
      var next := pc.Step(state, pos, value[pos]);
      if next.Err? {
        return Err(next.error);
      }
      state := next.value;
    }
    r := pc.Finish(state);
  }
}
