/**
 * Reading an exported body signature back (src/signature/bodysig/parse.rs
 * run over the text src/signature/bodysig/pattern.rs writes). The run of
 * the parser's state machine is followed piece by piece over the export:
 * one match byte, one flag, one string, one gap, one group, one anchored
 * byte. Together they show that every body built from those pieces, as the
 * parser builds them, parses back from its own text.
 */
module BodySigReadBack {
  import opened Wrappers
  import opened ByteStr
  import opened TextAt
  import Util
  import Bits
  import Hex
  import Num
  import opened PatternModifiers
  import opened CharClasses
  import opened Patterns
  import S = BodySigParse
  import opened BodySigRuns

  // ------------------------------------------------------------ decimals

  /** The states that read a decimal number digit by digit. */
  predicate DecState(st: S.State)
  {
    st == S.State.CurlyBraceLower || st == S.State.CurlyBraceUpper ||
    st == S.State.BracketLower || st == S.State.BracketUpper
  }

  /** The decimal text of `n`, ending at `j`, read in a number state gives the value `n`. */
  lemma {:induction false} ReadDec(c: S.Ctx, st: S.State, v: Bytes, i: nat, j: nat, n: nat)
    requires DecState(st) && c.decValue.None? && n <= S.USIZE_MAX
    requires j == i + |Num.Dec(n)| && j <= |v| && v[i..j] == Num.Dec(n)
    ensures After(c, st, v, i, j) == Ok((c.(decValue := Some(n)), st))
    decreases n
  {
    if n < 10 {
      assert v[i] == v[i..j][0];
      AfterStep(c, st, v, i);
    } else {
      var k := i + |Num.Dec(n / 10)|;
      DecSplit(v, i, k, j, n);
      ReadDec(c, st, v, i, k, n / 10);
      AfterThen(c, st, v, i, k, j);
      AfterStep(c.(decValue := Some(n / 10)), st, v, k);
    }
  }

  /** The decimal text of `n`, at least 10, is that of `n / 10` up to `k` and then its last digit. */
  lemma DecSplit(v: Bytes, i: nat, k: nat, j: nat, n: nat)
    requires 10 <= n && k == i + |Num.Dec(n / 10)| && j == i + |Num.Dec(n)| && j <= |v| && v[i..j] == Num.Dec(n)
    ensures k + 1 == j && v[i..k] == Num.Dec(n / 10) && v[k] == DecimalDigit(n % 10)
  {
    var d0 := Num.Dec(n / 10);
    assert Num.Dec(n) == d0 + [DecimalDigit(n % 10)];
    assert v[i..k] == v[i..j][..|d0|];
    assert v[k] == v[i..j][|d0|];
  }

  // ------------------------------------------------------ single steps

  /** A hex digit other than `B` in `HighNyble` is the high half of a byte. */
  lemma HighDigit(c: S.Ctx, pos: nat, h: Byte)
    requires IsHexDigit(h) && h != 'B'
    ensures S.Step(c, HN, pos, h) == Ok((c.(mask := S.MaskNone, curByte := ByteOf(Util.HexNyble(h, true))), LN))
  {
  }

  /** `?` in `HighNyble` is a wildcard high half. */
  lemma HighWild(c: S.Ctx, pos: nat)
    ensures S.Step(c, HN, pos, '?') == Ok((c.(curByte := 0 as char, mask := S.MaskHigh), LN))
  {
  }

  /** A hex digit in `LowNyble` completes the byte, after the flush inside parentheses. */
  lemma LowDigit(c: S.Ctx, pos: nat, l: Byte, e: S.Ctx)
    requires IsHexDigit(l) && S.FlushInParen(c) == Ok(e)
    ensures var e2 := e.(curByte := ByteOf(Bits.OrByte(e.curByte as int, Util.HexNyble(l, false))));
      S.Step(c, LN, pos, l) == Ok((S.PushMatchByte(e2, S.MaskedByte(e2), S.PosSub(pos, 1)), HN))
  {
  }

  /** `?` in `LowNyble` completes the byte with a wildcard low half. */
  lemma LowWild(c: S.Ctx, pos: nat, e: S.Ctx)
    requires S.FlushInParen(c) == Ok(e)
    ensures var e2 := e.(mask := if e.mask == S.MaskHigh then S.MaskFull else S.MaskLow);
      S.Step(c, LN, pos, '?') == Ok((S.PushMatchByte(e2, S.MaskedByte(e2), S.PosSub(pos, 1)), HN))
  {
  }

  /** The flush inside parentheses leaves the byte being read alone. */
  lemma FlushKeepsByte(c: S.Ctx, e: S.Ctx, x: Byte, mask: S.MatchMask)
    requires S.FlushInParen(c) == Ok(e)
    ensures e.curByte == c.curByte && e.mask == c.mask
    ensures S.FlushInParen(c.(curByte := x, mask := mask)) == Ok(e.(curByte := x, mask := mask))
  {
    if c.paren.Some? && !c.paren.value.flushed {
      var c1 := c.(paren := Some(c.paren.value.(flushed := true)));
      if |c1.matchBytes| > 0 {
        var p := String(c1.matchBytes, c1.modifier);
        var d1 := c1.(curByte := x, mask := mask);
        assert S.FlushStaticRange(d1) == S.FlushStaticRange(c1).(curByte := x, mask := mask);
      }
    } else if c.paren.None? && |c.matchBytes| > 0 {
      var d := c.(curByte := x, mask := mask);
      assert S.FlushStaticRange(d) == S.FlushStaticRange(c).(curByte := x, mask := mask);
    }
  }

  // ------------------------------------------------------- match bytes

  /** What reading the text of `mb` leaves in the (flushed) context `e` just before `mb` is stored. */
  function Prepared(e: S.Ctx, mb: MatchByte, pos: nat): S.Ctx
  {
    match mb
    case Full(x) => e.(mask := S.MaskNone, curByte := x)
    case LowNyble(x) => e.(curByte := x, mask := S.MaskHigh)
    case HighNyble(x) => e.(curByte := x, mask := S.MaskLow)
    case Any => e.(curByte := 0 as char, mask := S.MaskFull)
    case WildcardMany(_) => e.(leftBracePos := pos, decValue := None, curRange := None)
  }

  /** The two hex digits of a byte store it as a full match byte. */
  lemma ReadFull(c: S.Ctx, v: Bytes, i: nat, x: Byte, e: S.Ctx)
    requires S.FlushInParen(c) == Ok(e) && i + 2 <= |v| && v[i..i + 2] == Hex.Hex2(x)
    ensures After(c, HN, v, i, i + 2) == Ok((S.PushMatchByte(Prepared(e, Full(x), i), Full(x), i), HN))
  {
    var h, l := v[i], v[i + 1];
    Within(v, i, Hex.Hex2(x), 0, 2);
    Within(v, i, Hex.Hex2(x), 1, 2);
    var hb := ByteOf(Util.HexNyble(h, true));
    var c1 := c.(mask := S.MaskNone, curByte := hb);
    HighDigit(c, i, h);
    FlushKeepsByte(c, e, hb, S.MaskNone);
    var e1 := e.(curByte := hb, mask := S.MaskNone);
    LowDigit(c1, i + 1, l, e1);
    S.HexDigitsByte(x);
    AfterStep(c, HN, v, i);
    AfterThen(c, HN, v, i, i + 1, i + 2);
    AfterStep(c1, LN, v, i + 1);
  }

  /** `?x` stores a match of the low nyble `x`. */
  lemma ReadLowNyble(c: S.Ctx, v: Bytes, i: nat, x: Byte, e: S.Ctx)
    requires S.FlushInParen(c) == Ok(e) && x as int < 16
    requires i + 2 <= |v| && v[i..i + 2] == MatchByteText(MatchByte.LowNyble(x))
    ensures After(c, HN, v, i, i + 2) ==
      Ok((S.PushMatchByte(Prepared(e, MatchByte.LowNyble(x), i), MatchByte.LowNyble(x), i), HN))
  {
    var t := MatchByteText(MatchByte.LowNyble(x));
    Within(v, i, t, 0, 2);
    Within(v, i, t, 1, 2);
    var d := v[i + 1];
    assert v[i] == '?' && IsHexDigit(d) && HexVal(d) == x as int;
    var c1 := c.(curByte := 0 as char, mask := S.MaskHigh);
    HighWild(c, i);
    FlushKeepsByte(c, e, 0 as char, S.MaskHigh);
    LowDigit(c1, i + 1, d, e.(curByte := 0 as char, mask := S.MaskHigh));
    Bits.OrNybles(0, HexVal(d));
    AfterStep(c, HN, v, i);
    AfterThen(c, HN, v, i, i + 1, i + 2);
    AfterStep(c1, LN, v, i + 1);
  }

  /** `x?` stores a match of the high nyble `x`. */
  lemma ReadHighNyble(c: S.Ctx, v: Bytes, i: nat, x: Byte, e: S.Ctx)
    requires S.FlushInParen(c) == Ok(e) && x as int % 16 == 0
    requires i + 2 <= |v| && v[i..i + 2] == MatchByteText(MatchByte.HighNyble(x))
    ensures After(c, HN, v, i, i + 2) ==
      Ok((S.PushMatchByte(Prepared(e, MatchByte.HighNyble(x), i), MatchByte.HighNyble(x), i), HN))
  {
    var t := MatchByteText(MatchByte.HighNyble(x));
    Within(v, i, t, 0, 2);
    Within(v, i, t, 1, 2);
    var h := v[i];
    assert IsHexDigit(h) && h != 'B' && HexVal(h) == x as int / 16 && v[i + 1] == '?';
    var c1 := c.(mask := S.MaskNone, curByte := ByteOf(Util.HexNyble(h, true)));
    assert c1.curByte == x;
    HighDigit(c, i, h);
    FlushKeepsByte(c, e, x, S.MaskNone);
    LowWild(c1, i + 1, e.(curByte := x, mask := S.MaskNone));
    AfterStep(c, HN, v, i);
    AfterThen(c, HN, v, i, i + 1, i + 2);
    AfterStep(c1, LN, v, i + 1);
  }

  /** `??` stores a match of any byte. */
  lemma ReadAny(c: S.Ctx, v: Bytes, i: nat, e: S.Ctx)
    requires S.FlushInParen(c) == Ok(e)
    requires i + 2 <= |v| && v[i..i + 2] == MatchByteText(Any)
    ensures After(c, HN, v, i, i + 2) == Ok((S.PushMatchByte(Prepared(e, Any, i), Any, i), HN))
  {
    Within(v, i, "??", 0, 2);
    Within(v, i, "??", 1, 2);
    var c1 := c.(curByte := 0 as char, mask := S.MaskHigh);
    HighWild(c, i);
    FlushKeepsByte(c, e, 0 as char, S.MaskHigh);
    LowWild(c1, i + 1, e.(curByte := 0 as char, mask := S.MaskHigh));
    AfterStep(c, HN, v, i);
    AfterThen(c, HN, v, i, i + 1, i + 2);
    AfterStep(c1, LN, v, i + 1);
  }

  /** With nothing pending, a byte that is no part of a match byte goes straight to its own handling. */
  lemma NonMatchStep(c: S.Ctx, i: nat, b: Byte)
    requires c.pending.None? && !IsHexDigit(b) && b != 'L' && b != 'W' && b != '?'
    ensures S.Step(c, HN, i, b) == S.NonMatchByteChar(c, i, b)
  {
  }

  /** `{n}` with n at most 128 stores `n` ignored bytes as one match byte. */
  lemma ReadWildcardMany(c: S.Ctx, v: Bytes, i: nat, n: Byte)
    requires c.pending.None? && n as int <= S.WILDCARD_MANY_MAX
    requires i + |MatchByteText(WildcardMany(n))| <= |v|
    requires v[i..i + |MatchByteText(WildcardMany(n))|] == MatchByteText(WildcardMany(n))
    ensures After(c, HN, v, i, i + |MatchByteText(WildcardMany(n))|) ==
      Ok((S.PushMatchByte(Prepared(c, WildcardMany(n), i), WildcardMany(n), i), HN))
  {
    var k := i + 1 + |Num.Dec(n as int)|;
    WildcardManyText(v, i, k, n);
    WildcardManyAfter(c, v, i, k, n);
  }

  /** `{n}` from `i` to `k + 1`, with the number ending at `k`. */
  lemma WildcardManyAfter(c: S.Ctx, v: Bytes, i: nat, k: nat, n: Byte)
    requires c.pending.None? && n as int <= S.WILDCARD_MANY_MAX
    requires k == i + 1 + |Num.Dec(n as int)| && k < |v| && v[i] == '{' && v[i + 1..k] == Num.Dec(n as int) && v[k] == '}'
    ensures After(c, HN, v, i, k + 1) == Ok((S.PushMatchByte(Prepared(c, WildcardMany(n), i), WildcardMany(n), i), HN))
  {
    var c2 := c.(leftBracePos := i, decValue := Some(n as int));
    assert c2.(decValue := None, curRange := None) == Prepared(c, WildcardMany(n), i);
    WildcardManyOpen(c, v, i, k, n);
    WildcardManyClose(c2, v, k, n);
    AfterThen(c, HN, v, i, k, k + 1);
  }

  /** `{n` from `i` to `k`: the brace is open with `n` read. */
  lemma WildcardManyOpen(c: S.Ctx, v: Bytes, i: nat, k: nat, n: Byte)
    requires c.pending.None? && n as int <= S.WILDCARD_MANY_MAX
    requires k == i + 1 + |Num.Dec(n as int)| && k <= |v| && v[i] == '{' && v[i + 1..k] == Num.Dec(n as int)
    ensures After(c, HN, v, i, k) == Ok((c.(leftBracePos := i, decValue := Some(n as int)), S.State.CurlyBraceLower))
  {
    var c1 := c.(leftBracePos := i, decValue := None);
    OpenBraceAfter(c, v, i);
    ReadDec(c1, S.State.CurlyBraceLower, v, i + 1, k, n as int);
    AfterThen(c, HN, v, i, i + 1, k);
  }

  /** `{` with no anchored byte pending opens a brace. */
  lemma OpenBraceAfter(c: S.Ctx, v: Bytes, i: nat)
    requires c.pending.None? && i < |v| && v[i] == '{'
    ensures After(c, HN, v, i, i + 1) == Ok((c.(leftBracePos := i, decValue := None), S.State.CurlyBraceLower))
  {
    NonMatchStep(c, i, '{');
    AfterStep(c, HN, v, i);
  }

  /** `}` after a count of at most 128 stores it as one match byte. */
  lemma WildcardManyClose(c: S.Ctx, v: Bytes, k: nat, n: Byte)
    requires k < |v| && v[k] == '}' && c.decValue == Some(n as int) && n as int <= S.WILDCARD_MANY_MAX
    ensures After(c, S.State.CurlyBraceLower, v, k, k + 1) ==
      Ok((S.PushMatchByte(c.(decValue := None, curRange := None), WildcardMany(n), c.leftBracePos), HN))
  {
    AfterStep(c, S.State.CurlyBraceLower, v, k);
    assert ByteOf(n as int) == n;
  }

  /** The text of `{n}`, with the number ending at `k`, split at its pieces. */
  lemma WildcardManyText(v: Bytes, i: nat, k: nat, n: Byte)
    requires k == i + 1 + |Num.Dec(n as int)|
    requires i + |MatchByteText(WildcardMany(n))| <= |v|
    requires v[i..i + |MatchByteText(WildcardMany(n))|] == MatchByteText(WildcardMany(n))
    ensures k < |v| && k + 1 == i + |MatchByteText(WildcardMany(n))|
    ensures v[i] == '{' && v[i + 1..k] == Num.Dec(n as int) && v[k] == '}'
  {
    var t := MatchByteText(WildcardMany(n));
    var d := Num.Dec(n as int);
    assert t == "{" + d + "}";
    Within(v, i, t, 0, 1);
    Within(v, i, t, 1, 1 + |d|);
    Within(v, i, t, 1 + |d|, |t|);
    assert t[1..1 + |d|] == d;
  }

  /** The match bytes the parser builds: nybles kept in their half, `{n}` at most 128. */
  predicate ByteOk(mb: MatchByte)
  {
    MatchByteWF(mb) && (mb.WildcardMany? ==> mb.size as int <= S.WILDCARD_MANY_MAX)
  }

  predicate BytesOk(s: seq<MatchByte>)
  {
    forall k :: 0 <= k < |s| ==> ByteOk(s[k])
  }

  /**
   * Any match byte's text stores that byte. Only `{n}` does not flush inside
   * parentheses, so it is read where the flush has nothing to do.
   */
  lemma ReadByte(c: S.Ctx, v: Bytes, i: nat, mb: MatchByte, e: S.Ctx)
    requires ByteOk(mb) && S.FlushInParen(c) == Ok(e)
    requires mb.WildcardMany? ==> c.pending.None? && e == c
    requires i + |MatchByteText(mb)| <= |v| && v[i..i + |MatchByteText(mb)|] == MatchByteText(mb)
    ensures After(c, HN, v, i, i + |MatchByteText(mb)|) == Ok((S.PushMatchByte(Prepared(e, mb, i), mb, i), HN))
  {
    match mb
    case Full(x) => ReadFull(c, v, i, x, e);
    case LowNyble(x) => ReadLowNyble(c, v, i, x, e);
    case HighNyble(x) => ReadHighNyble(c, v, i, x, e);
    case Any => ReadAny(c, v, i, e);
    case WildcardMany(n) => ReadWildcardMany(c, v, i, n);
  }
  // ------------------------------------------------------- static bytes

  /** How many full bytes end `ms`. */
  function FullTail(ms: seq<MatchByte>): (t: nat)
    ensures t <= |ms|
    decreases |ms|
  {
    if |ms| == 0 || !ms[|ms| - 1].Full? then 0 else FullTail(ms[..|ms| - 1]) + 1
  }

  /** Two full bytes side by side somewhere in `ms`: the static bytes a string needs. */
  predicate HasFullPair(ms: seq<MatchByte>)
    decreases |ms|
  {
    |ms| >= 2 && ((ms[|ms| - 2].Full? && ms[|ms| - 1].Full?) || HasFullPair(ms[..|ms| - 1]))
  }

  /** A full pair lies before the trailing full bytes, or the trailing run is one. */
  lemma {:induction false} HasFullPairTail(ms: seq<MatchByte>)
    ensures HasFullPair(ms) <==> HasFullPair(ms[..|ms| - FullTail(ms)]) || FullTail(ms) >= 2
  {
    var t := FullTail(ms);
    if t == 0 {
      assert ms[..|ms| - t] == ms;
    } else {
      var init := ms[..|ms| - 1];
      assert t == FullTail(init) + 1;
      if FullTail(init) == 0 {
        assert ms[..|ms| - t] == init;
        assert |ms| < 2 || !ms[|ms| - 2].Full? by {
          if |ms| >= 2 {
            assert init[|init| - 1] == ms[|ms| - 2];
          }
        }
        assert HasFullPair(ms) == HasFullPair(init);
      } else {
        assert init[|init| - 1] == ms[|ms| - 2];
        assert HasFullPair(ms);
      }
    }
  }

  /**
   * The parser's record of static bytes agrees with the match bytes `ms`
   * read: an open run `sr` covers exactly the trailing full bytes, and a
   * full pair before them has been recorded in `srs`. With nothing read, the
   * open run, if any, is one an anchored byte left behind at the start.
   */
  predicate StaticAgrees(ms: seq<MatchByte>, sr: Option<(nat, nat)>, srs: seq<(nat, nat)>)
  {
    var t := FullTail(ms);
    && (t > 0 ==> sr == Some((|ms| - t, |ms|)))
    && (t == 0 && |ms| > 0 ==> sr.None?)
    && (|ms| == 0 ==> sr.None? || sr.value.0 == 0)
    && (HasFullPair(ms[..|ms| - t]) ==> |srs| > 0)
  }

  predicate StaticOk(c: S.Ctx)
  {
    StaticAgrees(c.matchBytes, c.staticRange, c.staticRanges)
  }

  /** The runs recorded once the open run `sr` is closed. */
  function Recorded(sr: Option<(nat, nat)>, srs: seq<(nat, nat)>): seq<(nat, nat)>
  {
    if sr.None? then srs else srs + (if S.UsizeSub(sr.value.1, sr.value.0) >= 2 then [sr.value] else [])
  }

  /** A full byte extends the open run, or opens one. */
  lemma StaticFull(ms: seq<MatchByte>, sr: Option<(nat, nat)>, srs: seq<(nat, nat)>, mb: MatchByte)
    requires StaticAgrees(ms, sr, srs) && mb.Full?
    ensures StaticAgrees(ms + [mb], Some(if sr.None? then (|ms|, |ms| + 1) else (sr.value.0, |ms| + 1)), srs)
  {
    var ms' := ms + [mb];
    var t := FullTail(ms);
    assert ms'[..|ms'| - 1] == ms;
    assert FullTail(ms') == t + 1;
    assert ms'[..|ms'| - (t + 1)] == ms[..|ms| - t];
  }

  /** Any other match byte closes the open run, recording it when it holds two bytes or more. */
  lemma StaticOther(ms: seq<MatchByte>, sr: Option<(nat, nat)>, srs: seq<(nat, nat)>, mb: MatchByte)
    requires StaticAgrees(ms, sr, srs) && !mb.Full? && |ms| <= S.USIZE_MAX
    ensures StaticAgrees(ms + [mb], None, Recorded(sr, srs))
  {
    var ms' := ms + [mb];
    var t := FullTail(ms);
    assert ms'[..|ms'| - 1] == ms;
    assert FullTail(ms') == 0;
    assert ms'[..|ms'|] == ms';
    assert HasFullPair(ms') == HasFullPair(ms);
    HasFullPairTail(ms);
    if t > 0 {
      S.UsizeSubExact(|ms|, |ms| - t);
    }
  }

  /** Closing the open run records it when the match bytes hold a full pair. */
  lemma FlushStaticOk(ms: seq<MatchByte>, sr: Option<(nat, nat)>, srs: seq<(nat, nat)>)
    requires StaticAgrees(ms, sr, srs) && |ms| <= S.USIZE_MAX && HasFullPair(ms)
    ensures |Recorded(sr, srs)| > 0
  {
    var t := FullTail(ms);
    HasFullPairTail(ms);
    if t > 0 {
      S.UsizeSubExact(|ms|, |ms| - t);
    } else {
      assert ms[..|ms|] == ms;
    }
  }

  // ------------------------------------------------------------ frames

  /**
   * Where the match bytes being read go: the flags waiting for the string,
   * the open parenthesis, if any, and whether a `!` opened it.
   */
  datatype Frame = Frame(m: Flags, paren: Option<S.Paren>, negated: bool)

  /** Outside parentheses, with the flags `m` waiting. */
  function Out(m: Flags): Frame
  {
    Frame(m, None, false)
  }

  /**
   * The context holds the patterns `ps` and the match bytes `ms`, in the
   * frame `f`. Outside parentheses the record of static bytes agrees with
   * `ms`; inside them the bytes before the group have been flushed and no
   * run of static bytes is open past the group's start.
   */
  predicate Inv(c: S.Ctx, ps: seq<Pattern>, ms: seq<MatchByte>, f: Frame)
  {
    && c.patterns == ps && c.matchBytes == ms && |ms| <= S.USIZE_MAX
    && c.modifier == f.m && c.paren == f.paren && c.negated == f.negated
    && (f.paren.None? ==> !f.negated && StaticOk(c))
    && (f.paren.Some? ==> f.paren.value.flushed && StaticAgrees([], c.staticRange, c.staticRanges))
  }

  /** Inside parentheses a match byte other than a full one makes the group generic. */
  function FrameByte(f: Frame, mb: MatchByte): Frame
  {
    if f.paren.Some? && !mb.Full? then f.(paren := Some(f.paren.value.(isGeneric := true))) else f
  }

  /** The frame after the match bytes `s`. */
  function FrameAfter(f: Frame, s: seq<MatchByte>): Frame
    decreases |s|
  {
    if |s| == 0 then f else FrameAfter(FrameByte(f, s[0]), s[1..])
  }

  lemma FrameAfterCons(f: Frame, s: seq<MatchByte>)
    requires |s| > 0
    ensures FrameAfter(f, s) == FrameAfter(FrameByte(f, s[0]), s[1..])
  {
  }

  /** Every match byte of `s` is a full byte. */
  predicate AllFull(s: seq<MatchByte>)
  {
    forall k :: 0 <= k < |s| ==> s[k].Full?
  }

  /** Match bytes without `{n}`, which would resolve a pending anchored byte. */
  predicate NoWildcardMany(s: seq<MatchByte>)
  {
    forall k :: 0 <= k < |s| ==> !s[k].WildcardMany?
  }

  /** The conditions on a run of match bytes hold of its first byte and of the rest. */
  lemma BytesTail(s: seq<MatchByte>)
    requires |s| > 0
    ensures BytesOk(s) ==> ByteOk(s[0]) && BytesOk(s[1..])
    ensures NoWildcardMany(s) ==> !s[0].WildcardMany? && NoWildcardMany(s[1..])
    ensures AllFull(s) <==> s[0].Full? && AllFull(s[1..])
  {
    assert forall k :: 0 <= k < |s[1..]| ==> s[1..][k] == s[k + 1];
    if s[0].Full? && AllFull(s[1..]) {
      forall k | 0 <= k < |s|
        ensures s[k].Full?
      {
        if k > 0 {
          assert s[k] == s[1..][k - 1];
        }
      }
    }
  }

  /** Outside parentheses the frame never changes; inside, the group turns generic at a byte that is not full. */
  lemma {:induction false} FrameAfterIs(f: Frame, s: seq<MatchByte>)
    ensures FrameAfter(f, s) ==
      if f.paren.Some? && !AllFull(s) then f.(paren := Some(f.paren.value.(isGeneric := true))) else f
    decreases |s|
  {
    if |s| > 0 {
      BytesTail(s);
      FrameAfterIs(FrameByte(f, s[0]), s[1..]);
    }
  }

  /** What pushing a match byte does to the context, outside and inside parentheses. */
  lemma PushFields(c: S.Ctx, mb: MatchByte, pos: nat)
    ensures var r := S.PushMatchByte(c, mb, pos);
      && r.patterns == c.patterns && r.modifier == c.modifier && r.negated == c.negated
      && r.pending == c.pending && r.matchBytes == c.matchBytes + [mb]
      && (c.paren.Some? ==> r.paren == Some(c.paren.value.(isGeneric := c.paren.value.isGeneric || !mb.Full?)))
      && (c.paren.None? ==> r.paren.None?)
      && (c.paren.Some? ==> r.staticRange == c.staticRange && r.staticRanges == c.staticRanges)
      && (c.paren.None? && mb.Full? ==>
            r.staticRanges == c.staticRanges &&
            r.staticRange == Some(if c.staticRange.None? then (|c.matchBytes|, |c.matchBytes| + 1)
                                  else (c.staticRange.value.0, |c.matchBytes| + 1)))
      && (c.paren.None? && !mb.Full? ==> r.staticRange.None? && r.staticRanges == Recorded(c.staticRange, c.staticRanges))
  {
  }

  /** A match byte joins the bytes being read and keeps the static record right. */
  lemma PushKeepsInv(c: S.Ctx, mb: MatchByte, pos: nat, ps: seq<Pattern>, ms: seq<MatchByte>, f: Frame)
    requires Inv(c, ps, ms, f) && |ms| < S.USIZE_MAX
    ensures Inv(S.PushMatchByte(c, mb, pos), ps, ms + [mb], FrameByte(f, mb))
    ensures S.PushMatchByte(c, mb, pos).pending == c.pending
  {
    PushFields(c, mb, pos);
    if f.paren.None? {
      if mb.Full? {
        StaticFull(ms, c.staticRange, c.staticRanges, mb);
      } else {
        StaticOther(ms, c.staticRange, c.staticRanges, mb);
      }
    }
  }

  /** What reading a match byte's text changes besides storing it is nothing `Inv` looks at. */
  lemma PreparedKeeps(e: S.Ctx, mb: MatchByte, pos: nat, ps: seq<Pattern>, ms: seq<MatchByte>, f: Frame)
    requires Inv(e, ps, ms, f)
    ensures Inv(Prepared(e, mb, pos), ps, ms, f) && Prepared(e, mb, pos).pending == e.pending
  {
  }

  // ------------------------------------------------------------ strings


  /**
   * `v[i..j]` is the text of the match bytes `s`, byte text by byte text.
   * Read one level at a time, so that what the parser does with each byte is
   * looked at only where that byte is read.
   */
  predicate SpansAll(v: Bytes, i: nat, j: nat, s: seq<MatchByte>)
    decreases |s|
  {
    if |s| == 0 then i == j <= |v|
    else
      && i + |MatchByteText(s[0])| <= j <= |v| && v[i..i + |MatchByteText(s[0])|] == MatchByteText(s[0])
      && SpansAll(v, i + |MatchByteText(s[0])|, j, s[1..])
  }

  /** `SpansAll` put `depth` levels down, as `Leads` is. */
  predicate SpansBelow(v: Bytes, i: nat, j: nat, s: seq<MatchByte>, depth: nat)
    decreases depth
  {
    if depth == 0 then SpansAll(v, i, j, s) else SpansBelow(v, i, j, s, depth - 1)
  }

  /** `SpansAll`, hidden from the proofs that only pass it on. */
  predicate Spans(v: Bytes, i: nat, j: nat, s: seq<MatchByte>)
  {
    SpansBelow(v, i, j, s, 3) == true
  }

  lemma {:induction false} SpansBelowIs(v: Bytes, i: nat, j: nat, s: seq<MatchByte>, depth: nat)
    ensures SpansBelow(v, i, j, s, depth) <==> SpansAll(v, i, j, s)
    decreases depth
  {
    if depth > 0 {
      SpansBelowIs(v, i, j, s, depth - 1);
    }
  }

  /** What `Spans` means. */
  lemma SpansIs(v: Bytes, i: nat, j: nat, s: seq<MatchByte>)
    ensures Spans(v, i, j, s) <==> SpansAll(v, i, j, s)
  {
    SpansBelowIs(v, i, j, s, 3);
  }

  lemma SpansHead(v: Bytes, i: nat, j: nat, s: seq<MatchByte>)
    requires |s| > 0 && Spans(v, i, j, s)
    ensures i + |MatchByteText(s[0])| <= |v| && v[i..i + |MatchByteText(s[0])|] == MatchByteText(s[0])
  {
    SpansIs(v, i, j, s);
  }

  lemma SpansBound(v: Bytes, i: nat, j: nat, s: seq<MatchByte>)
    requires |s| > 0 && Spans(v, i, j, s)
    ensures i + |MatchByteText(s[0])| <= j <= |v|
  {
    SpansIs(v, i, j, s);
  }

  lemma SpansRest(v: Bytes, i: nat, j: nat, s: seq<MatchByte>)
    requires |s| > 0 && Spans(v, i, j, s)
    ensures Spans(v, i + |MatchByteText(s[0])|, j, s[1..])
  {
    SpansIs(v, i, j, s);
    SpansIs(v, i + |MatchByteText(s[0])|, j, s[1..]);
  }

  /** The first match byte of a spanned text, and where the rest begins. */
  lemma SpansFirst(v: Bytes, i: nat, j: nat, s: seq<MatchByte>) returns (k: nat)
    requires |s| > 0 && Spans(v, i, j, s)
    ensures k == i + |MatchByteText(s[0])| && k <= j <= |v|
    ensures v[i..k] == MatchByteText(s[0])
    ensures Spans(v, k, j, s[1..])
  {
    SpansHead(v, i, j, s);
    SpansBound(v, i, j, s);
    SpansRest(v, i, j, s);
    k := i + |MatchByteText(s[0])|;
  }

  /** The text of a run of match bytes is its first byte's text, then the rest's. */
  lemma StringTextSplit(v: Bytes, i: nat, k: nat, j: nat, s: seq<MatchByte>)
    requires |s| > 0 && i <= j <= |v| && v[i..j] == MatchBytesText(s)
    requires k == i + |MatchByteText(s[0])|
    ensures k <= j
    ensures v[i..k] == MatchByteText(s[0])
    ensures v[k..j] == MatchBytesText(s[1..])
  {
    var t, x, y := MatchBytesText(s), MatchByteText(s[0]), MatchBytesText(s[1..]);
    assert t == x + y;
    SplitBetween(v, i, k, j, t, x, y);
  }

  /** Text located between `i` and `j` spans its match bytes. */
  lemma {:induction false} SpansText(v: Bytes, i: nat, j: nat, s: seq<MatchByte>)
    requires i <= j <= |v| && v[i..j] == MatchBytesText(s)
    ensures Spans(v, i, j, s)
    decreases |s|
  {
    if |s| > 0 {
      var k := i + |MatchByteText(s[0])|;
      StringTextSplit(v, i, k, j, s);
      SpansText(v, k, j, s[1..]);
      SpansCons(v, i, k, j, s);
    } else {
      SpansIs(v, i, j, s);
    }
  }

  /** Spanning the first match byte's text, then the rest from where it ends, spans them all. */
  lemma SpansCons(v: Bytes, i: nat, k: nat, j: nat, s: seq<MatchByte>)
    requires |s| > 0 && k == i + |MatchByteText(s[0])| && k <= j <= |v|
    requires v[i..k] == MatchByteText(s[0]) && Spans(v, k, j, s[1..])
    ensures Spans(v, i, j, s)
  {
    SpansIs(v, i, j, s);
    SpansIs(v, k, j, s[1..]);
  }

  /** No flush is due before the next match byte: outside parentheses, or inside after the first one. */
  predicate NoFlush(c: S.Ctx)
  {
    c.paren.None? || c.paren.value.flushed
  }

  /** One match byte read when no flush is due. */
  lemma LeadsByte(c: S.Ctx, v: Bytes, i: nat, mb: MatchByte) returns (d: S.Ctx)
    requires NoFlush(c) && ByteOk(mb) && (mb.WildcardMany? ==> c.pending.None?)
    requires i + |MatchByteText(mb)| <= |v| && v[i..i + |MatchByteText(mb)|] == MatchByteText(mb)
    ensures d == S.PushMatchByte(Prepared(c, mb, i), mb, i)
    ensures Leads(c, v, i, i + |MatchByteText(mb)|, d)
  {
    assert S.FlushInParen(c) == Ok(c);
    ReadByte(c, v, i, mb, c);
    d := S.PushMatchByte(Prepared(c, mb, i), mb, i);
    LeadsIntro(c, v, i, i + |MatchByteText(mb)|, d);
  }

  /** One match byte read joins the bytes being read. */
  lemma ReadByteInv(c: S.Ctx, v: Bytes, i: nat, mb: MatchByte, ps: seq<Pattern>, ms: seq<MatchByte>, f: Frame)
    returns (d: S.Ctx)
    requires Inv(c, ps, ms, f) && |ms| < S.USIZE_MAX && ByteOk(mb) && (mb.WildcardMany? ==> c.pending.None?)
    requires i + |MatchByteText(mb)| <= |v| && v[i..i + |MatchByteText(mb)|] == MatchByteText(mb)
    ensures Leads(c, v, i, i + |MatchByteText(mb)|, d)
    ensures Inv(d, ps, ms + [mb], FrameByte(f, mb)) && d.pending == c.pending
  {
    d := LeadsByte(c, v, i, mb);
    PreparedKeeps(c, mb, i, ps, ms, f);
    PushKeepsInv(Prepared(c, mb, i), mb, i, ps, ms, f);
  }

  /**
   * `Inv` put `depth` levels down, as `Leads` is, so that the chain of
   * reads below does not see the fields of the context it stands for.
   */
  ghost predicate InvBelow(c: S.Ctx, ps: seq<Pattern>, ms: seq<MatchByte>, f: Frame, depth: nat)
    decreases depth
  {
    if depth == 0 then Inv(c, ps, ms, f) else InvBelow(c, ps, ms, f, depth - 1)
  }

  /** `Inv`, hidden; written as a comparison so that checking it does not split it into its conjuncts. */
  ghost predicate HInv(c: S.Ctx, ps: seq<Pattern>, ms: seq<MatchByte>, f: Frame)
  {
    InvBelow(c, ps, ms, f, |ms| + 3) == true
  }

  lemma {:induction false} InvBelowIs(c: S.Ctx, ps: seq<Pattern>, ms: seq<MatchByte>, f: Frame, depth: nat)
    ensures InvBelow(c, ps, ms, f, depth) <==> Inv(c, ps, ms, f)
    decreases depth
  {
    if depth > 0 {
      InvBelowIs(c, ps, ms, f, depth - 1);
    }
  }

  /** What `HInv` means. */
  lemma HInvIs(c: S.Ctx, ps: seq<Pattern>, ms: seq<MatchByte>, f: Frame)
    ensures HInv(c, ps, ms, f) <==> Inv(c, ps, ms, f)
  {
    InvBelowIs(c, ps, ms, f, |ms| + 3);
  }

  lemma ReadByteH(c: S.Ctx, v: Bytes, i: nat, mb: MatchByte, ps: seq<Pattern>, ms: seq<MatchByte>, f: Frame)
    returns (d: S.Ctx)
    requires HInv(c, ps, ms, f) && |ms| < S.USIZE_MAX && ByteOk(mb) && (mb.WildcardMany? ==> c.pending.None?)
    requires i + |MatchByteText(mb)| <= |v| && v[i..i + |MatchByteText(mb)|] == MatchByteText(mb)
    ensures Leads(c, v, i, i + |MatchByteText(mb)|, d)
    ensures HInv(d, ps, ms + [mb], FrameByte(f, mb)) && d.pending == c.pending
  {
    HInvIs(c, ps, ms, f);
    d := ReadByteInv(c, v, i, mb, ps, ms, f);
    HInvIs(d, ps, ms + [mb], FrameByte(f, mb));
  }

  /** `ReadByteH` with the position where the byte's text ends. */
  lemma ReadByteAt(c: S.Ctx, v: Bytes, i: nat, j: nat, mb: MatchByte, ps: seq<Pattern>, ms: seq<MatchByte>, f: Frame)
    returns (d: S.Ctx)
    requires HInv(c, ps, ms, f) && |ms| < S.USIZE_MAX && ByteOk(mb) && (mb.WildcardMany? ==> c.pending.None?)
    requires j == i + |MatchByteText(mb)| && j <= |v| && v[i..j] == MatchByteText(mb)
    ensures Leads(c, v, i, j, d)
    ensures HInv(d, ps, ms + [mb], FrameByte(f, mb)) && d.pending == c.pending
  {
    d := ReadByteH(c, v, i, mb, ps, ms, f);
  }

  lemma ConsSplit<T>(a: seq<T>, s: seq<T>)
    requires |s| > 0
    ensures a + [s[0]] + s[1..] == a + s
  {
  }

  /** Match bytes spanned from `i` to `j` are read one after the other and join the bytes being read. */
  lemma {:induction false} ReadSpan(c: S.Ctx, v: Bytes, i: nat, j: nat, s: seq<MatchByte>,
                                    ps: seq<Pattern>, ms: seq<MatchByte>, f: Frame) returns (d: S.Ctx)
    requires HInv(c, ps, ms, f) && |ms| + |s| <= S.USIZE_MAX && BytesOk(s)
    requires c.pending.None? || NoWildcardMany(s)
    requires Spans(v, i, j, s)
    ensures Leads(c, v, i, j, d)
    ensures HInv(d, ps, ms + s, FrameAfter(f, s)) && d.pending == c.pending
    decreases |s|
  {
    if |s| > 0 {
      BytesTail(s);
      var k := SpansFirst(v, i, j, s);
      var c1 := ReadByteAt(c, v, i, k, s[0], ps, ms, f);
      var s1, ms1, f1 := s[1..], ms + [s[0]], FrameByte(f, s[0]);
      d := ReadSpan(c1, v, k, j, s1, ps, ms1, f1);
      ConsSplit(ms, s);
      FrameAfterCons(f, s);
      LeadsThen(c, v, i, k, j, c1, d);
    } else {
      d := c;
      LeadsNothing(c, v, i);
      assert ms + s == ms;
    }
  }

  /**
   * The text of a run of match bytes, read with no flush due, adds them in
   * order to the bytes being read; inside parentheses the group turns
   * generic if one of them is not a full byte.
   */
  lemma ReadString(c: S.Ctx, v: Bytes, i: nat, j: nat, s: seq<MatchByte>, ps: seq<Pattern>, ms: seq<MatchByte>, f: Frame)
    returns (d: S.Ctx)
    requires Inv(c, ps, ms, f) && |ms| + |s| <= S.USIZE_MAX && BytesOk(s)
    requires c.pending.None? || NoWildcardMany(s)
    requires i <= j <= |v| && v[i..j] == MatchBytesText(s)
    ensures Leads(c, v, i, j, d)
    ensures Inv(d, ps, ms + s, FrameAfter(f, s)) && d.pending == c.pending
  {
    SpansText(v, i, j, s);
    HInvIs(c, ps, ms, f);
    d := ReadSpan(c, v, i, j, s, ps, ms, f);
    HInvIs(d, ps, ms + s, FrameAfter(f, s));
  }

  /** `ReadString` with the invariant hidden. */
  lemma ReadStringH(c: S.Ctx, v: Bytes, i: nat, j: nat, s: seq<MatchByte>, ps: seq<Pattern>, ms: seq<MatchByte>, f: Frame)
    returns (d: S.Ctx)
    requires HInv(c, ps, ms, f) && |ms| + |s| <= S.USIZE_MAX && BytesOk(s)
    requires c.pending.None? || NoWildcardMany(s)
    requires i <= j <= |v| && v[i..j] == MatchBytesText(s)
    ensures Leads(c, v, i, j, d)
    ensures HInv(d, ps, ms + s, FrameAfter(f, s)) && d.pending == c.pending
  {
    SpansText(v, i, j, s);
    d := ReadSpan(c, v, i, j, s, ps, ms, f);
  }
}
