/**
 * Where the body-signature round trip of `BodySigRoundTrip` stops: bodies
 * the exporter writes in a form the parser (src/signature/bodysig/parse.rs)
 * does not read back as the same patterns.
 */
module BodySigLimits {
  import opened Wrappers
  import opened ByteStr
  import opened PatternModifiers
  import opened Patterns
  import Util
  import Hex
  import S = BodySigParse
  import BodySigs
  import BodySigSampleText
  import opened CharClasses

  // ------------------------------------------------------------ right-side flags

  /** The text of a word-boundary flag. */
  const WORD_BOUNDARY_TEXT: Bytes := "(B)"

  lemma SelectRight(f: Flags, xs: seq<PatternModifier>)
    requires f == {BoundaryRight} && |xs| >= 3
    requires xs[0] == BoundaryLeft && xs[1] == BoundaryLeftNegative && xs[2] == BoundaryRight
    requires forall k :: 3 <= k < |xs| ==> xs[k] != BoundaryRight
    ensures Select(f, xs) == [BoundaryRight]
  {
    BodySigSampleText.SelectNone(f, xs[3..]);
    BodySigSampleText.SelectAt(f, xs, 2);
    BodySigSampleText.SelectAt(f, xs, 1);
    BodySigSampleText.SelectAt(f, xs, 0);
    assert xs[0..] == xs;
  }

  lemma AllAfterRightBoundary()
    ensures |ALL| == 12 && ALL[0] == BoundaryLeft && ALL[1] == BoundaryLeftNegative && ALL[2] == BoundaryRight
    ensures forall k :: 3 <= k < |ALL| ==> ALL[k] != BoundaryRight
  {
  }

  lemma RightBoundarySides(m: Flags)
    requires m == {BoundaryRight}
    ensures m * LEFT_FLAGS == {} && m * RIGHT_FLAGS == m
  {
  }

  /** `{BoundaryRight}` has no left-side flag and orders as itself. */
  lemma RightBoundaryOrdered(m: Flags)
    requires m == {BoundaryRight}
    ensures Ordered(m * LEFT_FLAGS) == [] && Ordered(m * RIGHT_FLAGS) == [BoundaryRight]
  {
    RightBoundarySides(m);
    BodySigSampleText.NoFlags({});
    AllAfterRightBoundary();
    SelectRight(m, ALL);
  }

  lemma BoundaryRightText()
    ensures FlagsText([BoundaryRight]) == WORD_BOUNDARY_TEXT
  {
    assert [BoundaryRight][1..] == [];
  }

  /** The text of a string whose one flag is a right-side word boundary: its bytes, then `(B)`. */
  lemma RightBoundaryString(s: seq<MatchByte>, m: Flags)
    requires m == {BoundaryRight}
    ensures StringText(s, m) == MatchBytesText(s) + WORD_BOUNDARY_TEXT
  {
    RightBoundaryOrdered(m);
    StringTextOf(s, m, [], [BoundaryRight]);
    BoundaryRightText();
    assert FlagsText([]) == [];
    assert [] + MatchBytesText(s) == MatchBytesText(s);
  }

  /** A string's text, with its ordered left-side and right-side flags named `l` and `r`. */
  lemma StringTextOf(s: seq<MatchByte>, m: Flags, l: seq<PatternModifier>, r: seq<PatternModifier>)
    requires Ordered(m * LEFT_FLAGS) == l && Ordered(m * RIGHT_FLAGS) == r
    ensures StringText(s, m) == FlagsText(l) + MatchBytesText(s) + FlagsText(r)
  {
  }

  /** A string of plain bytes with a right-side word boundary is written as its hex text, then `(B)`. */
  lemma RightBoundaryText(b: Bytes)
    ensures S.AllExportable([String(FromBytes(b), {BoundaryRight})])
    ensures BodySigs.PatternsText([String(FromBytes(b), {BoundaryRight})]) == Hex.Encode(b) + WORD_BOUNDARY_TEXT
  {
    var p := String(FromBytes(b), {BoundaryRight});
    BodySigs.PatternsTextOne(p);
    RightBoundaryString(FromBytes(b), {BoundaryRight});
    FromBytesText(b);
  }

  /** Flushing the hex text of two or more bytes stores them as one string and leaves nothing waiting. */
  lemma HexFlushed(b: Bytes)
    requires 2 <= |b| <= S.USIZE_MAX
    ensures S.FlushMatchBytes(S.HexCtx(b, |b|)).Ok?
    ensures var c := S.FlushMatchBytes(S.HexCtx(b, |b|)).value;
      c.matchBytes == [] && c.modifier == {} && c.pending.None? && c.paren.None? && c.negated == false
  {
    var cn := S.HexCtx(b, |b|);
    S.FinishHex(b);
    S.FinishPlain(cn);
    S.FlushPlain(cn);
  }

  /** `(` with nothing pending, outside parentheses, flushes and opens a group. */
  lemma OpenParen(c: S.Ctx, c1: S.Ctx, pos: nat)
    requires c.pending.None? && c.paren.None? && S.FlushMatchBytes(c) == Ok(c1)
    ensures S.Step(c, S.State.HighNyble, pos, '(') ==
      Ok((c1.(leftParenPos := pos, paren := Some(S.NewParen(pos))), S.State.HighNyble))
  {
    assert S.HandleNonMatchByte(c, Some((pos, '('))) == S.NonMatchByteChar(c, pos, '(');
  }

  /** `B` right after `(` may be a word-boundary class: it is read as a high nyble, the class noted. */
  lemma ClassLetter(c: S.Ctx, pos: nat, k: nat)
    requires c.paren == Some(S.NewParen(k))
    ensures S.Step(c, S.State.HighNyble, pos, 'B').Ok?
    ensures var r := S.Step(c, S.State.HighNyble, pos, 'B').value;
      r.1 == S.State.LowNyble && r.0.paren == Some(S.NewParen(k).(characterClass := Some(WordBoundary))) &&
      r.0.matchBytes == c.matchBytes && r.0.modifier == c.modifier && r.0.pending == c.pending && r.0.negated == c.negated
  {
  }

  /** `)` after that `B` closes the class: with no bytes read it is a left-side flag waiting. */
  lemma CloseClass(c: S.Ctx, pos: nat)
    requires c.paren.Some? && c.paren.value.characterClass == Some(WordBoundary)
    requires c.matchBytes == [] && !c.negated
    ensures S.Step(c, S.State.LowNyble, pos, ')') ==
      Ok((c.(paren := None, negated := false, modifier := c.modifier + {BoundaryLeft}), S.State.HighNyble))
  {
    var m := PatternModifierOf(WordBoundary, true, false);
    LeftRightPartition(m);
    FlagDeterminedByParts(m, BoundaryLeft);
  }

  /** A flag still waiting at the end of the body is refused. */
  lemma FlagLeftOver(c: S.Ctx)
    requires c.pending.None? && c.paren.None? && c.matchBytes == [] && c.modifier != {}
    ensures S.Finish(c, S.State.HighNyble) == Err(S.CharClassNothingAdjacent(Util.End))
  {
    S.FinishPlain(c);
    assert S.FlushMatchBytes(c) == Ok(c);
  }

  /**
   * `(B)` read where nothing is pending and nothing is open: once the bytes
   * before it are stored, it leaves only a left-side flag waiting.
   */
  lemma ClassRun(c0: S.Ctx, w: Bytes, n: nat)
    requires n + 3 == |w| && w[n] == '(' && w[n + 1] == 'B' && w[n + 2] == ')'
    requires c0.pending.None? && c0.paren.None? && S.FlushMatchBytes(c0).Ok?
    requires var c1 := S.FlushMatchBytes(c0).value;
      c1.matchBytes == [] && !c1.negated && c1.pending.None? && c1.paren.None?
    ensures S.RunFrom(c0, S.State.HighNyble, w, n).Ok?
    ensures var r := S.RunFrom(c0, S.State.HighNyble, w, n).value;
      r.1 == S.State.HighNyble && r.0.pending.None? && r.0.paren.None? && r.0.matchBytes == [] && r.0.modifier != {}
  {
    var c1 := S.FlushMatchBytes(c0).value;
    OpenParen(c0, c1, n);
    var d1 := c1.(leftParenPos := n, paren := Some(S.NewParen(n)));
    ClassLetter(d1, n + 1, n);
    var d2 := S.Step(d1, S.State.HighNyble, n + 1, 'B').value.0;
    S.RunTwo(c0, S.State.HighNyble, w, n, (d1, S.State.HighNyble), (d2, S.State.LowNyble));
    CloseClass(d2, n + 2);
    var d3 := d2.(paren := None, negated := false, modifier := d2.modifier + {BoundaryLeft});
    assert S.RunFrom(d3, S.State.HighNyble, w, n + 3) == Ok((d3, S.State.HighNyble));
  }

  /**
   * `(B)` after the hex text of two or more bytes: `(` stores the bytes as
   * a string, `(B)` waits as a left-side flag for a string that never
   * comes, and the end of the body refuses it.
   */
  lemma ClassAfterHex(b: Bytes)
    requires 2 <= |b| <= S.USIZE_MAX
    ensures S.Parse(Hex.Encode(b) + WORD_BOUNDARY_TEXT) == Err(S.CharClassNothingAdjacent(Util.End))
  {
    HexThenRest(b, WORD_BOUNDARY_TEXT);
    ClassTail(Hex.Encode(b));
    HexFlushed(b);
    ClassRunParse(S.HexCtx(b, |b|), Hex.Encode(b) + WORD_BOUNDARY_TEXT, |Hex.Encode(b)|);
  }

  /** `ClassRun` from the context a run reaches, then the end of the body. */
  lemma ClassRunParse(c0: S.Ctx, w: Bytes, n: nat)
    requires n + 3 == |w| && w[n] == '(' && w[n + 1] == 'B' && w[n + 2] == ')'
    requires c0.pending.None? && c0.paren.None? && S.FlushMatchBytes(c0).Ok?
    requires var c1 := S.FlushMatchBytes(c0).value;
      c1.matchBytes == [] && !c1.negated && c1.pending.None? && c1.paren.None?
    requires S.RunFrom(S.INIT, S.State.HighNyble, w, 0) == S.RunFrom(c0, S.State.HighNyble, w, n)
    ensures S.Parse(w) == Err(S.CharClassNothingAdjacent(Util.End))
  {
    ClassRun(c0, w, n);
    var x := S.RunFrom(c0, S.State.HighNyble, w, n).value;
    FlagLeftOver(x.0);
    ParseOfRun(w, x);
  }

  /** The hex text of bytes, then anything: reading the hex part leaves every byte in the string being read. */
  lemma HexThenRest(b: Bytes, t: Bytes)
    ensures S.RunFrom(S.INIT, S.State.HighNyble, Hex.Encode(b) + t, 0) ==
      S.RunFrom(S.HexCtx(b, |b|), S.State.HighNyble, Hex.Encode(b) + t, |Hex.Encode(b)|)
  {
    assert S.HexCtx(b, 0) == S.INIT;
    S.HexRun(b, 0, 0);
    S.RunPrefix(S.INIT, S.State.HighNyble, Hex.Encode(b), t, 0);
  }

  lemma ClassTail(v: Bytes)
    ensures var w := v + WORD_BOUNDARY_TEXT; |w| == |v| + 3 && w[|v|] == '(' && w[|v| + 1] == 'B' && w[|v| + 2] == ')'
  {
  }

  /** A run that ends well makes the parse whatever the end of the body makes of it. */
  lemma ParseOfRun(value: Bytes, x: (S.Ctx, S.State))
    requires S.RunFrom(S.INIT, S.State.HighNyble, value, 0) == Ok(x)
    ensures S.Parse(value) == S.Finish(x.0, x.1)
  {
  }

  /**
   * A string with a right-side flag that is not negated does not read back:
   * its flag is written after its bytes, where the parser takes it for a
   * left-side flag of what follows.
   */
  lemma RightFlagRefused(b: Bytes)
    requires 2 <= |b| <= S.USIZE_MAX
    ensures S.AllExportable([String(FromBytes(b), {BoundaryRight})])
    ensures BodySigs.Parse(BodySigs.PatternsText([String(FromBytes(b), {BoundaryRight})])) ==
      Err(S.CharClassNothingAdjacent(Util.End))
  {
    RightBoundaryText(b);
    ClassAfterHex(b);
  }
}
