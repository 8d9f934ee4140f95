/**
 * Reading the right-side flags of a string (src/signature/bodysig/parse.rs):
 * after bytes have been read, `!` does not store them (parse.rs:444-445),
 * so `!(B)`, `!(L)` or `!(W)` closes its class with the bytes still open,
 * and `handle_cc_close` makes it a negated flag on their right side. A
 * right-side flag that is not negated is never read back: its `(` stores
 * the bytes first (see `BodySigLimits.RightFlagRefused`).
 */
module BodySigReadRight {
  import opened Wrappers
  import opened ByteStr
  import Util
  import opened TextAt
  import opened PatternModifiers
  import opened CharClasses
  import opened Patterns
  import S = BodySigParse
  import opened BodySigRuns
  import opened BodySigReadBack
  import opened BodySigReadItems

  /** The right-side flags that are negated. */
  const RIGHT_NEGATED: Flags := RIGHT_FLAGS * NEGATIVE_FLAGS

  /** A negated right flag is what `handle_cc_close` makes of its class, negated, with bytes read. */
  lemma ClassOfRightFlag(m: PatternModifier)
    requires m in RIGHT_NEGATED
    ensures PatternModifierOf(ClassOf(m), false, true) == m
  {
    var r := PatternModifierOf(ClassOf(m), false, true);
    LeftRightPartition(m);
    FlagDeterminedByParts(r, m);
  }

  /** `!(` with nothing pending and bytes read: nothing is stored, a negated parenthesis opens at `i + 1`. */
  lemma OpenRightParen(c: S.Ctx, v: Bytes, i: nat)
    requires c.pending.None? && c.paren.None?
    requires i + 2 <= |v| && v[i] == '!' && v[i + 1] == '('
    ensures After(c, HN, v, i, i + 2) ==
      Ok((c.(leftParenPos := i + 1, negated := true, paren := Some(S.NewParen(i + 1))), HN))
  {
    NonMatchStep(c, i, '!');
    AfterStep(c, HN, v, i);
    AfterThen(c, HN, v, i, i + 1, i + 2);
    AfterStep(c, S.State.Negate, v, i + 1);
  }

  /** `(B)`, `(L)` or `(W)` inside a negated parenthesis, with bytes read: the class becomes the right flag. */
  lemma ReadRightClass(c: S.Ctx, v: Bytes, i: nat, m: PatternModifier)
    requires m in RIGHT_NEGATED && |c.matchBytes| > 0 && c.paren == Some(S.NewParen(c.leftParenPos)) && c.negated
    requires i + 2 <= |v| && v[i] == Letter(FamilyOf(m)) && v[i + 1] == ')'
    ensures After(c, HN, v, i, i + 2) == Ok((FlagCtx(c, c.leftParenPos, m), HN))
  {
    ClassOfRightFlag(m);
    var c1 := c.(paren := Some(c.paren.value.(characterClass := Some(ClassOf(m)))));
    AfterStep(c, HN, v, i);
    AfterThen(c, HN, v, i, i + 1, i + 2);
    if FamilyOf(m) == Boundary {
      var c2 := c1.(mask := S.MaskNone, curByte := ByteOf(Util.HexNyble('B', true)));
      AfterStep(c2, LN, v, i + 1);
    } else {
      AfterStep(c1, S.State.InCharacterClass, v, i + 1);
    }
  }

  /** A negated right flag's text, after bytes read, runs to `FlagCtx`. */
  lemma RightFlagRun(c: S.Ctx, v: Bytes, i: nat, m: PatternModifier)
    requires c.pending.None? && c.paren.None? && |c.matchBytes| > 0 && m in RIGHT_NEGATED
    requires i + |ModifierText(m)| <= |v| && v[i..i + |ModifierText(m)|] == ModifierText(m)
    ensures Leads(c, v, i, i + |ModifierText(m)|, FlagCtx(c, i + 1, m))
  {
    var k := FlagTextAt(v, i, m);
    OpenRightParen(c, v, i);
    var c1 := c.(leftParenPos := i + 1, negated := true, paren := Some(S.NewParen(i + 1)));
    ReadRightClass(c1, v, i + 2, m);
    AfterThen(c, HN, v, i, i + 2, i + 4);
    assert FlagCtx(c1, i + 1, m) == FlagCtx(c, i + 1, m);
    LeadsIntro(c, v, i, i + 4, FlagCtx(c, i + 1, m));
  }

  /** One negated right flag's text, after the bytes `s`, adds that flag to the open string's. */
  lemma ReadRightFlag(c: S.Ctx, v: Bytes, i: nat, ps: seq<Pattern>, s: seq<MatchByte>, ms: Flags, m: PatternModifier)
    returns (d: S.Ctx)
    requires Inv(c, ps, s, Out(ms)) && c.pending.None? && |s| > 0 && m in RIGHT_NEGATED
    requires i + |ModifierText(m)| <= |v| && v[i..i + |ModifierText(m)|] == ModifierText(m)
    ensures Leads(c, v, i, i + |ModifierText(m)|, d)
    ensures Inv(d, ps, s, Out(ms + {m})) && d.pending.None?
  {
    RightFlagRun(c, v, i, m);
    d := FlagCtx(c, i + 1, m);
  }

  /** `Inv` for an open string `s` with the flags `ms`, out of the verifier's sight as `FInv` is. */
  ghost predicate RInv(c: S.Ctx, ps: seq<Pattern>, s: seq<MatchByte>, ms: Flags)
  {
    InvBelow(c, ps, s, Out(ms), |ps| + 3) && c.pending.None? && |s| > 0
  }

  lemma RInvIs(c: S.Ctx, ps: seq<Pattern>, s: seq<MatchByte>, ms: Flags)
    ensures RInv(c, ps, s, ms) <==> Inv(c, ps, s, Out(ms)) && c.pending.None? && |s| > 0
  {
    InvBelowIs(c, ps, s, Out(ms), |ps| + 3);
  }

  lemma ReadRightFlagH(c: S.Ctx, v: Bytes, i: nat, ps: seq<Pattern>, s: seq<MatchByte>, ms: Flags, m: PatternModifier)
    returns (d: S.Ctx)
    requires RInv(c, ps, s, ms) && m in RIGHT_NEGATED
    requires i + |ModifierText(m)| <= |v| && v[i..i + |ModifierText(m)|] == ModifierText(m)
    ensures Leads(c, v, i, i + |ModifierText(m)|, d) && RInv(d, ps, s, ms + {m})
  {
    RInvIs(c, ps, s, ms);
    d := ReadRightFlag(c, v, i, ps, s, ms, m);
    RInvIs(d, ps, s, ms + {m});
  }

  /** The texts of negated right flags, one after the other, add each to the open string's flags. */
  lemma {:induction false} ReadRightFlagsH(c: S.Ctx, v: Bytes, i: nat, j: nat, fl: seq<PatternModifier>,
                                           ps: seq<Pattern>, s: seq<MatchByte>, ms: Flags)
    returns (d: S.Ctx)
    requires RInv(c, ps, s, ms)
    requires forall k :: 0 <= k < |fl| ==> fl[k] in RIGHT_NEGATED
    requires i <= j <= |v| && v[i..j] == FlagsText(fl)
    ensures Leads(c, v, i, j, d) && RInv(d, ps, s, ms + FlagSet(fl))
    decreases |fl|
  {
    if |fl| == 0 {
      d := c;
      LeadsNothing(c, v, i);
      assert ms + FlagSet(fl) == ms;
    } else {
      var t := ModifierText(fl[0]);
      SplitAt(v, i, FlagsText(fl), t, FlagsText(fl[1..]));
      var c1 := ReadRightFlagH(c, v, i, ps, s, ms, fl[0]);
      d := ReadRightFlagsH(c1, v, i + |t|, j, fl[1..], ps, s, ms + {fl[0]});
      LeadsThen(c, v, i, i + |t|, j, c1, d);
      FlagSetCons(fl, ms);
    }
  }

  /** The texts of negated right flags after an open string: the string is open still, with those flags added. */
  lemma ReadRightFlags(c: S.Ctx, v: Bytes, i: nat, j: nat, fl: seq<PatternModifier>,
                       ps: seq<Pattern>, s: seq<MatchByte>, ms: Flags)
    returns (d: S.Ctx)
    requires Inv(c, ps, s, Out(ms)) && c.pending.None? && |s| > 0
    requires forall k :: 0 <= k < |fl| ==> fl[k] in RIGHT_NEGATED
    requires i <= j <= |v| && v[i..j] == FlagsText(fl)
    ensures Leads(c, v, i, j, d)
    ensures Inv(d, ps, s, Out(ms + FlagSet(fl))) && d.pending.None?
  {
    RInvIs(c, ps, s, ms);
    d := ReadRightFlagsH(c, v, i, j, fl, ps, s, ms);
    RInvIs(d, ps, s, ms + FlagSet(fl));
  }

  /** Flags in order, all drawn from `x`: each is in `x`, and the list holds them all. */
  lemma OrderedWithin(m: Flags, x: Flags)
    requires m <= x
    ensures FlagSet(Ordered(m)) == m
    ensures forall k :: 0 <= k < |Ordered(m)| ==> Ordered(m)[k] in x
  {
    OrderedFlags(m);
    FlagSetIs(Ordered(m), m);
  }

  /** A string's flags are its left-side ones and its right-side ones. */
  lemma SidesUnion(m: Flags)
    ensures m * LEFT_FLAGS + m * RIGHT_FLAGS == m
  {
    forall x | x in m
      ensures x in LEFT_FLAGS || x in RIGHT_FLAGS
    {
      LeftRightPartition(x);
    }
  }

  /** A string's text cut where its right-side flags start. */
  lemma StringTextParts(s: seq<MatchByte>, m: Flags)
    ensures StringText(s, m) ==
      (FlagsText(Ordered(m * LEFT_FLAGS)) + MatchBytesText(s)) + FlagsText(Ordered(m * RIGHT_FLAGS))
  {
  }

  /** Where the last of three pieces starts. */
  lemma SplitLast(v: Bytes, i: nat, j: nat, x: Bytes, y: Bytes, z: Bytes) returns (k: nat)
    requires i <= j <= |v| && v[i..j] == (x + y) + z
    ensures i <= k <= j && v[i..k] == x + y && v[k..j] == z
  {
    k := i + |x + y|;
    SplitAt(v, i, (x + y) + z, x + y, z);
  }

  /** Negated right flags after a string read to its end: the string is open still, with those flags. */
  lemma ReadRightTail(c: S.Ctx, v: Bytes, i: nat, j: nat, ps: seq<Pattern>, s: seq<MatchByte>, l: Flags, r: Flags, m: Flags)
    returns (d: S.Ctx)
    requires Ready(c, ps, Some(String(s, l))) && r <= RIGHT_NEGATED && l + r == m
    requires i <= j <= |v| && v[i..j] == FlagsText(Ordered(r))
    ensures Leads(c, v, i, j, d) && Ready(d, ps, Some(String(s, m)))
  {
    OrderedWithin(r, RIGHT_NEGATED);
    d := ReadRightFlags(c, v, i, j, Ordered(r), ps, s, l);
    StringReady(d, ps, s, m);
  }

  /**
   * A string whose right-side flags are all negated: its left-side flags,
   * its bytes and its right-side flags read back as the string, still open.
   */
  lemma ReadFlaggedString(c: S.Ctx, v: Bytes, i: nat, j: nat, ps: seq<Pattern>, last: Option<Pattern>,
                          s: seq<MatchByte>, m: Flags) returns (d: S.Ctx)
    requires Ready(c, ps, last) && BytesOk(s) && HasFullPair(s) && |s| <= S.USIZE_MAX
    requires m * RIGHT_FLAGS <= RIGHT_NEGATED
    requires last.Some? ==> |Ordered(m * LEFT_FLAGS)| > 0
    requires last.Some? && last.value.String? ==> Ordered(m * LEFT_FLAGS)[0] !in NEGATIVE_FLAGS
    requires i <= j <= |v| && v[i..j] == StringText(s, m)
    ensures Leads(c, v, i, j, d) && Ready(d, Items(ps, last), Some(String(s, m)))
  {
    var l, r := m * LEFT_FLAGS, m * RIGHT_FLAGS;
    StringTextParts(s, m);
    var k := SplitLast(v, i, j, FlagsText(Ordered(l)), MatchBytesText(s), FlagsText(Ordered(r)));
    OrderedLeft(l);
    var c1 := ReadStringItem(c, v, i, k, ps, last, s, Ordered(l));
    SidesUnion(m);
    d := ReadRightTail(c1, v, k, j, Items(ps, last), s, l, r, m);
    LeadsThen(c, v, i, k, j, c1, d);
  }
}
