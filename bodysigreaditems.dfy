/**
 * Reading the text of one exported pattern (src/signature/bodysig/pattern.rs)
 * with the parser of src/signature/bodysig/parse.rs: a wildcard, a byte
 * range, the left-side flags and bytes of a string, a group of alternatives,
 * an anchored byte. A string or an anchored byte is still open when its
 * text ends: the parser stores it only when the next piece starts, which is
 * why `Ready` keeps the pattern being read apart from those stored.
 */
module BodySigReadItems {
  import opened Wrappers
  import opened ByteStr
  import opened TextAt
  import Util
  import Num
  import opened PatternModifiers
  import opened CharClasses
  import opened Patterns
  import S = BodySigParse
  import opened BodySigRuns
  import opened BodySigReadBack

  // ------------------------------------------------------------ states

  /** The patterns `ps` are stored and nothing else is open. */
  predicate Closed(c: S.Ctx, ps: seq<Pattern>)
  {
    Inv(c, ps, [], Out({})) == true && c.pending.None?
  }

  /**
   * The run of static bytes a left anchor's string leaves open starts at
   * the string's first byte, or there is none: the parser does not close it
   * when the anchor is stored.
   */
  predicate AnchorStatic(s: seq<MatchByte>)
  {
    FullTail(s) == 0 || FullTail(s) == |s|
  }

  /**
   * The context after the texts of the patterns `ps` and of `last`: `ps`
   * stored, and `last`, a string or an anchored byte, read but not yet
   * stored.
   */
  predicate Ready(c: S.Ctx, ps: seq<Pattern>, last: Option<Pattern>)
  {
    match last
    case None => Closed(c, ps)
    case Some(String(s, m)) => Inv(c, ps, s, Out(m)) && c.pending.None? && HasFullPair(s)
    case Some(AnchoredByte(side, b, lo, hi, s)) =>
      && c.pending.Some? && c.pending.value.lo == lo && c.pending.value.hi == hi
      && (side == Left ==>
            && c.pending.value.HaveByte? && c.pending.value.byte == b
            && Inv(c, ps, s, Out({})) && |s| >= S.ANCHORED_BYTE_MATCH_STRING_MIN_BYTES && AnchorStatic(s))
      && (side == Right ==>
            c.pending.value.HaveString? && c.pending.value.bytes == s && Inv(c, ps, [b], Out({})))
    case Some(_) => false
  }

  /** The patterns once `last` is stored too. */
  function Items(ps: seq<Pattern>, last: Option<Pattern>): seq<Pattern>
  {
    if last.Some? then ps + [last.value] else ps
  }

  /** No anchored byte is pending: nothing open, or a string. */
  predicate Loose(c: S.Ctx, ps: seq<Pattern>, last: Option<Pattern>)
  {
    Ready(c, ps, last) && (last.None? || last.value.String?)
  }

  /**
   * Resolving the pending anchored byte, if any, stores it; a string stays
   * open.
   */
  lemma Resolve(c: S.Ctx, pos: Option<nat>, ps: seq<Pattern>, last: Option<Pattern>)
    returns (c1: S.Ctx, ps1: seq<Pattern>, last1: Option<Pattern>)
    requires Ready(c, ps, last)
    ensures S.ResolvePending(c, pos) == Ok(c1)
    ensures Loose(c1, ps1, last1) && Items(ps1, last1) == Items(ps, last)
    ensures last.None? || last.value.String? ==> c1 == c && ps1 == ps && last1 == last
  {
    if last.Some? && last.value.AnchoredByte? {
      c1 := S.ResolvePending(c, pos).value;
      ps1, last1 := ps + [last.value], None;
    } else {
      c1, ps1, last1 := c, ps, last;
    }
  }

  /** Flushing stores an open string; with nothing open it changes nothing. */
  lemma Settle(c: S.Ctx, ps: seq<Pattern>, last: Option<Pattern>) returns (c2: S.Ctx)
    requires Loose(c, ps, last)
    ensures S.FlushMatchBytes(c) == Ok(c2) && Closed(c2, Items(ps, last))
    ensures last.None? ==> c2 == c
  {
    if last.None? {
      c2 := c;
    } else {
      var s := last.value.bytes;
      FlushStaticOk(s, c.staticRange, c.staticRanges);
      c2 := S.FlushMatchBytes(c).value;
    }
  }

  // ------------------------------------------------------------ wildcards

  /** `*` stores whatever is open, then a wildcard, which may not come first. */
  lemma ReadStar(c: S.Ctx, v: Bytes, i: nat, ps: seq<Pattern>, last: Option<Pattern>) returns (d: S.Ctx)
    requires Ready(c, ps, last) && |Items(ps, last)| > 0
    requires i < |v| && v[i] == '*'
    ensures Leads(c, v, i, i + 1, d) && Closed(d, Items(ps, last) + [Wildcard])
  {
    var c1, ps1, last1 := Resolve(c, Some(i), ps, last);
    var c2 := Settle(c1, ps1, last1);
    d := c2.(patterns := c2.patterns + [Wildcard]);
    AfterStep(c, HN, v, i);
    LeadsIntro(c, v, i, i + 1, d);
  }

  // ------------------------------------------------------------ flags

  /** The class a flag's letter names. */
  function ClassOf(m: PatternModifier): CharacterClass
  {
    match FamilyOf(m)
    case Boundary => WordBoundary
    case LineMarker => LineOrFileBoundary
    case WordMarker => NonAlphaChar
  }

  /** A left flag is what `handle_cc_close` makes of its class and negation with no bytes read. */
  lemma ClassOfFlag(m: PatternModifier)
    requires m in LEFT_FLAGS
    ensures PatternModifierOf(ClassOf(m), true, m in NEGATIVE_FLAGS) == m
  {
    var r := PatternModifierOf(ClassOf(m), true, m in NEGATIVE_FLAGS);
    FlagDeterminedByParts(r, m);
  }

  /** The context once a left flag's text is read, its parenthesis opened at `k`. */
  function FlagCtx(c: S.Ctx, k: nat, m: PatternModifier): S.Ctx
  {
    c.(leftParenPos := k, paren := None, negated := false, modifier := c.modifier + {m},
       mask := if FamilyOf(m) == Boundary then S.MaskNone else c.mask,
       curByte := if FamilyOf(m) == Boundary then ByteOf(Util.HexNyble('B', true)) else c.curByte)
  }

  /** `(B)`, `(L)` or `(W)` after `(`, with no bytes read: the class becomes the flag. */
  lemma ReadClass(c: S.Ctx, v: Bytes, i: nat, m: PatternModifier)
    requires m in LEFT_FLAGS && c.matchBytes == [] && c.paren == Some(S.NewParen(c.leftParenPos))
    requires c.negated == (m in NEGATIVE_FLAGS)
    requires i + 2 <= |v| && v[i] == Letter(FamilyOf(m)) && v[i + 1] == ')'
    ensures After(c, HN, v, i, i + 2) == Ok((FlagCtx(c, c.leftParenPos, m), HN))
  {
    ClassOfFlag(m);
    var c1 := c.(paren := Some(c.paren.value.(characterClass := Some(ClassOf(m)))));
    AfterStep(c, HN, v, i);
    AfterThen(c, HN, v, i, i + 1, i + 2);
    if FamilyOf(m) == Boundary {
      var c2 := c1.(mask := S.MaskNone, curByte := ByteOf(Util.HexNyble('B', true)));
      AfterStep(c2, LN, v, i + 1);
    } else {
      AfterStep(c1, S.State.InCharacterClass, v, i + 1);
    }
  }

  /** `(`, or `!(` for a negated flag, with nothing to flush: the parenthesis opens at `k`. */
  lemma OpenFlagParen(c: S.Ctx, v: Bytes, i: nat, neg: bool) returns (k: nat)
    requires c.pending.None? && c.paren.None? && c.matchBytes == [] && !c.negated
    requires (if neg then i + 2 else i + 1) <= |v|
    requires neg ==> v[i] == '!' && v[i + 1] == '('
    requires !neg ==> v[i] == '('
    ensures k == (if neg then i + 1 else i) && k + 1 <= |v|
    ensures After(c, HN, v, i, k + 1) == Ok((c.(leftParenPos := k, negated := neg, paren := Some(S.NewParen(k))), HN))
  {
    k := if neg then i + 1 else i;
    if neg {
      NonMatchStep(c, i, '!');
      AfterStep(c, HN, v, i);
      AfterThen(c, HN, v, i, i + 1, i + 2);
      AfterStep(c, S.State.Negate, v, i + 1);
    } else {
      NonMatchStep(c, i, '(');
      AfterStep(c, HN, v, i);
    }
  }

  /** Where a flag's text puts its `(`, its letter and its `)`. */
  lemma FlagTextAt(v: Bytes, i: nat, m: PatternModifier) returns (k: nat)
    requires i + |ModifierText(m)| <= |v| && v[i..i + |ModifierText(m)|] == ModifierText(m)
    ensures k == (if m in NEGATIVE_FLAGS then i + 1 else i) && k + 3 == i + |ModifierText(m)|
    ensures m in NEGATIVE_FLAGS ==> v[i] == '!'
    ensures v[k] == '(' && v[k + 1] == Letter(FamilyOf(m)) && v[k + 2] == ')'
  {
    var t := ModifierText(m);
    k := if m in NEGATIVE_FLAGS then i + 1 else i;
    var tail := t[|t| - 3..];
    assert tail[0] == t[|t| - 3] && tail[1] == t[|t| - 2] && tail[2] == t[|t| - 1];
    Within(v, i, t, 0, |t|);
    Within(v, i, t, |t| - 3, |t|);
    Within(v, i, t, |t| - 2, |t|);
    Within(v, i, t, |t| - 1, |t|);
  }

  /** Closing the class forgets what opening its parenthesis set. */
  lemma FlagCtxOpened(c: S.Ctx, k: nat, neg: bool, m: PatternModifier)
    ensures FlagCtx(c.(leftParenPos := k, negated := neg, paren := Some(S.NewParen(k))), k, m) == FlagCtx(c, k, m)
  {
  }

  /** A left flag's text, with nothing read, runs to `FlagCtx`. */
  lemma FlagRun(c: S.Ctx, v: Bytes, i: nat, m: PatternModifier) returns (k: nat)
    requires c.pending.None? && c.paren.None? && c.matchBytes == [] && !c.negated && m in LEFT_FLAGS
    requires i + |ModifierText(m)| <= |v| && v[i..i + |ModifierText(m)|] == ModifierText(m)
    ensures Leads(c, v, i, i + |ModifierText(m)|, FlagCtx(c, k, m))
  {
    var neg := m in NEGATIVE_FLAGS;
    k := FlagTextAt(v, i, m);
    var k' := OpenFlagParen(c, v, i, neg);
    assert k' == k;
    var c1 := c.(leftParenPos := k, negated := neg, paren := Some(S.NewParen(k)));
    assert After(c, HN, v, i, k + 1) == Ok((c1, HN));
    ReadClass(c1, v, k + 1, m);
    FlagCtxOpened(c, k, neg, m);
    AfterThen(c, HN, v, i, k + 1, k + 3);
    assert After(c, HN, v, i, k + 3) == Ok((FlagCtx(c, k, m), HN));
    LeadsIntro(c, v, i, k + 3, FlagCtx(c, k, m));
  }

  /** One left flag's text, with no bytes read, adds that flag to the ones waiting. */
  lemma ReadFlag(c: S.Ctx, v: Bytes, i: nat, ps: seq<Pattern>, ms: Flags, m: PatternModifier) returns (d: S.Ctx)
    requires Inv(c, ps, [], Out(ms)) && c.pending.None? && m in LEFT_FLAGS
    requires i + |ModifierText(m)| <= |v| && v[i..i + |ModifierText(m)|] == ModifierText(m)
    ensures Leads(c, v, i, i + |ModifierText(m)|, d)
    ensures Inv(d, ps, [], Out(ms + {m})) && d.pending.None?
  {
    var k := FlagRun(c, v, i, m);
    d := FlagCtx(c, k, m);
  }

  /** The flags a list holds. */
  function FlagSet(fl: seq<PatternModifier>): Flags
  {
    set m | m in fl
  }

  /**
   * `Inv` with no bytes read and the flags `ms` waiting, out of the
   * verifier's sight as `HInv` is, so that a chain of flags does not look
   * into the context.
   */
  ghost predicate FInv(c: S.Ctx, ps: seq<Pattern>, ms: Flags)
  {
    InvBelow(c, ps, [], Out(ms), |ps| + 3) && c.pending.None?
  }

  lemma FInvIs(c: S.Ctx, ps: seq<Pattern>, ms: Flags)
    ensures FInv(c, ps, ms) <==> Inv(c, ps, [], Out(ms)) && c.pending.None?
  {
    InvBelowIs(c, ps, [], Out(ms), |ps| + 3);
  }

  lemma ReadFlagH(c: S.Ctx, v: Bytes, i: nat, ps: seq<Pattern>, ms: Flags, m: PatternModifier) returns (d: S.Ctx)
    requires FInv(c, ps, ms) && m in LEFT_FLAGS
    requires i + |ModifierText(m)| <= |v| && v[i..i + |ModifierText(m)|] == ModifierText(m)
    ensures Leads(c, v, i, i + |ModifierText(m)|, d) && FInv(d, ps, ms + {m})
  {
    FInvIs(c, ps, ms);
    d := ReadFlag(c, v, i, ps, ms, m);
    FInvIs(d, ps, ms + {m});
  }

  /** The texts of left flags, one after the other, add each to the flags waiting. */
  lemma {:induction false} ReadFlagsH(c: S.Ctx, v: Bytes, i: nat, j: nat, fl: seq<PatternModifier>, ps: seq<Pattern>, ms: Flags)
    returns (d: S.Ctx)
    requires FInv(c, ps, ms)
    requires forall k :: 0 <= k < |fl| ==> fl[k] in LEFT_FLAGS
    requires i <= j <= |v| && v[i..j] == FlagsText(fl)
    ensures Leads(c, v, i, j, d) && FInv(d, ps, ms + FlagSet(fl))
    decreases |fl|
  {
    if |fl| == 0 {
      d := c;
      LeadsNothing(c, v, i);
      assert ms + FlagSet(fl) == ms;
    } else {
      var t := ModifierText(fl[0]);
      SplitAt(v, i, FlagsText(fl), t, FlagsText(fl[1..]));
      var c1 := ReadFlagH(c, v, i, ps, ms, fl[0]);
      d := ReadFlagsH(c1, v, i + |t|, j, fl[1..], ps, ms + {fl[0]});
      LeadsThen(c, v, i, i + |t|, j, c1, d);
      FlagSetCons(fl, ms);
    }
  }

  lemma FlagSetCons(fl: seq<PatternModifier>, ms: Flags)
    requires |fl| > 0
    ensures ms + {fl[0]} + FlagSet(fl[1..]) == ms + FlagSet(fl)
  {
    assert fl == [fl[0]] + fl[1..];
  }

  lemma ReadFlags(c: S.Ctx, v: Bytes, i: nat, j: nat, fl: seq<PatternModifier>, ps: seq<Pattern>, ms: Flags)
    returns (d: S.Ctx)
    requires Inv(c, ps, [], Out(ms)) && c.pending.None?
    requires forall k :: 0 <= k < |fl| ==> fl[k] in LEFT_FLAGS
    requires i <= j <= |v| && v[i..j] == FlagsText(fl)
    ensures Leads(c, v, i, j, d)
    ensures Inv(d, ps, [], Out(ms + FlagSet(fl))) && d.pending.None?
  {
    FInvIs(c, ps, ms);
    d := ReadFlagsH(c, v, i, j, fl, ps, ms);
    FInvIs(d, ps, ms + FlagSet(fl));
  }

  /**
   * `(` or `!` starts what follows as if whatever was open had been stored
   * first: `(` flushes it, and `!`, which flushes nothing, comes after no
   * open string.
   */
  lemma SettledStep(c: S.Ctx, i: nat, b: Byte, ps: seq<Pattern>, last: Option<Pattern>) returns (c2: S.Ctx)
    requires Ready(c, ps, last) && (b == '(' || b == '!')
    requires b == '!' ==> last.None? || !last.value.String?
    ensures Closed(c2, Items(ps, last)) && S.Step(c, HN, i, b) == S.Step(c2, HN, i, b)
  {
    var c1, ps1, last1 := Resolve(c, Some(i), ps, last);
    c2 := Settle(c1, ps1, last1);
  }

  lemma MeetOfSubset<T>(a: set<T>, b: set<T>)
    requires a <= b
    ensures a * b == a
  {
  }

  lemma MeetOfDisjoint<T>(a: set<T>, b: set<T>, c: set<T>)
    requires a <= b && b * c == {}
    ensures a * c == {}
  {
  }

  lemma SidesDisjoint()
    ensures LEFT_FLAGS * RIGHT_FLAGS == {}
  {
    forall x | x in LEFT_FLAGS
      ensures x !in RIGHT_FLAGS
    {
      LeftRightPartition(x);
    }
  }

  lemma FlagSetIs(fl: seq<PatternModifier>, m: Flags)
    requires forall x :: x in fl <==> x in m
    ensures FlagSet(fl) == m
  {
  }

  /** A string with left-side flags only is written as its flags, in order, then its bytes. */
  lemma LeftStringText(s: seq<MatchByte>, m: Flags)
    requires m <= LEFT_FLAGS
    ensures StringText(s, m) == FlagsText(Ordered(m)) + MatchBytesText(s)
  {
    MeetOfSubset(m, LEFT_FLAGS);
    SidesDisjoint();
    MeetOfDisjoint(m, LEFT_FLAGS, RIGHT_FLAGS);
    OrderedFlags({});
    var none := Ordered(m * RIGHT_FLAGS);
    assert none == [];
    assert FlagsText(none) == [];
    assert StringText(s, m) == FlagsText(Ordered(m)) + MatchBytesText(s) + FlagsText(none);
  }

  /** The left-side flags in order: each a left flag, all of them, at least one when there are any. */
  lemma OrderedLeft(m: Flags)
    requires m <= LEFT_FLAGS
    ensures FlagSet(Ordered(m)) == m
    ensures forall k :: 0 <= k < |Ordered(m)| ==> Ordered(m)[k] in LEFT_FLAGS
    ensures m != {} ==> |Ordered(m)| > 0
  {
    var fl := Ordered(m);
    OrderedFlags(m);
    FlagSetIs(fl, m);
    if m != {} {
      var x :| x in m;
      assert x in fl;
    }
  }

  /** The first byte of a non-empty run of flags: `!` for a negated first flag, `(` otherwise. */
  lemma FlagsTextFirst(fl: seq<PatternModifier>)
    requires |fl| > 0
    ensures |FlagsText(fl)| > 0 && FlagsText(fl)[0] == if fl[0] in NEGATIVE_FLAGS then '!' else '('
  {
    var t := ModifierText(fl[0]);
    assert FlagsText(fl) == t + FlagsText(fl[1..]);
    if fl[0] !in NEGATIVE_FLAGS {
      assert t[|t| - 3..][0] == '(';
    }
  }

  /** An open string read to its end. */
  lemma StringReady(d: S.Ctx, ps: seq<Pattern>, s: seq<MatchByte>, m: Flags)
    requires Inv(d, ps, s, Out(m)) && d.pending.None? && HasFullPair(s)
    ensures Ready(d, ps, Some(String(s, m)))
  {
  }

  /** A string's bytes, with no flag, where nothing is open. */
  lemma ReadPlainItem(c: S.Ctx, v: Bytes, i: nat, j: nat, ps: seq<Pattern>, s: seq<MatchByte>) returns (d: S.Ctx)
    requires Closed(c, ps) && BytesOk(s) && HasFullPair(s) && |s| <= S.USIZE_MAX
    requires i <= j <= |v| && v[i..j] == MatchBytesText(s)
    ensures Leads(c, v, i, j, d) && Ready(d, ps, Some(String(s, {})))
  {
    FrameAfterIs(Out({}), s);
    d := ReadString(c, v, i, j, s, ps, [], Out({}));
    StringReady(d, ps, s, {});
  }

  /** A string's flags, the first one read where `c` stands, then its bytes. */
  lemma ReadFlaggedItem(c: S.Ctx, c2: S.Ctx, v: Bytes, i: nat, j: nat, ps: seq<Pattern>,
                        s: seq<MatchByte>, fl: seq<PatternModifier>) returns (d: S.Ctx)
    requires Closed(c2, ps) && BytesOk(s) && HasFullPair(s) && |s| <= S.USIZE_MAX
    requires forall k :: 0 <= k < |fl| ==> fl[k] in LEFT_FLAGS
    requires i < |v| && S.Step(c, HN, i, v[i]) == S.Step(c2, HN, i, v[i]) && |fl| > 0
    requires i <= j <= |v| && v[i..j] == FlagsText(fl) + MatchBytesText(s)
    ensures Leads(c, v, i, j, d) && Ready(d, ps, Some(String(s, FlagSet(fl))))
  {
    var x, y := FlagsText(fl), MatchBytesText(s);
    var k := i + |x|;
    SplitBetween(v, i, k, j, x + y, x, y);
    FrameAfterIs(Out(FlagSet(fl)), s);
    var c3 := ReadFlags(c2, v, i, k, fl, ps, {});
    assert {} + FlagSet(fl) == FlagSet(fl);
    d := ReadString(c3, v, k, j, s, ps, [], Out(FlagSet(fl)));
    LeadsThen(c2, v, i, k, j, c3, d);
    LeadsSameStep(c, c2, v, i, j, d);
    StringReady(d, ps, s, FlagSet(fl));
  }

  /** Flagged text starts with its first flag's first byte. */
  lemma FlaggedHead(v: Bytes, i: nat, j: nat, fl: seq<PatternModifier>, s: seq<MatchByte>)
    requires |fl| > 0 && i <= j <= |v| && v[i..j] == FlagsText(fl) + MatchBytesText(s)
    ensures i < j && v[i] == if fl[0] in NEGATIVE_FLAGS then '!' else '('
  {
    var x, y := FlagsText(fl), MatchBytesText(s);
    FlagsTextFirst(fl);
    assert (x + y)[0] == x[0];
    assert v[i] == v[i..j][0];
  }

  /**
   * A string's text, its left-side flags `fl` and then its bytes: after an
   * open string only when its first flag is not negated (a `!` would give
   * the open string a right-side flag), and after an open anchored byte
   * only with a flag, since its bytes would join the anchor's.
   */
  lemma ReadStringItem(c: S.Ctx, v: Bytes, i: nat, j: nat, ps: seq<Pattern>, last: Option<Pattern>,
                       s: seq<MatchByte>, fl: seq<PatternModifier>) returns (d: S.Ctx)
    requires Ready(c, ps, last) && BytesOk(s) && HasFullPair(s) && |s| <= S.USIZE_MAX
    requires forall k :: 0 <= k < |fl| ==> fl[k] in LEFT_FLAGS
    requires last.Some? ==> |fl| > 0
    requires last.Some? && last.value.String? ==> fl[0] !in NEGATIVE_FLAGS
    requires i <= j <= |v| && v[i..j] == FlagsText(fl) + MatchBytesText(s)
    ensures Leads(c, v, i, j, d) && Ready(d, Items(ps, last), Some(String(s, FlagSet(fl))))
  {
    if |fl| == 0 {
      assert FlagSet(fl) == {} && FlagsText(fl) == [];
      assert FlagsText(fl) + MatchBytesText(s) == MatchBytesText(s);
      d := ReadPlainItem(c, v, i, j, ps, s);
    } else {
      FlaggedHead(v, i, j, fl, s);
      var c2 := SettledStep(c, i, v[i], ps, last);
      d := ReadFlaggedItem(c, c2, v, i, j, Items(ps, last), s, fl);
    }
  }

  // ------------------------------------------------------------ byte ranges

  const CBL: S.State := S.State.CurlyBraceLower
  const CBU: S.State := S.State.CurlyBraceUpper

  /**
   * What the closing `}` flushes is what was open before the brace: the
   * fields the brace changed play no part in the flush.
   */
  lemma BraceSettle(c: S.Ctx, i: nat, ps: seq<Pattern>, last: Option<Pattern>) returns (e: S.Ctx)
    requires Loose(c, ps, last)
    ensures S.FlushMatchBytes(c.(leftBracePos := i, decValue := None, curRange := None)) == Ok(e)
    ensures Closed(e, Items(ps, last))
  {
    e := Settle(c.(leftBracePos := i, decValue := None, curRange := None), ps, last);
  }

  /** The context a brace's pieces leave, whatever was open before it already flushed into `e`. */
  function Ranged(e: S.Ctx, r: Util.Range): S.Ctx
  {
    e.(patterns := e.patterns + [ByteRange(r)])
  }


  /** The text of `{n}` or `{n-}`, with the number ending at `k`, split at its number. */
  lemma DecText(v: Bytes, i: nat, k: nat, n: nat, post: Bytes)
    requires 0 < |post| <= 2 && k == i + 1 + |Num.Dec(n)| && k + |post| <= |v|
    requires v[i..k + |post|] == "{" + Num.Dec(n) + post
    ensures v[i] == '{' && v[i + 1..k] == Num.Dec(n) && v[k] == post[0]
    ensures |post| == 2 ==> v[k + 1] == post[1]
  {
    var x, y := "{", Num.Dec(n);
    Split3(v, i, x, y, post);
    assert v[i] == v[i..i + 1][0];
    assert v[k] == v[k..k + |post|][0];
    if |post| == 2 {
      assert v[k + 1] == v[k..k + |post|][1];
    }
  }

  /** `{` then the decimal `n`: the brace is open with `n` as its lower bound. */
  lemma OpenDec(c: S.Ctx, v: Bytes, i: nat, k: nat, n: nat)
    requires c.pending.None? && n <= S.USIZE_MAX
    requires k == i + 1 + |Num.Dec(n)| && k <= |v| && v[i] == '{' && v[i + 1..k] == Num.Dec(n)
    ensures Goes(c, HN, v, i, k, c.(leftBracePos := i, decValue := Some(n)), CBL)
  {
    var cb := c.(leftBracePos := i, decValue := None);
    NonMatchStep(c, i, '{');
    GoesStep(c, HN, v, i, cb, CBL);
    DecGoes(cb, CBL, v, i + 1, k, n);
    GoesThen(c, HN, v, i, i + 1, k, cb, CBL, cb.(decValue := Some(n)), CBL);
  }

  /** The decimal `n`, from `i` to `j`, read in a number state. */
  lemma DecGoes(c: S.Ctx, st: S.State, v: Bytes, i: nat, j: nat, n: nat)
    requires DecState(st) && c.decValue.None? && n <= S.USIZE_MAX && S.Consistent(c, st)
    requires j == i + |Num.Dec(n)| && j <= |v| && v[i..j] == Num.Dec(n)
    ensures Goes(c, st, v, i, j, c.(decValue := Some(n)), st)
  {
    ReadDec(c, st, v, i, j, n);
    GoesIntro(c, st, v, i, j, c.(decValue := Some(n)), st);
  }

  /** `{-` then the decimal `n`, ending at `m`: the brace is open with `n` as its upper bound. */
  lemma OpenDashDec(c: S.Ctx, v: Bytes, i: nat, m: nat, n: nat)
    requires c.pending.None? && n <= S.USIZE_MAX
    requires m == i + 2 + |Num.Dec(n)| && m <= |v| && v[i] == '{' && v[i + 1] == '-' && v[i + 2..m] == Num.Dec(n)
    ensures Goes(c, HN, v, i, m, c.(leftBracePos := i, decValue := Some(n), curRange := None), CBU)
  {
    var cb := c.(leftBracePos := i, decValue := None);
    var cu := c.(leftBracePos := i, decValue := None, curRange := None);
    NonMatchStep(c, i, '{');
    GoesStep(c, HN, v, i, cb, CBL);
    GoesStep(cb, CBL, v, i + 1, cu, CBU);
    DecGoes(cu, CBU, v, i + 2, m, n);
    GoesThen(c, HN, v, i, i + 1, i + 2, cb, CBL, cu, CBU);
    GoesThen(c, HN, v, i, i + 2, m, cu, CBU, cu.(decValue := Some(n)), CBU);
  }

  /** The text of `{-n}` ending at `m + 1`, split at its number. */
  lemma DashDecText(v: Bytes, i: nat, m: nat, n: nat)
    requires m == i + 2 + |Num.Dec(n)| && m < |v| && v[i..m + 1] == "{-" + Num.Dec(n) + "}"
    ensures v[i] == '{' && v[i + 1] == '-' && v[i + 2..m] == Num.Dec(n) && v[m] == '}'
  {
    var x, y, z := "{-", Num.Dec(n), "}";
    Split3(v, i, x, y, z);
    assert v[i] == v[i..i + 2][0] && v[i + 1] == v[i..i + 2][1];
    assert v[m] == v[m..m + 1][0];
  }

  /** `-` after the lower bound `n` of a brace. */
  lemma DashAfterDec(c: S.Ctx, v: Bytes, i: nat, n: nat)
    requires i < |v| && v[i] == '-' && c.decValue == Some(n)
    ensures Goes(c, CBL, v, i, i + 1, c.(curRange := Some(Util.From(n)), decValue := None), CBU)
  {
    GoesStep(c, CBL, v, i, c.(curRange := Some(Util.From(n)), decValue := None), CBU);
  }

  /** `}` after `{n}`, n above 128: what was open is flushed, then the range stored. */
  lemma CloseExact(c: S.Ctx, v: Bytes, i: nat, n: nat, e: S.Ctx)
    requires i < |v| && v[i] == '}'
    requires c.decValue == Some(n) && S.WILDCARD_MANY_MAX < n && |e.patterns| > 0
    requires S.FlushMatchBytes(c.(decValue := None, curRange := None)) == Ok(e)
    ensures Goes(c, CBL, v, i, i + 1, Ranged(e, Util.Exact(n)), HN)
  {
    GoesStep(c, CBL, v, i, Ranged(e, Util.Exact(n)), HN);
  }

  /** `}` in the upper bound: what was open is flushed, then the range stored. */
  lemma CloseUpper(c: S.Ctx, v: Bytes, i: nat, r: Util.Range, e: S.Ctx)
    requires i < |v| && v[i] == '}'
    requires S.UpperBraceRange(c) == Ok(r) && |e.patterns| > 0
    requires S.FlushMatchBytes(c.(decValue := None, curRange := None)) == Ok(e)
    ensures Goes(c, CBU, v, i, i + 1, Ranged(e, r), HN)
  {
    GoesStep(c, CBU, v, i, Ranged(e, r), HN);
  }

  /** `{n}`, n above 128, run with the flush of what was open giving `e`. */
  lemma ExactRun(c: S.Ctx, v: Bytes, i: nat, n: nat, e: S.Ctx)
    requires c.pending.None? && S.WILDCARD_MANY_MAX < n <= S.USIZE_MAX && |e.patterns| > 0
    requires S.FlushMatchBytes(c.(leftBracePos := i, decValue := None, curRange := None)) == Ok(e)
    requires i + |Num.Dec(n)| + 2 <= |v| && v[i..i + |Num.Dec(n)| + 2] == "{" + Num.Dec(n) + "}"
    ensures Leads(c, v, i, i + |Num.Dec(n)| + 2, Ranged(e, Util.Exact(n)))
  {
    var k := i + 1 + |Num.Dec(n)|;
    var cn := c.(leftBracePos := i, decValue := Some(n));
    DecText(v, i, k, n, "}");
    OpenDec(c, v, i, k, n);
    assert cn.(decValue := None, curRange := None) == c.(leftBracePos := i, decValue := None, curRange := None);
    CloseExact(cn, v, k, n, e);
    GoesThen(c, HN, v, i, k, k + 1, cn, CBL, Ranged(e, Util.Exact(n)), HN);
    GoesLeads(c, v, i, k + 1, Ranged(e, Util.Exact(n)));
  }

  /** `{n-}` run with the flush of what was open giving `e`. */
  lemma FromRun(c: S.Ctx, v: Bytes, i: nat, n: nat, e: S.Ctx)
    requires c.pending.None? && n <= S.USIZE_MAX && |e.patterns| > 0
    requires S.FlushMatchBytes(c.(leftBracePos := i, decValue := None, curRange := None)) == Ok(e)
    requires i + |Num.Dec(n)| + 3 <= |v| && v[i..i + |Num.Dec(n)| + 3] == "{" + Num.Dec(n) + "-}"
    ensures Leads(c, v, i, i + |Num.Dec(n)| + 3, Ranged(e, Util.From(n)))
  {
    var k := i + 1 + |Num.Dec(n)|;
    var cn := c.(leftBracePos := i, decValue := Some(n));
    var cu := cn.(curRange := Some(Util.From(n)), decValue := None);
    var d := Ranged(e, Util.From(n));
    DecText(v, i, k, n, "-}");
    OpenDec(c, v, i, k, n);
    DashAfterDec(cn, v, k, n);
    assert cu.(decValue := None, curRange := None) == c.(leftBracePos := i, decValue := None, curRange := None);
    CloseUpper(cu, v, k + 1, Util.From(n), e);
    GoesThen(c, HN, v, i, k, k + 1, cn, CBL, cu, CBU);
    GoesThen(c, HN, v, i, k + 1, k + 2, cu, CBU, d, HN);
    GoesLeads(c, v, i, k + 2, d);
  }

  /** `{-n}` run with the flush of what was open giving `e`. */
  lemma ToInclusiveRun(c: S.Ctx, v: Bytes, i: nat, n: nat, e: S.Ctx)
    requires c.pending.None? && n <= S.USIZE_MAX && |e.patterns| > 0
    requires S.FlushMatchBytes(c.(leftBracePos := i, decValue := None, curRange := None)) == Ok(e)
    requires i + |Num.Dec(n)| + 3 <= |v| && v[i..i + |Num.Dec(n)| + 3] == "{-" + Num.Dec(n) + "}"
    ensures Leads(c, v, i, i + |Num.Dec(n)| + 3, Ranged(e, Util.ToInclusive(n)))
  {
    var m := i + 2 + |Num.Dec(n)|;
    var cn := c.(leftBracePos := i, decValue := Some(n), curRange := None);
    var d := Ranged(e, Util.ToInclusive(n));
    DashDecText(v, i, m, n);
    OpenDashDec(c, v, i, m, n);
    assert cn.(decValue := None, curRange := None) == c.(leftBracePos := i, decValue := None, curRange := None);
    CloseUpper(cn, v, m, Util.ToInclusive(n), e);
    GoesThen(c, HN, v, i, m, m + 1, cn, CBU, d, HN);
    GoesLeads(c, v, i, m + 1, d);
  }

  /** The text of `{lo-hi}` with the decimals `x` ending at `k` and `y` ending at `j`, split at its pieces. */
  lemma InclusiveText(v: Bytes, i: nat, k: nat, j: nat, x: Bytes, y: Bytes)
    requires k == i + 1 + |x| && j == k + 1 + |y| && j < |v| && v[i..j + 1] == "{" + x + "-" + y + "}"
    ensures v[i] == '{' && v[i + 1..k] == x && v[k] == '-' && v[k + 1..j] == y && v[j] == '}'
  {
    var t := "{" + x + "-" + y + "}";
    assert t[0] == '{' && t[1..1 + |x|] == x && t[1 + |x|] == '-';
    assert t[2 + |x|..2 + |x| + |y|] == y && t[2 + |x| + |y|] == '}';
    Within(v, i, t, 0, 1);
    Within(v, i, t, 1, 1 + |x|);
    Within(v, i, t, 1 + |x|, 2 + |x|);
    Within(v, i, t, 2 + |x|, 2 + |x| + |y|);
    Within(v, i, t, 2 + |x| + |y|, |t|);
  }

  /** `{lo-`: the brace is open with `lo` as its lower bound, in the upper bound. */
  lemma OpenLower(c: S.Ctx, v: Bytes, i: nat, k: nat, lo: nat)
    requires c.pending.None? && lo <= S.USIZE_MAX
    requires k == i + 1 + |Num.Dec(lo)| && k < |v| && v[i] == '{' && v[i + 1..k] == Num.Dec(lo) && v[k] == '-'
    ensures Goes(c, HN, v, i, k + 1, c.(leftBracePos := i, curRange := Some(Util.From(lo)), decValue := None), CBU)
  {
    var cn := c.(leftBracePos := i, decValue := Some(lo));
    OpenDec(c, v, i, k, lo);
    DashAfterDec(cn, v, k, lo);
    GoesThen(c, HN, v, i, k, k + 1, cn, CBL, cn.(curRange := Some(Util.From(lo)), decValue := None), CBU);
  }

  /** `hi}` after `{lo-` opened at `k`, lo at most hi. */
  lemma CloseInclusive(c: S.Ctx, k: nat, v: Bytes, i: nat, j: nat, lo: nat, hi: nat, e: S.Ctx)
    requires lo <= hi <= S.USIZE_MAX && |e.patterns| > 0
    requires S.FlushMatchBytes(c.(leftBracePos := k, decValue := None, curRange := None)) == Ok(e)
    requires j == i + |Num.Dec(hi)| && j < |v| && v[i..j] == Num.Dec(hi) && v[j] == '}'
    ensures Goes(c.(leftBracePos := k, curRange := Some(Util.From(lo)), decValue := None), CBU,
      v, i, j + 1, Ranged(e, Util.Inclusive(lo, hi)), HN)
  {
    var cu := c.(leftBracePos := k, curRange := Some(Util.From(lo)), decValue := None);
    var cm := cu.(decValue := Some(hi));
    DecGoes(cu, CBU, v, i, j, hi);
    assert cm.(decValue := None, curRange := None) == c.(leftBracePos := k, decValue := None, curRange := None);
    CloseUpper(cm, v, j, Util.Inclusive(lo, hi), e);
    GoesThen(cu, CBU, v, i, j, j + 1, cm, CBU, Ranged(e, Util.Inclusive(lo, hi)), HN);
  }

  /** `{lo-hi}`, from `i` to `j + 1`, lo at most hi, run with the flush of what was open giving `e`. */
  lemma InclusiveRun(c: S.Ctx, v: Bytes, i: nat, k: nat, j: nat, lo: nat, hi: nat, e: S.Ctx)
    requires c.pending.None? && lo <= hi <= S.USIZE_MAX && |e.patterns| > 0
    requires S.FlushMatchBytes(c.(leftBracePos := i, decValue := None, curRange := None)) == Ok(e)
    requires k == i + 1 + |Num.Dec(lo)| && j == k + 1 + |Num.Dec(hi)| && j < |v|
    requires v[i] == '{' && v[i + 1..k] == Num.Dec(lo) && v[k] == '-' && v[k + 1..j] == Num.Dec(hi) && v[j] == '}'
    ensures Leads(c, v, i, j + 1, Ranged(e, Util.Inclusive(lo, hi)))
  {
    var cu := c.(leftBracePos := i, curRange := Some(Util.From(lo)), decValue := None);
    var d := Ranged(e, Util.Inclusive(lo, hi));
    OpenLower(c, v, i, k, lo);
    CloseInclusive(c, i, v, k + 1, j, lo, hi, e);
    GoesThen(c, HN, v, i, k + 1, j + 1, cu, CBU, d, HN);
    GoesLeads(c, v, i, j + 1, d);
  }

  /**
   * The ranges the parser stores: `{n}` only above 128 (a smaller count is
   * one match byte), and `{lo-hi}` with lo at most hi.
   */
  predicate RangeItem(r: Util.Range)
  {
    match r
    case Exact(n) => S.WILDCARD_MANY_MAX < n <= S.USIZE_MAX
    case ToInclusive(n) => n <= S.USIZE_MAX
    case From(n) => n <= S.USIZE_MAX
    case Inclusive(lo, hi) => lo <= hi <= S.USIZE_MAX
  }

  /**
   * A byte that starts no match byte reads as if the anchored byte pending
   * before it had been stored already; a string stays open.
   */
  lemma ResolvedStep(c: S.Ctx, i: nat, b: Byte, ps: seq<Pattern>, last: Option<Pattern>)
    returns (c1: S.Ctx, ps1: seq<Pattern>, last1: Option<Pattern>)
    requires Ready(c, ps, last) && !IsHexDigit(b) && b != 'L' && b != 'W' && b != '?'
    ensures Loose(c1, ps1, last1) && Items(ps1, last1) == Items(ps, last) && c1.pending.None?
    ensures S.Step(c, HN, i, b) == S.Step(c1, HN, i, b)
  {
    c1, ps1, last1 := Resolve(c, Some(i), ps, last);
  }

  /** Storing a range keeps a closed context closed. */
  lemma RangedClosed(e: S.Ctx, ps: seq<Pattern>, r: Util.Range)
    requires Closed(e, ps)
    ensures Closed(Ranged(e, r), ps + [ByteRange(r)])
  {
  }

  /** The text of a stored range, in the form each run reads it. */
  lemma RangePieces(v: Bytes, i: nat, r: Util.Range)
    requires i + |PatternText(ByteRange(r))| <= |v| && v[i..i + |PatternText(ByteRange(r))|] == PatternText(ByteRange(r))
    ensures r.Exact? ==> (
      |PatternText(ByteRange(r))| == |Num.Dec(r.n)| + 2 &&
      v[i..i + |Num.Dec(r.n)| + 2] == "{" + Num.Dec(r.n) + "}")
    ensures r.From? ==> (
      |PatternText(ByteRange(r))| == |Num.Dec(r.start)| + 3 &&
      v[i..i + |Num.Dec(r.start)| + 3] == "{" + Num.Dec(r.start) + "-}")
    ensures r.ToInclusive? ==> (
      |PatternText(ByteRange(r))| == |Num.Dec(r.end)| + 3 &&
      v[i..i + |Num.Dec(r.end)| + 3] == "{-" + Num.Dec(r.end) + "}")
  {
    match r {
      case Exact(n) =>
      case From(n) =>
        assert "{" + (Num.Dec(n) + "-") + "}" == "{" + Num.Dec(n) + "-}";
      case ToInclusive(n) =>
        assert "{" + ("-" + Num.Dec(n)) + "}" == "{-" + Num.Dec(n) + "}";
      case Inclusive(_, _) =>
    }
  }

  /** The text of a stored range, read with the flush of what was open giving `e`. */
  lemma RangeTextRun(c: S.Ctx, v: Bytes, i: nat, r: Util.Range, e: S.Ctx)
    requires c.pending.None? && RangeItem(r) && !r.Inclusive? && |e.patterns| > 0
    requires S.FlushMatchBytes(c.(leftBracePos := i, decValue := None, curRange := None)) == Ok(e)
    requires i + |PatternText(ByteRange(r))| <= |v| && v[i..i + |PatternText(ByteRange(r))|] == PatternText(ByteRange(r))
    ensures Leads(c, v, i, i + |PatternText(ByteRange(r))|, Ranged(e, r))
  {
    RangePieces(v, i, r);
    match r {
      case Exact(n) => ExactRun(c, v, i, n, e);
      case From(n) => FromRun(c, v, i, n, e);
      case ToInclusive(n) => ToInclusiveRun(c, v, i, n, e);
    }
  }

  /** The text of a stored `{lo-hi}`, read with the flush of what was open giving `e`. */
  lemma InclusiveTextRun(c: S.Ctx, v: Bytes, i: nat, lo: nat, hi: nat, e: S.Ctx)
    requires c.pending.None? && lo <= hi <= S.USIZE_MAX && |e.patterns| > 0
    requires S.FlushMatchBytes(c.(leftBracePos := i, decValue := None, curRange := None)) == Ok(e)
    requires var t := PatternText(ByteRange(Util.Inclusive(lo, hi))); i + |t| <= |v| && v[i..i + |t|] == t
    ensures Leads(c, v, i, i + |PatternText(ByteRange(Util.Inclusive(lo, hi)))|, Ranged(e, Util.Inclusive(lo, hi)))
  {
    var x, y := Num.Dec(lo), Num.Dec(hi);
    var k := i + 1 + |x|;
    var j := k + 1 + |y|;
    assert PatternText(ByteRange(Util.Inclusive(lo, hi))) == "{" + x + "-" + y + "}";
    InclusiveText(v, i, k, j, x, y);
    InclusiveRun(c, v, i, k, j, lo, hi, e);
  }

  /** A range's text, run with the flush of what was open giving `e`. */
  lemma RangeRun(c: S.Ctx, v: Bytes, i: nat, r: Util.Range, e: S.Ctx)
    requires c.pending.None? && RangeItem(r) && |e.patterns| > 0
    requires S.FlushMatchBytes(c.(leftBracePos := i, decValue := None, curRange := None)) == Ok(e)
    requires i + |PatternText(ByteRange(r))| <= |v| && v[i..i + |PatternText(ByteRange(r))|] == PatternText(ByteRange(r))
    ensures Leads(c, v, i, i + |PatternText(ByteRange(r))|, Ranged(e, r))
  {
    if r.Inclusive? {
      InclusiveTextRun(c, v, i, r.start, r.end, e);
    } else {
      RangeTextRun(c, v, i, r, e);
    }
  }

  /**
   * The text of a byte range after any patterns stores whatever was open,
   * then the range.
   */
  lemma ReadRangeItem(c: S.Ctx, v: Bytes, i: nat, ps: seq<Pattern>, last: Option<Pattern>, r: Util.Range)
    returns (d: S.Ctx)
    requires Ready(c, ps, last) && |Items(ps, last)| > 0 && RangeItem(r)
    requires i + |PatternText(ByteRange(r))| <= |v| && v[i..i + |PatternText(ByteRange(r))|] == PatternText(ByteRange(r))
    ensures Leads(c, v, i, i + |PatternText(ByteRange(r))|, d) && Closed(d, Items(ps, last) + [ByteRange(r)])
  {
    var j := i + |PatternText(ByteRange(r))|;
    assert v[i] == PatternText(ByteRange(r))[0];
    var c1, ps1, last1 := ResolvedStep(c, i, '{', ps, last);
    var e := BraceSettle(c1, i, ps1, last1);
    RangeRun(c1, v, i, r, e);
    d := Ranged(e, r);
    LeadsSameStep(c, c1, v, i, j, d);
    RangedClosed(e, Items(ps, last), r);
  }
}
