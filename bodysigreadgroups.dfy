/**
 * Reading the text of a group of alternatives (src/signature/bodysig/altstr.rs,
 * exported by src/signature/bodysig/pattern.rs) with the parser of
 * src/signature/bodysig/parse.rs: `(` or `!(`, the alternatives separated by
 * `|`, then `)`. The parser collects the alternatives back to back in its
 * parenthetical context and decides at `)` whether the group is fixed-width
 * or generic.
 */
module BodySigReadGroups {
  import opened Wrappers
  import opened ByteStr
  import opened TextAt
  import Collect
  import opened Patterns
  import S = BodySigParse
  import opened BodySigRuns
  import opened BodySigReadBack
  import opened BodySigReadItems
  import opened BodySigGroupText

  // ------------------------------------------------------------ the fold

  /** The parenthetical context once the alternative `a`, read after `pa`, is closed by `|` or `)`. */
  function AltStep(pa: S.Paren, a: seq<MatchByte>): S.Paren
  {
    S.PushAlternativeString(pa.(isGeneric := pa.isGeneric || !AllFull(a)), a, false).value
  }

  /** The context after the alternatives `alts`, each closed. */
  function Grouped(pa: S.Paren, alts: seq<seq<MatchByte>>): S.Paren
    decreases |alts|
  {
    if |alts| == 0 then pa else Grouped(AltStep(pa, alts[0]), alts[1..])
  }

  /** The index ranges of alternatives stored back to back from `n` on. */
  function RangesFrom(n: nat, alts: seq<seq<MatchByte>>): seq<(nat, nat)>
    decreases |alts|
  {
    if |alts| == 0 then [] else [(n, n + |alts[0]|)] + RangesFrom(n + |alts[0]|, alts[1..])
  }

  /** An alternative that makes a group generic when the first one is `w` long. */
  predicate Odd(a: seq<MatchByte>, w: nat)
  {
    !AllFull(a) || |a| == 0 || |a| != w
  }

  predicate AnyOdd(alts: seq<seq<MatchByte>>, w: nat)
    decreases |alts|
  {
    |alts| > 0 && (Odd(alts[0], w) || AnyOdd(alts[1..], w))
  }

  /**
   * The alternatives make a generic group: one of them holds a byte that is
   * not a full byte, is empty, or differs in length from the first.
   */
  predicate GenericAlts(alts: seq<seq<MatchByte>>)
  {
    |alts| > 0 && (Odd(alts[0], |alts[0]|) || AnyOdd(alts[1..], |alts[0]|))
  }

  /** The alternatives are stored back to back, each with its index range. */
  lemma {:induction false} GroupedData(pa: S.Paren, alts: seq<seq<MatchByte>>)
    ensures Grouped(pa, alts) == pa.(astrData := pa.astrData + Concat(alts),
      ranges := pa.ranges + RangesFrom(|pa.astrData|, alts), isGeneric := Grouped(pa, alts).isGeneric)
    decreases |alts|
  {
    if |alts| > 0 {
      var pb := AltStep(pa, alts[0]);
      GroupedData(pb, alts[1..]);
      assert pa.astrData + Concat(alts) == pb.astrData + Concat(alts[1..]);
    }
  }

  /** Past the first alternative, a group turns generic exactly at an odd alternative. */
  lemma {:induction false} GroupedGeneric(pa: S.Paren, alts: seq<seq<MatchByte>>, w: nat)
    requires |pa.ranges| > 0 && pa.ranges[0].1 as int - pa.ranges[0].0 as int == w
    ensures Grouped(pa, alts).isGeneric == (pa.isGeneric || AnyOdd(alts, w))
    decreases |alts|
  {
    if |alts| > 0 {
      GroupedGeneric(AltStep(pa, alts[0]), alts[1..], w);
    }
  }

  /** From an empty context, the group is generic exactly when its alternatives say so. */
  lemma FirstGeneric(pa: S.Paren, alts: seq<seq<MatchByte>>)
    requires pa.ranges == [] && |alts| > 0
    ensures Grouped(pa, alts).isGeneric == (pa.isGeneric || GenericAlts(alts))
  {
    var pb := AltStep(pa, alts[0]);
    GroupedGeneric(pb, alts[1..], |alts[0]|);
  }

  /** Alternatives that are all full and all `w` long have nothing odd. */
  lemma {:induction false} EvenAlts(alts: seq<seq<MatchByte>>, w: nat)
    requires w > 0 && forall k :: 0 <= k < |alts| ==> AllFull(alts[k]) && |alts[k]| == w
    ensures !AnyOdd(alts, w)
    decreases |alts|
  {
    if |alts| > 0 {
      EvenAlts(alts[1..], w);
    }
  }

  // ------------------------------------------------------------ the steps

  /** The pattern a closed group becomes: generic, or fixed-width and possibly negated. */
  function GroupOf(pa: S.Paren, neg: bool): AltStrings
    requires |pa.ranges| > 0
  {
    if pa.isGeneric then Generic(pa.ranges, pa.astrData) else FixedWidth(neg, pa.ranges[0].1, pa.astrData)
  }

  /** Inside a group, in the frame the alternative `a` leaves, after `pa`. */
  function InAlt(pa: S.Paren, neg: bool, a: seq<MatchByte>): Frame
  {
    FrameAfter(Frame({}, Some(pa), neg), a)
  }

  /** `|` closes the alternative `a` and starts an empty one. */
  lemma PipeStep(c: S.Ctx, v: Bytes, i: nat, ps: seq<Pattern>, a: seq<MatchByte>, pa: S.Paren, neg: bool)
    requires Inv(c, ps, a, InAlt(pa, neg, a)) && c.pending.None?
    requires i < |v| && v[i] == '|'
    ensures Leads(c, v, i, i + 1, c.(paren := Some(AltStep(pa, a)), matchBytes := []))
    ensures Inv(c.(paren := Some(AltStep(pa, a)), matchBytes := []), ps, [], Frame({}, Some(AltStep(pa, a)), neg))
  {
    FrameAfterIs(Frame({}, Some(pa), neg), a);
    NonMatchStep(c, i, '|');
    AfterStep(c, HN, v, i);
    LeadsIntro(c, v, i, i + 1, c.(paren := Some(AltStep(pa, a)), matchBytes := []));
  }

  /** `)` closes the alternative `a` and stores the group. */
  lemma CloseStep(c: S.Ctx, v: Bytes, i: nat, ps: seq<Pattern>, a: seq<MatchByte>, pa: S.Paren, neg: bool)
    returns (d: S.Ctx)
    requires Inv(c, ps, a, InAlt(pa, neg, a)) && c.pending.None?
    requires |pa.astrData| + |a| > 0 && !(AltStep(pa, a).isGeneric && neg)
    requires i < |v| && v[i] == ')'
    ensures |AltStep(pa, a).ranges| > 0
    ensures Leads(c, v, i, i + 1, d) && Closed(d, ps + [AlternativeStrings(GroupOf(AltStep(pa, a), neg))])
  {
    FrameAfterIs(Frame({}, Some(pa), neg), a);
    var pb := AltStep(pa, a);
    assert S.PushAlternativeString(c.paren.value, a, true) == Ok(pb);
    var c1 := c.(paren := None, matchBytes := []);
    d := S.PushGroup(c1, pb).value;
    assert d == c1.(patterns := ps + [AlternativeStrings(GroupOf(pb, neg))], negated := false);
    NonMatchStep(c, i, ')');
    AfterStep(c, HN, v, i);
    LeadsIntro(c, v, i, i + 1, d);
  }

  /** `PipeStep` with the invariant hidden: `c1` is the context after `|`. */
  lemma PipeStepH(c: S.Ctx, v: Bytes, i: nat, k: nat, ps: seq<Pattern>, a: seq<MatchByte>, pa: S.Paren, neg: bool)
    returns (c1: S.Ctx)
    requires HInv(c, ps, a, InAlt(pa, neg, a)) && c.pending.None?
    requires i < |v| && v[i] == '|' && k == i + 1
    ensures Leads(c, v, i, k, c1) && c1.pending.None?
    ensures HInv(c1, ps, [], Frame({}, Some(AltStep(pa, a)), neg))
  {
    c1 := c.(paren := Some(AltStep(pa, a)), matchBytes := []);
    HInvIs(c, ps, a, InAlt(pa, neg, a));
    PipeStep(c, v, i, ps, a, pa, neg);
    HInvIs(c1, ps, [], Frame({}, Some(AltStep(pa, a)), neg));
  }

  /** `CloseStep` with the invariant hidden. */
  lemma CloseStepH(c: S.Ctx, v: Bytes, i: nat, ps: seq<Pattern>, a: seq<MatchByte>, pa: S.Paren, neg: bool)
    returns (d: S.Ctx)
    requires HInv(c, ps, a, InAlt(pa, neg, a)) && c.pending.None?
    requires |pa.astrData| + |a| > 0 && !(AltStep(pa, a).isGeneric && neg)
    requires i < |v| && v[i] == ')'
    ensures |AltStep(pa, a).ranges| > 0
    ensures Leads(c, v, i, i + 1, d) && Closed(d, ps + [AlternativeStrings(GroupOf(AltStep(pa, a), neg))])
  {
    HInvIs(c, ps, a, InAlt(pa, neg, a));
    d := CloseStep(c, v, i, ps, a, pa, neg);
  }

  /** An alternative read from its start. */
  lemma ReadAlt(c: S.Ctx, v: Bytes, i: nat, j: nat, ps: seq<Pattern>, pa: S.Paren, neg: bool, b: seq<MatchByte>)
    returns (d: S.Ctx)
    requires HInv(c, ps, [], Frame({}, Some(pa), neg)) && c.pending.None?
    requires BytesOk(b) && |b| <= S.USIZE_MAX
    requires j == i + |MatchBytesText(b)| && j <= |v| && v[i..j] == MatchBytesText(b)
    ensures Leads(c, v, i, j, d)
    ensures HInv(d, ps, b, InAlt(pa, neg, b)) && d.pending.None?
  {
    d := ReadStringH(c, v, i, j, b, ps, [], Frame({}, Some(pa), neg));
    assert [] + b == b;
  }

  /** `|` then the alternative `b`. */
  lemma NextAlt(c: S.Ctx, v: Bytes, i: nat, j: nat, ps: seq<Pattern>, a: seq<MatchByte>, pa: S.Paren, neg: bool, b: seq<MatchByte>)
    returns (d: S.Ctx)
    requires HInv(c, ps, a, InAlt(pa, neg, a)) && c.pending.None?
    requires BytesOk(b) && |b| <= S.USIZE_MAX
    requires j == i + 1 + |MatchBytesText(b)| && j <= |v| && v[i] == '|' && v[i + 1..j] == MatchBytesText(b)
    ensures Leads(c, v, i, j, d)
    ensures HInv(d, ps, b, InAlt(AltStep(pa, a), neg, b)) && d.pending.None?
  {
    var k := i + 1;
    var c1 := PipeStepH(c, v, i, k, ps, a, pa, neg);
    d := ReadAlt(c1, v, k, j, ps, AltStep(pa, a), neg, b);
    LeadsThen(c, v, i, k, j, c1, d);
  }

  /** Alternatives the parser can read back: each within the length limit and well formed. */
  predicate AltsOk(alts: seq<seq<MatchByte>>)
  {
    forall k :: 0 <= k < |alts| ==> BytesOk(alts[k]) && |alts[k]| <= S.USIZE_MAX
  }

  lemma AltsOkTail(alts: seq<seq<MatchByte>>)
    requires AltsOk(alts) && |alts| > 0
    ensures BytesOk(alts[0]) && |alts[0]| <= S.USIZE_MAX && AltsOk(alts[1..])
  {
    assert forall k :: 0 <= k < |alts| - 1 ==> alts[1..][k] == alts[k + 1];
  }

  /** `)` right after the last alternative `a`. */
  lemma LastAlt(c: S.Ctx, v: Bytes, i: nat, ps: seq<Pattern>, a: seq<MatchByte>,
    rest: seq<seq<MatchByte>>, pa: S.Paren, neg: bool) returns (d: S.Ctx)
    requires HInv(c, ps, a, InAlt(pa, neg, a)) && c.pending.None?
    requires |pa.astrData| + |a| > 0 && |rest| == 0
    requires !(Grouped(pa, [a] + rest).isGeneric && neg)
    requires TailAt(v, i, rest)
    ensures |Grouped(pa, [a] + rest).ranges| > 0
    ensures Leads(c, v, i, TailEnd(i, rest), d)
    ensures Closed(d, ps + [AlternativeStrings(GroupOf(Grouped(pa, [a] + rest), neg))])
  {
    assert rest == [] && TailText(rest) == [];
    assert [a] + rest == [a] && [a][1..] == [];
    assert Grouped(pa, [a]) == AltStep(pa, a);
    assert v[i] == v[i..i + 1][0];
    d := CloseStepH(c, v, i, ps, a, pa, neg);
  }

  /** The fold over `[a] + rest` is the fold over `rest` after `a`. */
  lemma GroupedCons(pa: S.Paren, a: seq<MatchByte>, rest: seq<seq<MatchByte>>)
    requires |rest| > 0
    ensures Grouped(pa, [a] + rest) == Grouped(AltStep(pa, a), [rest[0]] + rest[1..])
    ensures |AltStep(pa, a).astrData| == |pa.astrData| + |a|
  {
    assert ([a] + rest)[1..] == rest;
    assert [rest[0]] + rest[1..] == rest;
  }

  /** What the rest of the group needs once `|` and the next alternative are read. */
  lemma AdvanceText(v: Bytes, i: nat, a: seq<MatchByte>, rest: seq<seq<MatchByte>>, pa: S.Paren) returns (j: nat)
    requires |rest| > 0 && AltsOk(rest) && TailAt(v, i, rest)
    ensures j == i + 1 + |MatchBytesText(rest[0])|
    ensures BytesOk(rest[0]) && |rest[0]| <= S.USIZE_MAX
    ensures j <= |v| && v[i] == '|' && v[i + 1..j] == MatchBytesText(rest[0])
    ensures AltsOk(rest[1..]) && TailAt(v, j, rest[1..]) && TailEnd(j, rest[1..]) == TailEnd(i, rest)
    ensures Grouped(pa, [a] + rest) == Grouped(AltStep(pa, a), [rest[0]] + rest[1..])
    ensures |AltStep(pa, a).astrData| == |pa.astrData| + |a|
  {
    j := i + 1 + |MatchBytesText(rest[0])|;
    GroupedCons(pa, a, rest);
    AltsOkTail(rest);
    TailPieces(v, i, rest);
  }

  /**
   * After the alternative `a`, the others and `)`: the group is stored as
   * the parser's fold over all its alternatives makes it.
   */
  lemma {:induction false} ReadAltTail(c: S.Ctx, v: Bytes, i: nat, ps: seq<Pattern>, a: seq<MatchByte>,
    rest: seq<seq<MatchByte>>, pa: S.Paren, neg: bool) returns (d: S.Ctx)
    requires HInv(c, ps, a, InAlt(pa, neg, a)) && c.pending.None?
    requires |pa.astrData| + |a| > 0
    requires AltsOk(rest)
    requires !(Grouped(pa, [a] + rest).isGeneric && neg)
    requires TailAt(v, i, rest)
    ensures |Grouped(pa, [a] + rest).ranges| > 0
    ensures Leads(c, v, i, TailEnd(i, rest), d)
    ensures Closed(d, ps + [AlternativeStrings(GroupOf(Grouped(pa, [a] + rest), neg))])
    decreases |rest|
  {
    if |rest| == 0 {
      d := LastAlt(c, v, i, ps, a, rest, pa, neg);
    } else {
      var j := AdvanceText(v, i, a, rest, pa);
      var c2 := NextAlt(c, v, i, j, ps, a, pa, neg, rest[0]);
      d := ReadAltTail(c2, v, j, ps, rest[0], rest[1..], AltStep(pa, a), neg);
      LeadsThen(c, v, i, j, TailEnd(i, rest), c2, d);
    }
  }

  // ------------------------------------------------------------ whole groups

  /** The alternatives of a group, as its text lists them. */
  function GroupAlts(g: AltStrings): seq<seq<MatchByte>>
    requires AltExportable(g)
  {
    match g
    case FixedWidth(_, w, data) => Chunks(data, w)
    case Generic(ranges, data) => Slices(ranges, data)
  }

  /**
   * Alternatives a group's text can hold: at least one, the first one
   * non-empty and not starting with `{n}`, each well formed.
   */
  predicate AltsFit(alts: seq<seq<MatchByte>>)
  {
    |alts| > 0 && |alts[0]| > 0 && !alts[0][0].WildcardMany? && AltsOk(alts)
  }

  /**
   * A group the parser stores as it was: a fixed-width one has alternatives
   * of full bytes only, all as wide as it says; a generic one lists its
   * alternatives back to back in order, and they are ones that make a group
   * generic (one of them not full bytes only, empty, or of another length).
   */
  predicate GroupItem(g: AltStrings)
  {
    && AltExportable(g) && AltsFit(GroupAlts(g))
    && match g
       case FixedWidth(_, w, _) =>
         forall k :: 0 <= k < |GroupAlts(g)| ==> AllFull(GroupAlts(g)[k]) && |GroupAlts(g)[k]| == w
       case Generic(ranges, data) =>
         ranges == RangesFrom(0, GroupAlts(g)) && Concat(GroupAlts(g)) == data && GenericAlts(GroupAlts(g))
  }

  /** Whether the group is written with `!`. */
  predicate Negated(g: AltStrings)
  {
    g.FixedWidth? && g.negated
  }

  /** The parenthetical context at a group's first byte, once the flush has happened. */
  function Opened(p: nat): S.Paren
  {
    S.NewParen(p).(flushed := true)
  }

  /** The group the parser builds from a group's alternatives is that group. */
  lemma GroupOfItem(g: AltStrings, p: nat)
    requires GroupItem(g)
    ensures |Grouped(Opened(p), GroupAlts(g)).ranges| > 0
    ensures !(Grouped(Opened(p), GroupAlts(g)).isGeneric && Negated(g))
    ensures GroupOf(Grouped(Opened(p), GroupAlts(g)), Negated(g)) == g
  {
    var q := Grouped(Opened(p), GroupAlts(g));
    GroupedFacts(GroupAlts(g), p, q);
    if g.FixedWidth? {
      FixedGroupOf(g, q);
    } else {
      GenericGroupOf(g, q);
    }
  }

  /** What the fold over a group's alternatives keeps: the ranges, the data and whether it is generic. */
  lemma GroupedFacts(alts: seq<seq<MatchByte>>, p: nat, q: S.Paren)
    requires |alts| > 0 && q == Grouped(Opened(p), alts)
    ensures q.ranges == RangesFrom(0, alts) && q.astrData == Concat(alts)
    ensures q.isGeneric == GenericAlts(alts) && |q.ranges| > 0 && q.ranges[0] == (0, |alts[0]|)
  {
    var pa := Opened(p);
    GroupedData(pa, alts);
    FirstGeneric(pa, alts);
    assert RangesFrom(0, alts)[0] == (0, |alts[0]|);
  }

  /** `GroupOfItem` for a fixed-width group: its even alternatives leave the group fixed-width. */
  lemma FixedGroupOf(g: AltStrings, q: S.Paren)
    requires GroupItem(g) && g.FixedWidth?
    requires q.ranges == RangesFrom(0, GroupAlts(g)) && q.astrData == Concat(GroupAlts(g))
    requires q.isGeneric == GenericAlts(GroupAlts(g)) && |q.ranges| > 0 && q.ranges[0] == (0, |GroupAlts(g)[0]|)
    ensures !q.isGeneric && GroupOf(q, Negated(g)) == g
  {
    var alts := GroupAlts(g);
    ChunksShape(g.data, g.width);
    EvenAlts(alts[1..], g.width);
    assert !GenericAlts(alts);
  }

  /** `GroupOfItem` for a generic group: its ranges and data are the ones stored. */
  lemma GenericGroupOf(g: AltStrings, q: S.Paren)
    requires GroupItem(g) && g.Generic?
    requires q.ranges == RangesFrom(0, GroupAlts(g)) && q.astrData == Concat(GroupAlts(g))
    requires q.isGeneric == GenericAlts(GroupAlts(g)) && |q.ranges| > 0
    ensures q.isGeneric && !Negated(g) && GroupOf(q, Negated(g)) == g
  {
  }

  /** A group's text: `!` for a negated one, then its alternatives between parentheses. */
  lemma GroupTextIs(g: AltStrings)
    requires GroupItem(g)
    ensures PatternText(AlternativeStrings(g)) ==
      (if Negated(g) then "!" else "") + "(" + MatchBytesText(GroupAlts(g)[0]) + TailText(GroupAlts(g)[1..]) + ")"
  {
    AltTextIs(GroupAlts(g));
  }

  /** `(` stores whatever was open and opens a group. */
  lemma OpenPlain(c: S.Ctx, v: Bytes, i: nat, ps: seq<Pattern>, last: Option<Pattern>) returns (e: S.Ctx)
    requires Ready(c, ps, last)
    requires i < |v| && v[i] == '('
    ensures Closed(e, Items(ps, last))
    ensures Leads(c, v, i, i + 1, e.(leftParenPos := i, paren := Some(S.NewParen(i))))
  {
    var c1, ps1, last1 := Resolve(c, Some(i), ps, last);
    e := Settle(c1, ps1, last1);
    AfterStep(c, HN, v, i);
    LeadsIntro(c, v, i, i + 1, e.(leftParenPos := i, paren := Some(S.NewParen(i))));
  }

  /** At the first byte of a group opened by `(`, the flush has nothing left to store. */
  lemma PlainFlush(e: S.Ctx, p: nat, ps: seq<Pattern>)
    requires Closed(e, ps)
    ensures S.FlushInParen(e.(leftParenPos := p, paren := Some(S.NewParen(p)))) == Ok(e.(leftParenPos := p, paren := Some(Opened(p))))
    ensures Inv(e.(leftParenPos := p, paren := Some(Opened(p))), ps, [], Frame({}, Some(Opened(p)), false))
    ensures e.pending.None?
  {
  }

  /** `!(` leaves an open string open and opens a negated group. */
  lemma OpenNegated(c: S.Ctx, v: Bytes, i: nat, ps: seq<Pattern>, last: Option<Pattern>)
    returns (c1: S.Ctx, ps1: seq<Pattern>, last1: Option<Pattern>)
    requires Ready(c, ps, last)
    requires i + 1 < |v| && v[i] == '!' && v[i + 1] == '('
    ensures Loose(c1, ps1, last1) && Items(ps1, last1) == Items(ps, last) && c1.pending.None?
    ensures Leads(c, v, i, i + 2, c1.(leftParenPos := i + 1, negated := true, paren := Some(S.NewParen(i + 1))))
  {
    c1, ps1, last1 := ResolvedStep(c, i, '!', ps, last);
    var g := c1.(leftParenPos := i + 1, negated := true, paren := Some(S.NewParen(i + 1)));
    GoesStep(c, HN, v, i, c1, S.State.Negate);
    GoesStep(c1, S.State.Negate, v, i + 1, g, HN);
    GoesThen(c, HN, v, i, i + 1, i + 2, c1, S.State.Negate, g, HN);
    GoesLeads(c, v, i, i + 2, g);
  }

  /** Storing the open string does not look at the fields a group's opening sets. */
  lemma PushStringMoves(c: S.Ctx, p: nat, x: Option<S.Paren>)
    requires S.PushString(c).Ok?
    ensures S.PushString(c.(leftParenPos := p, negated := true, paren := x)) ==
      Ok(S.PushString(c).value.(leftParenPos := p, negated := true, paren := x))
  {
  }

  /** At the first byte of a group opened by `!(`, the flush stores the string left open before it. */
  lemma NegatedFlush(c1: S.Ctx, p: nat, ps: seq<Pattern>, last: Option<Pattern>) returns (e: S.Ctx)
    requires Loose(c1, ps, last)
    ensures S.FlushInParen(c1.(leftParenPos := p, negated := true, paren := Some(S.NewParen(p)))) == Ok(e)
    ensures Inv(e, Items(ps, last), [], Frame({}, Some(Opened(p)), true)) && e.pending.None?
  {
    var c2 := Settle(c1, ps, last);
    PushStringMoves(c1, p, Some(Opened(p)));
    e := c2.(leftParenPos := p, negated := true, paren := Some(Opened(p)));
  }

  /** A group's first byte; the flush that comes with it leaves `e`. */
  lemma FirstByte(g: S.Ctx, e: S.Ctx, v: Bytes, j: nat, k: nat, ps: seq<Pattern>, mb: MatchByte, pa: S.Paren, neg: bool)
    returns (d: S.Ctx)
    requires S.FlushInParen(g) == Ok(e) && Inv(e, ps, [], Frame({}, Some(pa), neg)) && e.pending.None?
    requires ByteOk(mb) && !mb.WildcardMany?
    requires k == j + |MatchByteText(mb)| && k <= |v| && v[j..k] == MatchByteText(mb)
    ensures Leads(g, v, j, k, d)
    ensures HInv(d, ps, [mb], FrameByte(Frame({}, Some(pa), neg), mb)) && d.pending.None?
  {
    ReadByte(g, v, j, mb, e);
    d := S.PushMatchByte(Prepared(e, mb, j), mb, j);
    LeadsIntro(g, v, j, k, d);
    PreparedKeeps(e, mb, j, ps, [], Frame({}, Some(pa), neg));
    PushKeepsInv(Prepared(e, mb, j), mb, j, ps, [], Frame({}, Some(pa), neg));
    assert [] + [mb] == [mb];
    HInvIs(d, ps, [mb], FrameByte(Frame({}, Some(pa), neg), mb));
  }

  /** The first alternative `a`, read where the group opened. */
  lemma ReadFirstAlt(g: S.Ctx, e: S.Ctx, v: Bytes, j: nat, end: nat, ps: seq<Pattern>, a: seq<MatchByte>, pa: S.Paren, neg: bool)
    returns (d: S.Ctx)
    requires S.FlushInParen(g) == Ok(e) && Inv(e, ps, [], Frame({}, Some(pa), neg)) && e.pending.None?
    requires |a| > 0 && !a[0].WildcardMany? && BytesOk(a) && |a| <= S.USIZE_MAX
    requires end == j + |MatchBytesText(a)| && end <= |v| && v[j..end] == MatchBytesText(a)
    ensures Leads(g, v, j, end, d)
    ensures HInv(d, ps, a, InAlt(pa, neg, a)) && d.pending.None?
  {
    BytesTail(a);
    var k := FirstAt(v, j, end, a);
    var d1 := FirstByte(g, e, v, j, k, ps, a[0], pa, neg);
    d := ReadStringH(d1, v, k, end, a[1..], ps, [a[0]], FrameByte(Frame({}, Some(pa), neg), a[0]));
    assert [a[0]] + a[1..] == a;
    assert FrameAfter(FrameByte(Frame({}, Some(pa), neg), a[0]), a[1..]) == InAlt(pa, neg, a);
    LeadsThen(g, v, j, k, end, d1, d);
  }

  /** The alternatives `alts` and `)`, read where the group opened. */
  lemma ReadGroupBody(g: S.Ctx, e: S.Ctx, v: Bytes, j: nat, ps: seq<Pattern>, alts: seq<seq<MatchByte>>,
    pa: S.Paren, neg: bool) returns (d: S.Ctx)
    requires S.FlushInParen(g) == Ok(e) && Inv(e, ps, [], Frame({}, Some(pa), neg)) && e.pending.None?
    requires AltsFit(alts) && !(Grouped(pa, alts).isGeneric && neg)
    requires BodyAt(v, j, alts)
    ensures |Grouped(pa, alts).ranges| > 0
    ensures Leads(g, v, j, BodyEnd(j, alts), d)
    ensures Closed(d, ps + [AlternativeStrings(GroupOf(Grouped(pa, alts), neg))])
  {
    AltsOkTail(alts);
    var k := j + |MatchBytesText(alts[0])|;
    BodySplit(v, j, k, alts);
    var d1 := ReadFirstAlt(g, e, v, j, k, ps, alts[0], pa, neg);
    assert [alts[0]] + alts[1..] == alts;
    d := ReadAltTail(d1, v, k, ps, alts[0], alts[1..], pa, neg);
    LeadsThen(g, v, j, k, TailEnd(k, alts[1..]), d1, d);
  }

  /** A group written without `!`: `(` stores whatever was open, then the group is read. */
  lemma ReadPlainGroup(c: S.Ctx, v: Bytes, i: nat, ps: seq<Pattern>, last: Option<Pattern>, g: AltStrings)
    returns (end: nat, d: S.Ctx)
    requires Ready(c, ps, last) && GroupItem(g) && !Negated(g)
    requires i + |PatternText(AlternativeStrings(g))| <= |v|
    requires v[i..i + |PatternText(AlternativeStrings(g))|] == PatternText(AlternativeStrings(g))
    ensures end == i + |PatternText(AlternativeStrings(g))|
    ensures Leads(c, v, i, end, d) && Closed(d, Items(ps, last) + [AlternativeStrings(g)])
  {
    end := i + |PatternText(AlternativeStrings(g))|;
    d := PlainGroupAt(c, v, i, end, ps, last, g);
  }

  /** `ReadPlainGroup` with the end of the group's text named. */
  lemma PlainGroupAt(c: S.Ctx, v: Bytes, i: nat, end: nat, ps: seq<Pattern>, last: Option<Pattern>, g: AltStrings)
    returns (d: S.Ctx)
    requires Ready(c, ps, last) && GroupItem(g) && !Negated(g)
    requires end == i + |PatternText(AlternativeStrings(g))| && end <= |v| && v[i..end] == PatternText(AlternativeStrings(g))
    ensures Leads(c, v, i, end, d) && Closed(d, Items(ps, last) + [AlternativeStrings(g)])
  {
    PlainGroupText(v, i, end, g);
    d := PlainGroupRun(c, v, i, end, ps, last, g);
  }

  /** The text of a group without `!`, ending at `end`: `(` then the body. */
  lemma PlainGroupText(v: Bytes, i: nat, end: nat, g: AltStrings)
    requires GroupItem(g) && !Negated(g)
    requires end == i + |PatternText(AlternativeStrings(g))| && end <= |v| && v[i..end] == PatternText(AlternativeStrings(g))
    ensures |GroupAlts(g)| > 0 && i < |v| && v[i] == '('
    ensures BodyAt(v, i + 1, GroupAlts(g)) && BodyEnd(i + 1, GroupAlts(g)) == end
  {
    GroupTextIs(g);
    GroupSplit(v, i, "", GroupAlts(g));
  }

  /** `(` at `i` and a group body ending at `end`, read after any patterns. */
  lemma PlainGroupRun(c: S.Ctx, v: Bytes, i: nat, end: nat, ps: seq<Pattern>, last: Option<Pattern>, g: AltStrings)
    returns (d: S.Ctx)
    requires Ready(c, ps, last) && GroupItem(g) && !Negated(g) && |GroupAlts(g)| > 0
    requires i < |v| && v[i] == '(' && BodyAt(v, i + 1, GroupAlts(g)) && BodyEnd(i + 1, GroupAlts(g)) == end
    ensures Leads(c, v, i, end, d) && Closed(d, Items(ps, last) + [AlternativeStrings(g)])
  {
    var alts := GroupAlts(g);
    var e := OpenPlain(c, v, i, ps, last);
    PlainFlush(e, i, Items(ps, last));
    GroupOfItem(g, i);
    var g0 := e.(leftParenPos := i, paren := Some(S.NewParen(i)));
    d := ReadGroupBody(g0, e.(leftParenPos := i, paren := Some(Opened(i))), v, i + 1, Items(ps, last), alts, Opened(i), false);
    LeadsThen(c, v, i, i + 1, end, g0, d);
  }

  /** A group written with `!`: `!(` leaves an open string open, which the group's first byte stores. */
  lemma ReadNegatedGroup(c: S.Ctx, v: Bytes, i: nat, ps: seq<Pattern>, last: Option<Pattern>, g: AltStrings)
    returns (end: nat, d: S.Ctx)
    requires Ready(c, ps, last) && GroupItem(g) && Negated(g)
    requires i + |PatternText(AlternativeStrings(g))| <= |v|
    requires v[i..i + |PatternText(AlternativeStrings(g))|] == PatternText(AlternativeStrings(g))
    ensures end == i + |PatternText(AlternativeStrings(g))|
    ensures Leads(c, v, i, end, d) && Closed(d, Items(ps, last) + [AlternativeStrings(g)])
  {
    var alts := GroupAlts(g);
    GroupTextIs(g);
    GroupSplit(v, i, "!", alts);
    assert v[i] == v[i..i + 1][0];
    end := BodyEnd(i + 2, alts);
    var c1, ps1, last1 := OpenNegated(c, v, i, ps, last);
    var e := NegatedFlush(c1, i + 1, ps1, last1);
    GroupOfItem(g, i + 1);
    var g0 := c1.(leftParenPos := i + 1, negated := true, paren := Some(S.NewParen(i + 1)));
    d := ReadGroupBody(g0, e, v, i + 2, Items(ps1, last1), alts, Opened(i + 1), true);
    LeadsThen(c, v, i, i + 2, end, g0, d);
  }

  /** A group of alternatives after any patterns: whatever was open is stored, then the group. */
  lemma ReadGroupItem(c: S.Ctx, v: Bytes, i: nat, ps: seq<Pattern>, last: Option<Pattern>, g: AltStrings)
    returns (end: nat, d: S.Ctx)
    requires Ready(c, ps, last) && GroupItem(g)
    requires i + |PatternText(AlternativeStrings(g))| <= |v|
    requires v[i..i + |PatternText(AlternativeStrings(g))|] == PatternText(AlternativeStrings(g))
    ensures end == i + |PatternText(AlternativeStrings(g))|
    ensures Leads(c, v, i, end, d) && Closed(d, Items(ps, last) + [AlternativeStrings(g)])
  {
    if Negated(g) {
      end, d := ReadNegatedGroup(c, v, i, ps, last, g);
    } else {
      end, d := ReadPlainGroup(c, v, i, ps, last, g);
    }
  }
}
