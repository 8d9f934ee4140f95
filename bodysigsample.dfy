/**
 * The body of the source's extended-signature sample (the `export` test of
 * src/signature/ext_sig.rs): the patterns it is made of, and the text the
 * exporter writes for each of them.
 */
module BodySigSampleText {
  import opened ByteStr
  import opened PatternModifiers
  import opened Patterns
  import Util
  import Collect

  // The texts of its patterns, one by one.
  const T1: Bytes := "de1e7e"
  const T2: Bytes := "*"
  const T3: Bytes := "facade??"
  const T4: Bytes := "(c0|ff|ee)"
  const T5: Bytes := "decafe[5-9]00"
  const T6: Bytes := "{3-4}"
  const T7: Bytes := "d1d2"
  const T8: Bytes := "{9-}"
  const T9: Bytes := "7e8e"
  const T10: Bytes := "{-5}"
  const T11: Bytes := "!(0f|f1|ce)"
  const T12: Bytes := "(B)(L)" + "a??bccdd"

  /**
   * The body of `AllTheStuff-1`,
   * `de1e7e*facade??(c0|ff|ee)decafe[5-9]00{3-4}d1d2{9-}7e8e{-5}!(0f|f1|ce)(B)(L)a??bccdd`.
   */
  const SAMPLE_BODY: Bytes := T1 + T2 + T3 + T4 + T5 + T6 + T7 + T8 + T9 + T10 + T11 + T12

  function F(b: Byte): MatchByte { Full(b) }

  const P1: Pattern := String([F(0xde as char), F(0x1e as char), F(0x7e as char)], {})
  const P3: Pattern := String([F(0xfa as char), F(0xca as char), F(0xde as char), Any], {})
  const P4: Pattern := AlternativeStrings(FixedWidth(false, 1, [F(0xc0 as char), F(0xff as char), F(0xee as char)]))
  const P5: Pattern := AnchoredByte(Right, F(0x00 as char), 5, 9, [F(0xde as char), F(0xca as char), F(0xfe as char)])
  const P6: Pattern := ByteRange(Util.Inclusive(3, 4))
  const P7: Pattern := String([F(0xd1 as char), F(0xd2 as char)], {})
  const P8: Pattern := ByteRange(Util.From(9))
  const P9: Pattern := String([F(0x7e as char), F(0x8e as char)], {})
  const P10: Pattern := ByteRange(Util.ToInclusive(5))
  const P11: Pattern := AlternativeStrings(FixedWidth(true, 1, [F(0x0f as char), F(0xf1 as char), F(0xce as char)]))
  const P12: Pattern := String([HighNyble(0xa0 as char), LowNyble(0x0b as char), F(0xcc as char), F(0xdd as char)],
                               {BoundaryLeft, LineMarkerLeft})

  /**
   * The patterns the sample body is made of: strings, `*`, an `(..|..)`
   * group, an anchored byte, `{n-m}`, `{n-}` and `{-n}` ranges, a negated
   * group, and a string with a word-boundary and a line-marker flag on its
   * left and nyble wildcards.
   */
  const SAMPLE_PATTERNS: seq<Pattern> := [P1, Wildcard, P3, P4, P5, P6, P7, P8, P9, P10, P11, P12]

  // ------------------------------------------------------------ texts of small pieces

  lemma {:induction false} SelectNone(f: Flags, xs: seq<PatternModifier>)
    requires forall k :: 0 <= k < |xs| ==> xs[k] !in f
    ensures Select(f, xs) == []
    decreases |xs|
  {
    if |xs| > 0 {
      SelectNone(f, xs[1..]);
    }
  }

  lemma SelectAt(f: Flags, xs: seq<PatternModifier>, k: nat)
    requires k < |xs|
    ensures Select(f, xs[k..]) == (if xs[k] in f then [xs[k]] else []) + Select(f, xs[k + 1..])
  {
    assert xs[k..][1..] == xs[k + 1..];
  }

  lemma AllStartsWithBoundary()
    ensures |ALL| == 12 && ALL[0] == BoundaryLeft && ALL[1] == BoundaryLeftNegative && ALL[2] == BoundaryRight
    ensures ALL[3] == BoundaryRightNegative && ALL[4] == LineMarkerLeft
    ensures forall k :: 5 <= k < 12 ==> ALL[k] != BoundaryLeft && ALL[k] != LineMarkerLeft
  {
  }

  lemma SelectTwo(f: Flags, xs: seq<PatternModifier>)
    requires f == {BoundaryLeft, LineMarkerLeft}
    requires |xs| == 12 && xs[0] == BoundaryLeft && xs[1] == BoundaryLeftNegative && xs[2] == BoundaryRight
    requires xs[3] == BoundaryRightNegative && xs[4] == LineMarkerLeft
    requires forall k :: 5 <= k < 12 ==> xs[k] != BoundaryLeft && xs[k] != LineMarkerLeft
    ensures Select(f, xs) == [BoundaryLeft, LineMarkerLeft]
  {
    SelectNone(f, xs[5..]);
    SelectAt(f, xs, 4);
    SelectAt(f, xs, 3);
    SelectAt(f, xs, 2);
    SelectAt(f, xs, 1);
    SelectAt(f, xs, 0);
    assert xs[0..] == xs;
  }

  lemma LeftPairSides(m: Flags)
    requires m == {BoundaryLeft, LineMarkerLeft}
    ensures m * LEFT_FLAGS == m && m * RIGHT_FLAGS == {}
  {
  }

  lemma LeftPairOrdered(m: Flags)
    requires m == {BoundaryLeft, LineMarkerLeft}
    ensures Ordered(m) == [BoundaryLeft, LineMarkerLeft]
  {
    AllStartsWithBoundary();
    SelectTwo(m, ALL);
  }

  lemma FlagsOfTwo(a: PatternModifier, b: PatternModifier)
    ensures FlagsText([a, b]) == ModifierText(a) + ModifierText(b)
  {
    assert [a, b][1..] == [b] && [b][1..] == [];
    assert FlagsText([b]) == ModifierText(b) + FlagsText([]);
    assert FlagsText([b]) == ModifierText(b);
  }

  lemma BoundaryText(m: PatternModifier)
    requires m == BoundaryLeft
    ensures ModifierText(m) == "(B)"
  {
  }

  lemma LineMarkerText(m: PatternModifier)
    requires m == LineMarkerLeft
    ensures ModifierText(m) == "(L)"
  {
  }

  lemma TwoFlagsText(o: seq<PatternModifier>)
    requires o == [BoundaryLeft, LineMarkerLeft]
    ensures FlagsText(o) == "(B)(L)"
  {
    FlagsOfTwo(o[0], o[1]);
    BoundaryText(o[0]);
    LineMarkerText(o[1]);
  }

  /** `(B)(L)`: the word-boundary flag comes before the line-marker one. */
  lemma LeftPairText(m: Flags)
    requires m == {BoundaryLeft, LineMarkerLeft}
    ensures FlagsText(Ordered(m * LEFT_FLAGS)) == "(B)(L)" && Ordered(m * RIGHT_FLAGS) == []
  {
    LeftPairSides(m);
    LeftPairOrdered(m);
    TwoFlagsText(Ordered(m));
    NoFlags(m * RIGHT_FLAGS);
  }

  lemma NoFlags(m: Flags)
    requires m == {}
    ensures Ordered(m * LEFT_FLAGS) == [] && Ordered(m * RIGHT_FLAGS) == [] && Ordered(m) == []
  {
    assert m * LEFT_FLAGS == {} && m * RIGHT_FLAGS == {};
  }

  lemma One(a: MatchByte)
    ensures MatchBytesText([a]) == MatchByteText(a)
  {
    assert [a][1..] == [];
  }

  lemma Two(a: MatchByte, b: MatchByte)
    ensures MatchBytesText([a, b]) == MatchByteText(a) + MatchByteText(b)
  {
    assert [a, b][1..] == [b];
    One(b);
  }

  lemma Three(a: MatchByte, b: MatchByte, c: MatchByte)
    ensures MatchBytesText([a, b, c]) == MatchByteText(a) + MatchByteText(b) + MatchByteText(c)
  {
    assert [a, b, c][1..] == [b, c];
    Two(b, c);
  }

  lemma Four(a: MatchByte, b: MatchByte, c: MatchByte, d: MatchByte)
    ensures MatchBytesText([a, b, c, d]) == MatchByteText(a) + MatchByteText(b) + MatchByteText(c) + MatchByteText(d)
  {
    assert [a, b, c, d][1..] == [b, c, d];
    Three(b, c, d);
  }

  /** A string with no flags is just its bytes. */
  lemma Plain(s: seq<MatchByte>, m: Flags)
    requires m == {}
    ensures StringText(s, m) == MatchBytesText(s)
  {
    NoFlags(m);
  }

  lemma ChunksOfThree(a: MatchByte, b: MatchByte, c: MatchByte)
    ensures Chunks([a, b, c], 1) == [[a], [b], [c]]
  {
    assert [a, b, c][..1] == [a] && [a, b, c][1..] == [b, c];
    assert [b, c][..1] == [b] && [b, c][1..] == [c];
    assert Chunks([c], 1) == [[c]];
    assert Chunks([b, c], 1) == [[b]] + [[c]];
  }

  lemma JoinThree(x: Bytes, y: Bytes, z: Bytes, c: Byte)
    ensures Join([x, y, z], c) == x + [c] + y + [c] + z
  {
    assert [x, y, z][1..] == [y, z];
    assert [y, z][1..] == [z];
    assert Join([y, z], c) == y + [c] + z;
    assert Join([x, y, z], c) == x + [c] + (y + [c] + z);
  }

  /** A one-byte-wide group of three. */
  lemma GroupOfThree(neg: bool, a: MatchByte, b: MatchByte, c: MatchByte)
    ensures AltStringsText(FixedWidth(neg, 1, [a, b, c])) == (if neg then "!" else "") + AltText([[a], [b], [c]])
  {
    ChunksOfThree(a, b, c);
  }

  lemma AltOfThree(a: MatchByte, b: MatchByte, c: MatchByte)
    ensures AltText([[a], [b], [c]]) == "(" + (MatchByteText(a) + "|" + MatchByteText(b) + "|" + MatchByteText(c)) + ")"
  {
    assert Collect.Map(MatchBytesText, [[a], [b], [c]]) == [MatchBytesText([a]), MatchBytesText([b]), MatchBytesText([c])];
    One(a);
    One(b);
    One(c);
    JoinThree(MatchByteText(a), MatchByteText(b), MatchByteText(c), '|');
  }

  /** A string with no flags writes only its bytes. */
  lemma PlainText(p: Pattern, t: Bytes)
    requires p.String? && p.modifiers == {} && MatchBytesText(p.bytes) == t
    ensures PatternText(p) == t
  {
    Plain(p.bytes, p.modifiers);
  }

  // ------------------------------------------------------------ texts of the patterns

  lemma Bytes1(s: seq<MatchByte>)
    requires s == P1.bytes
    ensures MatchBytesText(s) == T1
  {
    Three(s[0], s[1], s[2]);
  }

  lemma Text1()
    ensures PatternText(P1) == T1
  {
    Bytes1(P1.bytes);
    PlainText(P1, T1);
  }

  lemma Text2()
    ensures PatternText(Wildcard) == T2
  {
  }

  lemma Bytes3(s: seq<MatchByte>)
    requires s == P3.bytes
    ensures MatchBytesText(s) == T3
  {
    Four(s[0], s[1], s[2], s[3]);
  }

  lemma Text3()
    ensures PatternText(P3) == T3
  {
    Bytes3(P3.bytes);
    PlainText(P3, T3);
  }

  lemma Group4(g: AltStrings)
    requires g == P4.alts
    ensures AltStringsText(g) == T4
  {
    GroupOfThree(false, g.data[0], g.data[1], g.data[2]);
    assert g.data == [g.data[0], g.data[1], g.data[2]];
    AltOfThree(g.data[0], g.data[1], g.data[2]);
  }

  lemma Text4()
    ensures PatternText(P4) == T4
  {
    Group4(P4.alts);
  }

  lemma Bytes5(s: seq<MatchByte>)
    requires s == [F(0xde as char), F(0xca as char), F(0xfe as char)]
    ensures MatchBytesText(s) == "decafe"
  {
    Three(s[0], s[1], s[2]);
  }

  lemma Text5()
    ensures PatternText(P5) == T5
  {
    Bytes5([F(0xde as char), F(0xca as char), F(0xfe as char)]);
    assert BracketText(5, 9) == "[5-9]";
    assert MatchByteText(F(0x00 as char)) == "00";
  }

  lemma Text6()
    ensures PatternText(P6) == T6
  {
    assert Util.RangeText(Util.Inclusive(3, 4)) == "3-4";
  }

  lemma Bytes7(s: seq<MatchByte>)
    requires s == P7.bytes
    ensures MatchBytesText(s) == T7
  {
    Two(s[0], s[1]);
  }

  lemma Text7()
    ensures PatternText(P7) == T7
  {
    Bytes7(P7.bytes);
    PlainText(P7, T7);
  }

  lemma Text8()
    ensures PatternText(P8) == T8
  {
    assert Util.RangeText(Util.From(9)) == "9-";
  }

  lemma Bytes9(s: seq<MatchByte>)
    requires s == P9.bytes
    ensures MatchBytesText(s) == T9
  {
    Two(s[0], s[1]);
  }

  lemma Text9()
    ensures PatternText(P9) == T9
  {
    Bytes9(P9.bytes);
    PlainText(P9, T9);
  }

  lemma Text10()
    ensures PatternText(P10) == T10
  {
    assert Util.RangeText(Util.ToInclusive(5)) == "-5";
  }

  lemma Group11(g: AltStrings)
    requires g == P11.alts
    ensures AltStringsText(g) == T11
  {
    GroupOfThree(true, g.data[0], g.data[1], g.data[2]);
    assert g.data == [g.data[0], g.data[1], g.data[2]];
    AltOfThree(g.data[0], g.data[1], g.data[2]);
  }

  lemma Text11()
    ensures PatternText(P11) == T11
  {
    Group11(P11.alts);
  }

  lemma Bytes12(s: seq<MatchByte>)
    requires s == P12.bytes
    ensures MatchBytesText(s) == "a??bccdd"
  {
    Four(s[0], s[1], s[2], s[3]);
  }

  lemma FlaggedText(p: Pattern, l: Bytes, t: Bytes)
    requires p.String? && FlagsText(Ordered(p.modifiers * LEFT_FLAGS)) == l && Ordered(p.modifiers * RIGHT_FLAGS) == []
    requires MatchBytesText(p.bytes) == t
    ensures PatternText(p) == l + t
  {
    assert FlagsText([]) == [];
  }

  lemma Text12Of(p: Pattern)
    requires p == P12
    ensures PatternText(p) == "(B)(L)" + "a??bccdd"
  {
    LeftPairText(p.modifiers);
    Bytes12(p.bytes);
    FlaggedText(p, "(B)(L)", "a??bccdd");
  }

  lemma Text12()
    ensures PatternText(P12) == T12
  {
    Text12Of(P12);
  }
}

/**
 * The sample body reads back: its patterns are of the kinds the body round
 * trip covers, so `BodySig::try_from` of the exported text gives them back,
 * and that text is the sample itself.
 */
module BodySigSample {
  import opened Wrappers
  import opened ByteStr
  import opened PatternModifiers
  import opened Patterns
  import Util
  import S = BodySigParse
  import BodySigs
  import opened BodySigReadBack
  import opened BodySigReadItems
  import opened BodySigReadGroups
  import opened BodySigRoundTrip
  import opened BodySigSampleText

  // ------------------------------------------------------------ the text, pattern by pattern

  /** Texts laid end to end, first to last. */
  function Flat(ts: seq<Bytes>): (r: Bytes)
    ensures |ts| == 1 ==> r == ts[0]
    decreases |ts|
  {
    if |ts| == 0 then [] else Flat(ts[..|ts| - 1]) + ts[|ts| - 1]
  }

  /** A list of patterns with known texts exports to those texts laid end to end. */
  lemma {:induction false} TextsOf(ps: seq<Pattern>, ts: seq<Bytes>)
    requires |ps| == |ts|
    requires forall k :: 0 <= k < |ps| ==> Exportable(ps[k]) && PatternText(ps[k]) == ts[k]
    ensures S.AllExportable(ps) && BodySigs.PatternsText(ps) == Flat(ts)
    decreases |ps|
  {
    if |ps| > 0 {
      var n := |ps| - 1;
      forall k | 0 <= k < n ensures Exportable(ps[..n][k]) && PatternText(ps[..n][k]) == ts[..n][k] {
        assert ps[..n][k] == ps[k] && ts[..n][k] == ts[k];
      }
      TextsOf(ps[..n], ts[..n]);
      assert S.AllExportable(ps) by {
        forall k | 0 <= k < |ps| ensures Exportable(ps[k]) { }
      }
      assert BodySigs.PatternsText(ps) == BodySigs.PatternsText(ps[..n]) + PatternText(ps[n]);
    }
  }

  /** Twelve texts laid end to end. */
  lemma FlatTwelve(ts: seq<Bytes>)
    requires |ts| == 12
    ensures Flat(ts) == ts[0] + ts[1] + ts[2] + ts[3] + ts[4] + ts[5] + ts[6] + ts[7] + ts[8] + ts[9] + ts[10] + ts[11]
  {
    assert ts[..1][..0] == ts[..0];
    assert Flat(ts[..1]) == Flat(ts[..0]) + ts[0];
    assert ts[..2][..1] == ts[..1];
    assert Flat(ts[..2]) == Flat(ts[..1]) + ts[1];
    assert ts[..3][..2] == ts[..2];
    assert Flat(ts[..3]) == Flat(ts[..2]) + ts[2];
    assert ts[..4][..3] == ts[..3];
    assert Flat(ts[..4]) == Flat(ts[..3]) + ts[3];
    assert ts[..5][..4] == ts[..4];
    assert Flat(ts[..5]) == Flat(ts[..4]) + ts[4];
    assert ts[..6][..5] == ts[..5];
    assert Flat(ts[..6]) == Flat(ts[..5]) + ts[5];
    assert ts[..7][..6] == ts[..6];
    assert Flat(ts[..7]) == Flat(ts[..6]) + ts[6];
    assert ts[..8][..7] == ts[..7];
    assert Flat(ts[..8]) == Flat(ts[..7]) + ts[7];
    assert ts[..9][..8] == ts[..8];
    assert Flat(ts[..9]) == Flat(ts[..8]) + ts[8];
    assert ts[..10][..9] == ts[..9];
    assert Flat(ts[..10]) == Flat(ts[..9]) + ts[9];
    assert ts[..11][..10] == ts[..10];
    assert Flat(ts[..11]) == Flat(ts[..10]) + ts[10];
    assert ts[..12][..11] == ts[..11];
    assert Flat(ts[..12]) == Flat(ts[..11]) + ts[11];
    assert ts[..12] == ts;
  }

  /** The texts of the sample's patterns, in order. */
  const SAMPLE_TEXTS: seq<Bytes> := [T1, T2, T3, T4, T5, T6, T7, T8, T9, T10, T11, T12]

  /** Twelve items listed in order, each mapped by `f` to the matching entry of a second list. */
  lemma TwelveItems<T, U>(ps: seq<T>, ts: seq<U>, f: T --> U,
                          a0: T, a1: T, a2: T, a3: T, a4: T, a5: T, a6: T, a7: T, a8: T, a9: T, a10: T, a11: T,
                          t0: U, t1: U, t2: U, t3: U, t4: U, t5: U, t6: U, t7: U, t8: U, t9: U, t10: U, t11: U)
    requires ps == [a0, a1, a2, a3, a4, a5, a6, a7, a8, a9, a10, a11]
    requires ts == [t0, t1, t2, t3, t4, t5, t6, t7, t8, t9, t10, t11]
    requires f.requires(a0) && f.requires(a1) && f.requires(a2) && f.requires(a3)
    requires f.requires(a4) && f.requires(a5) && f.requires(a6) && f.requires(a7)
    requires f.requires(a8) && f.requires(a9) && f.requires(a10) && f.requires(a11)
    requires f(a0) == t0 && f(a1) == t1 && f(a2) == t2 && f(a3) == t3
    requires f(a4) == t4 && f(a5) == t5 && f(a6) == t6 && f(a7) == t7
    requires f(a8) == t8 && f(a9) == t9 && f(a10) == t10 && f(a11) == t11
    ensures forall k :: 0 <= k < |ps| ==> f.requires(ps[k]) && f(ps[k]) == ts[k]
  {
  }

  /** The first six sample patterns export as the first six sample texts. */
  lemma FirstSixTexts()
    ensures Exportable(P1) && Exportable(Wildcard) && Exportable(P3) && Exportable(P4) && Exportable(P5) && Exportable(P6)
    ensures PatternText(P1) == T1 && PatternText(Wildcard) == T2 && PatternText(P3) == T3
    ensures PatternText(P4) == T4 && PatternText(P5) == T5 && PatternText(P6) == T6
  {
    Text1(); Text2(); Text3(); Text4(); Text5(); Text6();
  }

  /** The last six sample patterns export as the last six sample texts. */
  lemma LastSixTexts()
    ensures Exportable(P7) && Exportable(P8) && Exportable(P9) && Exportable(P10) && Exportable(P11) && Exportable(P12)
    ensures PatternText(P7) == T7 && PatternText(P8) == T8 && PatternText(P9) == T9
    ensures PatternText(P10) == T10 && PatternText(P11) == T11 && PatternText(P12) == T12
  {
    Text7(); Text8(); Text9(); Text10(); Text11(); Text12();
  }

  /** Each sample pattern can be exported, and exports as the matching sample text. */
  lemma ItemTexts()
    ensures forall k :: 0 <= k < 12 ==>
      PatternText.requires(SAMPLE_PATTERNS[k]) && PatternText(SAMPLE_PATTERNS[k]) == SAMPLE_TEXTS[k]
  {
    FirstSixTexts();
    LastSixTexts();
    TwelveItems(SAMPLE_PATTERNS, SAMPLE_TEXTS, PatternText, P1, Wildcard, P3, P4, P5, P6, P7, P8, P9, P10, P11, P12,
                T1, T2, T3, T4, T5, T6, T7, T8, T9, T10, T11, T12);
  }

  /** The sample's patterns export to the sample body text. */
  lemma SampleText(ps: seq<Pattern>)
    requires ps == SAMPLE_PATTERNS
    ensures S.AllExportable(ps) && BodySigs.PatternsText(ps) == SAMPLE_BODY
  {
    ItemTexts();
    TextsOf(ps, SAMPLE_TEXTS);
    FlatTwelve(SAMPLE_TEXTS);
  }

  // ------------------------------------------------------------ the patterns fit

  /** The `k`-th of `ps` fits after the ones before it. */
  predicate FitsAt(ps: seq<Pattern>, k: nat)
    requires k < |ps|
  {
    ItemFits(ps[k], if k == 0 then None else LastOpen(ps[k - 1]), k == 0)
  }

  /** Patterns each of which fits after the one before it fit as a list. */
  lemma {:induction false} FitsOf(ps: seq<Pattern>)
    requires forall k :: 0 <= k < |ps| ==> FitsAt(ps, k)
    ensures Fits(ps)
    decreases |ps|
  {
    if |ps| > 0 {
      var n := |ps| - 1;
      var q := ps[..n];
      forall k | 0 <= k < n
        ensures FitsAt(q, k)
      {
        FitsAtPrefix(ps, n, k);
      }
      FitsOf(q);
      FitsLast(ps, n, q);
    }
  }

  lemma FitsAtPrefix(ps: seq<Pattern>, n: nat, k: nat)
    requires k < n <= |ps| && FitsAt(ps, k)
    ensures FitsAt(ps[..n], k)
  {
    assert ps[..n][k] == ps[k];
    if k > 0 {
      assert ps[..n][k - 1] == ps[k - 1];
    }
  }

  lemma FitsLast(ps: seq<Pattern>, n: nat, q: seq<Pattern>)
    requires n + 1 == |ps| && q == ps[..n] && Fits(q) && FitsAt(ps, n)
    ensures Fits(ps)
  {
    if n > 0 {
      assert q[n - 1] == ps[n - 1];
    }
  }

  /** A fact about each of the positions 0 to 11, as one quantified fact. */
  lemma UpToTwelve(f: nat --> bool)
    requires f.requires(0) && f.requires(1) && f.requires(2) && f.requires(3) && f.requires(4) && f.requires(5)
    requires f.requires(6) && f.requires(7) && f.requires(8) && f.requires(9) && f.requires(10) && f.requires(11)
    requires f(0) && f(1) && f(2) && f(3) && f(4) && f(5) && f(6) && f(7) && f(8) && f(9) && f(10) && f(11)
    ensures forall k: nat :: k < 12 ==> f.requires(k) && f(k)
  {
  }

  /** A group of three single full bytes is one the parser stores as it is. */
  lemma GroupFits(neg: bool, a: MatchByte, b: MatchByte, c: MatchByte)
    requires a.Full? && b.Full? && c.Full?
    ensures GroupItem(FixedWidth(neg, 1, [a, b, c]))
  {
    var g := FixedWidth(neg, 1, [a, b, c]);
    ChunksOfThree(a, b, c);
    assert GroupAlts(g) == [[a], [b], [c]];
  }

  lemma Fits1(ps: seq<Pattern>)
    requires ps == SAMPLE_PATTERNS
    ensures FitsAt(ps, 0)
  {
  }

  lemma Fits2(ps: seq<Pattern>)
    requires ps == SAMPLE_PATTERNS
    ensures FitsAt(ps, 1)
  {
  }

  lemma Fits3(ps: seq<Pattern>)
    requires ps == SAMPLE_PATTERNS
    ensures FitsAt(ps, 2)
  {
    var s := ps[2].bytes;
    assert s[..3] == [F(0xfa as char), F(0xca as char), F(0xde as char)];
    assert HasFullPair(s[..3]);
  }

  lemma Fits4(ps: seq<Pattern>)
    requires ps == SAMPLE_PATTERNS
    ensures FitsAt(ps, 3)
  {
    GroupFits(false, F(0xc0 as char), F(0xff as char), F(0xee as char));
  }

  lemma Fits5(ps: seq<Pattern>)
    requires ps == SAMPLE_PATTERNS
    ensures FitsAt(ps, 4)
  {
    var s := [F(0xde as char), F(0xca as char), F(0xfe as char)];
    assert ps[4] == AnchoredByte(Right, F(0x00 as char), 5, 9, s);
    assert s[..2][..1] == s[..1] && s[..1][..0] == [];
    assert FullTail(s[..1]) == 1;
    assert FullTail(s[..2]) == 2;
    assert FullTail(s) == 3;
  }

  lemma Fits7(ps: seq<Pattern>)
    requires ps == SAMPLE_PATTERNS
    ensures FitsAt(ps, 6)
  {
    assert ps[6] == P7;
  }

  lemma Fits8(ps: seq<Pattern>)
    requires ps == SAMPLE_PATTERNS
    ensures FitsAt(ps, 7)
  {
  }

  lemma Fits9(ps: seq<Pattern>)
    requires ps == SAMPLE_PATTERNS
    ensures FitsAt(ps, 8)
  {
    assert ps[8] == P9;
  }

  lemma Fits10(ps: seq<Pattern>)
    requires ps == SAMPLE_PATTERNS
    ensures FitsAt(ps, 9)
  {
  }

  lemma Fits11(ps: seq<Pattern>)
    requires ps == SAMPLE_PATTERNS
    ensures FitsAt(ps, 10)
  {
    GroupFits(true, F(0x0f as char), F(0xf1 as char), F(0xce as char));
  }

  lemma Fits12(ps: seq<Pattern>)
    requires ps == SAMPLE_PATTERNS
    ensures FitsAt(ps, 11)
  {
    LeftPairSides(P12.modifiers);
  }

  /** The sample's patterns each fit after the one before them. */
  lemma FitsFirstThree(ps: seq<Pattern>)
    requires ps == SAMPLE_PATTERNS
    ensures FitsAt(ps, 0) && FitsAt(ps, 1) && FitsAt(ps, 2)
  {
    Fits1(ps);
    Fits2(ps);
    Fits3(ps);
  }

  lemma FitsSecondThree(ps: seq<Pattern>)
    requires ps == SAMPLE_PATTERNS
    ensures FitsAt(ps, 3) && FitsAt(ps, 4) && FitsAt(ps, 5)
  {
    Fits4(ps);
    Fits5(ps);
  }

  lemma FitsLastSix(ps: seq<Pattern>)
    requires ps == SAMPLE_PATTERNS
    ensures FitsAt(ps, 6) && FitsAt(ps, 7) && FitsAt(ps, 8) && FitsAt(ps, 9) && FitsAt(ps, 10) && FitsAt(ps, 11)
  {
    Fits7(ps);
    Fits8(ps);
    Fits9(ps);
    Fits10(ps);
    Fits11(ps);
    Fits12(ps);
  }

  lemma SampleFits(ps: seq<Pattern>)
    requires ps == SAMPLE_PATTERNS
    ensures Fits(ps)
  {
    FitsFirstThree(ps);
    FitsSecondThree(ps);
    FitsLastSix(ps);
    UpToTwelve((k: nat) requires k < |ps| => FitsAt(ps, k));
    FitsOf(ps);
  }

  // ------------------------------------------------------------ the round trip

  /** A fragment body whose export is `body` is what `BodySig::try_from` reads from `body`. */
  lemma ReadsBackAs(body: Bytes, ps: seq<Pattern>)
    requires Fragment(ps) && S.AllExportable(ps) && BodySigs.PatternsText(ps) == body
    ensures BodySigs.Parse(body) == Ok(BodySigs.BodySig(ps))
  {
    BodySigRoundTrip.BodySigRoundTrip(BodySigs.BodySig(ps));
  }

  /** The sample's patterns are a fragment body that exports as the sample text. */
  lemma SampleFragment(ps: seq<Pattern>)
    requires ps == SAMPLE_PATTERNS
    ensures Fragment(ps) && S.AllExportable(ps) && BodySigs.PatternsText(ps) == SAMPLE_BODY
  {
    SampleFits(ps);
    SampleText(ps);
  }

  /**
   * The body of `AllTheStuff-1` is one the round trip covers: the exporter
   * writes its patterns as exactly the sample text, and `BodySig::try_from`
   * reads that text back as those patterns.
   */
  lemma SampleBodyRoundTrip(body: Bytes, ps: seq<Pattern>)
    requires body == SAMPLE_BODY && ps == SAMPLE_PATTERNS
    ensures Fragment(ps) && S.AllExportable(ps)
    ensures BodySigs.BodySigText(BodySigs.BodySig(ps)) == body
    ensures BodySigs.Parse(body) == Ok(BodySigs.BodySig(ps))
  {
    SampleFragment(ps);
    ReadsBackAs(body, ps);
  }
}
