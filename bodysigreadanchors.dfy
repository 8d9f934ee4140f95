/**
 * Reading the text of an anchored byte (src/signature/bodysig/pattern.rs)
 * with the parser of src/signature/bodysig/parse.rs: the match bytes before
 * `[lo-hi]`, the bracket itself, which sets the anchor pending, and the
 * match bytes after it, which the anchor takes when the next piece starts.
 */
module BodySigReadAnchors {
  import opened Wrappers
  import opened ByteStr
  import opened TextAt
  import Util
  import Num
  import opened Patterns
  import S = BodySigParse
  import opened BodySigRuns
  import opened BodySigReadBack
  import opened BodySigReadItems

  const BL: S.State := S.State.BracketLower
  const BU: S.State := S.State.BracketUpper

  /** The anchor `]` sets pending: one match byte before it is a left anchor's, more are a right anchor's string. */
  function BracketPending(ms: seq<MatchByte>, i: nat, lo: nat, hi: nat): S.Pending
    requires |ms| > 0
  {
    if |ms| == 1 then S.HaveByte(S.PosSub(i, 2), ms[0], lo, hi)
    else S.HaveString(S.PosSub(i, |ms| * 2), ms, lo, hi)
  }

  /** The context after `[lo-hi]` opened at `i`. */
  function Bracketed(c: S.Ctx, i: nat, lo: nat, hi: nat): S.Ctx
    requires |c.matchBytes| > 0
  {
    c.(leftBracketPos := i, curRange := None, decValue := None,
       pending := Some(BracketPending(c.matchBytes, i, lo, hi)), matchBytes := [])
  }

  /** The text of `[lo-hi]` with the decimals `x` and `y`, split at its `-` at `k` and its `]` at `m`. */
  lemma BracketPieces(v: Bytes, i: nat, k: nat, m: nat, x: Bytes, y: Bytes)
    requires k == i + 1 + |x| && m == k + 1 + |y| && m < |v| && v[i..m + 1] == "[" + x + "-" + y + "]"
    ensures v[i] == '[' && v[i + 1..k] == x && v[k] == '-'
    ensures v[k + 1..m] == y && v[m] == ']'
  {
    assert "[" + x + "-" + y + "]" == "[" + x + ("-" + y + "]");
    Split3(v, i, "[", x, "-" + y + "]");
    Split3(v, k, "-", y, "]");
    assert v[i] == v[i..i + 1][0];
    assert v[k] == v[k..k + 1][0];
    assert v[m] == v[m..m + 1][0];
  }

  /** `[lo-` with its `-` at `k`: the bracket is open with `lo`, at most 32, as its lower bound. */
  lemma OpenBracket(c: S.Ctx, v: Bytes, i: nat, k: nat, lo: nat)
    requires c.pending.None? && lo <= S.ANCHORED_BYTE_RANGE_MAX
    requires k == i + 1 + |Num.Dec(lo)| && k < |v| && v[i] == '[' && v[i + 1..k] == Num.Dec(lo) && v[k] == '-'
    ensures Goes(c, HN, v, i, k + 1,
      c.(leftBracketPos := i, decValue := None, curRange := Some(Util.From(lo))), BU)
  {
    var cb := c.(leftBracketPos := i, decValue := None);
    var cl := cb.(decValue := Some(lo));
    NonMatchStep(c, i, '[');
    GoesStep(c, HN, v, i, cb, BL);
    DecGoes(cb, BL, v, i + 1, k, lo);
    GoesStep(cl, BL, v, k, cb.(curRange := Some(Util.From(lo))), BU);
    GoesThen(c, HN, v, i, i + 1, k, cb, BL, cl, BL);
    GoesThen(c, HN, v, i, k, k + 1, cl, BL, cb.(curRange := Some(Util.From(lo))), BU);
  }

  /** `hi]` with its `]` at `m`, after `[lo-` opened at `k`: the anchor is pending. */
  lemma CloseBracket(c: S.Ctx, k: nat, v: Bytes, i: nat, m: nat, lo: nat, hi: nat)
    requires |c.matchBytes| > 0 && lo <= hi && 1 <= hi <= S.ANCHORED_BYTE_RANGE_MAX
    requires m == i + |Num.Dec(hi)| && m < |v| && v[i..m] == Num.Dec(hi) && v[m] == ']'
    ensures Goes(c.(leftBracketPos := k, decValue := None, curRange := Some(Util.From(lo))), BU,
      v, i, m + 1, Bracketed(c, k, lo, hi), HN)
  {
    var cu := c.(leftBracketPos := k, decValue := None, curRange := Some(Util.From(lo)));
    var ch := cu.(decValue := Some(hi));
    DecGoes(cu, BU, v, i, m, hi);
    GoesStep(ch, BU, v, m, Bracketed(c, k, lo, hi), HN);
    GoesThen(cu, BU, v, i, m, m + 1, ch, BU, Bracketed(c, k, lo, hi), HN);
  }

  /** `[lo-hi]` after the match bytes read so far sets the anchor pending. */
  lemma BracketRun(c: S.Ctx, v: Bytes, i: nat, j: nat, lo: nat, hi: nat)
    requires c.pending.None? && |c.matchBytes| > 0 && lo <= hi && 1 <= hi <= S.ANCHORED_BYTE_RANGE_MAX
    requires j == i + |BracketText(lo, hi)| && j <= |v| && v[i..j] == BracketText(lo, hi)
    ensures Leads(c, v, i, j, Bracketed(c, i, lo, hi))
  {
    var x, y := Num.Dec(lo), Num.Dec(hi);
    var k := i + 1 + |x|;
    var m := k + 1 + |y|;
    assert j == m + 1;
    BracketPieces(v, i, k, m, x, y);
    OpenBracket(c, v, i, k, lo);
    CloseBracket(c, i, v, k + 1, m, lo, hi);
    GoesThen(c, HN, v, i, k + 1, j,
      c.(leftBracketPos := i, decValue := None, curRange := Some(Util.From(lo))), BU, Bracketed(c, i, lo, hi), HN);
    GoesLeads(c, v, i, j, Bracketed(c, i, lo, hi));
  }

  /**
   * Once `]` has taken the match bytes, the run of static bytes left open
   * starts at the first of them, or none is open.
   */
  lemma StaticCleared(c: S.Ctx, ps: seq<Pattern>, ms: seq<MatchByte>, i: nat, lo: nat, hi: nat)
    requires Inv(c, ps, ms, Out({})) && |ms| > 0 && AnchorStatic(ms)
    ensures Inv(Bracketed(c, i, lo, hi), ps, [], Out({}))
  {
    assert ms[..|ms| - FullTail(ms)] == [] || FullTail(ms) == 0;
  }

  /** A single match byte is always a run that starts where it does. */
  lemma OneStatic(mb: MatchByte)
    ensures AnchorStatic([mb])
  {
    assert [mb][..0] == [];
  }

  /** A right anchor's string and bracket, where nothing is open: the anchor is pending. */
  lemma RightHead(c: S.Ctx, v: Bytes, i: nat, k1: nat, k2: nat, ps: seq<Pattern>, s: seq<MatchByte>, lo: nat, hi: nat)
    returns (c2: S.Ctx)
    requires Closed(c, ps)
    requires |s| >= 2 && BytesOk(s) && |s| < S.USIZE_MAX && AnchorStatic(s)
    requires lo <= hi && 1 <= hi <= S.ANCHORED_BYTE_RANGE_MAX
    requires k1 == i + |MatchBytesText(s)| && k2 == k1 + |BracketText(lo, hi)| && k2 <= |v|
    requires v[i..k1] == MatchBytesText(s) && v[k1..k2] == BracketText(lo, hi)
    ensures Leads(c, v, i, k2, c2) && HInv(c2, ps, [], Out({}))
    ensures c2.pending == Some(S.HaveString(S.PosSub(k1, |s| * 2), s, lo, hi))
  {
    HInvIs(c, ps, [], Out({}));
    var c1 := ReadStringH(c, v, i, k1, s, ps, [], Out({}));
    FrameAfterIs(Out({}), s);
    assert [] + s == s;
    HInvIs(c1, ps, s, Out({}));
    BracketRun(c1, v, k1, k2, lo, hi);
    c2 := Bracketed(c1, k1, lo, hi);
    StaticCleared(c1, ps, s, k1, lo, hi);
    HInvIs(c2, ps, [], Out({}));
    LeadsThen(c, v, i, k1, k2, c1, c2);
  }

  /**
   * A right anchor, `string[lo-hi]byte`, where nothing is open: it is
   * pending once its byte is read.
   */
  lemma ReadRightAnchor(c: S.Ctx, v: Bytes, i: nat, ps: seq<Pattern>, s: seq<MatchByte>, lo: nat, hi: nat, b: MatchByte)
    returns (end: nat, d: S.Ctx)
    requires Closed(c, ps)
    requires |s| >= 2 && BytesOk(s) && |s| < S.USIZE_MAX && AnchorStatic(s)
    requires ByteOk(b) && !b.WildcardMany? && lo <= hi && 1 <= hi <= S.ANCHORED_BYTE_RANGE_MAX
    requires i + |AnchoredText(Right, b, lo, hi, s)| <= |v|
    requires v[i..i + |AnchoredText(Right, b, lo, hi, s)|] == AnchoredText(Right, b, lo, hi, s)
    ensures end == i + |AnchoredText(Right, b, lo, hi, s)|
    ensures Leads(c, v, i, end, d) && Ready(d, ps, Some(AnchoredByte(Right, b, lo, hi, s)))
  {
    assert AnchoredText(Right, b, lo, hi, s) == MatchBytesText(s) + BracketText(lo, hi) + MatchByteText(b);
    var k1, k2;
    k1, k2, end := Split3At(v, i, MatchBytesText(s), BracketText(lo, hi), MatchByteText(b));
    var c2 := RightHead(c, v, i, k1, k2, ps, s, lo, hi);
    d := ReadByteAt(c2, v, k2, end, b, ps, [], Out({}));
    HInvIs(d, ps, [] + [b], FrameByte(Out({}), b));
    assert [] + [b] == [b] && FrameByte(Out({}), b) == Out({});
    LeadsThen(c, v, i, k2, end, c2, d);
  }

  /** A left anchor's byte and bracket, where nothing is open: the anchor is pending. */
  lemma LeftHead(c: S.Ctx, v: Bytes, i: nat, k1: nat, k2: nat, ps: seq<Pattern>, b: MatchByte, lo: nat, hi: nat)
    returns (c2: S.Ctx)
    requires Closed(c, ps)
    requires ByteOk(b) && lo <= hi && 1 <= hi <= S.ANCHORED_BYTE_RANGE_MAX
    requires k1 == i + |MatchByteText(b)| && k2 == k1 + |BracketText(lo, hi)| && k2 <= |v|
    requires v[i..k1] == MatchByteText(b) && v[k1..k2] == BracketText(lo, hi)
    ensures Leads(c, v, i, k2, c2) && HInv(c2, ps, [], Out({}))
    ensures c2.pending == Some(S.HaveByte(S.PosSub(k1, 2), b, lo, hi))
  {
    HInvIs(c, ps, [], Out({}));
    var c1 := ReadByteAt(c, v, i, k1, b, ps, [], Out({}));
    assert [] + [b] == [b];
    HInvIs(c1, ps, [b], Out({}));
    BracketRun(c1, v, k1, k2, lo, hi);
    c2 := Bracketed(c1, k1, lo, hi);
    OneStatic(b);
    StaticCleared(c1, ps, [b], k1, lo, hi);
    HInvIs(c2, ps, [], Out({}));
    LeadsThen(c, v, i, k1, k2, c1, c2);
  }

  /**
   * A left anchor, `byte[lo-hi]string`, where nothing is open: it is
   * pending once its string is read; the string may not hold `{n}`, which
   * would store the anchor before the string ends.
   */
  lemma ReadLeftAnchor(c: S.Ctx, v: Bytes, i: nat, ps: seq<Pattern>, b: MatchByte, lo: nat, hi: nat, s: seq<MatchByte>)
    returns (end: nat, d: S.Ctx)
    requires Closed(c, ps)
    requires |s| >= S.ANCHORED_BYTE_MATCH_STRING_MIN_BYTES && BytesOk(s) && |s| <= S.USIZE_MAX
    requires AnchorStatic(s) && NoWildcardMany(s)
    requires ByteOk(b) && lo <= hi && 1 <= hi <= S.ANCHORED_BYTE_RANGE_MAX
    requires i + |AnchoredText(Left, b, lo, hi, s)| <= |v|
    requires v[i..i + |AnchoredText(Left, b, lo, hi, s)|] == AnchoredText(Left, b, lo, hi, s)
    ensures end == i + |AnchoredText(Left, b, lo, hi, s)|
    ensures Leads(c, v, i, end, d) && Ready(d, ps, Some(AnchoredByte(Left, b, lo, hi, s)))
  {
    assert AnchoredText(Left, b, lo, hi, s) == MatchByteText(b) + BracketText(lo, hi) + MatchBytesText(s);
    var k1, k2;
    k1, k2, end := Split3At(v, i, MatchByteText(b), BracketText(lo, hi), MatchBytesText(s));
    var c2 := LeftHead(c, v, i, k1, k2, ps, b, lo, hi);
    d := ReadStringH(c2, v, k2, end, s, ps, [], Out({}));
    FrameAfterIs(Out({}), s);
    assert [] + s == s;
    HInvIs(d, ps, s, Out({}));
    LeadsThen(c, v, i, k2, end, c2, d);
  }
}
