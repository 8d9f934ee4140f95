/**
 * The body-signature round trip: the text `append_sigbytes` writes for a
 * list of patterns (src/signature/bodysig/pattern.rs) parses back, with
 * `BodySig::try_from` (src/signature/bodysig/parse.rs), to the same list,
 * for every list of the kinds the parser itself builds that this model
 * describes in `Fits`.
 */
module BodySigRoundTrip {
  import opened Wrappers
  import opened ByteStr
  import opened TextAt
  import opened PatternModifiers
  import opened Patterns
  import Util
  import S = BodySigParse
  import BodySigs
  import opened BodySigRuns
  import opened BodySigReadBack
  import opened BodySigReadItems
  import opened BodySigReadGroups
  import opened BodySigReadAnchors
  import opened BodySigReadRight

  // ------------------------------------------------------------ the fragment

  /** A string or an anchored byte is still open once its text is read. */
  function LastOpen(p: Pattern): Option<Pattern>
  {
    if p.String? || p.AnchoredByte? then Some(p) else None
  }

  /** The pattern still open after the texts of `ps`. */
  function Open(ps: seq<Pattern>): Option<Pattern>
  {
    if |ps| == 0 then None else LastOpen(ps[|ps| - 1])
  }

  /** The patterns already stored after the texts of `ps`. */
  function Stored(ps: seq<Pattern>): seq<Pattern>
  {
    if Open(ps).Some? then ps[..|ps| - 1] else ps
  }

  /**
   * A pattern whose text, written after patterns that leave `last` open,
   * reads back as that pattern:
   * - a string with a full pair of bytes, left-side flags, and right-side
   *   flags only if they are negated (a right-side flag's `(` stores the
   *   bytes before it, while `!` does not); after an open pattern it needs a
   *   left-side flag, or its bytes would join the open ones, and after an
   *   open string the first of those may not be negated, or its `!` would be
   *   read as a right-side flag of the open string;
   * - `*` or a range the parser stores, not as the first pattern;
   * - a group of alternatives the parser stores as it is;
   * - an anchored byte where nothing is open (after an open string the
   *   anchor's bytes would join the string's), whose string's static bytes
   *   the parser records as they are.
   */
  predicate ItemFits(p: Pattern, last: Option<Pattern>, first: bool)
  {
    match p
    case String(s, m) => StringItem(s, m, last)
    case Wildcard => !first
    case ByteRange(r) => !first && RangeItem(r)
    case AlternativeStrings(g) => GroupItem(g)
    case AnchoredByte(side, b, lo, hi, s) => last.None? && AnchorItem(side, b, lo, hi, s)
  }

  /** An anchored byte that fits where nothing is open. */
  predicate AnchorItem(side: AnchorSide, b: MatchByte, lo: nat, hi: nat, s: seq<MatchByte>)
  {
    && ByteOk(b) && BytesOk(s) && AnchorStatic(s)
    && lo <= hi && 1 <= hi <= S.ANCHORED_BYTE_RANGE_MAX
    && (side == Right ==> |s| >= 2 && |s| < S.USIZE_MAX && !b.WildcardMany?)
    && (side == Left ==> |s| >= S.ANCHORED_BYTE_MATCH_STRING_MIN_BYTES && |s| <= S.USIZE_MAX && NoWildcardMany(s))
  }

  /** A string that fits after patterns that leave `last` open. */
  predicate StringItem(s: seq<MatchByte>, m: Flags, last: Option<Pattern>)
  {
    && BytesOk(s) && HasFullPair(s) && |s| <= S.USIZE_MAX && m * RIGHT_FLAGS <= RIGHT_NEGATED
    && (last.Some? ==> |Ordered(m * LEFT_FLAGS)| > 0)
    && (last.Some? && last.value.String? ==> Ordered(m * LEFT_FLAGS)[0] !in NEGATIVE_FLAGS)
  }

  /** Every pattern of `ps` fits after the ones before it. */
  predicate Fits(ps: seq<Pattern>)
    decreases |ps|
  {
    |ps| == 0 || (Fits(ps[..|ps| - 1]) && ItemFits(ps[|ps| - 1], Open(ps[..|ps| - 1]), |ps| == 1))
  }

  /**
   * The body signatures the round trip covers: a non-empty list of fitting
   * patterns that does not end with an unsized one.
   */
  predicate Fragment(ps: seq<Pattern>)
  {
    |ps| > 0 && Fits(ps) && !IsWildcard(ps[|ps| - 1])
  }

  /** Fitting patterns can be exported. */
  lemma {:induction false} FitsExportable(ps: seq<Pattern>)
    requires Fits(ps)
    ensures S.AllExportable(ps)
    decreases |ps|
  {
    if |ps| > 0 {
      var q := ps[..|ps| - 1];
      FitsExportable(q);
      forall k | 0 <= k < |ps|
        ensures Exportable(ps[k])
      {
        if k < |q| {
          assert ps[k] == q[k];
        }
      }
    }
  }

  /** What is stored and what is open make up the patterns read. */
  lemma StoredOpen(ps: seq<Pattern>)
    ensures Items(Stored(ps), Open(ps)) == ps
  {
    if Open(ps).Some? {
      assert ps[..|ps| - 1] + [ps[|ps| - 1]] == ps;
    }
  }

  /** Nothing has been read at the start. */
  lemma InitClosed()
    ensures Closed(S.INIT, [])
  {
  }

  // ------------------------------------------------------------ one pattern

  /** The patterns read once `p` is read after `ps` with `last` open. */
  lemma SnocStored(qs: seq<Pattern>, ps: seq<Pattern>, last: Option<Pattern>, p: Pattern)
    requires qs == Items(ps, last) + [p]
    ensures Open(qs) == LastOpen(p)
    ensures Stored(qs) == if LastOpen(p).Some? then Items(ps, last) else qs
  {
    assert qs[..|qs| - 1] == Items(ps, last);
  }

  /** A pattern that stores everything read leaves the patterns read so far stored. */
  lemma ClosedAfter(d: S.Ctx, qs: seq<Pattern>, ps: seq<Pattern>, last: Option<Pattern>, p: Pattern)
    requires qs == Items(ps, last) + [p] && LastOpen(p).None? && Closed(d, qs)
    ensures Ready(d, Stored(qs), Open(qs))
  {
    SnocStored(qs, ps, last, p);
  }

  /** A pattern that stays open leaves the ones before it stored. */
  lemma OpenAfter(d: S.Ctx, qs: seq<Pattern>, ps: seq<Pattern>, last: Option<Pattern>, p: Pattern)
    requires qs == Items(ps, last) + [p] && LastOpen(p) == Some(p) && Ready(d, Items(ps, last), Some(p))
    ensures Ready(d, Stored(qs), Open(qs))
  {
    SnocStored(qs, ps, last, p);
  }

  /** A string's text read after `ps`, with `last` open: the string is open. */
  lemma ReadStringPattern(c: S.Ctx, v: Bytes, i: nat, j: nat, ps: seq<Pattern>, last: Option<Pattern>,
                          s: seq<MatchByte>, m: Flags, qs: seq<Pattern>)
    returns (d: S.Ctx)
    requires Ready(c, ps, last) && StringItem(s, m, last)
    requires qs == Items(ps, last) + [String(s, m)]
    requires j == i + |PatternText(String(s, m))| && j <= |v| && v[i..j] == PatternText(String(s, m))
    ensures Leads(c, v, i, j, d) && Ready(d, Stored(qs), Open(qs))
  {
    d := ReadFlaggedString(c, v, i, j, ps, last, s, m);
    OpenAfter(d, qs, ps, last, String(s, m));
  }

  /** `*` read after at least one pattern: everything is stored. */
  lemma ReadStarPattern(c: S.Ctx, v: Bytes, i: nat, j: nat, ps: seq<Pattern>, last: Option<Pattern>, qs: seq<Pattern>)
    returns (d: S.Ctx)
    requires Ready(c, ps, last) && |Items(ps, last)| > 0 && qs == Items(ps, last) + [Wildcard]
    requires j == i + |PatternText(Wildcard)| && j <= |v| && v[i..j] == PatternText(Wildcard)
    ensures Leads(c, v, i, j, d) && Ready(d, Stored(qs), Open(qs))
  {
    assert v[i] == v[i..j][0];
    d := ReadStar(c, v, i, ps, last);
    ClosedAfter(d, qs, ps, last, Wildcard);
  }

  /** A range read after at least one pattern: everything is stored. */
  lemma ReadRangePattern(c: S.Ctx, v: Bytes, i: nat, j: nat, ps: seq<Pattern>, last: Option<Pattern>,
                         r: Util.Range, qs: seq<Pattern>)
    returns (d: S.Ctx)
    requires Ready(c, ps, last) && |Items(ps, last)| > 0 && RangeItem(r) && qs == Items(ps, last) + [ByteRange(r)]
    requires j == i + |PatternText(ByteRange(r))| && j <= |v| && v[i..j] == PatternText(ByteRange(r))
    ensures Leads(c, v, i, j, d) && Ready(d, Stored(qs), Open(qs))
  {
    d := ReadRangeItem(c, v, i, ps, last, r);
    ClosedAfter(d, qs, ps, last, ByteRange(r));
  }

  /** A group read after any patterns: everything is stored. */
  lemma ReadGroupPattern(c: S.Ctx, v: Bytes, i: nat, j: nat, ps: seq<Pattern>, last: Option<Pattern>,
                         g: AltStrings, qs: seq<Pattern>)
    returns (d: S.Ctx)
    requires Ready(c, ps, last) && GroupItem(g) && qs == Items(ps, last) + [AlternativeStrings(g)]
    requires j == i + |PatternText(AlternativeStrings(g))| && j <= |v| && v[i..j] == PatternText(AlternativeStrings(g))
    ensures Leads(c, v, i, j, d) && Ready(d, Stored(qs), Open(qs))
  {
    var end;
    end, d := ReadGroupItem(c, v, i, ps, last, g);
    assert end == j;
    ClosedAfter(d, qs, ps, last, AlternativeStrings(g));
  }

  /** A right anchor read where nothing is open: the anchor is open. */
  lemma ReadRightPattern(c: S.Ctx, v: Bytes, i: nat, j: nat, ps: seq<Pattern>,
                         b: MatchByte, lo: nat, hi: nat, s: seq<MatchByte>, qs: seq<Pattern>)
    returns (d: S.Ctx)
    requires Closed(c, ps) && AnchorItem(Right, b, lo, hi, s)
    requires qs == ps + [AnchoredByte(Right, b, lo, hi, s)]
    requires j == i + |PatternText(AnchoredByte(Right, b, lo, hi, s))| && j <= |v|
    requires v[i..j] == PatternText(AnchoredByte(Right, b, lo, hi, s))
    ensures Leads(c, v, i, j, d) && Ready(d, Stored(qs), Open(qs))
  {
    var end;
    end, d := ReadRightAnchor(c, v, i, ps, s, lo, hi, b);
    assert end == j;
    OpenAfter(d, qs, ps, None, AnchoredByte(Right, b, lo, hi, s));
  }

  /** A left anchor read where nothing is open: the anchor is open. */
  lemma ReadLeftPattern(c: S.Ctx, v: Bytes, i: nat, j: nat, ps: seq<Pattern>,
                        b: MatchByte, lo: nat, hi: nat, s: seq<MatchByte>, qs: seq<Pattern>)
    returns (d: S.Ctx)
    requires Closed(c, ps) && AnchorItem(Left, b, lo, hi, s)
    requires qs == ps + [AnchoredByte(Left, b, lo, hi, s)]
    requires j == i + |PatternText(AnchoredByte(Left, b, lo, hi, s))| && j <= |v|
    requires v[i..j] == PatternText(AnchoredByte(Left, b, lo, hi, s))
    ensures Leads(c, v, i, j, d) && Ready(d, Stored(qs), Open(qs))
  {
    var end;
    end, d := ReadLeftAnchor(c, v, i, ps, b, lo, hi, s);
    assert end == j;
    OpenAfter(d, qs, ps, None, AnchoredByte(Left, b, lo, hi, s));
  }

  /**
   * The text of a fitting pattern read after `ps` with `last` open: the
   * patterns read so far, `qs`, are stored or open as `Stored` and `Open`
   * say.
   */
  lemma ReadPattern(c: S.Ctx, v: Bytes, i: nat, j: nat, ps: seq<Pattern>, last: Option<Pattern>, p: Pattern, qs: seq<Pattern>)
    returns (d: S.Ctx)
    requires Ready(c, ps, last) && ItemFits(p, last, |Items(ps, last)| == 0) && qs == Items(ps, last) + [p]
    requires j == i + |PatternText(p)| && j <= |v| && v[i..j] == PatternText(p)
    ensures Leads(c, v, i, j, d) && Ready(d, Stored(qs), Open(qs))
  {
    match p {
      case String(s, m) => d := ReadStringPattern(c, v, i, j, ps, last, s, m, qs);
      case Wildcard => d := ReadStarPattern(c, v, i, j, ps, last, qs);
      case ByteRange(r) => d := ReadRangePattern(c, v, i, j, ps, last, r, qs);
      case AlternativeStrings(g) => d := ReadGroupPattern(c, v, i, j, ps, last, g, qs);
      case AnchoredByte(side, b, lo, hi, s) =>
        if side == Right {
          d := ReadRightPattern(c, v, i, j, ps, b, lo, hi, s, qs);
        } else {
          d := ReadLeftPattern(c, v, i, j, ps, b, lo, hi, s, qs);
        }
    }
  }

  // ------------------------------------------------------------ a whole list

  /** A non-empty list is what its texts but the last leave read, then its last pattern. */
  lemma SnocParts(ps: seq<Pattern>)
    requires |ps| > 0 && Fits(ps)
    ensures Fits(ps[..|ps| - 1])
    ensures ItemFits(ps[|ps| - 1], Open(ps[..|ps| - 1]), |Items(Stored(ps[..|ps| - 1]), Open(ps[..|ps| - 1]))| == 0)
    ensures ps == Items(Stored(ps[..|ps| - 1]), Open(ps[..|ps| - 1])) + [ps[|ps| - 1]]
  {
    StoredOpen(ps[..|ps| - 1]);
    assert ps == ps[..|ps| - 1] + [ps[|ps| - 1]];
  }

  /** The texts of `ps`, read from the start, leave `ps` stored or open. */
  lemma {:induction false} ReadPatterns(v: Bytes, ps: seq<Pattern>, n: nat) returns (d: S.Ctx)
    requires Fits(ps) && S.AllExportable(ps)
    requires n == |BodySigs.PatternsText(ps)| && n <= |v| && v[0..n] == BodySigs.PatternsText(ps)
    ensures Leads(S.INIT, v, 0, n, d) && Ready(d, Stored(ps), Open(ps))
    decreases |ps|
  {
    if |ps| == 0 {
      InitClosed();
      LeadsNothing(S.INIT, v, 0);
      d := S.INIT;
    } else {
      var q, p := ps[..|ps| - 1], ps[|ps| - 1];
      SnocParts(ps);
      FitsExportable(q);
      var x: Bytes, y: Bytes := BodySigs.PatternsText(q), PatternText(p);
      assert BodySigs.PatternsText(ps) == x + y;
      var m, end := Split2At(v, 0, x, y);
      var d0 := ReadPatterns(v, q, m);
      d := ReadPattern(d0, v, m, n, Stored(q), Open(q), p, ps);
      LeadsThen(S.INIT, v, 0, m, n, d0, d);
    }
  }

  /**
   * At the end of the text the pending anchor, if any, is resolved and the
   * open string flushed: the patterns come out as they were.
   */
  lemma FinishPatterns(d: S.Ctx, ps: seq<Pattern>)
    requires Fragment(ps) && Ready(d, Stored(ps), Open(ps))
    ensures S.Finish(d, HN) == Ok(ps)
  {
    var c1, ps1, last1 := Resolve(d, None, Stored(ps), Open(ps));
    var c2 := Settle(c1, ps1, last1);
    StoredOpen(ps);
    assert S.HandleNonMatchByte(d, None) == Ok((c1, HN));
  }

  /** The text of a fragment body parses back to the same patterns. */
  lemma ParsePatternsText(ps: seq<Pattern>)
    requires Fragment(ps)
    ensures S.AllExportable(ps)
    ensures S.Parse(BodySigs.PatternsText(ps)) == Ok(ps)
  {
    FitsExportable(ps);
    var v := BodySigs.PatternsText(ps);
    var d := ReadPatterns(v, ps, |v|);
    LeadsToEnd(S.INIT, v, d);
    FinishPatterns(d, ps);
  }

  /** `BodySig::try_from` reads the export of a fragment body signature back as that signature. */
  lemma BodySigRoundTrip(sig: BodySigs.BodySig)
    requires Fragment(sig.patterns)
    ensures S.AllExportable(sig.patterns)
    ensures BodySigs.Parse(BodySigs.BodySigText(sig)) == Ok(sig)
  {
    ParsePatternsText(sig.patterns);
  }

  // ------------------------------------------------------------ the field separator

  /** No state of the parser takes `:`. */
  lemma ColonRefused(c: S.Ctx, st: S.State, pos: nat)
    requires S.Consistent(c, st)
    ensures S.Step(c, st, pos, ':').Err?
  {
  }

  /** No `:` from position `i` on. */
  predicate NoColonFrom(v: Bytes, i: nat)
  {
    forall k :: i <= k < |v| ==> v[k] != ':'
  }

  lemma NoColonStep(v: Bytes, i: nat)
    requires i < |v| && v[i] != ':' && NoColonFrom(v, i + 1)
    ensures NoColonFrom(v, i)
  {
  }

  /** The byte loop, run from `i` in context `c` and state `st`, reads `v` to its end. */
  predicate RunsOn(c: S.Ctx, st: S.State, v: Bytes, i: nat)
    requires i <= |v| && S.Consistent(c, st)
  {
    S.RunFrom(c, st, v, i).Ok?
  }

  /** A text the parser reads to its end holds no `:`. */
  lemma {:induction false} RunHasNoColon(c: S.Ctx, st: S.State, v: Bytes, i: nat)
    requires i <= |v| && S.Consistent(c, st) && RunsOn(c, st, v, i)
    ensures NoColonFrom(v, i)
    decreases |v| - i
  {
    if i < |v| {
      var c1, st1 := RunGoesOn(c, st, v, i);
      RunHasNoColon(c1, st1, v, i + 1);
      NoColonStep(v, i);
    }
  }

  /** A run that reads to the end takes its next byte, which is not `:`, and reads on from there. */
  lemma RunGoesOn(c: S.Ctx, st: S.State, v: Bytes, i: nat) returns (c1: S.Ctx, st1: S.State)
    requires i < |v| && S.Consistent(c, st) && RunsOn(c, st, v, i)
    ensures v[i] != ':'
    ensures S.Consistent(c1, st1) && RunsOn(c1, st1, v, i + 1)
  {
    var next := S.Step(c, st, i, v[i]).value;
    c1, st1 := next.0, next.1;
    if v[i] == ':' {
      ColonRefused(c, st, i);
    }
  }

  /** A body the parser accepts holds no `:` and is not `*`. */
  lemma ParsedHasNoColon(v: Bytes)
    requires S.Parse(v).Ok?
    ensures ':' !in v && v != "*"
  {
    RunHasNoColon(S.INIT, HN, v, 0);
  }
}
