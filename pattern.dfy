/**
 * The elements of a body signature (src/signature/bodysig/pattern.rs and the
 * `AlternativeStrings` type of src/signature/bodysig/altstr.rs), and their
 * export into the text form `aa?b{3}*(B)..`.
 */
module Patterns {
  import opened Wrappers
  import opened ByteStr
  import Hex
  import Num
  import Util
  import Collect
  import opened PatternModifiers
  import SigBytes

  // ------------------------------------------------------------ match bytes

  /**
   * One matched byte: the whole byte, only its low or high nyble, any byte,
   * or a short run of ignored bytes (`{n}`, n at most 128 when parsed).
   * A `LowNyble` holds the nyble in its low half, a `HighNyble` in its high half.
   */
  datatype MatchByte = Full(value: Byte) | LowNyble(value: Byte) | HighNyble(value: Byte) | Any | WildcardMany(size: Byte)

  /** The shapes the parser builds: a nyble match keeps its other half zero. */
  predicate MatchByteWF(mb: MatchByte)
  {
    match mb
    case LowNyble(v) => v as int < 16
    case HighNyble(v) => v as int % 16 == 0
    case _ => true
  }

  predicate AllWF(s: seq<MatchByte>)
  {
    forall k :: 0 <= k < |s| ==> MatchByteWF(s[k])
  }

  /** `Debug for MatchByte`: `xx`, `?x`, `x?`, `??` or `{n}`, hex digits in lower case. */
  function MatchByteText(mb: MatchByte): (r: Bytes)
    ensures |r| >= 2
  {
    match mb
    case Full(b) => Hex.Hex2(b)
    case LowNyble(b) => ['?', LowerHexDigit(b as int % 16)]
    case HighNyble(b) => [LowerHexDigit(b as int / 16 % 16), '?']
    case Any => "??"
    case WildcardMany(n) => "{" + Num.Dec(n as int) + "}"
  }

  /**
   * What each match byte's text says: a full byte is two hex digits of its
   * value, a nyble match a `?` on the ignored side and the kept nyble's digit,
   * and `{n}` a decimal between braces.
   */
  lemma MatchByteTextShape(mb: MatchByte)
    ensures var r := MatchByteText(mb);
      && (mb.Full? ==> (|r| == 2 && IsHexDigit(r[0]) && IsHexDigit(r[1]) &&
                        HexVal(r[0]) * 16 + HexVal(r[1]) == mb.value as int))
      && (mb.LowNyble? ==> (|r| == 2 && r[0] == '?' && IsHexDigit(r[1]) && HexVal(r[1]) == mb.value as int % 16))
      && (mb.HighNyble? ==> (|r| == 2 && r[1] == '?' && IsHexDigit(r[0]) && HexVal(r[0]) == mb.value as int / 16))
      && (mb.Any? ==> r == "??")
      && (mb.WildcardMany? <==> r[0] == '{')
      && (mb.WildcardMany? ==> (|r| >= 3 && r[|r| - 1] == '}' && r[1..|r| - 1] == Num.Dec(mb.size as int)))
  {
    var r := MatchByteText(mb);
    if mb.WildcardMany? {
      assert r[1..|r| - 1] == Num.Dec(mb.size as int);
    }
  }

  /** Different well-formed match bytes never export to the same text. */
  lemma MatchByteTextInjective(a: MatchByte, b: MatchByte)
    requires MatchByteWF(a) && MatchByteWF(b)
    requires MatchByteText(a) == MatchByteText(b)
    ensures a == b
  {
    var t := MatchByteText(a);
    MatchByteTextShape(a);
    MatchByteTextShape(b);
    match a
    case Full(x) =>
      assert b.Full? && x as int == b.value as int;
    case LowNyble(x) =>
      assert b.LowNyble? && x as int == b.value as int;
    case HighNyble(x) =>
      assert b.HighNyble? && x as int == b.value as int;
    case Any =>
    case WildcardMany(n) =>
      var m := b.size;
      assert t[1..|t| - 1] == Num.Dec(n as int) == Num.Dec(m as int);
      Num.ParseDecRoundTrip(n as int, 255);
      Num.ParseDecRoundTrip(m as int, 255);
  }

  /** `Display for MatchBytes`: each match byte's text, in order. */
  function MatchBytesText(s: seq<MatchByte>): (r: Bytes)
    decreases |s|
  {
    if |s| == 0 then [] else MatchByteText(s[0]) + MatchBytesText(s[1..])
  }

  /** The text of a concatenation is the concatenation of the texts. */
  lemma {:induction false} MatchBytesTextConcat(a: seq<MatchByte>, b: seq<MatchByte>)
    ensures MatchBytesText(a + b) == MatchBytesText(a) + MatchBytesText(b)
    decreases |a|
  {
    if |a| == 0 {
      assert a + b == b;
    } else {
      assert (a + b)[1..] == a[1..] + b;
      MatchBytesTextConcat(a[1..], b);
      calc {
        MatchBytesText(a + b);
        MatchByteText(a[0]) + MatchBytesText(a[1..] + b);
        MatchByteText(a[0]) + (MatchBytesText(a[1..]) + MatchBytesText(b));
        (MatchByteText(a[0]) + MatchBytesText(a[1..])) + MatchBytesText(b);
      }
    }
  }

  /** Writing one more match byte extends the text by that byte's text. */
  lemma MatchBytesTextSnoc(s: seq<MatchByte>, i: nat)
    requires i < |s|
    ensures MatchBytesText(s[..i + 1]) == MatchBytesText(s[..i]) + MatchByteText(s[i])
  {
    assert s[..i + 1] == s[..i] + [s[i]];
    MatchBytesTextConcat(s[..i], [s[i]]);
    assert MatchBytesText([s[i]]) == MatchByteText(s[i]) + MatchBytesText([]);
  }

  lemma MatchBytesTextStep(start: Bytes, s: seq<MatchByte>, i: nat, before: Bytes, t: Bytes)
    requires i < |s| && before == start + MatchBytesText(s[..i]) && t == MatchByteText(s[i])
    ensures before + t == start + MatchBytesText(s[..i + 1])
  {
    MatchBytesTextSnoc(s, i);
    AppendAssoc(start, MatchBytesText(s[..i]), t, before, MatchBytesText(s[..i + 1]));
  }

  /** `From<&[u8]> for MatchBytes`: every byte as a full match, in order. */
  function FromBytes(b: Bytes): (r: seq<MatchByte>)
    ensures |r| == |b|
    ensures forall k :: 0 <= k < |b| ==> r[k] == Full(b[k])
    decreases |b|
  {
    if |b| == 0 then [] else [Full(b[0])] + FromBytes(b[1..])
  }

  /** Plain bytes export as their hex text, the same as a byte slice does. */
  lemma {:induction false} FromBytesText(b: Bytes)
    ensures MatchBytesText(FromBytes(b)) == Hex.Encode(b)
    decreases |b|
  {
    if |b| > 0 {
      FromBytesText(b[1..]);
      assert FromBytes(b)[1..] == FromBytes(b[1..]);
    }
  }

  // ------------------------------------------------------------- patterns

  datatype AnchorSide = Left | Right

  /**
   * `AlternativeStrings`: a fixed-width group stores its alternatives back to
   * back, each `width` long; a generic group stores them back to back with the
   * index range of each.
   */
  datatype AltStrings =
    | FixedWidth(negated: bool, width: nat, data: seq<MatchByte>)
    | Generic(ranges: seq<(nat, nat)>, data: seq<MatchByte>)

  datatype Pattern =
    | String(bytes: seq<MatchByte>, modifiers: Flags)
    | AnchoredByte(side: AnchorSide, byte: MatchByte, lo: nat, hi: nat, string: seq<MatchByte>)
    | AlternativeStrings(alts: AltStrings)
    | ByteRange(range: Util.Range)
    | Wildcard

  /** `is_wildcard`: the unsized patterns, which may not open or close a signature. */
  predicate IsWildcard(p: Pattern)
  {
    p.Wildcard? || p.ByteRange?
  }

  /**
   * What export needs: `chunks` of a fixed-width group needs a positive width,
   * and every range of a generic group must lie inside its data (the source
   * unwraps the slice).
   */
  predicate Exportable(p: Pattern)
  {
    match p
    case AlternativeStrings(FixedWidth(_, w, _)) => w > 0
    case AlternativeStrings(Generic(ranges, data)) =>
      forall k :: 0 <= k < |ranges| ==> ranges[k].0 <= ranges[k].1 <= |data|
    case _ => true
  }

  /** `chunks(width)`: consecutive pieces of `width` items, the last one possibly shorter. */
  function Chunks(data: seq<MatchByte>, width: nat): (r: seq<seq<MatchByte>>)
    requires width > 0
    decreases |data|
  {
    if |data| == 0 then []
    else if |data| <= width then [data]
    else [data[..width]] + Chunks(data[width..], width)
  }

  function Concat(parts: seq<seq<MatchByte>>): seq<MatchByte>
    decreases |parts|
  {
    if |parts| == 0 then [] else parts[0] + Concat(parts[1..])
  }

  /**
   * The pieces are non-empty, all but the last exactly `width` long, and
   * put back together they give the data.
   */
  lemma {:induction false} ChunksShape(data: seq<MatchByte>, width: nat)
    requires width > 0
    ensures forall k :: 0 <= k < |Chunks(data, width)| ==> 0 < |Chunks(data, width)[k]| <= width
    ensures forall k :: 0 <= k < |Chunks(data, width)| - 1 ==> |Chunks(data, width)[k]| == width
    ensures Concat(Chunks(data, width)) == data
    decreases |data|
  {
    var r := Chunks(data, width);
    if |data| == 0 {
    } else if |data| <= width {
      assert Concat([data]) == data + Concat([]);
    } else {
      var rest := Chunks(data[width..], width);
      ChunksShape(data[width..], width);
      assert r == [data[..width]] + rest;
      assert r[1..] == rest;
      assert Concat(r) == data[..width] + Concat(rest);
      assert data[..width] + data[width..] == data;
      forall k | 0 <= k < |r|
        ensures 0 < |r[k]| <= width && (k < |r| - 1 ==> |r[k]| == width)
      {
        if k > 0 {
          assert r[k] == rest[k - 1];
        }
      }
    }
  }

  /**
   * Pieces that all have the same positive width, put back to back, are cut
   * back into exactly those pieces.
   */
  lemma {:induction false} ChunksOfConcat(pieces: seq<seq<MatchByte>>, width: nat)
    requires width > 0
    requires forall k :: 0 <= k < |pieces| ==> |pieces[k]| == width
    ensures Chunks(Concat(pieces), width) == pieces
    decreases |pieces|
  {
    if |pieces| > 0 {
      var rest := Concat(pieces[1..]);
      ChunksOfConcat(pieces[1..], width);
      var data := pieces[0] + rest;
      assert Concat(pieces) == data;
      assert data[..width] == pieces[0] && data[width..] == rest;
      if |pieces| == 1 {
        assert data == pieces[0];
      } else {
        ConcatLength(pieces[1..], width);
        assert Chunks(data, width) == [pieces[0]] + pieces[1..];
      }
    }
  }

  lemma {:induction false} ConcatLength(pieces: seq<seq<MatchByte>>, width: nat)
    requires |pieces| > 0 && width > 0
    requires forall k :: 0 <= k < |pieces| ==> |pieces[k]| == width
    ensures |Concat(pieces)| >= width
  {
  }

  /** The pieces of a generic group: its data cut at each range, in order. */
  function Slices(ranges: seq<(nat, nat)>, data: seq<MatchByte>): (r: seq<seq<MatchByte>>)
    requires forall k :: 0 <= k < |ranges| ==> ranges[k].0 <= ranges[k].1 <= |data|
    ensures |r| == |ranges|
    ensures forall k :: 0 <= k < |ranges| ==> r[k] == data[ranges[k].0..ranges[k].1]
    decreases |ranges|
  {
    if |ranges| == 0 then [] else [data[ranges[0].0..ranges[0].1]] + Slices(ranges[1..], data)
  }

  /** Alternatives between parentheses, separated by `|`. */
  function AltText(alts: seq<seq<MatchByte>>): Bytes
  {
    "(" + Join(Collect.Map(MatchBytesText, alts), '|') + ")"
  }

  /** The texts of the given flags, in the given order. */
  function FlagsText(ms: seq<PatternModifier>): (r: Bytes)
    decreases |ms|
  {
    if |ms| == 0 then [] else ModifierText(ms[0]) + FlagsText(ms[1..])
  }

  lemma {:induction false} FlagsTextConcat(a: seq<PatternModifier>, b: seq<PatternModifier>)
    ensures FlagsText(a + b) == FlagsText(a) + FlagsText(b)
    decreases |a|
  {
    if |a| == 0 {
      assert a + b == b;
    } else {
      var t := a[1..] + b;
      assert (a + b)[0] == a[0] && (a + b)[1..] == t;
      FlagsTextConcat(a[1..], b);
      assert FlagsText(a + b) == ModifierText(a[0]) + FlagsText(t);
      AppendAssoc(ModifierText(a[0]), FlagsText(a[1..]), FlagsText(b), FlagsText(a), FlagsText(t));
    }
  }

  lemma FlagsTextSnoc(ms: seq<PatternModifier>, i: nat)
    requires i < |ms|
    ensures FlagsText(ms[..i + 1]) == FlagsText(ms[..i]) + ModifierText(ms[i])
  {
    assert ms[..i + 1] == ms[..i] + [ms[i]];
    FlagsTextConcat(ms[..i], [ms[i]]);
    assert FlagsText([ms[i]]) == ModifierText(ms[i]) + FlagsText([]);
  }

  lemma FlagsTextStep(start: Bytes, ms: seq<PatternModifier>, i: nat, before: Bytes, t: Bytes)
    requires i < |ms| && before == start + FlagsText(ms[..i]) && t == ModifierText(ms[i])
    ensures before + t == start + FlagsText(ms[..i + 1])
  {
    FlagsTextSnoc(ms, i);
    AppendAssoc(start, FlagsText(ms[..i]), t, before, FlagsText(ms[..i + 1]));
  }

  /** `lo-hi` between brackets, both bounds always written. */
  function BracketText(lo: nat, hi: nat): Bytes
  {
    "[" + Num.Dec(lo) + "-" + Num.Dec(hi) + "]"
  }

  /**
   * `AppendSigBytes for Pattern`, with a string's right-side flags written
   * after its bytes (the source writes only the left-side ones; see
   * `StringTextAsWritten`).
   */
  function PatternText(p: Pattern): (r: Bytes)
    requires Exportable(p)
  {
    match p
    case String(s, m) => StringText(s, m)
    case Wildcard => "*"
    case AnchoredByte(side, b, lo, hi, s) => AnchoredText(side, b, lo, hi, s)
    case ByteRange(range) => "{" + Util.RangeText(range) + "}"
    case AlternativeStrings(alts) => AltStringsText(alts)
  }

  /** A string: its left-side flags, its bytes, then its right-side flags. */
  function StringText(s: seq<MatchByte>, m: Flags): Bytes
  {
    FlagsText(Ordered(m * LEFT_FLAGS)) + MatchBytesText(s) + FlagsText(Ordered(m * RIGHT_FLAGS))
  }

  /** `byte[lo-hi]string` when the byte is on the left, `string[lo-hi]byte` otherwise. */
  function AnchoredText(side: AnchorSide, b: MatchByte, lo: nat, hi: nat, s: seq<MatchByte>): Bytes
  {
    if side == Left then MatchByteText(b) + BracketText(lo, hi) + MatchBytesText(s)
    else MatchBytesText(s) + BracketText(lo, hi) + MatchByteText(b)
  }

  predicate AltExportable(alts: AltStrings)
  {
    Exportable(AlternativeStrings(alts))
  }

  /** A group: fixed-width data cut into width-sized pieces, generic data cut at its ranges. */
  function AltStringsText(alts: AltStrings): Bytes
    requires AltExportable(alts)
  {
    match alts
    case FixedWidth(neg, w, data) => (if neg then "!" else "") + AltText(Chunks(data, w))
    case Generic(ranges, data) => AltText(Slices(ranges, data))
  }

  /**
   * Each kind of pattern is told apart by its text: only a wildcard is `*`,
   * a byte range sits in braces, an un-negated group in parentheses and a
   * negated one starts with `!(`.
   */
  lemma PatternTextShape(p: Pattern)
    requires Exportable(p)
    ensures p.Wildcard? <==> PatternText(p) == "*"
    ensures p.ByteRange? ==> (|PatternText(p)| >= 3 && PatternText(p)[0] == '{' &&
                              PatternText(p)[|PatternText(p)| - 1] == '}')
    ensures p.AlternativeStrings? && !(p.alts.FixedWidth? && p.alts.negated) ==>
      (|PatternText(p)| >= 2 && PatternText(p)[0] == '(' && PatternText(p)[|PatternText(p)| - 1] == ')')
    ensures p.AlternativeStrings? && p.alts.FixedWidth? && p.alts.negated ==> PatternText(p)[..2] == "!("
  {
    match p
    case String(s, m) =>
      StringTextNotStar(s, m);
    case AnchoredByte(side, b, lo, hi, s) =>
      assert |AnchoredText(side, b, lo, hi, s)| >= |BracketText(lo, hi)| >= 2;
    case ByteRange(range) =>
      var t := Util.RangeText(range);
      assert PatternText(p) == "{" + t + "}";
    case AlternativeStrings(alts) =>
      AltStringsTextShape(alts);
    case Wildcard =>
  }

  lemma AltStringsTextShape(alts: AltStrings)
    requires AltExportable(alts)
    ensures !(alts.FixedWidth? && alts.negated) ==>
      (|AltStringsText(alts)| >= 2 && AltStringsText(alts)[0] == '(' && AltStringsText(alts)[|AltStringsText(alts)| - 1] == ')')
    ensures alts.FixedWidth? && alts.negated ==> AltStringsText(alts)[..2] == "!("
  {
    match alts
    case FixedWidth(neg, w, data) =>
      var t := AltText(Chunks(data, w));
      if neg {
        assert AltStringsText(alts) == "!" + t;
      } else {
        assert AltStringsText(alts) == t;
      }
    case Generic(ranges, data) =>
  }

  lemma StringTextNotStar(s: seq<MatchByte>, m: Flags)
    ensures StringText(s, m) != "*"
  {
    var l, r := Ordered(m * LEFT_FLAGS), Ordered(m * RIGHT_FLAGS);
    if |l| > 0 {
      assert |FlagsText(l)| >= 3;
    } else if |s| > 0 {
      assert |MatchBytesText(s)| >= 2;
    } else if |r| > 0 {
      assert |FlagsText(r)| >= 3;
    }
  }

  /** A string as the source exports it: the left-side flags, then the bytes. */
  function StringTextAsWritten(s: seq<MatchByte>, m: Flags): Bytes
  {
    FlagsText(Ordered(m * LEFT_FLAGS)) + MatchBytesText(s)
  }

  /**
   * As written, a string's right-side flags never reach its text: the string
   * exports the same with or without them, so `(B)0123!(W)45`, which parses
   * with a negated right-side `W` flag, exports as `(B)012345`.
   */
  lemma StringExportDropsRightFlags(s: seq<MatchByte>, m: Flags)
    ensures StringTextAsWritten(s, m) == StringTextAsWritten(s, m * LEFT_FLAGS)
    ensures StringTextAsWritten(s, {WordMarkerRightNegative}) == StringTextAsWritten(s, {})
  {
    assert m * LEFT_FLAGS * LEFT_FLAGS == m * LEFT_FLAGS;
    assert {WordMarkerRightNegative} * LEFT_FLAGS == {} * LEFT_FLAGS;
  }

  /**
   * The corrected export is the source's text followed by the right-side
   * flags, so a string that has any exports longer than the source writes it.
   */
  lemma StringTextKeepsRightFlags(s: seq<MatchByte>, m: Flags)
    ensures StringText(s, m) == StringTextAsWritten(s, m) + FlagsText(Ordered(m * RIGHT_FLAGS))
    ensures m * RIGHT_FLAGS != {} ==> |StringText(s, m)| > |StringTextAsWritten(s, m)|
  {
    var r := Ordered(m * RIGHT_FLAGS);
    if m * RIGHT_FLAGS != {} {
      var x :| x in m * RIGHT_FLAGS;
      OrderedFlags(m * RIGHT_FLAGS);
      assert x in r;
      assert |FlagsText(r)| >= 3;
    }
  }

  /** A pattern that the source's exporter and the corrected one write alike: no string with right-side flags. */
  predicate NoRightFlags(p: Pattern)
  {
    p.String? ==> p.modifiers * RIGHT_FLAGS == {}
  }

  /** `AppendSigBytes for Pattern` as the source writes it: a string without its right-side flags. */
  function PatternTextAsWritten(p: Pattern): (r: Bytes)
    requires Exportable(p)
  {
    if p.String? then StringTextAsWritten(p.bytes, p.modifiers) else PatternText(p)
  }

  /**
   * The source's text of a pattern is never longer than the corrected one,
   * and the two are the same text, and as long, exactly when the pattern
   * has no right-side flags.
   */
  lemma PatternAsWrittenAgrees(p: Pattern)
    requires Exportable(p)
    ensures |PatternTextAsWritten(p)| <= |PatternText(p)|
    ensures PatternTextAsWritten(p) == PatternText(p) <==> NoRightFlags(p)
    ensures |PatternTextAsWritten(p)| == |PatternText(p)| <==> NoRightFlags(p)
  {
    if p.String? {
      StringTextKeepsRightFlags(p.bytes, p.modifiers);
      if p.modifiers * RIGHT_FLAGS == {} {
        assert Ordered(p.modifiers * RIGHT_FLAGS) == [];
      }
    }
  }

  // ---------------------------------------------------------------- export

  /** Writes each match byte's text in turn. */
  method AppendMatchBytes(sb: SigBytes.SigBytes, s: seq<MatchByte>)
    modifies sb
    ensures sb.bytes == old(sb.bytes) + MatchBytesText(s)
  {
    ghost var start := sb.bytes;
    var i := 0;
    while i < |s|
      invariant 0 <= i <= |s|
      invariant sb.bytes == start + MatchBytesText(s[..i])
    {
      var t := MatchByteText(s[i]);
      ghost var before := sb.bytes;
      sb.Write(t);
      MatchBytesTextStep(start, s, i, before, t);
      i := i + 1;
    }
    assert s[..i] == s;
  }

  /** Writes each flag's text in turn. */
  method AppendFlags(sb: SigBytes.SigBytes, ms: seq<PatternModifier>)
    modifies sb
    ensures sb.bytes == old(sb.bytes) + FlagsText(ms)
  {
    ghost var start := sb.bytes;
    var i := 0;
    while i < |ms|
      invariant 0 <= i <= |ms|
      invariant sb.bytes == start + FlagsText(ms[..i])
    {
      var t := ModifierText(ms[i]);
      ghost var before := sb.bytes;
      sb.Write(t);
      FlagsTextStep(start, ms, i, before, t);
      i := i + 1;
    }
    assert ms[..i] == ms;
  }

  /** Writes a parenthesised group, `|` before every alternative but the first. */
  method AppendAlts(sb: SigBytes.SigBytes, alts: seq<seq<MatchByte>>)
    modifies sb
    ensures sb.bytes == old(sb.bytes) + AltText(alts)
  {
    sb.Write("(");
    ghost var start := sb.bytes;
    var pos := 0;
    while pos < |alts|
      invariant 0 <= pos <= |alts|
      invariant sb.bytes == start + AltsJoined(alts, pos)
    {
      AppendAlt(sb, alts, pos, start);
      pos := pos + 1;
    }
    ghost var joined := sb.bytes;
    sb.Write(")");
    AltsClose(old(sb.bytes), start, alts, joined, sb.bytes);
  }

  /** The texts of the first `pos` alternatives, joined by `|`. */
  ghost function AltsJoined(alts: seq<seq<MatchByte>>, pos: nat): Bytes
    requires pos <= |alts|
  {
    Join(Collect.Map(MatchBytesText, alts[..pos]), '|')
  }

  /** One more alternative, after a `|` unless it is the first. */
  method AppendAlt(sb: SigBytes.SigBytes, alts: seq<seq<MatchByte>>, pos: nat, ghost start: Bytes)
    requires pos < |alts| && sb.bytes == start + AltsJoined(alts, pos)
    modifies sb
    ensures sb.bytes == start + AltsJoined(alts, pos + 1)
  {
    ghost var before := sb.bytes;
    if pos > 0 {
      sb.Write("|");
    }
    ghost var mid := sb.bytes;
    AppendMatchBytes(sb, alts[pos]);
    AltsStep(start, alts, pos, before, mid, sb.bytes);
  }

  lemma AltsClose(old0: Bytes, start: Bytes, alts: seq<seq<MatchByte>>, joined: Bytes, after: Bytes)
    requires start == old0 + "(" && joined == start + AltsJoined(alts, |alts|) && after == joined + ")"
    ensures after == old0 + AltText(alts)
  {
    assert alts[..|alts|] == alts;
    var j := Join(Collect.Map(MatchBytesText, alts), '|');
    assert AltsJoined(alts, |alts|) == j;
    Wrap(old0, "(", j, ")");
  }

  lemma Wrap(a: Bytes, open: Bytes, j: Bytes, close: Bytes)
    ensures a + open + j + close == a + (open + j + close)
  {
  }

  lemma AltsStep(start: Bytes, alts: seq<seq<MatchByte>>, pos: nat, before: Bytes, mid: Bytes, after: Bytes)
    requires pos < |alts|
    requires before == start + AltsJoined(alts, pos)
    requires mid == if pos > 0 then before + "|" else before
    requires after == mid + MatchBytesText(alts[pos])
    ensures after == start + AltsJoined(alts, pos + 1)
  {
    var done := Collect.Map(MatchBytesText, alts[..pos]);
    var t := MatchBytesText(alts[pos]);
    Collect.MapSnoc(MatchBytesText, alts, pos);
    if pos > 0 {
      JoinAppend(done, t, start, before, '|');
    } else {
      assert done + [t] == [t];
      AppendAssoc(start, [], t, before, t);
    }
  }

  /** `append_sigbytes` of one pattern. */
  method AppendPattern(sb: SigBytes.SigBytes, p: Pattern)
    requires Exportable(p)
    modifies sb
    ensures sb.bytes == old(sb.bytes) + PatternText(p)
  {
    match p
    case String(s, m) =>
      AppendString(sb, s, m);
    case Wildcard =>
      sb.Write("*");
    case AnchoredByte(side, b, lo, hi, s) =>
      sb.Write(AnchoredText(side, b, lo, hi, s));
    case ByteRange(range) =>
      sb.Write("{");
      sb.Write(Util.RangeText(range));
      sb.Write("}");
    case AlternativeStrings(alts) =>
      AppendAltStrings(sb, alts);
  }

  lemma Append3(start: Bytes, a: Bytes, b: Bytes, c: Bytes, x1: Bytes, x2: Bytes, x3: Bytes)
    requires x1 == start + a && x2 == x1 + b && x3 == x2 + c
    ensures x3 == start + (a + b + c)
  {
  }

  method AppendString(sb: SigBytes.SigBytes, s: seq<MatchByte>, m: Flags)
    modifies sb
    ensures sb.bytes == old(sb.bytes) + StringText(s, m)
  {
    ghost var start := sb.bytes;
    var left, right := Ordered(m * LEFT_FLAGS), Ordered(m * RIGHT_FLAGS);
    AppendFlags(sb, left);
    ghost var b1 := sb.bytes;
    AppendMatchBytes(sb, s);
    ghost var b2 := sb.bytes;
    AppendFlags(sb, right);
    Append3(start, FlagsText(left), MatchBytesText(s), FlagsText(right), b1, b2, sb.bytes);
  }

  method AppendAltStrings(sb: SigBytes.SigBytes, alts: AltStrings)
    requires AltExportable(alts)
    modifies sb
    ensures sb.bytes == old(sb.bytes) + AltStringsText(alts)
  {
    match alts
    case FixedWidth(neg, w, data) =>
      if neg {
        sb.Write("!");
      }
      AppendAlts(sb, Chunks(data, w));
    case Generic(ranges, data) =>
      AppendAlts(sb, Slices(ranges, data));
  }

  /** `AnyBytes`: `*` for any number of bytes, else `[lo-hi]`. */
  datatype AnyBytes = Infinite | AnyRange(lo: nat, hi: nat)

  function AnyBytesText(a: AnyBytes): (r: Bytes)
    ensures a.Infinite? <==> r == "*"
  {
    match a
    case Infinite => "*"
    case AnyRange(lo, hi) => BracketText(lo, hi)
  }
}
