/**
 * The text of a group of alternatives (src/signature/bodysig/pattern.rs):
 * `(`, the first alternative, `|` before each other one, `)`; and where each
 * of those pieces lies in a longer text.
 */
module BodySigGroupText {
  import opened ByteStr
  import Collect
  import opened Patterns
  import opened TextAt

  /** `|` before each of the given texts. */
  function Bars(parts: seq<Bytes>): Bytes
    decreases |parts|
  {
    if |parts| == 0 then [] else "|" + parts[0] + Bars(parts[1..])
  }

  /** `|` and the text of each alternative after the first. */
  function TailText(rest: seq<seq<MatchByte>>): Bytes
    decreases |rest|
  {
    if |rest| == 0 then [] else "|" + MatchBytesText(rest[0]) + TailText(rest[1..])
  }

  /** The same text, written as the exporter builds it: the alternatives' texts mapped, then barred. */
  lemma {:induction false} TailTextBars(rest: seq<seq<MatchByte>>)
    ensures TailText(rest) == Bars(Collect.Map(MatchBytesText, rest))
    decreases |rest|
  {
    if |rest| > 0 {
      TailTextBars(rest[1..]);
      MapTexts(rest);
      assert Collect.Map(MatchBytesText, rest)[1..] == Collect.Map(MatchBytesText, rest[1..]);
    }
  }

  lemma {:induction false} JoinBars(parts: seq<Bytes>)
    requires |parts| > 0
    ensures Join(parts, '|') == parts[0] + Bars(parts[1..])
    decreases |parts|
  {
    if |parts| > 1 {
      JoinBars(parts[1..]);
      assert parts[1..][1..] == parts[2..];
    }
  }

  /** The texts of the alternatives: the first one's, then the others'. */
  lemma MapTexts(alts: seq<seq<MatchByte>>)
    requires |alts| > 0
    ensures Collect.Map(MatchBytesText, alts) == [MatchBytesText(alts[0])] + Collect.Map(MatchBytesText, alts[1..])
  {
  }

  /** A group's text: `(`, the first alternative, `|` before each other one, `)`. */
  lemma AltTextIs(alts: seq<seq<MatchByte>>)
    requires |alts| > 0
    ensures AltText(alts) == "(" + MatchBytesText(alts[0]) + TailText(alts[1..]) + ")"
  {
    MapTexts(alts);
    JoinBars(Collect.Map(MatchBytesText, alts));
    assert Collect.Map(MatchBytesText, alts)[1..] == Collect.Map(MatchBytesText, alts[1..]);
    TailTextBars(alts[1..]);
  }

  /** At `i`, the text of the alternatives after the first, then `)`. */
  predicate TailAt(v: Bytes, i: nat, rest: seq<seq<MatchByte>>)
  {
    i + |TailText(rest)| + 1 <= |v| && v[i..i + |TailText(rest)| + 1] == TailText(rest) + ")"
  }

  /** Where that text ends. */
  function TailEnd(i: nat, rest: seq<seq<MatchByte>>): nat
  {
    i + |TailText(rest)| + 1
  }

  /** The text after one alternative: `|`, the next one, then the others. */
  lemma TailTextCons(rest: seq<seq<MatchByte>>)
    requires |rest| > 0
    ensures TailText(rest) == "|" + MatchBytesText(rest[0]) + TailText(rest[1..])
  {
  }

  /** The text after one alternative: `|` then the next one, and what follows it. */
  lemma TailPieces(v: Bytes, i: nat, rest: seq<seq<MatchByte>>)
    requires |rest| > 0 && TailAt(v, i, rest)
    ensures i + 1 + |MatchBytesText(rest[0])| <= |v|
    ensures v[i] == '|' && v[i + 1..i + 1 + |MatchBytesText(rest[0])|] == MatchBytesText(rest[0])
    ensures TailAt(v, i + 1 + |MatchBytesText(rest[0])|, rest[1..])
    ensures TailEnd(i + 1 + |MatchBytesText(rest[0])|, rest[1..]) == TailEnd(i, rest)
  {
    TailHead(v, i, rest);
    TailRest(v, i, rest);
    TailEndCons(i, rest);
  }

  /** `TailPieces`: the `|` and the next alternative. */
  lemma TailHead(v: Bytes, i: nat, rest: seq<seq<MatchByte>>)
    requires |rest| > 0 && TailAt(v, i, rest)
    ensures i + 1 + |MatchBytesText(rest[0])| <= |v|
    ensures v[i] == '|' && v[i + 1..i + 1 + |MatchBytesText(rest[0])|] == MatchBytesText(rest[0])
  {
    TailTextCons(rest);
    var y, z := MatchBytesText(rest[0]), TailText(rest[1..]);
    assert |TailText(rest)| == 1 + |y| + |z|;
    PipePieces(v, i, y, z);
  }

  /** `TailPieces`: what follows the next alternative. */
  lemma TailRest(v: Bytes, i: nat, rest: seq<seq<MatchByte>>)
    requires |rest| > 0 && TailAt(v, i, rest)
    ensures TailAt(v, i + 1 + |MatchBytesText(rest[0])|, rest[1..])
  {
    TailTextCons(rest);
    var y, z := MatchBytesText(rest[0]), TailText(rest[1..]);
    assert |TailText(rest)| == 1 + |y| + |z|;
    PipePieces(v, i, y, z);
  }

  /** `|`, the text `y`, then `z` and `)`, found at `i`, split at its pieces. */
  lemma PipePieces(v: Bytes, i: nat, y: Bytes, z: Bytes)
    requires i + 1 + |y| + |z| + 1 <= |v| && v[i..i + 1 + |y| + |z| + 1] == "|" + y + z + ")"
    ensures v[i] == '|' && v[i + 1..i + 1 + |y|] == y
    ensures v[i + 1 + |y|..i + 1 + |y| + |z| + 1] == z + ")"
  {
    var x: Bytes, w: Bytes := "|", z + ")";
    assert "|" + y + z + ")" == x + y + w;
    Split3(v, i, x, y, w);
    assert v[i] == v[i..i + 1][0];
  }

  lemma TailEndCons(i: nat, rest: seq<seq<MatchByte>>)
    requires |rest| > 0
    ensures TailEnd(i + 1 + |MatchBytesText(rest[0])|, rest[1..]) == TailEnd(i, rest)
  {
    TailTextCons(rest);
  }

  /** At `j`, the first alternative, the others and `)`. */
  predicate BodyAt(v: Bytes, j: nat, alts: seq<seq<MatchByte>>)
    requires |alts| > 0
  {
    && j + |MatchBytesText(alts[0])| + |TailText(alts[1..])| + 1 <= |v|
    && v[j..j + |MatchBytesText(alts[0])| + |TailText(alts[1..])| + 1] == MatchBytesText(alts[0]) + (TailText(alts[1..]) + ")")
  }

  /** Where that text ends. */
  function BodyEnd(j: nat, alts: seq<seq<MatchByte>>): nat
    requires |alts| > 0
  {
    j + |MatchBytesText(alts[0])| + |TailText(alts[1..])| + 1
  }

  /** A group's text found at `i`: its prefix, `(`, then the body. */
  lemma GroupSplit(v: Bytes, i: nat, pre: Bytes, alts: seq<seq<MatchByte>>)
    requires |alts| > 0
    requires var t := pre + "(" + MatchBytesText(alts[0]) + TailText(alts[1..]) + ")";
      i + |t| <= |v| && v[i..i + |t|] == t
    ensures i + |pre| < |v| && v[i..i + |pre|] == pre && v[i + |pre|] == '('
    ensures BodyAt(v, i + |pre| + 1, alts)
    ensures BodyEnd(i + |pre| + 1, alts) == i + |pre + "(" + MatchBytesText(alts[0]) + TailText(alts[1..]) + ")"|
  {
    GroupSplitText(v, i, pre, MatchBytesText(alts[0]), TailText(alts[1..]));
  }

  /** `GroupSplit` for any texts of the first alternative and of the others. */
  lemma GroupSplitText(v: Bytes, i: nat, pre: Bytes, a: Bytes, tail: Bytes)
    requires i + |pre + "(" + a + tail + ")"| <= |v| && v[i..i + |pre + "(" + a + tail + ")"|] == pre + "(" + a + tail + ")"
    ensures i + |pre| < |v| && v[i..i + |pre|] == pre && v[i + |pre|] == '('
    ensures i + |pre| + 1 + |a| + |tail| + 1 <= |v|
    ensures v[i + |pre| + 1..i + |pre| + 1 + |a| + |tail| + 1] == a + (tail + ")")
  {
    var x: Bytes, z: Bytes := pre + "(", a + (tail + ")");
    assert pre + "(" + a + tail + ")" == x + z;
    SplitAt(v, i, x + z, x, z);
    Within(v, i, x, 0, |pre|);
    Within(v, i, x, |pre|, |pre| + 1);
    assert x[0..|pre|] == pre;
  }

  /** The body of a group split into its first alternative and the rest. */
  lemma BodySplit(v: Bytes, j: nat, k: nat, alts: seq<seq<MatchByte>>)
    requires |alts| > 0 && BodyAt(v, j, alts) && k == j + |MatchBytesText(alts[0])|
    ensures k <= |v| && v[j..k] == MatchBytesText(alts[0])
    ensures TailAt(v, k, alts[1..])
    ensures TailEnd(k, alts[1..]) == BodyEnd(j, alts)
  {
    var a, tail := MatchBytesText(alts[0]), TailText(alts[1..]);
    var e := k + |tail| + 1;
    BodyAtText(v, j, e, alts, a, tail);
    BodyParts(v, j, k, e, a, tail);
    TailAtIntro(v, k, e, alts[1..], tail);
  }

  /** `BodyAt` where the texts of the first alternative and of the others are `a` and `tail`, ending at `e`. */
  lemma BodyAtText(v: Bytes, j: nat, e: nat, alts: seq<seq<MatchByte>>, a: Bytes, tail: Bytes)
    requires |alts| > 0 && BodyAt(v, j, alts) && a == MatchBytesText(alts[0]) && tail == TailText(alts[1..])
    requires e == j + |a| + |tail| + 1
    ensures e <= |v| && v[j..e] == a + (tail + ")")
  {
  }

  /** A body's text `a`, then `tail` and `)`: `a` runs from `j` to `k`, the rest from `k` to `e`. */
  lemma BodyParts(v: Bytes, j: nat, k: nat, e: nat, a: Bytes, tail: Bytes)
    requires k == j + |a| && e == k + |tail| + 1 && e <= |v| && v[j..e] == a + (tail + ")")
    ensures v[j..k] == a && v[k..e] == tail + ")"
  {
    SplitBetween(v, j, k, e, a + (tail + ")"), a, tail + ")");
  }

  /** The text of the alternatives `rest`, then `)`, found from `i` to `e`. */
  lemma TailAtIntro(v: Bytes, i: nat, e: nat, rest: seq<seq<MatchByte>>, tail: Bytes)
    requires tail == TailText(rest) && e == i + |tail| + 1 && e <= |v| && v[i..e] == tail + ")"
    ensures TailAt(v, i, rest)
  {
  }

  /** A run of match bytes found at `j`: its first byte's text, then the others'. */
  lemma FirstAt(v: Bytes, j: nat, end: nat, a: seq<MatchByte>) returns (k: nat)
    requires |a| > 0 && end == j + |MatchBytesText(a)| && end <= |v| && v[j..end] == MatchBytesText(a)
    ensures k == j + |MatchByteText(a[0])| && k <= end
    ensures v[j..k] == MatchByteText(a[0]) && v[k..end] == MatchBytesText(a[1..])
  {
    var x, y := MatchByteText(a[0]), MatchBytesText(a[1..]);
    assert MatchBytesText(a) == x + y;
    k := j + |x|;
    SplitBetween(v, j, k, end, x + y, x, y);
  }
}
