/**
 * Pattern modifiers of body signatures (src/signature/bodysig/pattern_modifier.rs).
 * A character class that sits beside a string of match bytes becomes one of
 * twelve single-bit flags, chosen by the class family, the side of the string
 * it sits on and whether it is negated. A `BitFlags<PatternModifier>` value is
 * the set of flags it holds.
 */
module PatternModifiers {
  import opened ByteStr
  import opened Bits

  datatype PatternModifier =
    | BoundaryLeft | BoundaryLeftNegative | BoundaryRight | BoundaryRightNegative
    | LineMarkerLeft | LineMarkerLeftNegative | LineMarkerRight | LineMarkerRightNegative
    | WordMarkerLeft | WordMarkerLeftNegative | WordMarkerRight | WordMarkerRightNegative

  /** `BitFlags<PatternModifier>`. */
  type Flags = set<PatternModifier>

  /** The three character-class families a flag can stand for. */
  datatype Family = Boundary | LineMarker | WordMarker

  /** The position of the flag's bit, in declaration order. */
  function BitIndex(m: PatternModifier): (k: nat)
    ensures k < 12
  {
    match m
    case BoundaryLeft => 0
    case BoundaryLeftNegative => 1
    case BoundaryRight => 2
    case BoundaryRightNegative => 3
    case LineMarkerLeft => 4
    case LineMarkerLeftNegative => 5
    case LineMarkerRight => 6
    case LineMarkerRightNegative => 7
    case WordMarkerLeft => 8
    case WordMarkerLeftNegative => 9
    case WordMarkerRight => 10
    case WordMarkerRightNegative => 11
  }

  /** The flag's discriminant, as declared. */
  function Bit(m: PatternModifier): nat
  {
    match m
    case BoundaryLeft => 0x0001
    case BoundaryLeftNegative => 0x0002
    case BoundaryRight => 0x0004
    case BoundaryRightNegative => 0x0008
    case LineMarkerLeft => 0x0010
    case LineMarkerLeftNegative => 0x0020
    case LineMarkerRight => 0x0040
    case LineMarkerRightNegative => 0x0080
    case WordMarkerLeft => 0x0100
    case WordMarkerLeftNegative => 0x0200
    case WordMarkerRight => 0x0400
    case WordMarkerRightNegative => 0x0800
  }

  /**
   * The twelve discriminants are single bits, one per bit position 0 to 11,
   * so no two flags share a bit.
   */
  lemma BitsAreDistinct(a: PatternModifier, b: PatternModifier)
    ensures Bit(a) == Pow2(BitIndex(a))
    ensures 0x0001 <= Bit(a) <= 0x0800
    ensures a != b ==> BitIndex(a) != BitIndex(b) && Bit(a) != Bit(b)
  {
    assert Pow2(0) == 1 && Pow2(1) == 2 && Pow2(2) == 4 && Pow2(3) == 8;
    assert Pow2(4) == 0x10 && Pow2(5) == 0x20 && Pow2(6) == 0x40 && Pow2(7) == 0x80;
    assert Pow2(8) == 0x100 && Pow2(9) == 0x200 && Pow2(10) == 0x400 && Pow2(11) == 0x800;
  }

  /** Every flag, in increasing bit order: the order `BitFlags` iterates in. */
  const ALL: seq<PatternModifier> := [
    BoundaryLeft, BoundaryLeftNegative, BoundaryRight, BoundaryRightNegative,
    LineMarkerLeft, LineMarkerLeftNegative, LineMarkerRight, LineMarkerRightNegative,
    WordMarkerLeft, WordMarkerLeftNegative, WordMarkerRight, WordMarkerRightNegative]

  lemma AllInBitOrder(m: PatternModifier)
    ensures |ALL| == 12 && ALL[BitIndex(m)] == m
  {
  }

  /** `left_flags`. */
  const LEFT_FLAGS: Flags := {
    BoundaryLeft, BoundaryLeftNegative, LineMarkerLeft,
    LineMarkerLeftNegative, WordMarkerLeft, WordMarkerLeftNegative}

  /** `right_flags`. */
  const RIGHT_FLAGS: Flags := {
    BoundaryRight, BoundaryRightNegative, LineMarkerRight,
    LineMarkerRightNegative, WordMarkerRight, WordMarkerRightNegative}

  /** `negative_flags`. */
  const NEGATIVE_FLAGS: Flags := {
    BoundaryLeftNegative, LineMarkerLeftNegative, WordMarkerLeftNegative,
    BoundaryRightNegative, LineMarkerRightNegative, WordMarkerRightNegative}

  /** The class family a flag belongs to. */
  function FamilyOf(m: PatternModifier): Family
  {
    match m
    case BoundaryLeft | BoundaryLeftNegative | BoundaryRight | BoundaryRightNegative => Boundary
    case LineMarkerLeft | LineMarkerLeftNegative | LineMarkerRight | LineMarkerRightNegative => LineMarker
    case WordMarkerLeft | WordMarkerLeftNegative | WordMarkerRight | WordMarkerRightNegative => WordMarker
  }

  /** The letter written for a family. */
  function Letter(f: Family): Byte
  {
    match f
    case Boundary => 'B'
    case LineMarker => 'L'
    case WordMarker => 'W'
  }

  /**
   * The left and right masks split the twelve flags: every flag is in
   * exactly one of them, and each holds six. The negative mask holds
   * three flags of each side, one per family.
   */
  lemma LeftRightPartition(m: PatternModifier)
    ensures m in LEFT_FLAGS <==> m !in RIGHT_FLAGS
    ensures |LEFT_FLAGS| == 6 && |RIGHT_FLAGS| == 6 && |NEGATIVE_FLAGS| == 6
    ensures m in NEGATIVE_FLAGS <==> BitIndex(m) % 2 == 1
    ensures m in LEFT_FLAGS <==> BitIndex(m) % 4 < 2
  {
  }

  /**
   * A flag is fixed by its family, its side and its negation: two flags
   * that agree on all three are the same flag.
   */
  lemma FlagDeterminedByParts(a: PatternModifier, b: PatternModifier)
    requires FamilyOf(a) == FamilyOf(b)
    requires a in LEFT_FLAGS <==> b in LEFT_FLAGS
    requires a in NEGATIVE_FLAGS <==> b in NEGATIVE_FLAGS
    ensures a == b
  {
  }

  /** `append_sigbytes`: `!` for a negated flag, then the family letter in parentheses. */
  function ModifierText(m: PatternModifier): (r: Bytes)
    ensures |r| == if m in NEGATIVE_FLAGS then 4 else 3
    ensures r[0] == '!' <==> m in NEGATIVE_FLAGS
    ensures r[|r| - 3..] == ['(', Letter(FamilyOf(m)), ')']
  {
    (if m in NEGATIVE_FLAGS then "!" else "") + ['(', Letter(FamilyOf(m)), ')']
  }

  /**
   * The exported text of a flag, read together with the side it sits on,
   * gives the flag back: within one side no two flags share a text.
   */
  lemma ModifierTextInjective(a: PatternModifier, b: PatternModifier)
    requires a in LEFT_FLAGS <==> b in LEFT_FLAGS
    requires ModifierText(a) == ModifierText(b)
    ensures a == b
  {
    var ta, tb := ModifierText(a), ModifierText(b);
    assert a in NEGATIVE_FLAGS <==> b in NEGATIVE_FLAGS by {
      assert ta[0] == tb[0];
    }
    assert Letter(FamilyOf(a)) == ta[|ta| - 2] == tb[|tb| - 2] == Letter(FamilyOf(b));
    FlagDeterminedByParts(a, b);
  }

  /** The flags of `f` in `BitFlags` iteration order (increasing bit). */
  function Ordered(f: Flags): (r: seq<PatternModifier>)
  {
    Select(f, ALL)
  }

  /** The members of `xs` that are in `f`, in the order of `xs`. */
  function Select(f: Flags, xs: seq<PatternModifier>): (r: seq<PatternModifier>)
    ensures |r| <= |xs|
    ensures forall k :: 0 <= k < |r| ==> r[k] in f && r[k] in xs
    ensures forall m :: m in xs && m in f ==> m in r
    decreases |xs|
  {
    if |xs| == 0 then []
    else (if xs[0] in f then [xs[0]] else []) + Select(f, xs[1..])
  }

  /** Iterating a flag set visits each of its flags once, in increasing bit order. */
  lemma {:induction false} SelectInOrder(f: Flags, xs: seq<PatternModifier>)
    requires forall i, j :: 0 <= i < j < |xs| ==> BitIndex(xs[i]) < BitIndex(xs[j])
    ensures forall i, j :: 0 <= i < j < |Select(f, xs)| ==>
      BitIndex(Select(f, xs)[i]) < BitIndex(Select(f, xs)[j])
    decreases |xs|
  {
    if |xs| > 0 {
      SelectInOrder(f, xs[1..]);
      var rest := Select(f, xs[1..]);
      forall k | 0 <= k < |rest|
        ensures BitIndex(xs[0]) < BitIndex(rest[k])
      {
        var j :| 1 <= j < |xs| && xs[j] == rest[k];
      }
    }
  }

  /** `Ordered(f)` lists exactly the flags of `f`, each once, by increasing bit. */
  lemma OrderedFlags(f: Flags)
    ensures forall m :: m in Ordered(f) <==> m in f
    ensures forall i, j :: 0 <= i < j < |Ordered(f)| ==> BitIndex(Ordered(f)[i]) < BitIndex(Ordered(f)[j])
  {
    forall m ensures m in ALL { AllInBitOrder(m); }
    SelectInOrder(f, ALL);
  }
}
