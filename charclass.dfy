/**
 * Character classes of body signatures (src/signature/bodysig/char_class.rs):
 * `(B)`, `(L)` and `(W)` markers that constrain what may sit beside a string.
 */
module CharClasses {
  import opened Wrappers
  import opened ByteStr
  import opened PatternModifiers

  datatype CharacterClass = WordBoundary | LineOrFileBoundary | NonAlphaChar

  datatype CharacterClassParseError = Unknown(byte: Byte)

  /** The flag family a class contributes to. */
  function ClassFamily(cc: CharacterClass): Family
  {
    match cc
    case WordBoundary => Boundary
    case LineOrFileBoundary => LineMarker
    case NonAlphaChar => WordMarker
  }

  /**
   * `pattern_modifier`: the single flag for a class on one side of a
   * string, negated or not.
   */
  function PatternModifierOf(cc: CharacterClass, isLeftSide: bool, negated: bool): (m: PatternModifier)
    ensures m in LEFT_FLAGS <==> isLeftSide
    ensures m in NEGATIVE_FLAGS <==> negated
    ensures FamilyOf(m) == ClassFamily(cc)
  {
    match (cc, isLeftSide, negated)
    case (WordBoundary, true, false) => BoundaryLeft
    case (WordBoundary, true, true) => BoundaryLeftNegative
    case (LineOrFileBoundary, true, false) => LineMarkerLeft
    case (LineOrFileBoundary, true, true) => LineMarkerLeftNegative
    case (NonAlphaChar, true, false) => WordMarkerLeft
    case (NonAlphaChar, true, true) => WordMarkerLeftNegative
    case (WordBoundary, false, false) => BoundaryRight
    case (WordBoundary, false, true) => BoundaryRightNegative
    case (LineOrFileBoundary, false, false) => LineMarkerRight
    case (LineOrFileBoundary, false, true) => LineMarkerRightNegative
    case (NonAlphaChar, false, false) => WordMarkerRight
    case (NonAlphaChar, false, true) => WordMarkerRightNegative
  }

  /** Different inputs give different flags, so the twelve inputs cover the twelve flags. */
  lemma PatternModifierOfInjective(c1: CharacterClass, l1: bool, n1: bool, c2: CharacterClass, l2: bool, n2: bool)
    requires PatternModifierOf(c1, l1, n1) == PatternModifierOf(c2, l2, n2)
    ensures c1 == c2 && l1 == l2 && n1 == n2
  {
    assert ClassFamily(c1) == ClassFamily(c2);
  }

  /** Every flag comes from some class, side and negation. */
  lemma PatternModifierOfOnto(m: PatternModifier)
    ensures exists cc, l, n :: PatternModifierOf(cc, l, n) == m
  {
    var cc := match FamilyOf(m)
      case Boundary => WordBoundary
      case LineMarker => LineOrFileBoundary
      case WordMarker => NonAlphaChar;
    FlagDeterminedByParts(PatternModifierOf(cc, m in LEFT_FLAGS, m in NEGATIVE_FLAGS), m);
  }

  /** `TryFrom<u8>`: `B`, `L` or `W`, anything else is `Unknown`. */
  function TryFrom(b: Byte): (r: Result<CharacterClass, CharacterClassParseError>)
    ensures r.Err? <==> b != 'B' && b != 'L' && b != 'W'
    ensures r.Err? ==> r.error == Unknown(b)
    ensures r.Ok? ==> Letter(ClassFamily(r.value)) == b
  {
    match b
    case 'B' => Ok(WordBoundary)
    case 'L' => Ok(LineOrFileBoundary)
    case 'W' => Ok(NonAlphaChar)
    case _ => Err(Unknown(b))
  }

  /** `append_sigbytes`: the class letter in parentheses. */
  function ClassText(cc: CharacterClass): (r: Bytes)
    ensures |r| == 3 && r[0] == '(' && r[2] == ')'
  {
    match cc
    case WordBoundary => "(B)"
    case LineOrFileBoundary => "(L)"
    case NonAlphaChar => "(W)"
  }

  /**
   * The letter inside an exported class reads back as the class, and an
   * exported class is the text of any of its un-negated flags; a negated
   * flag adds a leading `!`.
   */
  lemma ClassTextRoundTrip(cc: CharacterClass, isLeftSide: bool)
    ensures TryFrom(ClassText(cc)[1]) == Ok(cc)
    ensures ModifierText(PatternModifierOf(cc, isLeftSide, false)) == ClassText(cc)
    ensures ModifierText(PatternModifierOf(cc, isLeftSide, true)) == "!" + ClassText(cc)
  {
  }
}
