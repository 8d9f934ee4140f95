/**
 * Logical expressions of logical signatures
 * (src/signature/logical_sig/expression.rs and expression/error.rs): indexes
 * of sub-signatures joined by `&` and `|`, grouped in parentheses, each
 * element optionally followed by a match-count modifier `<n`, `=n,u` or
 * `>n`. The parser reads the bytes one by one from a shared stream, calls
 * itself at each `(` and returns at the matching `)`.
 */
module LogicalExpr {
  import opened Wrappers
  import opened ByteStr
  import Num

  /** A sub-signature index is a `u8`. */
  const U8_MAX: nat := 0xFF
  /** A modifier value is a `usize`, 64 bits wide. */
  const USIZE_MAX: nat := 0xFFFF_FFFF_FFFF_FFFF

  datatype Operation = And | Or

  datatype ModOp = LessThan | Equal | GreaterThan

  /** `Modifier`: the count relation, the required count and the optional unique count. */
  datatype Modifier = Modifier(modOp: ModOp, matchReq: nat, matchUniq: Option<nat>)

  /** The two kinds of `Element`: an index of a sub-signature and a (grouped) expression. */
  datatype Element =
    | SigIndex(operation: Option<Operation>, sigIndex: nat, modifier: Option<Modifier>)
    | Expr(depth: nat, operation: Option<Operation>, elements: seq<Element>, modifier: Option<Modifier>)

  // ------------------------------------------------------------------ errors

  /** `error::Position`: end of the expression, one byte, or a span of bytes (both ends included). */
  datatype Position = End | Relative(pos: nat) | Range(lo: nat, hi: nat)

  /** `error::Parse`. */
  datatype ParseError =
    | InvalidCharacter(pos: Position, found: Byte)
    | UnexpectedOperator(pos: Position)
    | ModifierMatchValueOverflow(pos: Position)
    | ModifierMatchUniqMissing(pos: Position)
    | ModifierMatchReqMissing(pos: Position)

  /**
   * The places where the parser panics instead of returning an error: a `)`
   * at depth 0, a modifier with no element before it, an index past 255
   * and a nesting depth past 255.
   */
  datatype Panic = UnmatchedClosingParen | ModifierWithoutElement | SigIndexOverflow | DepthOverflow

  /** How parsing can stop without a result. */
  datatype Failure = Error(err: ParseError) | Panicked(panic: Panic)

  /** `From<Option<(usize, u8)>> for Position`: the position of a byte, or the end of the stream. */
  function PositionOfStream(b: Option<(nat, Byte)>): (r: Position)
    ensures r.End? <==> b.None?
    ensures b.Some? ==> r == Relative(b.value.0)
  {
    if b.Some? then Relative(b.value.0) else End
  }

  const WITHIN: Bytes := ") within logical expr"

  /**
   * `Display for Position`: `end of expression`, or `pos(` followed by the
   * position (both ends of a range, joined by `-`) counting from 1, and
   * `) within logical expr`.
   */
  function PositionText(p: Position): Bytes
  {
    if p.End? then "end of expression" else "pos(" + PositionBody(p)
  }

  /** The first number shown for a position that is not the end. */
  function FirstShown(p: Position): nat
    requires !p.End?
  {
    if p.Relative? then p.pos + 1 else p.lo + 1
  }

  /** What follows the first number: the end of a range, then the closing text. */
  function AfterFirst(p: Position): Bytes
    requires !p.End?
  {
    if p.Relative? then WITHIN else "-" + (Num.Dec(p.hi + 1) + WITHIN)
  }

  /** The text of a position after `pos(`. */
  function PositionBody(p: Position): Bytes
    requires !p.End?
  {
    Num.Dec(FirstShown(p)) + AfterFirst(p)
  }

  lemma DecInjective(a: nat, b: nat)
    requires Num.Dec(a) == Num.Dec(b)
    ensures a == b
  {
    Num.DecValue(a);
    Num.DecValue(b);
  }

  /** A run of digits followed by text splits there. */
  lemma SplitAfterDigits(a: Bytes, x: Bytes, b: Bytes, y: Bytes)
    requires AllDigits(a) && AllDigits(b) && a + x == b + y
    requires |x| > 0 && |y| > 0 && !IsDigit(x[0]) && !IsDigit(y[0])
    ensures a == b && x == y
  {
    var m := if |a| < |b| then |a| else |b|;
    assert (a + x)[m] == (b + y)[m];
    assert a == (a + x)[..|a|] == (b + y)[..|b|] == b;
  }

  lemma StripPos(u: Bytes, v: Bytes)
    requires "pos(" + u == "pos(" + v
    ensures u == v
  {
    assert u == ("pos(" + u)[4..];
    assert v == ("pos(" + v)[4..];
  }

  /** Different positions are shown differently, so a message names one position. */
  lemma PositionTextInjective(p: Position, q: Position)
    requires PositionText(p) == PositionText(q)
    ensures p == q
  {
    FirstLetter(p);
    FirstLetter(q);
    if !p.End? && !q.End? {
      StripPos(PositionBody(p), PositionBody(q));
      BodyInjective(p, q);
    }
  }

  /** Only a position inside the stream is shown starting with `p`. */
  lemma FirstLetter(p: Position)
    ensures |PositionText(p)| > 0 && (PositionText(p)[0] == 'p' <==> !p.End?)
  {
  }

  lemma BodyInjective(p: Position, q: Position)
    requires !p.End? && !q.End? && PositionBody(p) == PositionBody(q)
    ensures p == q
  {
    SplitAfterDigits(Num.Dec(FirstShown(p)), AfterFirst(p), Num.Dec(FirstShown(q)), AfterFirst(q));
    DecInjective(FirstShown(p), FirstShown(q));
    if p.Range? && q.Range? {
      assert AfterFirst(p)[1..] == Num.Dec(p.hi + 1) + WITHIN;
      assert AfterFirst(q)[1..] == Num.Dec(q.hi + 1) + WITHIN;
      SplitAfterDigits(Num.Dec(p.hi + 1), WITHIN, Num.Dec(q.hi + 1), WITHIN);
      DecInjective(p.hi + 1, q.hi + 1);
    }
  }

  // ------------------------------------------------------------- operators

  /** `Display for Operation`. */
  function OperationChar(op: Operation): Byte
  {
    match op
    case And => '&'
    case Or => '|'
  }

  /** `TryFrom<u8> for Operation`. */
  function OperationTryFrom(b: Byte): (r: Option<Operation>)
    ensures r.Some? <==> b == '&' || b == '|'
  {
    if b == '&' then Some(And) else if b == '|' then Some(Or) else None
  }

  /** The operator characters and the operations convert both ways. */
  lemma OperationRoundTrip(op: Operation, b: Byte)
    ensures OperationTryFrom(OperationChar(op)) == Some(op)
    ensures OperationTryFrom(b).Some? ==> OperationChar(OperationTryFrom(b).value) == b
  {
  }

  /** `Display for ModOp`. */
  function ModOpChar(m: ModOp): Byte
  {
    match m
    case LessThan => '<'
    case Equal => '='
    case GreaterThan => '>'
  }

  /** `TryFrom<u8> for ModOp`. */
  function ModOpTryFrom(b: Byte): (r: Option<ModOp>)
    ensures r.Some? <==> b == '<' || b == '=' || b == '>'
  {
    if b == '<' then Some(LessThan) else if b == '=' then Some(Equal) else if b == '>' then Some(GreaterThan) else None
  }

  /** The comparison characters and the modifier operators convert both ways. */
  lemma ModOpRoundTrip(m: ModOp, b: Byte)
    ensures ModOpTryFrom(ModOpChar(m)) == Some(m)
    ensures ModOpTryFrom(b).Some? ==> ModOpChar(ModOpTryFrom(b).value) == b
  {
  }

  // ------------------------------------------------------------------ display

  function OperationText(op: Option<Operation>): Bytes
  {
    if op.Some? then [OperationChar(op.value)] else []
  }

  /** `Display for Modifier`: the operator, the required count, then `,` and the unique count if any. */
  function ModifierText(m: Option<Modifier>): Bytes
  {
    match m
    case None => []
    case Some(Modifier(op, req, uniq)) =>
      [ModOpChar(op)] + Num.Dec(req) + (if uniq.Some? then "," + Num.Dec(uniq.value) else [])
  }

  /**
   * `Display` of an element: its operation, then an index, or the elements
   * of an expression (in parentheses below the top level), then its modifier.
   */
  function ElementText(e: Element): Bytes
    decreases e
  {
    match e
    case SigIndex(op, idx, m) => OperationText(op) + Num.Dec(idx) + ModifierText(m)
    case Expr(depth, op, es, m) =>
      OperationText(op) + (if depth > 0 then "(" else "") + ElementsText(es)
        + (if depth > 0 then ")" else "") + ModifierText(m)
  }

  /** The texts of the elements `es`, one after the other. */
  function ElementsText(es: seq<Element>): Bytes
    decreases es
  {
    if |es| == 0 then [] else ElementText(es[0]) + ElementsText(es[1..])
  }

  // ------------------------------------------------------------------ parsing

  /** `unwrap_or_default` of a count. */
  function OrZero(o: Option<nat>): (n: nat)
    ensures o.Some? ==> n == o.value
    ensures o.None? ==> n == 0
  {
    if o.Some? then o.value else 0
  }

  /** `Element::set_operation`. */
  function WithOperation(e: Element, op: Option<Operation>): (r: Element)
    ensures r.operation == op
  {
    e.(operation := op)
  }

  /** `Element::set_modifier`. */
  function WithModifier(e: Element, m: Option<Modifier>): (r: Element)
    ensures r.modifier == m
  {
    e.(modifier := m)
  }

  /**
   * The `State` of the loop of `parse_element`. The modifier operator, the
   * modifier values read so far and the position of the first value digit
   * are only meaningful while a modifier is being read and applied, so they
   * are kept in the states that use them.
   */
  datatype ExprState =
    | Initial
    | ModReq(modOp: ModOp, matchReq: Option<nat>, modvalPos: Option<nat>)
    | ModUniq(modOp: ModOp, matchReq: Option<nat>, matchUniq: Option<nat>, modvalPos: Option<nat>)
    | Applying(modOp: ModOp, matchReq: Option<nat>, matchUniq: Option<nat>)

  /** A byte is handled again only in a lower state: reading a modifier, applying it, then `Initial`. */
  function Rank(st: ExprState): nat
  {
    match st
    case Initial => 1
    case Applying(_, _, _) => 2
    case ModReq(_, _, _) => 3
    case ModUniq(_, _, _, _) => 3
  }

  /** The other local variables of `parse_element`. */
  datatype Locals = Locals(
    state: ExprState,
    sigId: Option<nat>,
    operation: Option<Operation>,
    elements: seq<Element>,
    modifier: Option<Modifier>)

  const START := Locals(Initial, None, None, [], None)

  /** `byte_stream.next()`: the next position and byte, or nothing at the end. */
  function Read(input: Bytes, i: nat): (r: Option<(nat, Byte)>)
    ensures r.Some? <==> i < |input|
    ensures r.Some? ==> r.value == (i, input[i])
  {
    if i < |input| then Some((i, input[i])) else None
  }

  /**
   * The `ApplyModifier` state: a missing required count is an error; inside
   * the stream the modifier goes to the last element (a panic when there is
   * none), at the end of the stream to the expression being parsed.
   */
  function ApplyModifier(L: Locals, op: ModOp, req: Option<nat>, uniq: Option<nat>, b: Option<(nat, Byte)>): (r: Result<Locals, Failure>)
    ensures r.Ok? ==> r.value.state == Initial && r.value.sigId == L.sigId && r.value.operation == L.operation
    ensures req.None? ==> r == Err(Error(ModifierMatchReqMissing(PositionOfStream(b))))
    ensures req.Some? && b.Some? && |L.elements| == 0 ==> r == Err(Panicked(ModifierWithoutElement))
    ensures r.Ok? && b.Some? ==>
      (|r.value.elements| == |L.elements| > 0 && r.value.modifier == L.modifier
       && r.value.elements[..|L.elements| - 1] == L.elements[..|L.elements| - 1]
       && r.value.elements[|L.elements| - 1] == WithModifier(L.elements[|L.elements| - 1], Some(Modifier(op, req.value, uniq))))
    ensures r.Ok? && b.None? ==> r.value.elements == L.elements && r.value.modifier == Some(Modifier(op, req.value, uniq))
  {
    if req.None? then Err(Error(ModifierMatchReqMissing(PositionOfStream(b))))
    else
      var m := Some(Modifier(op, req.value, uniq));
      if b.Some? then
        if |L.elements| == 0 then Err(Panicked(ModifierWithoutElement))
        else
          var n := |L.elements| - 1;
          Ok(L.(state := Initial, elements := L.elements[..n] + [WithModifier(L.elements[n], m)]))
      else Ok(L.(state := Initial, modifier := m))
  }

  /**
   * What follows the loop: a pending index becomes the last element, taking
   * the pending operation; whatever operation is left belongs to the
   * expression.
   */
  function Finish(L: Locals, depth: nat): (r: Element)
    ensures r.Expr? && r.depth == depth && r.modifier == L.modifier
    ensures L.sigId.None? ==> r.elements == L.elements && r.operation == L.operation
    ensures L.sigId.Some? ==> r.elements == L.elements + [SigIndex(L.operation, L.sigId.value, None)] && r.operation.None?
  {
    if L.sigId.Some? then Expr(depth, None, L.elements + [SigIndex(L.operation, L.sigId.value, None)], L.modifier)
    else Expr(depth, L.operation, L.elements, L.modifier)
  }

  /**
   * `parse_element`: the expression starting at byte `p` at nesting depth
   * `depth`, and the position after the last byte it read.
   */
  function ParseElement(input: Bytes, p: nat, depth: nat): (r: Result<(Element, nat), Failure>)
    requires p <= |input|
    ensures r.Ok? ==> p <= r.value.1 <= |input| && r.value.0.Expr? && r.value.0.depth == depth
    decreases |input| - p, 4
  {
    Run(input, p, depth, START)
  }

  /** The loop of `parse_element` from byte `i` on, with locals `L`. */
  function Run(input: Bytes, i: nat, depth: nat, L: Locals): (r: Result<(Element, nat), Failure>)
    requires i <= |input|
    ensures r.Ok? ==> i <= r.value.1 <= |input| && r.value.0.Expr? && r.value.0.depth == depth
    decreases |input| - i, Rank(L.state)
  {
    match L.state
    case Initial => InitialStep(input, i, depth, L)
    case ModReq(op, req, mv) =>
      if i < |input| && IsDigit(input[i]) then
        var start := if mv.Some? then mv.value else i;
        var v := OrZero(req) * 10 + DigitVal(input[i]);
        if v > USIZE_MAX then Err(Error(ModifierMatchValueOverflow(Range(start, i))))
        else Run(input, i + 1, depth, L.(state := ModReq(op, Some(v), Some(start))))
      else if i < |input| && input[i] == ',' then
        Run(input, i + 1, depth, L.(state := ModUniq(op, req, None, mv)))
      else Run(input, i, depth, L.(state := Applying(op, req, None)))
    case ModUniq(op, req, uniq, mv) =>
      if i < |input| && IsDigit(input[i]) then
        var start := if mv.Some? then mv.value else i;
        var v := OrZero(uniq) * 10 + DigitVal(input[i]);
        if v > USIZE_MAX then Err(Error(ModifierMatchValueOverflow(Range(start, i))))
        else Run(input, i + 1, depth, L.(state := ModUniq(op, req, Some(v), Some(start))))
      else if uniq.None? then Err(Error(ModifierMatchUniqMissing(PositionOfStream(Read(input, i)))))
      else Run(input, i, depth, L.(state := Applying(op, req, uniq)))
    case Applying(op, req, uniq) =>
      var L1 :- ApplyModifier(L, op, req, uniq, Read(input, i));
      InitialStep(input, i, depth, L1)
  }

  /** The `Initial` state handling byte `i` (or the end of the stream). */
  function InitialStep(input: Bytes, i: nat, depth: nat, L: Locals): (r: Result<(Element, nat), Failure>)
    requires i <= |input|
    ensures r.Ok? ==> i <= r.value.1 <= |input| && r.value.0.Expr? && r.value.0.depth == depth
    decreases |input| - i, 0
  {
    if i == |input| then Ok((Finish(L, depth), i))
    else
      var b := input[i];
      if b == '(' then
        if depth + 1 > U8_MAX then Err(Panicked(DepthOverflow))
        else
          var sub :- ParseElement(input, i + 1, depth + 1);
          Run(input, sub.1, depth, L.(state := Initial, operation := None, elements := L.elements + [WithOperation(sub.0, L.operation)]))
      else if b == ')' then
        if depth > 0 then Ok((Finish(L, depth), i + 1)) else Err(Panicked(UnmatchedClosingParen))
      else if IsDigit(b) then
        var v := OrZero(L.sigId) * 10 + DigitVal(b);
        if v > U8_MAX then Err(Panicked(SigIndexOverflow))
        else Run(input, i + 1, depth, L.(state := Initial, sigId := Some(v)))
      else
        var L1 := PushPending(L).(state := Initial);
        if OperationTryFrom(b).Some? then
          if L1.operation.Some? then Err(Error(UnexpectedOperator(Relative(i))))
          else Run(input, i + 1, depth, L1.(operation := OperationTryFrom(b)))
        else if ModOpTryFrom(b).Some? then
          Run(input, i + 1, depth, L1.(state := ModReq(ModOpTryFrom(b).value, None, None)))
        else Err(Error(InvalidCharacter(Relative(i), b)))
  }

  /** A pending index becomes an element, taking the pending operation and modifier. */
  function PushPending(L: Locals): (r: Locals)
    ensures r.sigId.None? && r.state == L.state
    ensures L.sigId.None? ==> r == L
    ensures L.sigId.Some? ==>
      (r.elements == L.elements + [SigIndex(L.operation, L.sigId.value, L.modifier)]
       && r.operation.None? && r.modifier.None?)
  {
    if L.sigId.Some? then
      L.(sigId := None, operation := None, modifier := None,
         elements := L.elements + [SigIndex(L.operation, L.sigId.value, L.modifier)])
    else L
  }

  /** `TryFrom<&[u8]> for Box<dyn Element>`: the whole input at depth 0. */
  function Parse(value: Bytes): (r: Result<Element, Failure>)
  {
    var e :- ParseElement(value, 0, 0);
    Ok(e.0)
  }

  // ------------------------------------------------------- the parsing loop

  /*
   * One lemma per branch of the loop: what handling one byte (or the end)
   * in a state does to the rest of the run.
   */

  lemma RunAtEnd(input: Bytes, depth: nat, L: Locals)
    requires L.state == Initial
    ensures Run(input, |input|, depth, L) == Ok((Finish(L, depth), |input|))
  {
  }

  lemma RunOpen(input: Bytes, i: nat, depth: nat, L: Locals)
    requires i < |input| && input[i] == '(' && L.state == Initial
    ensures depth + 1 > U8_MAX ==> Run(input, i, depth, L) == Err(Panicked(DepthOverflow))
    ensures depth + 1 <= U8_MAX && ParseElement(input, i + 1, depth + 1).Err? ==>
      Run(input, i, depth, L) == Err(ParseElement(input, i + 1, depth + 1).error)
    ensures depth + 1 <= U8_MAX && ParseElement(input, i + 1, depth + 1).Ok? ==>
      var sub := ParseElement(input, i + 1, depth + 1).value;
      Run(input, i, depth, L) == Run(input, sub.1, depth, L.(operation := None, elements := L.elements + [WithOperation(sub.0, L.operation)]))
  {
  }

  lemma RunClose(input: Bytes, i: nat, depth: nat, L: Locals)
    requires i < |input| && input[i] == ')' && L.state == Initial
    ensures depth > 0 ==> Run(input, i, depth, L) == Ok((Finish(L, depth), i + 1))
    ensures depth == 0 ==> Run(input, i, depth, L) == Err(Panicked(UnmatchedClosingParen))
  {
  }

  lemma RunSigDigit(input: Bytes, i: nat, depth: nat, L: Locals)
    requires i < |input| && IsDigit(input[i]) && L.state == Initial
    ensures OrZero(L.sigId) * 10 + DigitVal(input[i]) > U8_MAX ==> Run(input, i, depth, L) == Err(Panicked(SigIndexOverflow))
    ensures OrZero(L.sigId) * 10 + DigitVal(input[i]) <= U8_MAX ==>
      Run(input, i, depth, L) == Run(input, i + 1, depth, L.(sigId := Some(OrZero(L.sigId) * 10 + DigitVal(input[i]))))
  {
  }

  lemma RunOther(input: Bytes, i: nat, depth: nat, L: Locals)
    requires i < |input| && L.state == Initial
    requires input[i] != '(' && input[i] != ')' && !IsDigit(input[i])
    ensures var L1 := PushPending(L); var b := input[i];
      && (OperationTryFrom(b).Some? && L1.operation.Some? ==> Run(input, i, depth, L) == Err(Error(UnexpectedOperator(Relative(i)))))
      && (OperationTryFrom(b).Some? && L1.operation.None? ==> Run(input, i, depth, L) == Run(input, i + 1, depth, L1.(operation := OperationTryFrom(b))))
      && (ModOpTryFrom(b).Some? ==> Run(input, i, depth, L) == Run(input, i + 1, depth, L1.(state := ModReq(ModOpTryFrom(b).value, None, None))))
      && (OperationTryFrom(b).None? && ModOpTryFrom(b).None? ==> Run(input, i, depth, L) == Err(Error(InvalidCharacter(Relative(i), b))))
  {
  }

  /** `ModReq` and `ModUniq` read a digit the same way. */
  lemma RunModDigit(input: Bytes, i: nat, depth: nat, L: Locals)
    requires i < |input| && IsDigit(input[i]) && (L.state.ModReq? || L.state.ModUniq?)
    ensures var st := L.state;
      var start := if st.modvalPos.Some? then st.modvalPos.value else i;
      var v := OrZero(if st.ModReq? then st.matchReq else st.matchUniq) * 10 + DigitVal(input[i]);
      && (v > USIZE_MAX ==> Run(input, i, depth, L) == Err(Error(ModifierMatchValueOverflow(Range(start, i)))))
      && (v <= USIZE_MAX && st.ModReq? ==>
            Run(input, i, depth, L) == Run(input, i + 1, depth, L.(state := ModReq(st.modOp, Some(v), Some(start)))))
      && (v <= USIZE_MAX && st.ModUniq? ==>
            Run(input, i, depth, L) == Run(input, i + 1, depth, L.(state := ModUniq(st.modOp, st.matchReq, Some(v), Some(start)))))
  {
  }

  lemma RunModReqOther(input: Bytes, i: nat, depth: nat, L: Locals)
    requires i <= |input| && L.state.ModReq? && !(i < |input| && IsDigit(input[i]))
    ensures i < |input| && input[i] == ',' ==>
      Run(input, i, depth, L) == Run(input, i + 1, depth, L.(state := ModUniq(L.state.modOp, L.state.matchReq, None, L.state.modvalPos)))
    ensures !(i < |input| && input[i] == ',') ==>
      Run(input, i, depth, L) == Run(input, i, depth, L.(state := Applying(L.state.modOp, L.state.matchReq, None)))
  {
  }

  lemma RunModUniqOther(input: Bytes, i: nat, depth: nat, L: Locals)
    requires i <= |input| && L.state.ModUniq? && !(i < |input| && IsDigit(input[i]))
    ensures L.state.matchUniq.None? ==>
      Run(input, i, depth, L) == Err(Error(ModifierMatchUniqMissing(PositionOfStream(Read(input, i)))))
    ensures L.state.matchUniq.Some? ==>
      Run(input, i, depth, L) == Run(input, i, depth, L.(state := Applying(L.state.modOp, L.state.matchReq, L.state.matchUniq)))
  {
  }

  lemma RunApplying(input: Bytes, i: nat, depth: nat, L: Locals)
    requires i <= |input| && L.state.Applying?
    ensures var a := ApplyModifier(L, L.state.modOp, L.state.matchReq, L.state.matchUniq, Read(input, i));
      && (a.Err? ==> Run(input, i, depth, L) == Err(a.error))
      && (a.Ok? ==> Run(input, i, depth, L) == Run(input, i, depth, a.value))
  {
  }

  /** The `State` of `parse_element` without the values its states carry here. */
  datatype Phase = AtInitial | AtModReq | AtModUniq | AtApplyModifier

  /** The state the loop's variables stand for. */
  function StateOf(phase: Phase, modOp: Option<ModOp>, matchReq: Option<nat>, matchUniq: Option<nat>,
                   modvalPos: Option<nat>): (st: ExprState)
    requires phase != AtInitial ==> modOp.Some?
    ensures st.Initial? <==> phase == AtInitial
  {
    match phase
    case AtInitial => Initial
    case AtModReq => ModReq(modOp.value, matchReq, modvalPos)
    case AtModUniq => ModUniq(modOp.value, matchReq, matchUniq, modvalPos)
    case AtApplyModifier => Applying(modOp.value, matchReq, matchUniq)
  }

  /**
   * The local variables of one call of `parse_element`, and the handling of
   * one byte (or the end of the stream) in each state of its loop.
   */
  class ElementParser {
    var state: Phase
    var sigId: Option<nat>
    var operation: Option<Operation>
    var modOp: Option<ModOp>
    var matchReq: Option<nat>
    var matchUniq: Option<nat>
    var elements: seq<Element>
    var modifier: Option<Modifier>
    var modvalPos: Option<nat>

    /**
     * Every state but `Initial` has a modifier operator; the modifier values
     * are taken when a modifier is applied, and no unique count is read
     * before the `,`.
     */
    ghost predicate Valid()
      reads this
    {
      && (state != AtInitial ==> modOp.Some?)
      && (state == AtInitial ==> matchReq.None? && matchUniq.None?)
      && (state == AtModReq ==> matchUniq.None?)
    }

    /** The locals as the loop function sees them. */
    ghost function Snap(): Locals
      reads this
      requires Valid()
    {
      Locals(StateOf(state, modOp, matchReq, matchUniq, modvalPos), sigId, operation, elements, modifier)
    }

    constructor ()
      ensures Valid() && Snap() == START && state == AtInitial
    {
      state := AtInitial;
      sigId := None;
      operation := None;
      modOp := None;
      matchReq := None;
      matchUniq := None;
      elements := [];
      modifier := None;
      modvalPos := None;
    }

    /**
     * The `Initial` state: `(` parses a nested expression, `)` ends a nested
     * one, a digit extends the pending index, anything else ends the pending
     * index and must be an operator or a modifier operator. The result is
     * the next position and whether the loop ends there.
     */
    method HandleInitial(input: Bytes, i: nat, depth: nat) returns (next: Result<(nat, bool), Failure>)
      requires Valid() && state == AtInitial && i <= |input| && depth <= U8_MAX
      requires modifier.Some? ==> i == |input|
      modifies this
      ensures Valid()
      ensures next.Err? ==> Run(input, i, depth, old(Snap())) == Err(next.error)
      ensures next.Ok? ==> i <= next.value.0 <= |input|
      ensures next.Ok? && !next.value.1 ==>
        next.value.0 > i && Run(input, i, depth, old(Snap())) == Run(input, next.value.0, depth, Snap())
      ensures next.Ok? && next.value.1 ==>
        state == AtInitial && Run(input, i, depth, old(Snap())) == Ok((Finish(Snap(), depth), next.value.0))
      ensures next.Ok? && modifier.Some? ==> next.value.0 == |input| && state == AtInitial
      decreases |input| - i, 0
    {
      ghost var L := Snap();
      var b := Read(input, i);
      if b.None? {
        RunAtEnd(input, depth, L);
        return Ok((i, true));
      }
      var c := b.value.1;
      if c == '(' {
        RunOpen(input, i, depth, L);
        if depth == U8_MAX {
          return Err(Panicked(DepthOverflow));
        }
        var sub := ParseElementAt(input, i + 1, depth + 1);
        if sub.Err? {
          return Err(sub.error);
        }
        elements := elements + [WithOperation(sub.value.0, operation)];
        operation := None;
        next := Ok((sub.value.1, false));
      } else if c == ')' {
        RunClose(input, i, depth, L);
        if depth == 0 {
          return Err(Panicked(UnmatchedClosingParen));
        }
        next := Ok((i + 1, true));
      } else if IsDigit(c) {
        RunSigDigit(input, i, depth, L);
        var v := OrZero(sigId) * 10 + DigitVal(c);
        if v > U8_MAX {
          return Err(Panicked(SigIndexOverflow));
        }
        sigId := Some(v);
        next := Ok((i + 1, false));
      } else {
        RunOther(input, i, depth, L);
        if sigId.Some? {
          elements := elements + [SigIndex(operation, sigId.value, modifier)];
          sigId, operation, modifier := None, None, None;
        }
        var op := OperationTryFrom(c);
        var m := ModOpTryFrom(c);
        if op.Some? {
          if operation.Some? {
            return Err(Error(UnexpectedOperator(Relative(i))));
          }
          operation := op;
        } else if m.Some? {
          modOp := m;
          state := AtModReq;
          modvalPos := None;
        } else {
          return Err(Error(InvalidCharacter(Relative(i), c)));
        }
        next := Ok((i + 1, false));
      }
    }

    /**
     * The `ModReq` and `ModUniq` states: a digit extends the count being
     * read (an overflow names the digits read so far), `,` moves from the
     * required to the unique count, anything else applies the modifier.
     * The result is the next position.
     */
    method HandleModValue(input: Bytes, i: nat, depth: nat) returns (next: Result<nat, Failure>)
      requires Valid() && (state == AtModReq || state == AtModUniq) && i <= |input|
      modifies this
      ensures Valid() && state != AtInitial && modifier == old(modifier)
      ensures next.Err? ==> Run(input, i, depth, old(Snap())) == Err(next.error)
      ensures next.Ok? ==> i <= next.value <= |input|
      ensures next.Ok? ==> Run(input, i, depth, old(Snap())) == Run(input, next.value, depth, Snap())
      ensures next.Ok? && next.value == i ==> state == AtApplyModifier
    {
      var b := Read(input, i);
      if b.Some? && IsDigit(b.value.1) {
        next := HandleModDigit(input, i, depth);
      } else {
        next := HandleModOther(input, i, depth);
      }
    }

    /** A digit is added to the count being read; a count above `usize::MAX` is an error. */
    method HandleModDigit(input: Bytes, i: nat, depth: nat) returns (next: Result<nat, Failure>)
      requires Valid() && (state == AtModReq || state == AtModUniq)
      requires i < |input| && IsDigit(input[i])
      modifies this
      ensures Valid() && state == old(state) && modifier == old(modifier)
      ensures next.Err? ==> Run(input, i, depth, old(Snap())) == Err(next.error)
      ensures next.Ok? ==> next.value == i + 1
      ensures next.Ok? ==> Run(input, i, depth, old(Snap())) == Run(input, i + 1, depth, Snap())
    {
      ghost var L := Snap();
      RunModDigit(input, i, depth, L);
      var start := if modvalPos.Some? then modvalPos.value else i;
      modvalPos := Some(start);
      if state == AtModReq {
        var v := OrZero(matchReq) * 10 + DigitVal(input[i]);
        if v > USIZE_MAX {
          return Err(Error(ModifierMatchValueOverflow(Range(start, i))));
        }
        matchReq := Some(v);
        assert Snap() == L.(state := ModReq(L.state.modOp, Some(v), Some(start)));
      } else {
        var v := OrZero(matchUniq) * 10 + DigitVal(input[i]);
        if v > USIZE_MAX {
          return Err(Error(ModifierMatchValueOverflow(Range(start, i))));
        }
        matchUniq := Some(v);
        assert Snap() == L.(state := ModUniq(L.state.modOp, L.state.matchReq, Some(v), Some(start)));
      }
      next := Ok(i + 1);
    }

    /**
     * Anything but a digit: a comma after the required count moves on to the
     * unique count, a missing unique count is an error, and otherwise the
     * modifier is applied.
     */
    method HandleModOther(input: Bytes, i: nat, depth: nat) returns (next: Result<nat, Failure>)
      requires Valid() && (state == AtModReq || state == AtModUniq)
      requires i <= |input| && !(i < |input| && IsDigit(input[i]))
      modifies this
      ensures Valid() && state != AtInitial && modifier == old(modifier)
      ensures next.Err? ==> Run(input, i, depth, old(Snap())) == Err(next.error)
      ensures next.Ok? ==> i <= next.value <= |input|
      ensures next.Ok? ==> Run(input, i, depth, old(Snap())) == Run(input, next.value, depth, Snap())
      ensures next.Ok? && next.value == i ==> state == AtApplyModifier
    {
      var b := Read(input, i);
      if state == AtModReq {
        RunModReqOther(input, i, depth, Snap());
        if b.Some? && b.value.1 == ',' {
          state := AtModUniq;
          return Ok(i + 1);
        }
      } else {
        RunModUniqOther(input, i, depth, Snap());
        if matchUniq.None? {
          return Err(Error(ModifierMatchUniqMissing(PositionOfStream(b))));
        }
      }
      state := AtApplyModifier;
      next := Ok(i);
    }

    /**
     * The `ApplyModifier` state: the modifier goes to the last element, or
     * to the expression at the end of the stream; then `Initial` handles
     * the same byte.
     */
    method HandleApplyModifier(input: Bytes, i: nat, depth: nat) returns (next: Result<(), Failure>)
      requires Valid() && state == AtApplyModifier && i <= |input|
      requires modifier.None?
      modifies this
      ensures Valid()
      ensures next.Err? ==> Run(input, i, depth, old(Snap())) == Err(next.error)
      ensures next.Ok? ==> state == AtInitial && Run(input, i, depth, old(Snap())) == Run(input, i, depth, Snap())
      ensures next.Ok? && modifier.Some? ==> i == |input|
    {
      RunApplying(input, i, depth, Snap());
      var b := Read(input, i);
      if matchReq.None? {
        return Err(Error(ModifierMatchReqMissing(PositionOfStream(b))));
      }
      var m := Some(Modifier(modOp.value, matchReq.value, matchUniq));
      modOp, matchReq, matchUniq := None, None, None;
      state := AtInitial;
      if b.Some? {
        if |elements| == 0 {
          return Err(Panicked(ModifierWithoutElement));
        }
        elements := elements[..|elements| - 1] + [WithModifier(elements[|elements| - 1], m)];
      } else {
        modifier := m;
      }
      next := Ok(());
    }
  }

  /**
   * `parse_element`, reading from byte `p`: a loop over the bytes that
   * calls itself at each `(`. It returns the element and the position after
   * the last byte it read. The `Already had a modifier` assertion holds:
   * a modifier is only kept for the expression at the end of the stream.
   */
  method ParseElementAt(input: Bytes, p: nat, depth: nat) returns (r: Result<(Element, nat), Failure>)
    requires p <= |input| && depth <= U8_MAX
    ensures r == ParseElement(input, p, depth)
    decreases |input| - p, 1
  {
    var pc := new ElementParser();
    var i := p;
    var stop := false;
    while !stop
      invariant p <= i <= |input| && pc.Valid()
      invariant pc.modifier.Some? ==> i == |input| && pc.state == AtInitial
      invariant !stop ==> ParseElement(input, p, depth) == Run(input, i, depth, pc.Snap())
      invariant stop ==> pc.state == AtInitial && ParseElement(input, p, depth) == Ok((Finish(pc.Snap(), depth), i))
      decreases !stop, |input| - i, Rank(pc.Snap().state)
    {
      match pc.state {
        case AtInitial =>
          var next := pc.HandleInitial(input, i, depth);
          if next.Err? {
            return Err(next.error);
          }
          i, stop := next.value.0, next.value.1;
        case AtModReq =>
          var next := pc.HandleModValue(input, i, depth);
          if next.Err? {
            return Err(next.error);
          }
          i := next.value;
        case AtModUniq =>
          var next := pc.HandleModValue(input, i, depth);
          if next.Err? {
            return Err(next.error);
          }
          i := next.value;
        case AtApplyModifier =>
          assert pc.modifier.None?;
          var next := pc.HandleApplyModifier(input, i, depth);
          if next.Err? {
            return Err(next.error);
          }
      }
    }
    var elements := pc.elements;
    var operation := pc.operation;
    if pc.sigId.Some? {
      elements := elements + [SigIndex(operation, pc.sigId.value, None)];
      operation := None;
    }
    r := Ok((Expr(depth, operation, elements, pc.modifier), i));
  }

  /** `TryFrom<&[u8]> for Box<dyn Element>`, as the loop computes it. */
  method TryFrom(value: Bytes) returns (r: Result<Element, Failure>)
    ensures r == Parse(value)
  {
    var e := ParseElementAt(value, 0, 0);
    if e.Err? {
      return Err(e.error);
    }
    r := Ok(e.value.0);
  }
}
