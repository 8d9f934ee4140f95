/**
 * The display of a logical expression parses back to the same expression
 * (the property the `large_set` test of
 * src/signature/logical_sig/expression.rs checks on its samples), for
 * expressions in the form the parser builds: indexes and depths that fit a
 * `u8`, counts that fit a `usize`, every element after the first joined by
 * an operator, and no modifier on the last top-level element unless the
 * expression has one too.
 */
module ExprRoundTrip {
  import opened Wrappers
  import opened ByteStr
  import Num
  import opened LogicalExpr

  /** `t` is found in `input` at `i`. */
  predicate At(input: Bytes, i: nat, t: Bytes)
  {
    i + |t| <= |input| && input[i..i + |t|] == t
  }

  lemma AtSplit(input: Bytes, i: nat, a: Bytes, b: Bytes)
    requires At(input, i, a + b)
    ensures At(input, i, a) && At(input, i + |a|, b)
  {
    assert input[i..i + |a|] == input[i..i + |a + b|][..|a|];
    assert input[i + |a|..i + |a| + |b|] == input[i..i + |a + b|][|a|..];
  }

  /** `AtSplit` for a text known to be the concatenation of two others. */
  lemma AtSplitEq(input: Bytes, i: nat, t: Bytes, a: Bytes, b: Bytes)
    requires t == a + b && At(input, i, t)
    ensures At(input, i, a) && At(input, i + |a|, b) && |t| == |a| + |b|
  {
    AtSplit(input, i, a, b);
  }

  /** The counts of a modifier fit a `usize`. */
  predicate ModifierFits(m: Option<Modifier>)
  {
    m.None? || (m.value.matchReq <= USIZE_MAX && (m.value.matchUniq.Some? ==> m.value.matchUniq.value <= USIZE_MAX))
  }

  /**
   * An element of an expression at depth `depth` as the parser builds it:
   * an index fits a `u8`, a group is one level deeper (at most 255), and
   * inside a group every element after the first has an operator.
   */
  predicate WellFormed(e: Element, depth: nat)
    decreases e
  {
    match e
    case SigIndex(_, n, m) => n <= U8_MAX && ModifierFits(m)
    case Expr(d, _, es, m) =>
      && d == depth + 1 && d <= U8_MAX && ModifierFits(m)
      && forall k :: 0 <= k < |es| ==> WellFormed(es[k], d) && (k > 0 ==> es[k].operation.Some?)
  }

  /** A whole expression as the parser builds it from its display. */
  predicate Canonical(e: Element)
  {
    && e.Expr? && e.depth == 0 && e.operation.None? && ModifierFits(e.modifier)
    && (forall k :: 0 <= k < |e.elements| ==> WellFormed(e.elements[k], 0) && (k > 0 ==> e.elements[k].operation.Some?))
    && (|e.elements| > 0 && e.elements[|e.elements| - 1].modifier.Some? ==> e.modifier.Some?)
  }

  /** The locals with no index, operator or modifier pending, after the elements `acc`. */
  function Settled(acc: seq<Element>): Locals
  {
    Locals(Initial, None, None, acc, None)
  }

  /** What may follow the text of an element: an operator, `)`, a modifier operator, or the end. */
  predicate Follows(input: Bytes, j: nat, e: Element)
  {
    (j < |input| && EndsElement(input[j])) || (j == |input| && e.modifier.None?)
  }

  /** The bytes that end an element's text: an operator, `)`, or a modifier operator. */
  predicate EndsElement(b: Byte)
  {
    b == '&' || b == '|' || b == ')' || b == '<' || b == '=' || b == '>'
  }

  // ---------------------------------------------------------------- numbers

  /** The locals while a modifier is read after the elements `acc`. */
  function Reading(st: ExprState, acc: seq<Element>): Locals
  {
    Locals(st, None, None, acc, None)
  }

  /** The decimal text of a single digit. */
  lemma DecOne(n: nat)
    requires n < 10
    ensures Num.Dec(n) == [DecimalDigit(n)]
  {
  }

  /** The decimal text of two digits or more: the text of `n / 10`, then the last digit. */
  lemma DecSplit(n: nat)
    requires n >= 10
    ensures Num.Dec(n) == Num.Dec(n / 10) + [DecimalDigit(n % 10)]
    ensures (n / 10) * 10 + n % 10 == n && n / 10 < n
  {
  }

  /** One digit of an index, `v` the index so far with it. */
  lemma SigStep(input: Bytes, i: nat, depth: nat, op: Option<Operation>, acc: seq<Element>, h: Option<nat>, d: nat, v: nat)
    requires d < 10 && i < |input| && input[i] == DecimalDigit(d) && v == OrZero(h) * 10 + d && v <= U8_MAX
    ensures Run(input, i, depth, Locals(Initial, h, op, acc, None))
      == Run(input, i + 1, depth, Locals(Initial, Some(v), op, acc, None))
  {
    var L := Locals(Initial, h, op, acc, None);
    RunSigDigit(input, i, depth, L);
    assert L.(sigId := Some(v)) == Locals(Initial, Some(v), op, acc, None);
  }

  /** The digits of an index, read with the operation `op` pending, up to `k`. */
  lemma {:induction false} SigDigits(input: Bytes, i: nat, depth: nat, op: Option<Operation>, acc: seq<Element>, n: nat, k: nat)
    requires n <= U8_MAX && At(input, i, Num.Dec(n)) && k == i + |Num.Dec(n)|
    ensures Run(input, i, depth, Locals(Initial, None, op, acc, None))
      == Run(input, k, depth, Locals(Initial, Some(n), op, acc, None))
    decreases n
  {
    if n < 10 {
      DecOne(n);
      assert input[i] == Num.Dec(n)[0];
      SigStep(input, i, depth, op, acc, None, n, n);
    } else {
      var h, d := n / 10, n % 10;
      DecSplit(n);
      AtSplit(input, i, Num.Dec(h), [DecimalDigit(d)]);
      var m := i + |Num.Dec(h)|;
      assert input[m] == [DecimalDigit(d)][0];
      SigDigits(input, i, depth, op, acc, h, m);
      SigStep(input, m, depth, op, acc, Some(h), d, n);
    }
  }

  /** The first digit of the required count, at `i`. */
  lemma ReqFirst(input: Bytes, i: nat, depth: nat, acc: seq<Element>, op: ModOp, d: nat)
    requires d < 10 && i < |input| && input[i] == DecimalDigit(d)
    ensures Run(input, i, depth, Reading(ModReq(op, None, None), acc))
      == Run(input, i + 1, depth, Reading(ModReq(op, Some(d), Some(i)), acc))
  {
    RunModDigit(input, i, depth, Reading(ModReq(op, None, None), acc));
  }

  /** A further digit of the required count, `v` the count so far with it. */
  lemma ReqStep(input: Bytes, i: nat, depth: nat, acc: seq<Element>, op: ModOp, h: nat, start: nat, d: nat, v: nat)
    requires d < 10 && i < |input| && input[i] == DecimalDigit(d) && v == h * 10 + d && v <= USIZE_MAX
    ensures Run(input, i, depth, Reading(ModReq(op, Some(h), Some(start)), acc))
      == Run(input, i + 1, depth, Reading(ModReq(op, Some(v), Some(start)), acc))
  {
    RunModDigit(input, i, depth, Reading(ModReq(op, Some(h), Some(start)), acc));
  }

  /** A digit of the unique count, `v` the count so far with it. */
  lemma UniqStep(input: Bytes, i: nat, depth: nat, acc: seq<Element>, op: ModOp, req: Option<nat>, h: Option<nat>, start: nat, d: nat, v: nat)
    requires d < 10 && i < |input| && input[i] == DecimalDigit(d) && v == OrZero(h) * 10 + d && v <= USIZE_MAX
    ensures Run(input, i, depth, Reading(ModUniq(op, req, h, Some(start)), acc))
      == Run(input, i + 1, depth, Reading(ModUniq(op, req, Some(v), Some(start)), acc))
  {
    RunModDigit(input, i, depth, Reading(ModUniq(op, req, h, Some(start)), acc));
  }

  /** The digits of the required count, read from the first one at `i` up to `k`. */
  lemma {:induction false} ReqDigits(input: Bytes, i: nat, depth: nat, acc: seq<Element>, op: ModOp, n: nat, k: nat)
    requires n <= USIZE_MAX && At(input, i, Num.Dec(n)) && k == i + |Num.Dec(n)|
    ensures Run(input, i, depth, Reading(ModReq(op, None, None), acc))
      == Run(input, k, depth, Reading(ModReq(op, Some(n), Some(i)), acc))
    decreases n
  {
    if n < 10 {
      DecOne(n);
      assert input[i] == Num.Dec(n)[0];
      ReqFirst(input, i, depth, acc, op, n);
    } else {
      var h, d := n / 10, n % 10;
      DecSplit(n);
      AtSplit(input, i, Num.Dec(h), [DecimalDigit(d)]);
      var m := i + |Num.Dec(h)|;
      assert input[m] == [DecimalDigit(d)][0];
      ReqDigits(input, i, depth, acc, op, h, m);
      ReqStep(input, m, depth, acc, op, h, i, d, n);
    }
  }

  /** The digits of the unique count, read from `i` up to `k`, after a required count that started at `start`. */
  lemma {:induction false} UniqDigits(input: Bytes, i: nat, depth: nat, acc: seq<Element>, op: ModOp, req: nat, start: nat, n: nat, k: nat)
    requires n <= USIZE_MAX && At(input, i, Num.Dec(n)) && k == i + |Num.Dec(n)|
    ensures Run(input, i, depth, Reading(ModUniq(op, Some(req), None, Some(start)), acc))
      == Run(input, k, depth, Reading(ModUniq(op, Some(req), Some(n), Some(start)), acc))
    decreases n
  {
    if n < 10 {
      DecOne(n);
      assert input[i] == Num.Dec(n)[0];
      UniqStep(input, i, depth, acc, op, Some(req), None, start, n, n);
    } else {
      var h, d := n / 10, n % 10;
      DecSplit(n);
      AtSplit(input, i, Num.Dec(h), [DecimalDigit(d)]);
      var m := i + |Num.Dec(h)|;
      assert input[m] == [DecimalDigit(d)][0];
      UniqDigits(input, i, depth, acc, op, req, start, h, m);
      UniqStep(input, m, depth, acc, op, Some(req), Some(h), start, d, n);
    }
  }

  // -------------------------------------------------------------- modifiers

  /** The text of a modifier that is present: operator, required count, then `,` and the unique count. */
  lemma ModifierTextParts(m: Modifier)
    ensures ModifierText(Some(m)) == [ModOpChar(m.modOp)] + (Num.Dec(m.matchReq) + UniqText(m.matchUniq))
  {
  }

  function UniqText(u: Option<nat>): Bytes
  {
    if u.Some? then "," + Num.Dec(u.value) else []
  }

  /** The unique count after `,`, then a byte that ends it. */
  lemma ReadUniq(input: Bytes, p: nat, depth: nat, acc: seq<Element>, op: ModOp, req: nat, start: nat, u: nat, k: nat)
    requires u <= USIZE_MAX && p < |input| && input[p] == ',' && At(input, p + 1, Num.Dec(u))
    requires k == p + 1 + |Num.Dec(u)| && (k == |input| || !IsDigit(input[k]))
    ensures Run(input, p, depth, Reading(ModReq(op, Some(req), Some(start)), acc))
      == Run(input, k, depth, Reading(Applying(op, Some(req), Some(u)), acc))
  {
    CommaStep(input, p, depth, acc, op, req, start);
    UniqDigits(input, p + 1, depth, acc, op, req, start, u, k);
    UniqEnd(input, k, depth, acc, op, req, start, u);
  }

  /** `,` after the required count starts the unique count. */
  lemma CommaStep(input: Bytes, p: nat, depth: nat, acc: seq<Element>, op: ModOp, req: nat, start: nat)
    requires p < |input| && input[p] == ','
    ensures Run(input, p, depth, Reading(ModReq(op, Some(req), Some(start)), acc))
      == Run(input, p + 1, depth, Reading(ModUniq(op, Some(req), None, Some(start)), acc))
  {
    RunModReqOther(input, p, depth, Reading(ModReq(op, Some(req), Some(start)), acc));
  }

  /** A byte that is not a digit ends the unique count. */
  lemma UniqEnd(input: Bytes, k: nat, depth: nat, acc: seq<Element>, op: ModOp, req: nat, start: nat, u: nat)
    requires k <= |input| && (k == |input| || !IsDigit(input[k]))
    ensures Run(input, k, depth, Reading(ModUniq(op, Some(req), Some(u), Some(start)), acc))
      == Run(input, k, depth, Reading(Applying(op, Some(req), Some(u)), acc))
  {
    RunModUniqOther(input, k, depth, Reading(ModUniq(op, Some(req), Some(u), Some(start)), acc));
  }

  /** The counts of a modifier, then a byte that ends them: the modifier is ready to apply. */
  lemma ReadCounts(input: Bytes, q: nat, depth: nat, acc: seq<Element>, m: Modifier, k: nat)
    requires ModifierFits(Some(m)) && At(input, q, Num.Dec(m.matchReq) + UniqText(m.matchUniq))
    requires k == q + |Num.Dec(m.matchReq) + UniqText(m.matchUniq)|
    requires k == |input| || !(IsDigit(input[k]) || input[k] == ',')
    ensures Run(input, q, depth, Reading(ModReq(m.modOp, None, None), acc))
      == Run(input, k, depth, Reading(Applying(m.modOp, Some(m.matchReq), m.matchUniq), acc))
  {
    var req := Num.Dec(m.matchReq);
    AtSplit(input, q, req, UniqText(m.matchUniq));
    var p := q + |req|;
    ReqDigits(input, q, depth, acc, m.modOp, m.matchReq, p);
    CountsRest(input, q, p, depth, acc, m, k);
  }

  /** After the required count: the unique count if there is one, then the end of the counts. */
  lemma CountsRest(input: Bytes, q: nat, p: nat, depth: nat, acc: seq<Element>, m: Modifier, k: nat)
    requires ModifierFits(Some(m)) && p <= |input| && At(input, p, UniqText(m.matchUniq)) && k == p + |UniqText(m.matchUniq)|
    requires k == |input| || !(IsDigit(input[k]) || input[k] == ',')
    ensures Run(input, p, depth, Reading(ModReq(m.modOp, Some(m.matchReq), Some(q)), acc))
      == Run(input, k, depth, Reading(Applying(m.modOp, Some(m.matchReq), m.matchUniq), acc))
  {
    if m.matchUniq.Some? {
      CountsUniq(input, q, p, depth, acc, m, k);
    } else {
      ReqEnd(input, p, depth, acc, m.modOp, m.matchReq, q);
    }
  }

  /** The required count ends at a byte that is neither a digit nor `,`. */
  lemma ReqEnd(input: Bytes, p: nat, depth: nat, acc: seq<Element>, op: ModOp, req: nat, start: nat)
    requires p <= |input| && (p == |input| || !(IsDigit(input[p]) || input[p] == ','))
    ensures Run(input, p, depth, Reading(ModReq(op, Some(req), Some(start)), acc))
      == Run(input, p, depth, Reading(Applying(op, Some(req), None), acc))
  {
    RunModReqOther(input, p, depth, Reading(ModReq(op, Some(req), Some(start)), acc));
  }

  lemma CountsUniq(input: Bytes, q: nat, p: nat, depth: nat, acc: seq<Element>, m: Modifier, k: nat)
    requires m.matchUniq.Some? && m.matchUniq.value <= USIZE_MAX
    requires p <= |input| && At(input, p, UniqText(m.matchUniq))
    requires k == p + |UniqText(m.matchUniq)|
    requires k == |input| || !(IsDigit(input[k]) || input[k] == ',')
    ensures Run(input, p, depth, Reading(ModReq(m.modOp, Some(m.matchReq), Some(q)), acc))
      == Run(input, k, depth, Reading(Applying(m.modOp, Some(m.matchReq), m.matchUniq), acc))
  {
    var ud := Num.Dec(m.matchUniq.value);
    AtSplit(input, p, ",", ud);
    assert input[p] == input[p..p + 1][0];
    ReadUniq(input, p, depth, acc, m.modOp, m.matchReq, q, m.matchUniq.value, k);
  }

  /**
   * Reading a modifier's text after the elements `acc`, with nothing
   * pending, leaves the modifier ready to apply at the next byte.
   */
  lemma ReadModifier(input: Bytes, j: nat, depth: nat, L: Locals, acc: seq<Element>, m: Modifier, k: nat)
    requires L.state == Initial && PushPending(L) == Settled(acc)
    requires ModifierFits(Some(m)) && At(input, j, ModifierText(Some(m)))
    requires k == j + |ModifierText(Some(m))|
    requires k == |input| || !(IsDigit(input[k]) || input[k] == ',')
    ensures Run(input, j, depth, L)
      == Run(input, k, depth, Reading(Applying(m.modOp, Some(m.matchReq), m.matchUniq), acc))
  {
    ModifierTextParts(m);
    var counts := Num.Dec(m.matchReq) + UniqText(m.matchUniq);
    AtSplit(input, j, [ModOpChar(m.modOp)], counts);
    OpenModifier(input, j, depth, L, acc, m.modOp);
    ReadCounts(input, j + 1, depth, acc, m, k);
  }

  /** A modifier operator opens the reading of counts. */
  lemma OpenModifier(input: Bytes, j: nat, depth: nat, L: Locals, acc: seq<Element>, op: ModOp)
    requires L.state == Initial && PushPending(L) == Settled(acc)
    requires At(input, j, [ModOpChar(op)])
    ensures Run(input, j, depth, L) == Run(input, j + 1, depth, Reading(ModReq(op, None, None), acc))
  {
    assert input[j] == ModOpChar(op);
    ModOpRoundTrip(op, input[j]);
    RunOther(input, j, depth, L);
    assert PushPending(L).(state := ModReq(op, None, None)) == Reading(ModReq(op, None, None), acc);
  }

  /** Inside the stream a modifier read after an element goes to that element. */
  lemma SettleModifier(input: Bytes, j: nat, depth: nat, L: Locals, acc: seq<Element>, e: Element, k: nat, after: seq<Element>)
    requires L.state == Initial && e.modifier.Some? && ModifierFits(e.modifier)
    requires PushPending(L) == Settled(acc + [WithModifier(e, None)]) && after == acc + [e]
    requires At(input, j, ModifierText(e.modifier)) && k == j + |ModifierText(e.modifier)| && Follows(input, k, e)
    ensures Run(input, j, depth, L) == Run(input, k, depth, Settled(after))
  {
    ReadModifier(input, j, depth, L, acc + [WithModifier(e, None)], e.modifier.value, k);
    ApplyToLast(input, k, depth, acc, e, after);
  }

  /** Inside the stream a modifier goes to the last element. */
  lemma ApplyToLast(input: Bytes, k: nat, depth: nat, acc: seq<Element>, e: Element, after: seq<Element>)
    requires e.modifier.Some? && k < |input| && after == acc + [e]
    ensures var m := e.modifier.value;
      Run(input, k, depth, Reading(Applying(m.modOp, Some(m.matchReq), m.matchUniq), acc + [WithModifier(e, None)]))
      == Run(input, k, depth, Settled(after))
  {
    var m := e.modifier.value;
    var e0 := WithModifier(e, None);
    RunApplying(input, k, depth, Reading(Applying(m.modOp, Some(m.matchReq), m.matchUniq), acc + [e0]));
    assert (acc + [e0])[..|acc|] == acc;
    assert WithModifier(e0, e.modifier) == e;
  }

  /** With no modifier, a pending index becomes the element at the byte after it. */
  lemma SettleIndex(input: Bytes, j: nat, depth: nat, acc: seq<Element>, e: Element, after: seq<Element>)
    requires e.SigIndex? && e.modifier.None? && Follows(input, j, e) && after == acc + [e]
    ensures Run(input, j, depth, Locals(Initial, Some(e.sigIndex), e.operation, acc, None))
      == Run(input, j, depth, Settled(after))
  {
    var L := Locals(Initial, Some(e.sigIndex), e.operation, acc, None);
    if j == |input| {
      RunAtEnd(input, depth, L);
      RunAtEnd(input, depth, Settled(after));
    } else if input[j] == ')' {
      RunClose(input, j, depth, L);
      RunClose(input, j, depth, Settled(after));
    } else {
      RunOther(input, j, depth, L);
      RunOther(input, j, depth, Settled(after));
    }
  }

  // --------------------------------------------------------------- elements

  /** An element's operator, read with nothing pending, becomes the pending operation. */
  lemma OpStep(input: Bytes, i: nat, depth: nat, acc: seq<Element>, op: Option<Operation>, o: nat)
    requires At(input, i, OperationText(op)) && o == i + |OperationText(op)|
    ensures Run(input, i, depth, Settled(acc)) == Run(input, o, depth, Locals(Initial, None, op, acc, None))
  {
    if op.Some? {
      assert input[i] == OperationChar(op.value);
      OperationRoundTrip(op.value, input[i]);
      RunOther(input, i, depth, Settled(acc));
      assert Settled(acc).(operation := Some(op.value)) == Locals(Initial, None, op, acc, None);
    }
  }

  /** The text of an element with an operator starts with that operator. */
  lemma TextStartsWithOp(e: Element)
    requires e.operation.Some?
    ensures |ElementText(e)| > 0 && ElementText(e)[0] == OperationChar(e.operation.value)
  {
  }

  /**
   * The text of an element read after the elements `acc`, with nothing
   * pending, adds the element to them.
   */
  lemma ElementRun(input: Bytes, i: nat, depth: nat, e: Element, acc: seq<Element>, k: nat, after: seq<Element>)
    requires WellFormed(e, depth) && At(input, i, ElementText(e))
    requires k == i + |ElementText(e)| && Follows(input, k, e) && after == acc + [e]
    ensures Run(input, i, depth, Settled(acc)) == Run(input, k, depth, Settled(after))
    decreases e, 5
  {
    if e.SigIndex? {
      IndexRun(input, i, depth, e, acc, k, after);
    } else {
      GroupRun(input, i, depth, e, acc, k, after);
    }
  }

  lemma IndexRun(input: Bytes, i: nat, depth: nat, e: Element, acc: seq<Element>, k: nat, after: seq<Element>)
    requires e.SigIndex? && WellFormed(e, depth) && At(input, i, ElementText(e))
    requires k == i + |ElementText(e)| && Follows(input, k, e) && after == acc + [e]
    ensures Run(input, i, depth, Settled(acc)) == Run(input, k, depth, Settled(after))
  {
    var ot, d, mt := OperationText(e.operation), Num.Dec(e.sigIndex), ModifierText(e.modifier);
    IndexText(e);
    AtSplit(input, i, ot + d, mt);
    var j := i + |ot + d|;
    IndexDigits(input, i, depth, acc, e.operation, e.sigIndex, j);
    IndexSettle(input, j, depth, acc, e, k, after);
  }

  /** The text of an index element: operator, index, modifier. */
  lemma IndexText(e: Element)
    requires e.SigIndex?
    ensures ElementText(e) == (OperationText(e.operation) + Num.Dec(e.sigIndex)) + ModifierText(e.modifier)
  {
  }

  /** An operator and an index read with nothing pending leave the index pending. */
  lemma IndexDigits(input: Bytes, i: nat, depth: nat, acc: seq<Element>, op: Option<Operation>, n: nat, j: nat)
    requires n <= U8_MAX && At(input, i, OperationText(op) + Num.Dec(n)) && j == i + |OperationText(op) + Num.Dec(n)|
    ensures Run(input, i, depth, Settled(acc)) == Run(input, j, depth, Locals(Initial, Some(n), op, acc, None))
  {
    AtSplit(input, i, OperationText(op), Num.Dec(n));
    var o := i + |OperationText(op)|;
    OpStep(input, i, depth, acc, op, o);
    SigDigits(input, o, depth, op, acc, n, j);
  }

  /** A pending index and its modifier become the element. */
  lemma IndexSettle(input: Bytes, j: nat, depth: nat, acc: seq<Element>, e: Element, k: nat, after: seq<Element>)
    requires e.SigIndex? && ModifierFits(e.modifier) && after == acc + [e]
    requires At(input, j, ModifierText(e.modifier)) && k == j + |ModifierText(e.modifier)| && Follows(input, k, e)
    ensures Run(input, j, depth, Locals(Initial, Some(e.sigIndex), e.operation, acc, None)) == Run(input, k, depth, Settled(after))
  {
    if e.modifier.None? {
      SettleIndex(input, j, depth, acc, e, after);
    } else {
      assert WithModifier(e, None) == SigIndex(e.operation, e.sigIndex, None);
      SettleModifier(input, j, depth, Locals(Initial, Some(e.sigIndex), e.operation, acc, None), acc, e, k, after);
    }
  }

  lemma GroupRun(input: Bytes, i: nat, depth: nat, e: Element, acc: seq<Element>, k: nat, after: seq<Element>)
    requires e.Expr? && WellFormed(e, depth) && At(input, i, ElementText(e))
    requires k == i + |ElementText(e)| && Follows(input, k, e) && after == acc + [e]
    ensures Run(input, i, depth, Settled(acc)) == Run(input, k, depth, Settled(after))
    decreases e, 4
  {
    var g, mt := GroupText(e), ModifierText(e.modifier);
    GroupTextParts(e);
    AtSplit(input, i, g, mt);
    var c := i + |g|;
    var before := acc + [WithModifier(e, None)];
    GroupCore(input, i, depth, e, acc, c, before);
    GroupSettle(input, c, depth, acc, e, before, k, after);
  }

  /** The text of a group without its modifier. */
  function GroupText(e: Element): Bytes
    requires e.Expr?
  {
    ((OperationText(e.operation) + "(") + ElementsText(e.elements)) + ")"
  }

  lemma GroupTextParts(e: Element)
    requires e.Expr? && e.depth > 0
    ensures ElementText(e) == GroupText(e) + ModifierText(e.modifier)
  {
  }

  /** A group read with nothing pending becomes the last element, without its modifier. */
  lemma GroupCore(input: Bytes, i: nat, depth: nat, e: Element, acc: seq<Element>, c: nat, before: seq<Element>)
    requires e.Expr? && WellFormed(e, depth) && At(input, i, GroupText(e))
    requires c == i + |GroupText(e)| && before == acc + [WithModifier(e, None)]
    ensures Run(input, i, depth, Settled(acc)) == Run(input, c, depth, Settled(before))
    decreases e, 3
  {
    var o := i + |OperationText(e.operation)|;
    GroupSplit(input, i, e, o, c);
    OpStep(input, i, depth, acc, e.operation, o);
    GroupOpen(input, o, depth, e, acc, c, before);
  }

  /** Where the parts of a group's text are found. */
  lemma GroupSplit(input: Bytes, i: nat, e: Element, o: nat, c: nat)
    requires e.Expr? && At(input, i, GroupText(e))
    requires o == i + |OperationText(e.operation)| && c == i + |GroupText(e)|
    ensures At(input, i, OperationText(e.operation))
    ensures o < |input| && input[o] == '(' && At(input, o + 1, ElementsText(e.elements))
    ensures c == o + 1 + |ElementsText(e.elements)| + 1 && c <= |input| && input[c - 1] == ')'
  {
    var ot, es := OperationText(e.operation), ElementsText(e.elements);
    AtSplit(input, i, (ot + "(") + es, ")");
    AtSplit(input, i, ot + "(", es);
    AtSplit(input, i, ot, "(");
    AtFirst(input, o, "(");
    AtFirst(input, c - 1, ")");
  }

  /** `(`, the elements of a group and `)`, with the group's operator pending. */
  lemma GroupOpen(input: Bytes, o: nat, depth: nat, e: Element, acc: seq<Element>, c: nat, before: seq<Element>)
    requires e.Expr? && WellFormed(e, depth) && before == acc + [WithModifier(e, None)]
    requires o < |input| && input[o] == '(' && At(input, o + 1, ElementsText(e.elements))
    requires c == o + 1 + |ElementsText(e.elements)| + 1 && c <= |input| && input[c - 1] == ')'
    ensures Run(input, o, depth, Locals(Initial, None, e.operation, acc, None)) == Run(input, c, depth, Settled(before))
    decreases e, 2
  {
    var sub := Expr(e.depth, None, e.elements, None);
    ParseNested(input, o + 1, e.depth, e.elements, c);
    OpenGroup(input, o, depth, e.operation, acc, sub, c);
    assert WithOperation(sub, e.operation) == WithModifier(e, None);
  }

  /** `(` with the operation `op` pending: the group parsed after it joins the elements with that operation. */
  lemma OpenGroup(input: Bytes, o: nat, depth: nat, op: Option<Operation>, acc: seq<Element>, sub: Element, c: nat)
    requires o < |input| && input[o] == '(' && depth + 1 <= U8_MAX
    requires o + 1 <= |input| && ParseElement(input, o + 1, depth + 1) == Ok((sub, c))
    ensures Run(input, o, depth, Locals(Initial, None, op, acc, None)) == Run(input, c, depth, Settled(acc + [WithOperation(sub, op)]))
  {
    var L0 := Locals(Initial, None, op, acc, None);
    RunOpen(input, o, depth, L0);
    assert L0.(operation := None, elements := L0.elements + [WithOperation(sub, L0.operation)]) == Settled(acc + [WithOperation(sub, op)]);
  }

  /** The modifier of a group, read after it. */
  lemma GroupSettle(input: Bytes, c: nat, depth: nat, acc: seq<Element>, e: Element, before: seq<Element>, k: nat, after: seq<Element>)
    requires e.Expr? && ModifierFits(e.modifier) && before == acc + [WithModifier(e, None)] && after == acc + [e]
    requires At(input, c, ModifierText(e.modifier)) && k == c + |ModifierText(e.modifier)| && Follows(input, k, e)
    ensures Run(input, c, depth, Settled(before)) == Run(input, k, depth, Settled(after))
  {
    if e.modifier.Some? {
      SettleModifier(input, c, depth, Settled(before), acc, e, k, after);
    } else {
      assert WithModifier(e, None) == e;
    }
  }

  /** The elements of a group and its `)`: the parse of the group. */
  lemma ParseNested(input: Bytes, i: nat, d: nat, es: seq<Element>, c: nat)
    requires d > 0 && Joined(es, d)
    requires At(input, i, ElementsText(es))
    requires c == i + |ElementsText(es)| + 1 && c <= |input| && input[c - 1] == ')'
    ensures ParseElement(input, i, d) == Ok((Expr(d, None, es, None), c))
    decreases es, 1
  {
    var j := i + |ElementsText(es)|;
    assert [] + es == es;
    ElementsRun(input, i, d, es, [], j, es);
    RunClose(input, j, d, Settled(es));
  }

  /** Elements of a group at depth `depth` as the parser builds them, each after the first joined by an operator. */
  predicate Joined(es: seq<Element>, depth: nat)
  {
    forall k :: 0 <= k < |es| ==> WellFormed(es[k], depth) && (k > 0 ==> es[k].operation.Some?)
  }

  /** The texts of elements, each read after the ones before it, up to `k`. */
  lemma {:induction false} ElementsRun(input: Bytes, i: nat, depth: nat, es: seq<Element>, acc: seq<Element>,
                                       k: nat, after: seq<Element>)
    requires Joined(es, depth)
    requires At(input, i, ElementsText(es)) && k == i + |ElementsText(es)| && after == acc + es
    requires |es| > 0 ==> Follows(input, k, es[|es| - 1])
    ensures Run(input, i, depth, Settled(acc)) == Run(input, k, depth, Settled(after))
    decreases es, 0
  {
    if |es| == 0 {
      assert after == acc;
    } else {
      var j := i + |ElementText(es[0])|;
      var acc1 := acc + [es[0]];
      JoinedTail(es, depth);
      SplitFirst(input, i, es);
      FirstFollows(input, j, es, k);
      AppendFirst(acc, es);
      ElementRun(input, i, depth, es[0], acc, j, acc1);
      ElementsRun(input, j, depth, es[1..], acc1, k, after);
    }
  }

  lemma AppendFirst(acc: seq<Element>, es: seq<Element>)
    requires |es| > 0
    ensures (acc + [es[0]]) + es[1..] == acc + es
  {
  }

  /** The text of elements is the first one's, then the rest's. */
  lemma SplitFirst(input: Bytes, i: nat, es: seq<Element>)
    requires |es| > 0 && At(input, i, ElementsText(es))
    ensures At(input, i, ElementText(es[0])) && At(input, i + |ElementText(es[0])|, ElementsText(es[1..]))
    ensures |ElementsText(es)| == |ElementText(es[0])| + |ElementsText(es[1..])|
  {
    ElementsTextFirst(es);
    AtSplitEq(input, i, ElementsText(es), ElementText(es[0]), ElementsText(es[1..]));
  }

  /** The first element is well formed, the others are joined elements of the same group. */
  lemma JoinedTail(es: seq<Element>, depth: nat)
    requires |es| > 0 && Joined(es, depth)
    ensures WellFormed(es[0], depth) && Joined(es[1..], depth) && (|es| > 1 ==> es[1].operation.Some?)
  {
  }

  lemma ElementsTextFirst(es: seq<Element>)
    requires |es| > 0
    ensures ElementsText(es) == ElementText(es[0]) + ElementsText(es[1..])
  {
  }

  /** After the first element comes the operator of the second one, or what follows the last. */
  lemma FirstFollows(input: Bytes, j: nat, es: seq<Element>, k: nat)
    requires |es| > 0 && (|es| > 1 ==> es[1].operation.Some?)
    requires At(input, j, ElementsText(es[1..])) && k == j + |ElementsText(es[1..])|
    requires Follows(input, k, es[|es| - 1])
    ensures Follows(input, j, es[0])
  {
    var rest := ElementsText(es[1..]);
    if |es| == 1 {
      assert rest == [];
    } else {
      TextStartsWithOp(es[1]);
      assert rest[0] == ElementText(es[1])[0];
      AtFirst(input, j, rest);
    }
  }

  /** The first byte of a text found at `i`. */
  lemma AtFirst(input: Bytes, i: nat, t: Bytes)
    requires |t| > 0 && At(input, i, t)
    ensures i < |input| && input[i] == t[0]
  {
    assert input[i] == input[i..i + |t|][0];
  }

  // ------------------------------------------------------------- round trip

  /**
   * The display of an expression in the form the parser builds parses back
   * to the same expression.
   */
  lemma ParseDisplay(e: Element)
    requires Canonical(e)
    ensures Parse(ElementText(e)) == Ok(e)
  {
    TopText(e);
    ParseWhole(ElementText(e), e);
  }

  /** A text made of the elements and the modifier of a whole expression parses to it. */
  lemma ParseWhole(input: Bytes, e: Element)
    requires Canonical(e) && input == ElementsText(e.elements) + ModifierText(e.modifier)
    ensures Parse(input) == Ok(e)
  {
    var es, mt := ElementsText(e.elements), ModifierText(e.modifier);
    assert input[0..|input|] == input;
    AtSplit(input, 0, es, mt);
    assert Joined(e.elements, 0);
    if |e.elements| > 0 {
      TopFollows(input, e);
    }
    TopElements(input, e.elements);
    TopModifier(input, e);
  }

  /** After the elements of a whole expression comes its modifier operator, or the end. */
  lemma TopFollows(input: Bytes, e: Element)
    requires Canonical(e) && |e.elements| > 0
    requires At(input, |ElementsText(e.elements)|, ModifierText(e.modifier))
    requires |ElementsText(e.elements)| + |ModifierText(e.modifier)| == |input|
    ensures Follows(input, |ElementsText(e.elements)|, e.elements[|e.elements| - 1])
  {
    if e.modifier.Some? {
      var mt := ModifierText(e.modifier);
      ModifierTextParts(e.modifier.value);
      AtFirst(input, |ElementsText(e.elements)|, mt);
    }
  }

  /** A whole expression displays as its elements and its modifier. */
  lemma TopText(e: Element)
    requires e.Expr? && e.depth == 0 && e.operation.None?
    ensures ElementText(e) == ElementsText(e.elements) + ModifierText(e.modifier)
  {
  }

  /** The elements of a whole expression, read from the start. */
  lemma TopElements(input: Bytes, es: seq<Element>)
    requires Joined(es, 0) && At(input, 0, ElementsText(es))
    requires |es| > 0 ==> Follows(input, |ElementsText(es)|, es[|es| - 1])
    ensures ParseElement(input, 0, 0) == Run(input, |ElementsText(es)|, 0, Settled(es))
  {
    assert [] + es == es;
    ElementsRun(input, 0, 0, es, [], |ElementsText(es)|, es);
  }

  /** The modifier of a whole expression, at the end of its text, goes to the expression. */
  lemma TopModifier(input: Bytes, e: Element)
    requires Canonical(e) && |ElementsText(e.elements)| + |ModifierText(e.modifier)| == |input|
    requires At(input, |ElementsText(e.elements)|, ModifierText(e.modifier))
    ensures Run(input, |ElementsText(e.elements)|, 0, Settled(e.elements)) == Ok((e, |input|))
  {
    var j := |ElementsText(e.elements)|;
    if e.modifier.None? {
      RunAtEnd(input, 0, Settled(e.elements));
    } else {
      var m := e.modifier.value;
      ReadModifier(input, j, 0, Settled(e.elements), e.elements, m, |input|);
      RunApplying(input, |input|, 0, Reading(Applying(m.modOp, Some(m.matchReq), m.matchUniq), e.elements));
      RunAtEnd(input, 0, Locals(Initial, None, None, e.elements, Some(m)));
    }
  }
}
