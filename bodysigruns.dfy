/**
 * Runs of the body-signature parser (src/signature/bodysig/parse.rs) over
 * pieces of a text: what a piece does to the parser's context, and how
 * pieces read one after the other chain.
 */
module BodySigRuns {
  import opened Wrappers
  import opened ByteStr
  import opened TextAt
  import S = BodySigParse

  const HN: S.State := S.State.HighNyble
  const LN: S.State := S.State.LowNyble

  // ------------------------------------------------------------ runs

  /** The machine's result after the bytes `v[i..j]`, from context `c` in state `st`. */
  function After(c: S.Ctx, st: S.State, v: Bytes, i: nat, j: nat): Result<(S.Ctx, S.State), S.BodySigParseError>
    requires i <= j <= |v| && S.Consistent(c, st)
  {
    S.RunFrom(c, st, v[..j], i)
  }

  /** Nothing read, nothing changed. */
  lemma AfterNothing(c: S.Ctx, st: S.State, v: Bytes, i: nat)
    requires i <= |v| && S.Consistent(c, st)
    ensures After(c, st, v, i, i) == Ok((c, st))
  {
  }

  /** One byte read is one step. */
  lemma AfterStep(c: S.Ctx, st: S.State, v: Bytes, i: nat)
    requires i < |v| && S.Consistent(c, st)
    ensures After(c, st, v, i, i + 1) == S.Step(c, st, i, v[i])
  {
    var w := v[..i + 1];
    assert w[i] == v[i];
    var r := S.Step(c, st, i, v[i]);
    if r.Ok? {
      assert S.RunFrom(r.value.0, r.value.1, w, i + 1) == Ok(r.value);
    }
  }

  /** Reading up to `k` and then on to `j` is reading up to `j`. */
  lemma AfterThen(c: S.Ctx, st: S.State, v: Bytes, i: nat, k: nat, j: nat)
    requires i <= k <= j <= |v| && S.Consistent(c, st) && After(c, st, v, i, k).Ok?
    ensures S.Consistent(After(c, st, v, i, k).value.0, After(c, st, v, i, k).value.1)
    ensures After(c, st, v, i, j) == After(After(c, st, v, i, k).value.0, After(c, st, v, i, k).value.1, v, k, j)
  {
    S.RunPrefix(c, st, v[..k], v[k..j], i);
    assert v[..k] + v[k..j] == v[..j];
  }

  /**
   * Reading `v[i..j]` takes context `c` in `HighNyble` to context `d` in
   * `HighNyble`: the run over `v` from `c` at `i` is the run from `d` at
   * `j`. The definition sits `depth` levels down, and `Leads` asks for more
   * levels than the verifier unfolds on its own, so that a proof sees what a
   * `Leads` fact says only where it calls `LeadsIs`; that keeps the runs of
   * the parser, which are costly to reason about, out of the proofs that
   * only chain pieces.
   */
  ghost predicate LeadsBelow(c: S.Ctx, v: Bytes, i: nat, j: nat, d: S.Ctx, depth: nat)
    decreases depth
  {
    if depth == 0 then i <= j <= |v| && S.RunFrom(c, HN, v, i) == S.RunFrom(d, HN, v, j)
    else LeadsBelow(c, v, i, j, d, depth - 1)
  }

  ghost predicate Leads(c: S.Ctx, v: Bytes, i: nat, j: nat, d: S.Ctx)
  {
    LeadsBelow(c, v, i, j, d, |v| + 3) == true
  }

  lemma {:induction false} LeadsBelowIs(c: S.Ctx, v: Bytes, i: nat, j: nat, d: S.Ctx, depth: nat)
    ensures LeadsBelow(c, v, i, j, d, depth) <==> i <= j <= |v| && S.RunFrom(c, HN, v, i) == S.RunFrom(d, HN, v, j)
    decreases depth
  {
    if depth > 0 {
      LeadsBelowIs(c, v, i, j, d, depth - 1);
    }
  }

  /** What `Leads` means. */
  lemma LeadsIs(c: S.Ctx, v: Bytes, i: nat, j: nat, d: S.Ctx)
    ensures Leads(c, v, i, j, d) <==> i <= j <= |v| && S.RunFrom(c, HN, v, i) == S.RunFrom(d, HN, v, j)
  {
    LeadsBelowIs(c, v, i, j, d, |v| + 3);
  }

  /** Two contexts whose step on `v[i]` agrees read the same from `i` on. */
  lemma LeadsSameStep(c: S.Ctx, c1: S.Ctx, v: Bytes, i: nat, j: nat, d: S.Ctx)
    requires i < |v| && S.Step(c, HN, i, v[i]) == S.Step(c1, HN, i, v[i])
    requires Leads(c1, v, i, j, d)
    ensures Leads(c, v, i, j, d)
  {
    LeadsIs(c1, v, i, j, d);
    LeadsIs(c, v, i, j, d);
  }

  /** A piece read without error is read the same whatever follows it. */
  lemma LeadsIntro(c: S.Ctx, v: Bytes, i: nat, j: nat, d: S.Ctx)
    requires i <= j <= |v| && After(c, HN, v, i, j) == Ok((d, HN))
    ensures Leads(c, v, i, j, d)
  {
    S.RunPrefix(c, HN, v[..j], v[j..], i);
    assert v[..j] + v[j..] == v;
    LeadsIs(c, v, i, j, d);
  }

  /** Pieces read one after the other. */
  lemma LeadsThen(c: S.Ctx, v: Bytes, i: nat, k: nat, j: nat, d: S.Ctx, e: S.Ctx)
    requires Leads(c, v, i, k, d) && Leads(d, v, k, j, e)
    ensures Leads(c, v, i, j, e)
  {
    LeadsIs(c, v, i, k, d);
    LeadsIs(d, v, k, j, e);
    LeadsIs(c, v, i, j, e);
  }

  /** Nothing read, nothing changed. */
  lemma LeadsNothing(c: S.Ctx, v: Bytes, i: nat)
    requires i <= |v|
    ensures Leads(c, v, i, i, c)
  {
    LeadsIs(c, v, i, i, c);
  }

  /** A whole text read ends the run. */
  lemma LeadsToEnd(c: S.Ctx, v: Bytes, d: S.Ctx)
    requires Leads(c, v, 0, |v|, d)
    ensures S.RunFrom(c, HN, v, 0) == Ok((d, HN))
  {
    LeadsIs(c, v, 0, |v|, d);
  }

  /**
   * `Leads` between any two states: reading `v[i..j]` takes context `c` in
   * state `st` to `d` in state `dt`, hidden the same way.
   */
  ghost predicate GoesBelow(c: S.Ctx, st: S.State, v: Bytes, i: nat, j: nat, d: S.Ctx, dt: S.State, depth: nat)
    decreases depth
  {
    if depth == 0 then
      i <= j <= |v| && S.Consistent(c, st) && S.Consistent(d, dt) && S.RunFrom(c, st, v, i) == S.RunFrom(d, dt, v, j)
    else GoesBelow(c, st, v, i, j, d, dt, depth - 1)
  }

  ghost predicate Goes(c: S.Ctx, st: S.State, v: Bytes, i: nat, j: nat, d: S.Ctx, dt: S.State)
  {
    GoesBelow(c, st, v, i, j, d, dt, |v| + 3)
  }

  lemma {:induction false} GoesBelowIs(c: S.Ctx, st: S.State, v: Bytes, i: nat, j: nat, d: S.Ctx, dt: S.State, depth: nat)
    ensures GoesBelow(c, st, v, i, j, d, dt, depth) <==>
      i <= j <= |v| && S.Consistent(c, st) && S.Consistent(d, dt) && S.RunFrom(c, st, v, i) == S.RunFrom(d, dt, v, j)
    decreases depth
  {
    if depth > 0 {
      GoesBelowIs(c, st, v, i, j, d, dt, depth - 1);
    }
  }

  /** What `Goes` means. */
  lemma GoesIs(c: S.Ctx, st: S.State, v: Bytes, i: nat, j: nat, d: S.Ctx, dt: S.State)
    ensures Goes(c, st, v, i, j, d, dt) <==>
      i <= j <= |v| && S.Consistent(c, st) && S.Consistent(d, dt) && S.RunFrom(c, st, v, i) == S.RunFrom(d, dt, v, j)
  {
    GoesBelowIs(c, st, v, i, j, d, dt, |v| + 3);
  }

  /** A piece read without error, from any state to any state. */
  lemma GoesIntro(c: S.Ctx, st: S.State, v: Bytes, i: nat, j: nat, d: S.Ctx, dt: S.State)
    requires i <= j <= |v| && S.Consistent(c, st) && After(c, st, v, i, j) == Ok((d, dt))
    ensures Goes(c, st, v, i, j, d, dt)
  {
    S.RunPrefix(c, st, v[..j], v[j..], i);
    assert v[..j] + v[j..] == v;
    GoesIs(c, st, v, i, j, d, dt);
  }

  /** One step read without error. */
  lemma GoesStep(c: S.Ctx, st: S.State, v: Bytes, i: nat, d: S.Ctx, dt: S.State)
    requires i < |v| && S.Consistent(c, st) && S.Step(c, st, i, v[i]) == Ok((d, dt))
    ensures Goes(c, st, v, i, i + 1, d, dt)
  {
    AfterStep(c, st, v, i);
    GoesIntro(c, st, v, i, i + 1, d, dt);
  }

  lemma GoesThen(c: S.Ctx, st: S.State, v: Bytes, i: nat, k: nat, j: nat, d: S.Ctx, dt: S.State, e: S.Ctx, et: S.State)
    requires Goes(c, st, v, i, k, d, dt) && Goes(d, dt, v, k, j, e, et)
    ensures Goes(c, st, v, i, j, e, et)
  {
    GoesIs(c, st, v, i, k, d, dt);
    GoesIs(d, dt, v, k, j, e, et);
    GoesIs(c, st, v, i, j, e, et);
  }

  /** From `HighNyble` back to `HighNyble` is `Leads`. */
  lemma GoesLeads(c: S.Ctx, v: Bytes, i: nat, j: nat, d: S.Ctx)
    requires Goes(c, HN, v, i, j, d, HN)
    ensures Leads(c, v, i, j, d)
  {
    GoesIs(c, HN, v, i, j, d, HN);
    LeadsIs(c, v, i, j, d);
  }
}
