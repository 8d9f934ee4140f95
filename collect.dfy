/**
 * The "parse every element, stop at the first failure" pattern that the
 * parsers share: a loop that pushes each parsed element and returns the
 * first error with `?` (Rust's `collect::<Result<Vec<_>, _>>()`).
 */
module Collect {
  import opened Wrappers

  /** Every element through `f`, in order; the first failure wins. */
  function MapAll<A, B, E>(f: A -> Result<B, E>, xs: seq<A>): (r: Result<seq<B>, E>)
    ensures r.Ok? ==> |r.value| == |xs|
    ensures r.Ok? ==> forall k :: 0 <= k < |xs| ==> f(xs[k]) == Ok(r.value[k])
    decreases |xs|
  {
    if |xs| == 0 then Ok([])
    else match f(xs[0])
      case Err(e) => Err(e)
      case Ok(b) =>
        match MapAll(f, xs[1..])
        case Err(e) => Err(e)
        case Ok(rest) => Ok([b] + rest)
  }

  /** The error of a failed run is that of the first element that fails. */
  lemma {:induction false} MapAllFirstError<A, B, E>(f: A -> Result<B, E>, xs: seq<A>)
    requires MapAll(f, xs).Err?
    ensures exists k :: (0 <= k < |xs| && f(xs[k]) == Err(MapAll(f, xs).error) &&
                         forall j :: 0 <= j < k ==> f(xs[j]).Ok?)
    decreases |xs|
  {
    if f(xs[0]).Ok? {
      MapAllFirstError(f, xs[1..]);
      var k :| 0 <= k < |xs[1..]| && f(xs[1..][k]) == Err(MapAll(f, xs[1..]).error) &&
        forall j :: 0 <= j < k ==> f(xs[1..][j]).Ok?;
      assert xs[1..][k] == xs[k + 1];
      assert forall j :: 1 <= j < k + 1 ==> xs[j] == xs[1..][j - 1];
    }
  }

  /** If every element succeeds, so does the run, with the results in order. */
  lemma {:induction false} MapAllEach<A, B, E>(f: A -> Result<B, E>, xs: seq<A>, ys: seq<B>)
    requires |xs| == |ys| && forall k :: 0 <= k < |xs| ==> f(xs[k]) == Ok(ys[k])
    ensures MapAll(f, xs) == Ok(ys)
    decreases |xs|
  {
    if |xs| > 0 {
      assert f(xs[0]) == Ok(ys[0]);
      MapAllEach(f, xs[1..], ys[1..]);
      assert ys == [ys[0]] + ys[1..];
    }
  }

  /** Results `pre` already collected in front of what the rest of the input gives. */
  function Prepend<T, E>(pre: seq<T>, r: Result<seq<T>, E>): Result<seq<T>, E>
  {
    match r
    case Err(e) => Err(e)
    case Ok(rest) => Ok(pre + rest)
  }

  lemma PrependNil<T, E>(r: Result<seq<T>, E>)
    ensures Prepend([], r) == r
    ensures r.Ok? ==> Prepend(r.value, Ok([])) == r
  {
    if r.Ok? {
      assert [] + r.value == r.value + [] == r.value;
    }
  }

  lemma PrependAssoc<T, E>(a: seq<T>, b: seq<T>, r: Result<seq<T>, E>)
    ensures Prepend(a, Prepend(b, r)) == Prepend(a + b, r)
  {
    if r.Ok? {
      assert a + (b + r.value) == (a + b) + r.value;
    }
  }

  /** One step of the run from position `i`. */
  lemma MapAllStep<A, B, E>(f: A -> Result<B, E>, xs: seq<A>, i: nat)
    requires i < |xs|
    ensures f(xs[i]).Err? ==> MapAll(f, xs[i..]) == Err(f(xs[i]).error)
    ensures f(xs[i]).Ok? ==> MapAll(f, xs[i..]) == Prepend([f(xs[i]).value], MapAll(f, xs[i + 1..]))
  {
    assert xs[i..][1..] == xs[i + 1..];
    assert xs[i..][0] == xs[i];
  }

  /**
   * The loop as the source writes it: push each success, return the first
   * error. It computes `MapAll`.
   */
  method CollectAll<A, B, E>(f: A -> Result<B, E>, xs: seq<A>) returns (r: Result<seq<B>, E>)
    ensures r == MapAll(f, xs)
  {
    var out: seq<B> := [];
    var i := 0;
    PrependNil(MapAll(f, xs));
    assert xs[i..] == xs;
    while i < |xs|
      invariant 0 <= i <= |xs|
      invariant MapAll(f, xs) == Prepend(out, MapAll(f, xs[i..]))
    {
      MapAllStep(f, xs, i);
      match f(xs[i]) {
        case Err(e) =>
          return Err(e);
        case Ok(b) =>
          PrependAssoc(out, [b], MapAll(f, xs[i + 1..]));
          out := out + [b];
      }
      i := i + 1;
    }
    assert xs[i..] == [];
    PrependNil<B, E>(Ok(out));
    r := Ok(out);
  }

  /** Every element through `f`, in order (Rust's `iter().map(..)`). */
  function Map<A, B>(f: A -> B, xs: seq<A>): (r: seq<B>)
    ensures |r| == |xs|
    ensures forall k :: 0 <= k < |xs| ==> r[k] == f(xs[k])
    decreases |xs|
  {
    if |xs| == 0 then [] else [f(xs[0])] + Map(f, xs[1..])
  }

  /** Mapping one more element appends its image. */
  lemma MapSnoc<A, B>(f: A -> B, xs: seq<A>, i: nat)
    requires i < |xs|
    ensures Map(f, xs[..i + 1]) == Map(f, xs[..i]) + [f(xs[i])]
  {
    assert |Map(f, xs[..i + 1])| == |Map(f, xs[..i]) + [f(xs[i])]|;
    forall k | 0 <= k <= i
      ensures Map(f, xs[..i + 1])[k] == (Map(f, xs[..i]) + [f(xs[i])])[k]
    {
      if k < i {
        assert xs[..i + 1][k] == xs[..i][k];
      }
    }
  }

  /** Taking one more element of a sequence appends it. */
  lemma TakeOneMore<T>(s: seq<T>, i: nat)
    requires i < |s|
    ensures s[..i + 1] == s[..i] + [s[i]]
  {
  }

  /** All but the last element of a concatenation, when the second part is not empty. */
  lemma DropLastOfConcat<T>(a: seq<T>, b: seq<T>)
    requires |b| > 0
    ensures (a + b)[..|a + b| - 1] == a + b[..|b| - 1]
    ensures (a + b)[|a + b| - 1] == b[|b| - 1]
  {
  }
}
