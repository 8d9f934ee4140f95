/**
 * Locating pieces of a text inside a longer one: what the readers of a
 * signature's text use to say which bytes each step of the parser sees.
 */
module TextAt {
  import opened ByteStr

  /** A text found at `i` is found piece by piece. */
  lemma Within(v: Bytes, i: nat, t: Bytes, a: nat, b: nat)
    requires i + |t| <= |v| && v[i..i + |t|] == t && a <= b <= |t|
    ensures v[i + a..i + b] == t[a..b]
    ensures a < |t| ==> v[i + a] == t[a]
  {
    forall k | 0 <= k < b - a
      ensures v[i + a..i + b][k] == t[a..b][k]
    {
      assert v[i + a + k] == v[i..i + |t|][a + k];
    }
    if a < |t| {
      assert v[i + a] == v[i..i + |t|][a];
    }
  }

  /** A text located at `i` that is `x + y` locates `x` at `i` and `y` after it. */
  lemma SplitAt(v: Bytes, i: nat, t: Bytes, x: Bytes, y: Bytes)
    requires t == x + y && i + |t| <= |v| && v[i..i + |t|] == t
    ensures v[i..i + |x|] == x && v[i + |x|..i + |t|] == y
  {
    Within(v, i, t, 0, |x|);
    Within(v, i, t, |x|, |t|);
    assert t[..|x|] == x && t[|x|..] == y;
  }

  /** `SplitAt` with the positions named: `x` runs from `i` to `k`, `y` from `k` to `j`. */
  lemma SplitBetween(v: Bytes, i: nat, k: nat, j: nat, t: Bytes, x: Bytes, y: Bytes)
    requires t == x + y && k == i + |x| && j == i + |t| && j <= |v| && v[i..j] == t
    ensures v[i..k] == x && v[k..j] == y
  {
    SplitAt(v, i, t, x, y);
  }

  /** A text found at `i` made of three parts: each part is found where it starts. */
  lemma Split3(v: Bytes, i: nat, x: Bytes, y: Bytes, z: Bytes)
    requires i + |x| + |y| + |z| <= |v| && v[i..i + |x| + |y| + |z|] == x + y + z
    ensures v[i..i + |x|] == x && v[i + |x|..i + |x| + |y|] == y
    ensures v[i + |x| + |y|..i + |x| + |y| + |z|] == z
  {
    var t := x + y + z;
    var a, b := |x|, |x| + |y|;
    Within(v, i, t, 0, a);
    Within(v, i, t, a, b);
    Within(v, i, t, b, |t|);
    assert t[..a] == x && t[a..b] == y && t[b..] == z;
  }

  /** `Split3` with the positions where the parts end. */
  lemma Split3At(v: Bytes, i: nat, x: Bytes, y: Bytes, z: Bytes) returns (k1: nat, k2: nat, end: nat)
    requires i + |x + y + z| <= |v| && v[i..i + |x + y + z|] == x + y + z
    ensures k1 == i + |x| && k2 == k1 + |y| && end == k2 + |z| && end == i + |x + y + z|
    ensures v[i..k1] == x && v[k1..k2] == y && v[k2..end] == z
  {
    k1, k2, end := i + |x|, i + |x| + |y|, i + |x| + |y| + |z|;
    Split3(v, i, x, y, z);
  }

  /** `SplitAt` with the positions where the parts end. */
  lemma Split2At(v: Bytes, i: nat, x: Bytes, y: Bytes) returns (k: nat, end: nat)
    requires i + |x + y| <= |v| && v[i..i + |x + y|] == x + y
    ensures k == i + |x| && end == k + |y| && end == i + |x + y|
    ensures v[i..k] == x && v[k..end] == y
  {
    k, end := i + |x|, i + |x| + |y|;
    SplitAt(v, i, x + y, x, y);
  }
}
