/** Bitwise OR on small unsigned integers, written out bit by bit. */
module Bits {
  function Pow2(k: nat): (r: nat)
    ensures r >= 1
  {
    if k == 0 then 1 else 2 * Pow2(k - 1)
  }

  /** `a | b` on `k`-bit values, least significant bit first. */
  function OrBits(a: nat, b: nat, k: nat): (r: nat)
    requires a < Pow2(k) && b < Pow2(k)
    ensures r < Pow2(k)
  {
    if k == 0 then 0
    else 2 * OrBits(a / 2, b / 2, k - 1) + (if a % 2 == 1 || b % 2 == 1 then 1 else 0)
  }

  lemma Pow2Byte()
    ensures Pow2(4) == 16 && Pow2(8) == 256
  {
    assert Pow2(2) == 4;
    assert Pow2(4) == 16;
    assert Pow2(6) == 64;
  }

  /** `u8 | u8`. */
  function OrByte(a: nat, b: nat): (r: nat)
    requires a < 256 && b < 256
    ensures r < 256
  {
    Pow2Byte();
    OrBits(a, b, 8)
  }

  /** When the bits of `b` lie below the low `j` bits, which are clear in `a`, OR adds. */
  lemma {:induction false} OrBitsDisjoint(a: nat, b: nat, k: nat, j: nat, m: nat)
    requires a < Pow2(k) && b < Pow2(k)
    requires j <= k && a == m * Pow2(j) && b < Pow2(j)
    ensures OrBits(a, b, k) == a + b
    decreases k
  {
    if k > 0 {
      if j == 0 {
        assert b == 0;
        OrBitsZero(a, k);
      } else {
        var x := m * Pow2(j - 1);
        assert Pow2(j) == 2 * Pow2(j - 1);
        assert a == 2 * x by { Twice(m, Pow2(j - 1)); }
        assert a / 2 == x && a % 2 == 0;
        assert b / 2 < Pow2(j - 1);
        OrBitsDisjoint(a / 2, b / 2, k - 1, j - 1, m);
        assert OrBits(a, b, k) == 2 * OrBits(a / 2, b / 2, k - 1) + b % 2;
      }
    }
  }

  lemma Twice(m: nat, p: nat)
    ensures m * (2 * p) == 2 * (m * p)
  {
  }

  lemma {:induction false} OrBitsZero(a: nat, k: nat)
    requires a < Pow2(k)
    ensures OrBits(a, 0, k) == a
    decreases k
  {
    if k > 0 {
      OrBitsZero(a / 2, k - 1);
    }
  }

  /** A high nyble ORed with a low nyble is their sum. */
  lemma OrNybles(h: nat, l: nat)
    requires h < 16 && l < 16
    ensures OrByte(h * 16, l) == h * 16 + l
  {
    Pow2Byte();
    OrBitsDisjoint(h * 16, l, 8, 4, h);
  }
}
