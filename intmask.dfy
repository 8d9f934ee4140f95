/**
 * An unsigned integer with a mask of "don't care" nybles
 * (src/signature/intmask.rs). It is written one character per nyble, most
 * significant first: `?` where the mask covers the nyble, its hex digit
 * where the mask leaves it open. A mask that covers only part of a nyble
 * makes the source panic, so such masks are excluded by precondition.
 *
 * The integer type is given by its number of nybles (2 for `u8` up to 16
 * for `u64`). The source's bitwise `cur_mask & x` on a nyble-wide mask is
 * written here with division and remainder by the nyble's place value.
 */
module IntMask {
  import opened ByteStr
  import SigBytes

  datatype IntWithMask = IntWithMask(value: nat, mask: nat)

  function Pow16(j: nat): (p: nat)
    ensures p >= 1
  {
    if j == 0 then 1 else 16 * Pow16(j - 1)
  }

  /** Nyble number `j` of `x`, counted from the least significant one. */
  function NybleAt(x: nat, j: nat): (d: nat)
    ensures d < 16
  {
    (x / Pow16(j)) % 16
  }

  /** Both numbers fit in `nybles` nybles and every mask nyble is all-clear or all-set. */
  predicate Valid(im: IntWithMask, nybles: nat)
  {
    im.value < Pow16(nybles) && im.mask < Pow16(nybles) &&
    forall j :: 0 <= j < nybles ==> NybleAt(im.mask, j) == 0 || NybleAt(im.mask, j) == 15
  }

  function UpperHexDigit(n: nat): (b: Byte)
    requires n < 16
    ensures IsHexDigit(b) && HexVal(b) == n
  {
    if n < 10 then LowerHexDigit(n) else ByteOf('A' as int + n - 10)
  }

  /** The character written for nyble `j`. */
  function NybleChar(im: IntWithMask, j: nat, uppercase: bool): Byte
  {
    if NybleAt(im.mask, j) == 15 then '?'
    else if uppercase then UpperHexDigit(NybleAt(im.value, j))
    else LowerHexDigit(NybleAt(im.value, j))
  }

  /** The characters for nybles `j - 1` down to `0`. */
  function Render(im: IntWithMask, j: nat, uppercase: bool): (r: Bytes)
    ensures |r| == j
  {
    if j == 0 then [] else [NybleChar(im, j - 1, uppercase)] + Render(im, j - 1, uppercase)
  }

  /**
   * Character `k` from the left stands for nyble `j - 1 - k`: a `?` exactly
   * where the mask covers it, otherwise the hex digit of the value's nyble.
   */
  lemma {:induction false} RenderAt(im: IntWithMask, j: nat, uppercase: bool, k: nat)
    requires k < j
    ensures Render(im, j, uppercase)[k] == '?' <==> NybleAt(im.mask, j - 1 - k) == 15
    ensures Render(im, j, uppercase)[k] != '?' ==>
      IsHexDigit(Render(im, j, uppercase)[k]) && HexVal(Render(im, j, uppercase)[k]) == NybleAt(im.value, j - 1 - k)
    decreases j
  {
    if k > 0 {
      RenderAt(im, j - 1, uppercase, k - 1);
    }
  }

  /** The masked nybles are shown the same whatever the value holds there. */
  lemma {:induction false} RenderIgnoresMaskedValue(a: IntWithMask, b: IntWithMask, j: nat, uppercase: bool)
    requires a.mask == b.mask
    requires forall i :: 0 <= i < j && NybleAt(a.mask, i) != 15 ==> NybleAt(a.value, i) == NybleAt(b.value, i)
    ensures Render(a, j, uppercase) == Render(b, j, uppercase)
    decreases j
  {
    if j > 0 {
      RenderIgnoresMaskedValue(a, b, j - 1, uppercase);
    }
  }

  lemma RenderStep(im: IntWithMask, j: nat, uppercase: bool, out: Bytes, ch: Byte)
    requires ch == NybleChar(im, j, uppercase)
    ensures out + [ch] + Render(im, j, uppercase) == out + Render(im, j + 1, uppercase)
  {
    assert out + [ch] + Render(im, j, uppercase) == out + ([ch] + Render(im, j, uppercase));
  }

  /** `IntWithMask::format`: walks a nyble-wide mask down from the top nyble. */
  method Format(im: IntWithMask, nybles: nat, uppercase: bool) returns (out: Bytes)
    requires nybles >= 1 && Valid(im, nybles)
    ensures out == Render(im, nybles, uppercase)
    ensures |out| == nybles
  {
    // `T::max_value() ^ T::max_value() >> 4`: the top nyble set
    var curMask := 15 * Pow16(nybles - 1);
    var curShift := 4 * nybles;
    out := [];
    while curMask != 0
      invariant curShift % 4 == 0 && 0 <= curShift <= 4 * nybles
      invariant curShift == 0 ==> curMask == 0
      invariant curShift > 0 ==> curMask == 15 * Pow16(curShift / 4 - 1)
      invariant out + Render(im, curShift / 4, uppercase) == Render(im, nybles, uppercase)
      decreases curShift
    {
      curShift := curShift - 4;
      var j := curShift / 4;
      assert curMask == 15 * Pow16(j);
      var maskNyble := NybleAt(im.mask, j);
      var ch: Byte;
      if maskNyble == 15 {
        ch := '?';
      } else if maskNyble == 0 {
        var nyble := NybleAt(im.value, j);
        if uppercase {
          ch := UpperHexDigit(nyble);
        } else {
          ch := LowerHexDigit(nyble);
        }
      } else {
        assert false;
      }
      RenderStep(im, j, uppercase, out, ch);
      out := out + [ch];
      curMask := curMask / 16;
      assert j > 0 ==> Pow16(j) == 16 * Pow16(j - 1);
    }
  }

  /** `Display` and `AppendSigBytes`: the lower-case rendering, appended to the buffer. */
  method AppendSigBytes(im: IntWithMask, nybles: nat, sb: SigBytes.SigBytes)
    requires nybles >= 1 && Valid(im, nybles)
    modifies sb
    ensures sb.bytes == old(sb.bytes) + Render(im, nybles, false)
  {
    var text := Format(im, nybles, false);
    sb.Write(text);
  }

  /** The examples of src/signature/intmask.rs:104-126 for the `u8` value 0x63. */
  lemma U8Examples()
    ensures Render(IntWithMask(0x63, 0x0f), 2, false) == "6?"
    ensures Render(IntWithMask(0x63, 0xf0), 2, false) == "?3"
    ensures Render(IntWithMask(0x63, 0xff), 2, false) == "??"
  {
    assert Pow16(1) == 16;
  }
}
