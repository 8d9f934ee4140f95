/**
 * The `SigBytes` buffer every exporter writes into, its hex writer, and the
 * way raw signature bytes are displayed: valid UTF-8 as it is, each invalid
 * sequence as `<|hh..|>` (src/sigbytes.rs).
 */
module SigBytes {
  import opened Wrappers
  import opened ByteStr
  import Utf8
  import Hex
  import Num

  const DISP_PREFIX: Bytes := "<|"
  const DISP_SUFFIX: Bytes := "|>"

  /** The text that `Display for SigBytes` writes for `b`. */
  function DisplayText(b: Bytes): Bytes
    decreases |b|
  {
    match Utf8.CheckUtf8(b)
    case Valid => b
    case Invalid(v, None) => b[..v]
    case Invalid(v, Some(n)) =>
      b[..v] + DISP_PREFIX + Hex.Encode(b[v..v + n]) + DISP_SUFFIX + DisplayText(b[v + n..])
  }

  lemma MarkersAscii()
    ensures Utf8.IsAscii(DISP_PREFIX) && Utf8.IsAscii(DISP_SUFFIX)
    ensures Utf8.IsValid(DISP_PREFIX) && Utf8.IsValid(DISP_SUFFIX)
  {
    Utf8.AsciiIsValid(DISP_PREFIX);
    Utf8.AsciiIsValid(DISP_SUFFIX);
  }

  /** Whatever the input, the displayed text is valid UTF-8. */
  lemma {:induction false} DisplayTextValid(b: Bytes)
    ensures Utf8.IsValid(DisplayText(b))
    decreases |b|
  {
    match Utf8.CheckUtf8(b)
    case Valid =>
    case Invalid(v, None) =>
      Utf8.ValidPrefix(b);
    case Invalid(v, Some(n)) =>
      Utf8.ValidPrefix(b);
      MarkersAscii();
      Hex.EncodeAscii(b[v..v + n]);
      DisplayTextValid(b[v + n..]);
      var p := b[..v];
      var h := Hex.Encode(b[v..v + n]);
      var rest := DisplayText(b[v + n..]);
      Utf8.ConcatValid(p, DISP_PREFIX);
      Utf8.ConcatValid(p + DISP_PREFIX, h);
      Utf8.ConcatValid(p + DISP_PREFIX + h, DISP_SUFFIX);
      Utf8.ConcatValid(p + DISP_PREFIX + h + DISP_SUFFIX, rest);
  }

  /** Valid UTF-8 is displayed unchanged. */
  lemma DisplayValidUnchanged(b: Bytes)
    requires Utf8.IsValid(b)
    ensures DisplayText(b) == b
  {
  }

  /** How one invalid byte is shown. */
  function Escape(x: Byte): Bytes { DISP_PREFIX + Hex.Hex2(x) + DISP_SUFFIX }

  /** Bytes 0x80..0xC1 can never begin a character. */
  predicate StrayByte(x: Byte) { 0x80 <= x as int < 0xC2 }

  /**
   * A byte that cannot start a character, met after valid text, is shown as
   * its own `<|hh|>` and display carries on after it.
   */
  lemma DisplayEscapesByte(a: Bytes, x: Byte, t: Bytes)
    requires Utf8.IsValid(a) && StrayByte(x)
    ensures DisplayText(a + [x] + t) == a + Escape(x) + DisplayText(t)
  {
    var u := [x] + t;
    assert u[0] == x;
    assert Utf8.FirstChar(u) == Utf8.Bad(Some(1));
    assert Utf8.CheckUtf8(u) == Utf8.Invalid(0, Some(1));
    Utf8.CheckAfterValid(a, u);
    assert a + [x] + t == a + u;
    DisplayStep(a, x, t);
  }

  lemma DisplayStep(a: Bytes, x: Byte, t: Bytes)
    requires Utf8.CheckUtf8(a + [x] + t) == Utf8.Invalid(|a|, Some(1))
    ensures DisplayText(a + [x] + t) == a + Escape(x) + DisplayText(t)
  {
    var s := a + [x] + t;
    assert s[..|a|] == a;
    assert s[|a|..|a| + 1] == [x];
    assert s[|a| + 1..] == t;
    assert Hex.Encode([x]) == Hex.Hex2(x);
    assert DisplayText(s) == a + DISP_PREFIX + Hex.Hex2(x) + DISP_SUFFIX + DisplayText(t);
    assert a + DISP_PREFIX + Hex.Hex2(x) + DISP_SUFFIX == a + Escape(x);
  }

  /** A character cut short by the end of the input stops display without an escape. */
  lemma DisplayTruncatedEnd(a: Bytes, t: Bytes)
    requires Utf8.IsValid(a)
    requires |t| > 0 && Utf8.FirstChar(t) == Utf8.Bad(None)
    ensures DisplayText(a + t) == a
  {
    Utf8.CheckAfterValid(a, t);
    assert (a + t)[..|a|] == a;
  }

  /** `Display for SigChar` (src/sigbytes.rs:171-178). */
  function SigCharText(c: Byte): (r: Bytes)
  {
    if Utf8.IsValid([c]) then "'" + [c] + "'" else DISP_PREFIX + Num.HexText(c as int) + DISP_SUFFIX
  }

  /** An ASCII byte shows quoted; any other shows as two hex digits between the markers. */
  lemma SigCharCases(c: Byte)
    ensures c as int < 0x80 ==> SigCharText(c) == "'" + [c] + "'"
    ensures c as int >= 0x80 ==> SigCharText(c) == DISP_PREFIX + Hex.Hex2(c) + DISP_SUFFIX
  {
    Utf8.SingleByte(c);
    if c as int >= 0x80 {
      assert Num.HexText(c as int / 16) == [LowerHexDigit(c as int / 16)];
    }
  }

  /** The buffer that signatures are exported into. */
  class SigBytes {
    var bytes: Bytes

    constructor ()
      ensures bytes == []
    {
      bytes := [];
    }

    /** Append text at the end; what was written before stays. */
    method Write(s: Bytes)
      modifies this
      ensures bytes == old(bytes) + s
    {
      bytes := bytes + s;
    }

    /** `AppendSigBytes for &[u8]`: two lower-case hex digits per byte, in order. */
    method WriteHex(data: Bytes)
      modifies this
      ensures bytes == old(bytes) + Hex.Encode(data)
    {
      var i := 0;
      while i < |data|
        invariant 0 <= i <= |data|
        invariant bytes == old(bytes) + Hex.Encode(data[..i])
      {
        Hex.EncodeSnoc(data, i);
        bytes := bytes + Hex.Hex2(data[i]);
        i := i + 1;
      }
      assert data[..i] == data;
    }

    /** `Display for SigBytes`: valid stretches as they are, invalid sequences escaped. */
    method Show() returns (out: Bytes)
      ensures out == DisplayText(bytes)
    {
      var rest := bytes;
      out := [];
      while true
        invariant out + DisplayText(rest) == DisplayText(bytes)
        decreases |rest|
      {
        match Utf8.CheckUtf8(rest)
        case Valid =>
          assert DisplayText(rest) == rest;
          out := out + rest;
          return;
        case Invalid(v, None) =>
          assert DisplayText(rest) == rest[..v];
          out := out + rest[..v];
          return;
        case Invalid(v, Some(n)) =>
          var piece := rest[..v] + DISP_PREFIX + Hex.Encode(rest[v..v + n]) + DISP_SUFFIX;
          assert DisplayText(rest) == piece + DisplayText(rest[v + n..]);
          assert out + DisplayText(rest) == (out + piece) + DisplayText(rest[v + n..]);
          out := out + piece;
          rest := rest[v + n..];
      }
    }
  }

  /**
   * Writes the separator `c` and then `t`, field `i` of `fs`, when the
   * fields before it have been written after `start`: how the exporters
   * write a record field by field.
   */
  method WriteField(sb: SigBytes, ghost start: Bytes, ghost fs: seq<Bytes>, ghost i: nat, c: Byte, t: Bytes)
    requires 1 <= i < |fs| && fs[i] == t && sb.bytes == start + Join(fs[..i], c)
    modifies sb
    ensures sb.bytes == start + Join(fs[..i + 1], c)
  {
    ghost var cur := sb.bytes;
    sb.Write([c]);
    sb.Write(t);
    JoinAppend(fs[..i], t, start, cur, c);
    assert fs[..i] + [t] == fs[..i + 1];
  }
}
