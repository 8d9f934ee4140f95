/**
 * UTF-8 validity as defined by section 3 of RFC 3629, with the error
 * reporting of Rust's `str::from_utf8`: the length of the longest valid
 * prefix, and either the length of the invalid sequence that follows it or
 * nothing when the input ends in the middle of a character.
 */
module Utf8 {
  import opened Wrappers
  import opened ByteStr

  /** The outcome of decoding the first character of a byte string. */
  datatype CharStep = Char(width: nat) | Bad(errorLen: Option<nat>)

  /** The outcome of validating a whole byte string. */
  datatype Check = Valid | Invalid(validUpTo: nat, errorLen: Option<nat>)

  predicate Cont(b: Byte) { 0x80 <= b as int <= 0xBF }

  predicate SecondOfThree(b0: int, b1: int) {
    (b0 == 0xE0 && 0xA0 <= b1 <= 0xBF) || (0xE1 <= b0 <= 0xEC && 0x80 <= b1 <= 0xBF)
    || (b0 == 0xED && 0x80 <= b1 <= 0x9F) || (0xEE <= b0 <= 0xEF && 0x80 <= b1 <= 0xBF)
  }

  predicate SecondOfFour(b0: int, b1: int) {
    (b0 == 0xF0 && 0x90 <= b1 <= 0xBF) || (0xF1 <= b0 <= 0xF3 && 0x80 <= b1 <= 0xBF)
    || (b0 == 0xF4 && 0x80 <= b1 <= 0x8F)
  }

  /** Decode the character that starts `s`. */
  function FirstChar(s: Bytes): (r: CharStep)
    requires |s| > 0
    ensures r.Char? ==> 1 <= r.width <= 4 && r.width <= |s|
    ensures r.Bad? && r.errorLen.Some? ==> 1 <= r.errorLen.value <= 3 && r.errorLen.value < |s| + 1
    ensures r.Char? && r.width == 1 <==> s[0] as int < 0x80
  {
    var b0 := s[0] as int;
    if b0 < 0x80 then Char(1)
    else if 0xC2 <= b0 <= 0xDF then
      if |s| < 2 then Bad(None) else if !Cont(s[1]) then Bad(Some(1)) else Char(2)
    else if 0xE0 <= b0 <= 0xEF then
      if |s| < 2 then Bad(None)
      else if !SecondOfThree(b0, s[1] as int) then Bad(Some(1))
      else if |s| < 3 then Bad(None)
      else if !Cont(s[2]) then Bad(Some(2))
      else Char(3)
    else if 0xF0 <= b0 <= 0xF4 then
      if |s| < 2 then Bad(None)
      else if !SecondOfFour(b0, s[1] as int) then Bad(Some(1))
      else if |s| < 3 then Bad(None)
      else if !Cont(s[2]) then Bad(Some(2))
      else if |s| < 4 then Bad(None)
      else if !Cont(s[3]) then Bad(Some(3))
      else Char(4)
    else Bad(Some(1))
  }

  /** Validate `s` character by character. */
  function CheckUtf8(s: Bytes): (r: Check)
    ensures r.Invalid? ==> r.validUpTo < |s|
    ensures r.Invalid? && r.errorLen.Some? ==> 1 <= r.errorLen.value && r.validUpTo + r.errorLen.value <= |s|
    decreases |s|
  {
    if |s| == 0 then Valid
    else match FirstChar(s)
      case Bad(len) => Invalid(0, len)
      case Char(w) =>
        match CheckUtf8(s[w..])
        case Valid => Valid
        case Invalid(v, len) => Invalid(v + w, len)
  }

  predicate IsValid(s: Bytes) { CheckUtf8(s).Valid? }

  /** ASCII text (every byte below 0x80) is valid UTF-8. */
  predicate IsAscii(s: Bytes) { forall i :: 0 <= i < |s| ==> s[i] as int < 0x80 }

  lemma AsciiConcat(a: Bytes, b: Bytes)
    requires IsAscii(a) && IsAscii(b)
    ensures IsAscii(a + b)
  {
    forall i | 0 <= i < |a + b| ensures (a + b)[i] as int < 0x80 {
      if i >= |a| { assert (a + b)[i] == b[i - |a|]; }
    }
  }

  lemma {:induction false} AsciiIsValid(s: Bytes)
    requires IsAscii(s)
    ensures IsValid(s)
    decreases |s|
  {
    if |s| > 0 {
      AsciiIsValid(s[1..]);
    }
  }

  /** Decoding the first character looks only at the bytes of that character. */
  lemma FirstCharPrefix(s: Bytes, t: Bytes)
    requires |s| > 0 && FirstChar(s).Char?
    ensures FirstChar(s + t) == FirstChar(s)
  {
    var w := FirstChar(s).width;
    assert forall k :: 0 <= k < w ==> (s + t)[k] == s[k];
  }

  /** Two valid strings concatenate to a valid string. */
  lemma {:induction false} ConcatValid(a: Bytes, b: Bytes)
    requires IsValid(a) && IsValid(b)
    ensures IsValid(a + b)
    decreases |a|
  {
    if |a| == 0 {
      assert a + b == b;
    } else {
      FirstCharPrefix(a, b);
      var w := FirstChar(a).width;
      assert (a + b)[w..] == a[w..] + b;
      ConcatValid(a[w..], b);
    }
  }

  /** The part before the reported error is itself valid. */
  lemma {:induction false} ValidPrefix(s: Bytes)
    requires CheckUtf8(s).Invalid?
    ensures IsValid(s[..CheckUtf8(s).validUpTo])
    decreases |s|
  {
    match FirstChar(s)
    case Bad(_) =>
    case Char(w) =>
      var v := CheckUtf8(s[w..]).validUpTo;
      ValidPrefix(s[w..]);
      var p := s[..v + w];
      assert p[..w] == s[..w];
      assert FirstChar(p) == FirstChar(s) by {
        assert forall k :: 0 <= k < w ==> p[k] == s[k];
      }
      assert p[w..] == s[w..][..v];
  }

  /** Behind a valid prefix, validation continues exactly as on the rest. */
  lemma {:induction false} CheckAfterValid(a: Bytes, t: Bytes)
    requires IsValid(a)
    ensures CheckUtf8(t).Valid? ==> CheckUtf8(a + t).Valid?
    ensures CheckUtf8(t).Invalid? ==>
      CheckUtf8(a + t) == Invalid(|a| + CheckUtf8(t).validUpTo, CheckUtf8(t).errorLen)
    decreases |a|
  {
    if |a| == 0 {
      assert a + t == t;
    } else {
      FirstCharPrefix(a, t);
      var w := FirstChar(a).width;
      assert (a + t)[w..] == a[w..] + t;
      CheckAfterValid(a[w..], t);
    }
  }

  lemma SingleByte(c: Byte)
    ensures IsValid([c]) <==> c as int < 0x80
  {
  }
}
