/**
 * Sub-signature modifiers (src/signature/logical_sig/subsig.rs and the
 * `find_modifier` scan of src/signature/logical_sig.rs): the `::aifw` tail
 * a logical signature's sub-signature may end with.
 */
module SubSigModifiers {
  import opened Wrappers
  import opened ByteStr

  /** `SubSigModifier`; the default has every flag off. */
  datatype Modifier = Modifier(caseInsensitive: bool, widechar: bool, matchFullword: bool, ascii: bool)

  const DEFAULT: Modifier := Modifier(false, false, false, false)

  /** `AppendSigBytes for SubSigModifier`: one letter per flag that is on, in the order `a`, `f`, `i`, `w`. */
  function ModifierText(m: Modifier): (t: Bytes)
    ensures |t| <= 4
  {
    (if m.ascii then "a" else "") + (if m.matchFullword then "f" else "") +
    (if m.caseInsensitive then "i" else "") + (if m.widechar then "w" else "")
  }

  /** The letters a modifier is written with. */
  predicate IsModifierChar(c: Byte) { c == 'a' || c == 'i' || c == 'w' || c == 'f' }

  /** The flags a run of modifier letters sets: a flag is on when its letter appears. */
  function ModifierOf(s: Bytes): Modifier
  {
    Modifier('i' in s, 'w' in s, 'f' in s, 'a' in s)
  }

  /** Reading a written modifier gives the same flags back. */
  lemma ModifierRoundTrip(m: Modifier)
    ensures ModifierOf(ModifierText(m)) == m
    ensures forall k :: 0 <= k < |ModifierText(m)| ==> IsModifierChar(ModifierText(m)[k])
  {
    var a: Bytes := if m.ascii then "a" else "";
    var f: Bytes := if m.matchFullword then "f" else "";
    var i: Bytes := if m.caseInsensitive then "i" else "";
    var w: Bytes := if m.widechar then "w" else "";
    var t := ModifierText(m);
    assert t == a + f + i + w;
    assert ('a' in t <==> m.ascii) && ('f' in t <==> m.matchFullword);
    assert ('i' in t <==> m.caseInsensitive) && ('w' in t <==> m.widechar);
  }

  /** The number of modifier letters at the end of `h`. */
  function TrailingRun(h: Bytes): (n: nat)
    ensures n <= |h|
    decreases |h|
  {
    if |h| > 0 && IsModifierChar(h[|h| - 1]) then 1 + TrailingRun(h[..|h| - 1]) else 0
  }

  /** `TrailingRun` is the one length whose suffix is all letters and is not preceded by one. */
  lemma {:induction false} TrailingRunIs(h: Bytes, n: nat)
    requires n <= |h|
    requires forall k :: |h| - n <= k < |h| ==> IsModifierChar(h[k])
    requires n < |h| ==> !IsModifierChar(h[|h| - n - 1])
    ensures TrailingRun(h) == n
    decreases |h|
  {
    if n > 0 {
      var h' := h[..|h| - 1];
      assert forall k :: |h'| - (n - 1) <= k < |h'| ==> h'[k] == h[k];
      TrailingRunIs(h', n - 1);
    }
  }

  /**
   * What `find_modifier` finds: when the trailing run of modifier letters
   * is preceded by `::`, the flags those letters set and the text before
   * the `::`; otherwise no modifier and the whole text.
   */
  function FindModifierSpec(h: Bytes): (r: (Option<Modifier>, Bytes))
  {
    var j := TrailingRun(h);
    if |h| - j >= 2 && h[|h| - j - 1] == ':' && h[|h| - j - 2] == ':' then
      (Some(ModifierOf(h[|h| - j..])), h[..|h| - j - 2])
    else (None, h)
  }

  /**
   * `find_modifier`: scan from the end, collecting modifier letters until a
   * `:`; a second `:` right before it ends the scan with a modifier.
   */
  method FindModifier(h: Bytes) returns (m: Option<Modifier>, rest: Bytes)
    ensures (m, rest) == FindModifierSpec(h)
  {
    var modifier := DEFAULT;
    var readDelimiter := false;
    var pos := |h|;
    while pos > 0
      invariant 0 <= pos <= |h|
      invariant !readDelimiter ==> (forall k :: pos <= k < |h| ==> IsModifierChar(h[k])) && modifier == ModifierOf(h[pos..])
      invariant readDelimiter ==> pos < |h| && h[pos] == ':' && (forall k :: pos < k < |h| ==> IsModifierChar(h[k])) && modifier == ModifierOf(h[pos + 1..])
    {
      var c := h[pos - 1];
      if !readDelimiter {
        if IsModifierChar(c) {
          assert h[pos - 1..] == [c] + h[pos..];
          if c == 'a' {
            modifier := modifier.(ascii := true);
          } else if c == 'i' {
            modifier := modifier.(caseInsensitive := true);
          } else if c == 'w' {
            modifier := modifier.(widechar := true);
          } else {
            modifier := modifier.(matchFullword := true);
          }
        } else if c == ':' {
          readDelimiter := true;
        } else {
          TrailingRunIs(h, |h| - pos);
          return None, h;
        }
      } else {
        TrailingRunIs(h, |h| - pos - 1);
        if c == ':' {
          return Some(modifier), h[..pos - 1];
        } else {
          return None, h;
        }
      }
      pos := pos - 1;
    }
    if readDelimiter {
      TrailingRunIs(h, |h| - 1);
    } else {
      assert h[0..] == h;
      TrailingRunIs(h, |h|);
    }
    return None, h;
  }

  /** A found modifier is cut off with its `::`: the text is what remains, `::`, and the letters. */
  lemma FindModifierSplits(h: Bytes)
    ensures var (m, rest) := FindModifierSpec(h);
      (m.None? ==> rest == h) &&
      (m.Some? ==> exists t :: h == rest + "::" + t && m.value == ModifierOf(t) &&
                               forall k :: 0 <= k < |t| ==> IsModifierChar(t[k]))
  {
    var j := TrailingRun(h);
    TrailingRunShape(h);
    if |h| - j >= 2 && h[|h| - j - 1] == ':' && h[|h| - j - 2] == ':' {
      var t := h[|h| - j..];
      assert h == h[..|h| - j - 2] + "::" + t;
    }
  }

  lemma {:induction false} TrailingRunShape(h: Bytes)
    ensures forall k :: |h| - TrailingRun(h) <= k < |h| ==> IsModifierChar(h[k])
    decreases |h|
  {
    if |h| > 0 && IsModifierChar(h[|h| - 1]) {
      var h' := h[..|h| - 1];
      TrailingRunShape(h');
      assert forall k :: 0 <= k < |h'| ==> h'[k] == h[k];
    }
  }

  /** Whatever precedes it, a written modifier after `::` is found again with the text before it. */
  lemma FindWrittenModifier(x: Bytes, m: Modifier)
    ensures FindModifierSpec(x + "::" + ModifierText(m)) == (Some(m), x)
  {
    ModifierRoundTrip(m);
    FindLetters(x, ModifierText(m));
  }

  /** Any run of modifier letters after `::` is found, with the text before the `::`. */
  lemma FindLetters(x: Bytes, t: Bytes)
    requires forall k :: 0 <= k < |t| ==> IsModifierChar(t[k])
    ensures FindModifierSpec(x + "::" + t) == (Some(ModifierOf(t)), x)
  {
    var h := x + "::" + t;
    assert forall k :: |h| - |t| <= k < |h| ==> h[k] == t[k - (|h| - |t|)];
    assert h[|h| - |t| - 1] == ':';
    TrailingRunIs(h, |t|);
    assert h[..|h| - |t| - 2] == x;
    assert h[|h| - |t|..] == t;
  }

  /** A text that does not end in a modifier letter or `:` has no modifier. */
  lemma NoModifierAfter(h: Bytes)
    requires |h| > 0 && !IsModifierChar(h[|h| - 1]) && h[|h| - 1] != ':'
    ensures FindModifierSpec(h) == (None, h)
  {
  }

  /** A text with no two `:` in a row has no modifier. */
  lemma NoModifierWithoutDelimiter(h: Bytes)
    requires forall k :: 0 < k < |h| && h[k] == ':' ==> h[k - 1] != ':'
    ensures FindModifierSpec(h) == (None, h)
  {
  }
}
