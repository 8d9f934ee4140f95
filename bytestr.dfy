/**
 * Byte strings. Signature databases are read as raw bytes; a byte is
 * modelled as a character below 256 so that ASCII literals such as "EOF-"
 * can be written directly.
 */
module ByteStr {
  import opened Wrappers

  type Byte = c: char | c as int < 256
  type Bytes = seq<Byte>

  predicate IsDigit(b: Byte) { '0' <= b <= '9' }

  predicate IsHexDigit(b: Byte) { IsDigit(b) || 'a' <= b <= 'f' || 'A' <= b <= 'F' }

  predicate AllDigits(s: Bytes) { forall i :: 0 <= i < |s| ==> IsDigit(s[i]) }

  function DigitVal(b: Byte): (n: nat)
    requires IsDigit(b)
    ensures n < 10
  {
    b as int - '0' as int
  }

  /** Value of one hexadecimal digit, in either case. */
  function HexVal(b: Byte): (n: nat)
    requires IsHexDigit(b)
    ensures n < 16
  {
    if IsDigit(b) then DigitVal(b)
    else if 'a' <= b <= 'f' then b as int - 'a' as int + 10
    else b as int - 'A' as int + 10
  }

  /** The lower-case hexadecimal digit for `n`. */
  function LowerHexDigit(n: nat): (b: Byte)
    requires n < 16
    ensures IsHexDigit(b) && HexVal(b) == n
    ensures b as int < 0x80 && !('A' <= b <= 'F')
  {
    if n < 10 then ByteOf('0' as int + n) else ByteOf('a' as int + n - 10)
  }

  /** The decimal digit for `n`. */
  function DecimalDigit(n: nat): (b: Byte)
    requires n < 10
    ensures IsDigit(b) && DigitVal(b) == n
  {
    ByteOf('0' as int + n)
  }

  function ByteOf(n: nat): (b: Byte)
    requires n < 256
    ensures b as int == n
  {
    n as char
  }

  /** Index of the first occurrence of `c` in `s`. */
  function Find(s: Bytes, c: Byte): (r: Option<nat>)
    ensures r.None? ==> c !in s
    ensures r.Some? ==> r.value < |s| && s[r.value] == c && c !in s[..r.value]
  {
    if |s| == 0 then None
    else if s[0] == c then Some(0)
    else match Find(s[1..], c)
      case None => None
      case Some(i) => assert s[..i + 1] == [s[0]] + s[1..][..i]; Some(i + 1)
  }

  /** Index of the last occurrence of `c` in `s`. */
  function FindLast(s: Bytes, c: Byte): (r: Option<nat>)
    ensures r.None? ==> c !in s
    ensures r.Some? ==> r.value < |s| && s[r.value] == c && c !in s[r.value + 1..]
  {
    if |s| == 0 then None
    else if s[|s| - 1] == c then Some(|s| - 1)
    else match FindLast(s[..|s| - 1], c)
      case None => None
      case Some(i) => assert s[i + 1..] == s[..|s| - 1][i + 1..] + [s[|s| - 1]]; Some(i)
  }

  /** Rust's `slice::split` on one separator byte: always at least one field. */
  function Split(s: Bytes, c: Byte): (r: seq<Bytes>)
    ensures |r| >= 1
    ensures forall k :: 0 <= k < |r| ==> c !in r[k]
    decreases |s|
  {
    match Find(s, c)
    case None => [s]
    case Some(i) => [s[..i]] + Split(s[i + 1..], c)
  }

  /** Rust's `slice::splitn(n, ..)`: at most `n` fields, the last one keeps the rest. */
  function SplitN(s: Bytes, c: Byte, n: nat): (r: seq<Bytes>)
    requires n >= 1
    ensures 1 <= |r| <= n
    ensures forall k :: 0 <= k < |r| - 1 ==> c !in r[k]
    decreases n
  {
    if n == 1 then [s]
    else match Find(s, c)
      case None => [s]
      case Some(i) => [s[..i]] + SplitN(s[i + 1..], c, n - 1)
  }

  /** Fields glued back together with the separator between them. */
  function Join(parts: seq<Bytes>, c: Byte): Bytes
    decreases |parts|
  {
    if |parts| == 0 then []
    else if |parts| == 1 then parts[0]
    else parts[0] + [c] + Join(parts[1..], c)
  }

  lemma {:induction false} JoinSplit(s: Bytes, c: Byte)
    ensures Join(Split(s, c), c) == s
    decreases |s|
  {
    match Find(s, c)
    case None =>
    case Some(i) =>
      JoinSplit(s[i + 1..], c);
      JoinCons(s[..i], Split(s[i + 1..], c), c);
      assert s == s[..i] + [c] + s[i + 1..];
  }

  lemma JoinCons(a: Bytes, rest: seq<Bytes>, c: Byte)
    requires |rest| >= 1
    ensures Join([a] + rest, c) == a + [c] + Join(rest, c)
  {
    assert ([a] + rest)[1..] == rest;
  }

  lemma {:induction false} JoinSplitN(s: Bytes, c: Byte, n: nat)
    requires n >= 1
    ensures Join(SplitN(s, c, n), c) == s
    decreases n
  {
    if n > 1 && Find(s, c).Some? {
      var i := Find(s, c).value;
      JoinSplitN(s[i + 1..], c, n - 1);
      JoinSplitNStep(s, c, n, i);
    }
  }

  lemma JoinSplitNStep(s: Bytes, c: Byte, n: nat, i: nat)
    requires n > 1 && Find(s, c) == Some(i)
    requires Join(SplitN(s[i + 1..], c, n - 1), c) == s[i + 1..]
    ensures Join(SplitN(s, c, n), c) == s
  {
    var rest := SplitN(s[i + 1..], c, n - 1);
    assert SplitN(s, c, n) == [s[..i]] + rest;
    JoinCons(s[..i], rest, c);
    assert s == s[..i] + [c] + s[i + 1..];
  }

  lemma {:induction false} FindFirstSep(a: Bytes, b: Bytes, c: Byte)
    requires c !in a
    ensures Find(a + [c] + b, c) == Some(|a|)
    decreases |a|
  {
    if |a| > 0 {
      assert (a + [c] + b)[1..] == a[1..] + [c] + b;
      FindFirstSep(a[1..], b, c);
    }
  }

  lemma {:induction false} SplitJoin(parts: seq<Bytes>, c: Byte)
    requires |parts| >= 1
    requires forall k :: 0 <= k < |parts| ==> c !in parts[k]
    ensures Split(Join(parts, c), c) == parts
    decreases |parts|
  {
    if |parts| == 1 {
      assert Find(parts[0], c) == None;
    } else {
      SplitCons(parts[0], Join(parts[1..], c), c);
      SplitJoin(parts[1..], c);
      assert parts == [parts[0]] + parts[1..];
    }
  }

  /** Splitting at the first separator, which ends a field free of it. */
  lemma SplitCons(a: Bytes, rest: Bytes, c: Byte)
    requires c !in a
    ensures Split(a + [c] + rest, c) == [a] + Split(rest, c)
  {
    FindFirstSep(a, rest, c);
    assert (a + [c] + rest)[..|a|] == a;
    assert (a + [c] + rest)[|a| + 1..] == rest;
  }

  /** A string of digits holds no byte other than a digit. */
  lemma DigitsHaveNo(d: Bytes, c: Byte)
    requires AllDigits(d) && !IsDigit(c)
    ensures c !in d
  {
  }

  /** `splitn(2, ..)` cuts at the first separator. */
  lemma SplitNTwo(a: Bytes, b: Bytes, c: Byte)
    requires c !in a
    ensures SplitN(a + [c] + b, c, 2) == [a, b]
  {
    FindFirstSep(a, b, c);
    assert (a + [c] + b)[..|a|] == a;
    assert (a + [c] + b)[|a| + 1..] == b;
  }

  /** `splitn` cuts at the first separator and splits the rest into one field fewer. */
  lemma SplitNCons(a: Bytes, rest: Bytes, c: Byte, n: nat)
    requires c !in a && n >= 2
    ensures SplitN(a + [c] + rest, c, n) == [a] + SplitN(rest, c, n - 1)
  {
    FindFirstSep(a, rest, c);
    assert (a + [c] + rest)[..|a|] == a;
    assert (a + [c] + rest)[|a| + 1..] == rest;
  }

  /** The last separator of `a + [c] + b` is the one before `b` when `b` has none. */
  lemma {:induction false} FindLastSep(a: Bytes, b: Bytes, c: Byte)
    requires c !in b
    ensures FindLast(a + [c] + b, c) == Some(|a|)
    decreases |b|
  {
    var s := a + [c] + b;
    if |b| > 0 {
      assert s[..|s| - 1] == a + [c] + b[..|b| - 1];
      FindLastSep(a, b[..|b| - 1], c);
    }
  }

  /** Without a separator, `splitn` gives the input as its one field. */
  lemma SplitNNone(a: Bytes, c: Byte, n: nat)
    requires c !in a && n >= 1
    ensures SplitN(a, c, n) == [a]
  {
    assert Find(a, c) == None;
  }

  /** Appending one more field to a join, as an exporter writing field by field does. */
  lemma {:induction false} JoinSnoc(parts: seq<Bytes>, x: Bytes, c: Byte)
    ensures Join(parts + [x], c) == if |parts| == 0 then x else Join(parts, c) + [c] + x
    decreases |parts|
  {
    if |parts| > 1 {
      assert (parts + [x])[1..] == parts[1..] + [x];
      JoinSnoc(parts[1..], x, c);
    } else if |parts| == 1 {
      assert (parts + [x])[1..] == [x];
    }
  }

  /** Appending a separator and one more part to a joined prefix. */
  lemma JoinAppend(done: seq<Bytes>, t: Bytes, start: Bytes, cur: Bytes, c: Byte)
    requires |done| > 0
    requires cur == start + Join(done, c)
    ensures cur + [c] + t == start + Join(done + [t], c)
  {
    JoinSnoc(done, t, c);
    var j := Join(done, c);
    assert start + j + [c] + t == start + (j + [c] + t);
  }

  /** Writing `t` after `start + a` leaves `start` followed by `a + t`. */
  lemma AppendAssoc(start: Bytes, a: Bytes, t: Bytes, before: Bytes, x: Bytes)
    requires before == start + a && x == a + t
    ensures before + t == start + x
  {
  }

  /** A join begins with its first field. */
  lemma JoinStartsWith(parts: seq<Bytes>, c: Byte)
    requires |parts| >= 1
    ensures StartsWith(Join(parts, c), parts[0])
  {
  }

  predicate StartsWith(s: Bytes, p: Bytes) { |p| <= |s| && s[..|p|] == p }

  predicate EndsWith(s: Bytes, p: Bytes) { |p| <= |s| && s[|s| - |p|..] == p }

  /** Rust's `strip_prefix`. */
  function StripPrefix(s: Bytes, p: Bytes): (r: Option<Bytes>)
    ensures r.Some? <==> StartsWith(s, p)
    ensures r.Some? ==> s == p + r.value
  {
    if StartsWith(s, p) then Some(s[|p|..]) else None
  }

  /** Rust's `strip_suffix`. */
  function StripSuffix(s: Bytes, p: Bytes): (r: Option<Bytes>)
    ensures r.Some? <==> EndsWith(s, p)
    ensures r.Some? ==> s == r.value + p
  {
    if EndsWith(s, p) then Some(s[..|s| - |p|]) else None
  }
}
