/**
 * Byte strings, and the handful of Python `bytes`/`str` operations the
 * printer tool relies on: `strip`, `split`, `join`, ASCII case mapping and
 * UTF-8 decoding.
 *
 * Every Python `str` of the tool is modelled by its UTF-8 encoding, so text
 * and wire data share one type and `str.encode()` is the identity.
 */
module Bytes {

  /** A byte, written as the character with the same code so that ASCII literals read as text. */
  type byte = c: char | c as int < 256

  type Bytes = seq<byte>

  const QUOTE: byte := '"'
  const NEWLINE: byte := '\n'

  /** `b''.join(frags)`: the fragments one after another. */
  function Concat(frags: seq<Bytes>): Bytes
  {
    if frags == [] then [] else frags[0] + Concat(frags[1..])
  }

  // ---------------------------------------------------------------------------
  // strip

  /** Number of leading bytes of `s` in the class `p`. */
  function LeadingCount(s: Bytes, p: byte -> bool): (n: nat)
    ensures n <= |s|
    ensures forall k :: 0 <= k < n ==> p(s[k])
    ensures n < |s| ==> !p(s[n])
  {
    if s == [] || !p(s[0]) then 0 else 1 + LeadingCount(s[1..], p)
  }

  /** Number of trailing bytes of `s` in the class `p`. */
  function TrailingCount(s: Bytes, p: byte -> bool): (n: nat)
    ensures n <= |s|
    ensures forall k :: |s| - n <= k < |s| ==> p(s[k])
    ensures n < |s| ==> !p(s[|s| - 1 - n])
  {
    if s == [] || !p(s[|s| - 1]) then 0 else 1 + TrailingCount(s[..|s| - 1], p)
  }

  /**
   * `s.strip(chars)` with the set of characters given as a class `p`: the
   * longest run of class members is removed from each end.
   */
  function StripBy(s: Bytes, p: byte -> bool): (r: Bytes)
    ensures |r| <= |s|
    ensures r == [] || (!p(r[0]) && !p(r[|r| - 1]))
    ensures var i := LeadingCount(s, p);
      i + |r| <= |s| && r == s[i..i + |r|] && forall k :: i + |r| <= k < |s| ==> p(s[k])
  {
    var i := LeadingCount(s, p);
    var t := s[i..];
    var j := TrailingCount(t, p);
    assert forall k :: i + (|t| - j) <= k < |s| ==> s[k] == t[k - i];
    t[..|t| - j]
  }

  /** Stripping leaves alone a string whose ends are outside the class. */
  lemma StripByUnchanged(s: Bytes, p: byte -> bool)
    requires s == [] || (!p(s[0]) && !p(s[|s| - 1]))
    ensures StripBy(s, p) == s
  {
    if s != [] {
      assert LeadingCount(s, p) == 0;
      assert TrailingCount(s, p) == 0;
    }
  }

  /** The class holding the one byte `c`. */
  function IsByteOf(c: byte): byte -> bool
  {
    (b: byte) => b == c
  }

  /**
   * `s.strip(c)` for one character `c`: the input less its leading and its
   * trailing run of `c`.
   */
  function Strip(s: Bytes, c: byte): (r: Bytes)
    ensures r == [] || (r[0] != c && r[|r| - 1] != c)
    ensures var i := LeadingCount(s, IsByteOf(c));
      && i + |r| <= |s| && r == s[i..i + |r|]
      && (forall k :: 0 <= k < i ==> s[k] == c)
      && (forall k :: i + |r| <= k < |s| ==> s[k] == c)
  {
    StripBy(s, IsByteOf(c))
  }

  /** Stripping `c` from `v` wrapped in one `c` on each side gives back `v`, unless `v` itself starts or ends with `c`. */
  lemma StripWrapped(v: Bytes, c: byte)
    requires v == [] || (v[0] != c && v[|v| - 1] != c)
    ensures Strip([c] + v + [c], c) == v
  {
    var s := [c] + v + [c];
    var p := IsByteOf(c);
    var i := LeadingCount(s, p);
    if v == [] {
      assert i == 2;
    } else {
      assert LeadingCount(s[1..], p) == 0;
      assert i == 1;
      var t := s[1..];
      assert t == v + [c];
      assert TrailingCount(t[..|t| - 1], p) == 0;
      assert TrailingCount(t, p) == 1;
    }
  }

  /** `data` without one trailing newline, if it has one: the part a regular expression's `$` can end at. */
  function ChompNewline(data: Bytes): (r: Bytes)
    ensures data == r || data == r + [NEWLINE]
  {
    if |data| > 0 && data[|data| - 1] == NEWLINE then data[..|data| - 1] else data
  }

  // ---------------------------------------------------------------------------
  // split and join

  /** Index of the first occurrence of `b` in `s`. */
  function IndexOf(s: Bytes, b: byte): (i: nat)
    requires b in s
    ensures i < |s| && s[i] == b && b !in s[..i]
  {
    if s[0] == b then 0 else 1 + IndexOf(s[1..], b)
  }

  /** The first `b` of `x + rest` is the head of `rest` when `x` holds none. */
  lemma IndexOfAfter(x: Bytes, rest: Bytes, b: byte)
    requires b !in x && rest != [] && rest[0] == b
    ensures b in x + rest && IndexOf(x + rest, b) == |x|
  {
    var s := x + rest;
    assert s[|x|] == b;
    if x != [] {
      assert s[1..] == x[1..] + rest;
      IndexOfAfter(x[1..], rest, b);
    }
  }

  /** `sep.join(parts)`. */
  function Join(parts: seq<Bytes>, sep: byte): Bytes
  {
    if parts == [] then []
    else if |parts| == 1 then parts[0]
    else parts[0] + [sep] + Join(parts[1..], sep)
  }

  /** `s.split(sep)`: the pieces between occurrences of `sep`; never empty. */
  function Split(s: Bytes, sep: byte): (parts: seq<Bytes>)
    ensures |parts| >= 1
    ensures forall k :: 0 <= k < |parts| ==> sep !in parts[k]
    decreases |s|
  {
    if sep in s then
      var i := IndexOf(s, sep);
      [s[..i]] + Split(s[i + 1..], sep)
    else
      [s]
  }

  /** Joining the pieces of a split restores the string. */
  lemma {:induction false} JoinSplit(s: Bytes, sep: byte)
    ensures Join(Split(s, sep), sep) == s
    decreases |s|
  {
    if sep in s {
      var i := IndexOf(s, sep);
      JoinSplit(s[i + 1..], sep);
      assert s == s[..i] + [sep] + s[i + 1..];
    }
  }

  /** A byte class that holds for the separator and for every byte of every piece holds for every byte of the join. */
  lemma {:induction false} JoinAll(parts: seq<Bytes>, sep: byte, p: byte -> bool)
    requires p(sep)
    requires forall j, i :: 0 <= j < |parts| && 0 <= i < |parts[j]| ==> p(parts[j][i])
    ensures forall i :: 0 <= i < |Join(parts, sep)| ==> p(Join(parts, sep)[i])
  {
    if |parts| > 1 {
      JoinAll(parts[1..], sep, p);
      var s := Join(parts, sep);
      var t := Join(parts[1..], sep);
      assert s == parts[0] + [sep] + t;
      forall i | 0 <= i < |s|
        ensures p(s[i])
      {
        if i < |parts[0]| {
          assert s[i] == parts[0][i];
        } else if i > |parts[0]| {
          assert s[i] == t[i - |parts[0]| - 1];
        }
      }
    }
  }

  /** Splitting at the first separator: everything before it is the first piece. */
  lemma SplitAtFirst(x: Bytes, sep: byte, rest: Bytes)
    requires sep !in x
    ensures Split(x + [sep] + rest, sep) == [x] + Split(rest, sep)
  {
    var s := x + [sep] + rest;
    assert s[|x|] == sep;
    assert forall k :: 0 <= k < |x| ==> s[k] == x[k];
    var i := IndexOf(s, sep);
    assert i == |x|;
    assert s[..i] == x;
    assert s[i + 1..] == rest;
  }

  /** Splitting a join of separator-free pieces restores the pieces. */
  lemma {:induction false} SplitJoin(parts: seq<Bytes>, sep: byte)
    requires |parts| >= 1
    requires forall k :: 0 <= k < |parts| ==> sep !in parts[k]
    ensures Split(Join(parts, sep), sep) == parts
  {
    if |parts| > 1 {
      SplitJoin(parts[1..], sep);
      SplitAtFirst(parts[0], sep, Join(parts[1..], sep));
      assert parts == [parts[0]] + parts[1..];
    }
  }

  // ---------------------------------------------------------------------------
  // ASCII classes and case mapping

  predicate IsAsciiUpper(b: byte) { 'A' <= b <= 'Z' }
  predicate IsAsciiLower(b: byte) { 'a' <= b <= 'z' }
  predicate IsAsciiDigit(b: byte) { '0' <= b <= '9' }

  function LowerByte(b: byte): byte
  {
    if IsAsciiUpper(b) then (b as int + 32) as char else b
  }

  function UpperByte(b: byte): byte
  {
    if IsAsciiLower(b) then (b as int - 32) as char else b
  }

  /**
   * `s.lower()` on the ASCII letters: no capital is left, every byte that
   * is not a capital is kept, and each capital becomes the small letter
   * whose capital it is.
   */
  function Lower(s: Bytes): (r: Bytes)
    ensures |r| == |s|
    ensures forall k :: 0 <= k < |r| ==> !IsAsciiUpper(r[k])
    ensures forall k :: 0 <= k < |s| && !IsAsciiUpper(s[k]) ==> r[k] == s[k]
    ensures forall k :: 0 <= k < |s| && IsAsciiUpper(s[k]) ==> IsAsciiLower(r[k]) && UpperByte(r[k]) == s[k]
  {
    seq(|s|, k requires 0 <= k < |s| => LowerByte(s[k]))
  }

  /**
   * `s.upper()` on the ASCII letters: no small letter is left, every byte
   * that is not a small letter is kept, and each small letter becomes the
   * capital whose small letter it is.
   */
  function Upper(s: Bytes): (r: Bytes)
    ensures |r| == |s|
    ensures forall k :: 0 <= k < |r| ==> !IsAsciiLower(r[k])
    ensures forall k :: 0 <= k < |s| && !IsAsciiLower(s[k]) ==> r[k] == s[k]
    ensures forall k :: 0 <= k < |s| && IsAsciiLower(s[k]) ==> IsAsciiUpper(r[k]) && LowerByte(r[k]) == s[k]
  {
    seq(|s|, k requires 0 <= k < |s| => UpperByte(s[k]))
  }

  /** Upper-casing forgets an earlier lower-casing, and the other way round. */
  lemma CaseMappings(s: Bytes)
    ensures Upper(Lower(s)) == Upper(s)
    ensures Lower(Upper(s)) == Lower(s)
  {
    assert forall k :: 0 <= k < |s| ==> Upper(Lower(s))[k] == Upper(s)[k];
    assert forall k :: 0 <= k < |s| ==> Lower(Upper(s))[k] == Lower(s)[k];
  }

  // ---------------------------------------------------------------------------
  // UTF-8

  predicate InRange(b: byte, lo: int, hi: int)
  {
    lo <= b as int <= hi
  }

  /**
   * Length of the well-formed UTF-8 sequence that begins `s`, or 0 when `s`
   * does not begin with one (the byte ranges of the Unicode standard's table
   * of well-formed UTF-8 byte sequences: no overlong forms, no surrogates,
   * nothing above U+10FFFF).
   */
  function Utf8Length(s: Bytes): (n: nat)
    ensures n <= |s| && (s != [] && s[0] as int < 0x80 ==> n == 1)
  {
    if s == [] then 0
    else
      var b := s[0] as int;
      if b < 0x80 then 1
      else if 0xC2 <= b <= 0xDF then
        if |s| >= 2 && InRange(s[1], 0x80, 0xBF) then 2 else 0
      else if 0xE0 <= b <= 0xEF then
        var lo := if b == 0xE0 then 0xA0 else 0x80;
        var hi := if b == 0xED then 0x9F else 0xBF;
        if |s| >= 3 && InRange(s[1], lo, hi) && InRange(s[2], 0x80, 0xBF) then 3 else 0
      else if 0xF0 <= b <= 0xF4 then
        var lo := if b == 0xF0 then 0x90 else 0x80;
        var hi := if b == 0xF4 then 0x8F else 0xBF;
        if |s| >= 4 && InRange(s[1], lo, hi) && InRange(s[2], 0x80, 0xBF) && InRange(s[3], 0x80, 0xBF) then 4 else 0
      else 0
  }

  /** `s.decode()` (UTF-8, strict) succeeds exactly on these byte strings. */
  predicate ValidUtf8(s: Bytes)
    decreases |s|
  {
    s == [] || (Utf8Length(s) > 0 && ValidUtf8(s[Utf8Length(s)..]))
  }

  /** A sequence that is well-formed at the head of `a` stays well-formed whatever follows it. */
  lemma Utf8LengthPrefix(a: Bytes, b: Bytes)
    requires Utf8Length(a) > 0
    ensures Utf8Length(a + b) == Utf8Length(a)
  {
    assert forall k :: 0 <= k < |a| ==> (a + b)[k] == a[k];
  }

  /** Valid UTF-8 is closed under concatenation. */
  lemma {:induction false} ValidUtf8Append(a: Bytes, b: Bytes)
    requires ValidUtf8(a) && ValidUtf8(b)
    ensures ValidUtf8(a + b)
    decreases |a|
  {
    if a != [] {
      var n := Utf8Length(a);
      Utf8LengthPrefix(a, b);
      ValidUtf8Append(a[n..], b);
      assert (a + b)[n..] == a[n..] + b;
      assert Utf8Length(a + b) == n;
    } else {
      assert a + b == b;
    }
  }

  /** Pure ASCII is valid UTF-8. */
  lemma {:induction false} AsciiIsUtf8(s: Bytes)
    requires forall k :: 0 <= k < |s| ==> s[k] as int < 0x80
    ensures ValidUtf8(s)
    decreases |s|
  {
    if s != [] {
      AsciiIsUtf8(s[1..]);
    }
  }

  /** No well-formed UTF-8 sequence holds the byte 0xFF. */
  lemma Utf8HeadNoFF(s: Bytes)
    requires Utf8Length(s) > 0
    ensures forall k :: 0 <= k < Utf8Length(s) ==> s[k] as int != 0xFF
  {
  }

  /** Text never holds the byte 0xFF, so data that does cannot be decoded. */
  lemma {:induction false} ValidUtf8NoFF(s: Bytes)
    requires ValidUtf8(s)
    ensures (0xFF as char) !in s
    decreases |s|
  {
    if s != [] {
      var n := Utf8Length(s);
      Utf8HeadNoFF(s);
      ValidUtf8NoFF(s[n..]);
      forall k | 0 <= k < |s|
        ensures s[k] as int != 0xFF
      {
        if k >= n {
          assert s[k] == s[n..][k - n];
        }
      }
    }
  }
}
