/**
 * Numerals as the printer tool writes and reads them: Python's `str(int)`
 * and `int(str)`, the `'%08x'` length field of the upload frame, and
 * `binascii.b2a_hex` for keys.
 */
module Numerals {
  import opened Bytes
  import opened Errors

  /** Value of `b` as a digit (0-9, a-f or A-F); 16 for every other byte. */
  function DigitValue(b: byte): (d: nat)
    ensures d <= 16
    ensures d < 10 <==> IsAsciiDigit(b)
  {
    if '0' <= b <= '9' then b as int - '0' as int
    else if 'a' <= b <= 'f' then b as int - 'a' as int + 10
    else if 'A' <= b <= 'F' then b as int - 'A' as int + 10
    else 16
  }

  predicate AllDigits(s: Bytes, base: nat)
  {
    forall k :: 0 <= k < |s| ==> DigitValue(s[k]) < base
  }

  /** The two bases the tool writes numbers in. */
  predicate IsBase(base: nat) { base == 10 || base == 16 }

  /** Euclidean division by a base, split by base so that the arithmetic stays linear. */
  lemma DivMod(n: nat, base: nat)
    requires IsBase(base)
    ensures n % base < base && n == (n / base) * base + n % base
    ensures n >= base ==> 1 <= n / base < n
  {
    if base == 10 {
      assert n == (n / 10) * 10 + n % 10;
    } else {
      assert n == (n / 16) * 16 + n % 16;
    }
  }

  predicate IsLowerHexDigit(b: byte) { '0' <= b <= '9' || 'a' <= b <= 'f' }
  predicate IsUpperHexDigit(b: byte) { '0' <= b <= '9' || 'A' <= b <= 'F' }

  /** The lower-case digit of value `d`. */
  function DigitChar(d: nat): (b: byte)
    requires d < 16
    ensures DigitValue(b) == d && IsLowerHexDigit(b)
  {
    if d < 10 then ('0' as int + d) as char else ('a' as int + d - 10) as char
  }

  /**
   * The shortest numeral of `n` in `base`, lower case: `str(n)` for base 10,
   * `'%x' % n` for base 16.
   */
  function Numeral(n: nat, base: nat): (s: Bytes)
    requires IsBase(base)
    ensures |s| >= 1 && AllDigits(s, base)
    ensures forall k :: 0 <= k < |s| ==> IsLowerHexDigit(s[k])
    ensures s[0] == '0' ==> n == 0 && |s| == 1
    decreases n
  {
    if n < base then [DigitChar(n)]
    else DivMod(n, base); Numeral(n / base, base) + [DigitChar(n % base)]
  }

  /** The number a string of digits denotes in `base`, most significant digit first. */
  function ValueOf(s: Bytes, base: nat): nat
    requires IsBase(base) && AllDigits(s, base)
  {
    if s == [] then 0 else ValueOf(s[..|s| - 1], base) * base + DigitValue(s[|s| - 1])
  }

  /** Reading a numeral back gives the number written. */
  lemma {:induction false} NumeralValue(n: nat, base: nat)
    requires IsBase(base)
    ensures ValueOf(Numeral(n, base), base) == n
    decreases n
  {
    if n >= base {
      DivMod(n, base);
      NumeralValue(n / base, base);
      var s := Numeral(n, base);
      assert s[..|s| - 1] == Numeral(n / base, base);
    }
  }

  /** A decimal string without a superfluous leading zero is the numeral of its value. */
  lemma {:induction false} CanonicalDecimal(s: Bytes)
    requires |s| >= 1 && AllDigits(s, 10)
    requires s[0] == '0' ==> |s| == 1
    ensures Numeral(ValueOf(s, 10), 10) == s
    decreases |s|
  {
    if |s| > 1 {
      var t := s[..|s| - 1];
      CanonicalDecimal(t);
      DecimalPositive(t);
      var n := ValueOf(s, 10);
      assert n == ValueOf(t, 10) * 10 + DigitValue(s[|s| - 1]);
      assert n / 10 == ValueOf(t, 10) && n % 10 == DigitValue(s[|s| - 1]);
      assert s == t + [s[|s| - 1]];
    }
  }

  /** A decimal string whose first digit is not zero denotes a positive number. */
  lemma {:induction false} DecimalPositive(s: Bytes)
    requires |s| >= 1 && AllDigits(s, 10) && s[0] != '0'
    ensures ValueOf(s, 10) >= 1
    decreases |s|
  {
    if |s| > 1 {
      DecimalPositive(s[..|s| - 1]);
    }
  }

  function Pow(base: nat, k: nat): nat
  {
    if k == 0 then 1 else base * Pow(base, k - 1)
  }

  /** A number below `base`^`k` has a numeral of at most `k` digits. */
  lemma {:induction false} NumeralLength(n: nat, base: nat, k: nat)
    requires IsBase(base) && k >= 1 && n < Pow(base, k)
    ensures |Numeral(n, base)| <= k
    decreases k
  {
    if n >= base {
      DivMod(n, base);
      var m := n / base;
      assert m < Pow(base, k - 1);
      NumeralLength(m, base, k - 1);
    }
  }

  // ---------------------------------------------------------------------------
  // Zero padding

  function Repeat(b: byte, n: nat): (r: Bytes)
    ensures |r| == n && forall k :: 0 <= k < n ==> r[k] == b
  {
    seq(n, _ => b)
  }

  /** Leading zeros do not change the value of a numeral. */
  lemma {:induction false} LeadingZeros(k: nat, s: Bytes, base: nat)
    requires IsBase(base) && AllDigits(s, base)
    ensures AllDigits(Repeat('0', k) + s, base)
    ensures ValueOf(Repeat('0', k) + s, base) == ValueOf(s, base)
    decreases |s|
  {
    var z := Repeat('0', k);
    if s == [] {
      assert z + s == z;
      ZerosValue(k, base);
    } else {
      var t := s[..|s| - 1];
      LeadingZeros(k, t, base);
      assert (z + s)[..|z + s| - 1] == z + t;
    }
  }

  lemma {:induction false} ZerosValue(k: nat, base: nat)
    requires IsBase(base)
    ensures AllDigits(Repeat('0', k), base) && ValueOf(Repeat('0', k), base) == 0
    decreases k
  {
    if k > 0 {
      ZerosValue(k - 1, base);
      assert Repeat('0', k)[..k - 1] == Repeat('0', k - 1);
    }
  }

  /** `'%0*x' % (width, n)`: lower-case hexadecimal, left-padded with zeros to at least `width` digits. */
  function HexField(n: nat, width: nat): Bytes
  {
    var h := Numeral(n, 16);
    if |h| < width then Repeat('0', width - |h|) + h else h
  }

  /** The padded field is as wide as asked (or the numeral, if wider), holds lower-case hex digits only and reads back as `n`. */
  lemma HexFieldValue(n: nat, width: nat)
    ensures var f := HexField(n, width);
      && |f| == (if |Numeral(n, 16)| < width then width else |Numeral(n, 16)|)
      && (forall k :: 0 <= k < |f| ==> IsLowerHexDigit(f[k]))
      && AllDigits(f, 16) && ValueOf(f, 16) == n
  {
    var h := Numeral(n, 16);
    NumeralValue(n, 16);
    if |h| < width {
      LeadingZeros(width - |h|, h, 16);
    }
  }

  /** A length below 2^32 fills the eight-digit field exactly. */
  lemma HexField8(n: nat)
    requires n < 0x1_0000_0000
    ensures |HexField(n, 8)| == 8
  {
    assert Pow(16, 8) == 0x1_0000_0000;
    NumeralLength(n, 16, 8);
  }

  // ---------------------------------------------------------------------------
  // str(int) and int(str)

  /** Python `str(i)` for an integer `i`. */
  function FormatInt(i: int): (s: Bytes)
    ensures |s| >= 1 && (s[0] == '-' <==> i < 0)
    ensures forall k :: 0 < k < |s| ==> IsAsciiDigit(s[k])
    ensures IsAsciiDigit(s[0]) || s[0] == '-'
  {
    if i < 0 then ['-'] + Numeral(-i, 10) else Numeral(i, 10)
  }

  /** The whitespace `int()` skips around its argument: the ASCII members of Python's whitespace class. */
  predicate IsIntSpace(b: byte)
  {
    b == ' ' || '\t' <= b <= '\r' || 0x1C <= b as int <= 0x1F
  }

  /** Decimal digits with single underscores between them: the digit syntax `int()` accepts. */
  predicate UnderscoredDigits(s: Bytes)
  {
    && |s| > 0 && IsAsciiDigit(s[0]) && IsAsciiDigit(s[|s| - 1])
    && (forall k :: 0 <= k < |s| ==> IsAsciiDigit(s[k]) || s[k] == '_')
    && (forall k :: 0 <= k < |s| - 1 ==> !(s[k] == '_' && s[k + 1] == '_'))
  }

  /** The string with every underscore removed and the other bytes kept in order. */
  function DropUnderscores(s: Bytes): (r: Bytes)
    ensures '_' !in r && |r| <= |s|
    ensures (forall k :: 0 <= k < |s| ==> IsAsciiDigit(s[k]) || s[k] == '_') ==> AllDigits(r, 10)
    ensures '_' !in s ==> r == s
  {
    if s == [] then []
    else if s[0] == '_' then DropUnderscores(s[1..])
    else [s[0]] + DropUnderscores(s[1..])
  }

  /** Removing underscores works piece by piece. */
  lemma {:induction false} DropUnderscoresAppend(a: Bytes, b: Bytes)
    ensures DropUnderscores(a + b) == DropUnderscores(a) + DropUnderscores(b)
    decreases |a|
  {
    if a == [] {
      assert a + b == b;
    } else {
      var x: Bytes := if a[0] == '_' then [] else [a[0]];
      calc {
        DropUnderscores(a + b);
        { assert a + b == [a[0]] + (a[1..] + b); DropUnderscoresCons(a[0], a[1..] + b); }
        x + DropUnderscores(a[1..] + b);
        { DropUnderscoresAppend(a[1..], b); }
        x + (DropUnderscores(a[1..]) + DropUnderscores(b));
        { assert a == [a[0]] + a[1..]; DropUnderscoresCons(a[0], a[1..]); }
        DropUnderscores(a) + DropUnderscores(b);
      }
    }
  }

  lemma DropUnderscoresCons(x: byte, t: Bytes)
    ensures DropUnderscores([x] + t) == (if x == '_' then [] else [x]) + DropUnderscores(t)
  {
    assert ([x] + t)[1..] == t;
  }

  /** An underscore between two pieces just vanishes. */
  lemma DropUnderscoresBetween(a: Bytes, b: Bytes)
    ensures DropUnderscores(a + ['_'] + b) == DropUnderscores(a) + DropUnderscores(b)
  {
    DropUnderscoresAppend(a, ['_'] + b);
    assert a + ['_'] + b == a + (['_'] + b);
    assert (['_'] + b)[1..] == b;
  }

  /** Python `int(s)` for a string `s`, base 10; None where Python raises ValueError. */
  function ParseInt(s: Bytes): (r: Option<int>)
    ensures (forall k :: 0 <= k < |s| ==> IsIntSpace(s[k])) ==> r.None?
    ensures r.Some? && r.value < 0 ==> '-' in s
  {
    var t := StripBy(s, IsIntSpace);
    if |t| > 0 && (t[0] == '+' || t[0] == '-') then
      var u := t[1..];
      if UnderscoredDigits(u) then
        var n: int := ValueOf(DropUnderscores(u), 10);
        Some(if t[0] == '-' then -n else n)
      else None
    else if UnderscoredDigits(t) then Some(ValueOf(DropUnderscores(t), 10))
    else None
  }

  /** A numeral is accepted by `int()`'s digit syntax as it stands. */
  lemma NumeralDigits(n: nat)
    ensures UnderscoredDigits(Numeral(n, 10))
    ensures DropUnderscores(Numeral(n, 10)) == Numeral(n, 10)
  {
    var s := Numeral(n, 10);
    assert forall k :: 0 <= k < |s| ==> IsAsciiDigit(s[k]) by {
      forall k | 0 <= k < |s| ensures IsAsciiDigit(s[k]) {
        assert DigitValue(s[k]) < 10;
      }
    }
  }

  /** `int(str(i)) == i` for every integer. */
  lemma IntRoundTrip(i: int)
    ensures ParseInt(FormatInt(i)) == Some(i)
  {
    var s := FormatInt(i);
    assert !IsIntSpace(s[0]) && !IsIntSpace(s[|s| - 1]);
    StripByUnchanged(s, IsIntSpace);
    assert StripBy(s, IsIntSpace) == s;
    var m: nat := if i < 0 then -i else i;
    var digits := Numeral(m, 10);
    NumeralDigits(m);
    NumeralValue(m, 10);
    if i < 0 {
      assert s[0] == '-' && s[1..] == digits;
    } else {
      assert s == digits && s[0] != '+' && s[0] != '-';
    }
  }

  // ---------------------------------------------------------------------------
  // Hexadecimal renderings of raw bytes

  /** `binascii.b2a_hex(raw)`: two lower-case hex digits per byte, high nibble first. */
  function Hexlify(raw: Bytes): (h: Bytes)
    ensures |h| == 2 * |raw|
    ensures forall k :: 0 <= k < |h| ==> IsLowerHexDigit(h[k])
  {
    if raw == [] then []
    else [DigitChar(raw[0] as int / 16), DigitChar(raw[0] as int % 16)] + Hexlify(raw[1..])
  }

  /** `binascii.a2b_hex(h)`, either letter case; None for an odd length or a non-hex byte. */
  function Unhexlify(h: Bytes): Option<Bytes>
    decreases |h|
  {
    if h == [] then Some([])
    else if |h| == 1 || DigitValue(h[0]) >= 16 || DigitValue(h[1]) >= 16 then None
    else
      match Unhexlify(h[2..])
      case None => None
      case Some(rest) => Some([(DigitValue(h[0]) * 16 + DigitValue(h[1])) as char] + rest)
  }

  lemma {:induction false} UnhexlifyHexlify(raw: Bytes)
    ensures Unhexlify(Hexlify(raw)) == Some(raw)
  {
    if raw != [] {
      UnhexlifyHexlify(raw[1..]);
      var d := raw[0] as int;
      var h := Hexlify(raw);
      assert h[0] == DigitChar(d / 16) && h[1] == DigitChar(d % 16);
      assert DigitValue(h[0]) * 16 + DigitValue(h[1]) == d;
      assert (DigitValue(h[0]) * 16 + DigitValue(h[1])) as char == raw[0];
      assert h[2..] == Hexlify(raw[1..]);
      assert raw == [raw[0]] + raw[1..];
    }
  }

  lemma {:induction false} UnhexlifyUpper(h: Bytes)
    ensures Unhexlify(Upper(h)) == Unhexlify(h)
    decreases |h|
  {
    if |h| >= 2 {
      UnhexlifyUpper(h[2..]);
      assert Upper(h)[2..] == Upper(h[2..]);
    }
  }

  /**
   * `binascii.b2a_hex(raw).decode().upper()`, the rendering of a derived key:
   * twice as long as `raw`, digits 0-9 and A-F only, and decodable back to `raw`.
   */
  lemma UpperHexShape(raw: Bytes)
    ensures var h := Upper(Hexlify(raw));
      && |h| == 2 * |raw|
      && (forall k :: 0 <= k < |h| ==> IsUpperHexDigit(h[k]))
      && Unhexlify(h) == Some(raw)
  {
    UnhexlifyUpper(Hexlify(raw));
    UnhexlifyHexlify(raw);
  }
}
