/**
 * The conversions between a variable's on-wire string and its typed value:
 * on/off booleans, integers, IPv4 addresses and the WPA pre-shared key.
 * The device's `setbool`/`getbool`/`setint`/`getint` and the typed leaves
 * of the configuration overlay both use them.
 */
module Values {
  import opened Bytes
  import opened Errors
  import opened Numerals

  // ---------------------------------------------------------------------------
  // on/off

  const ON: Bytes := "on"
  const OFF: Bytes := "off"

  /** `'on' if value else 'off'`. */
  function OnOffToString(on: bool): (s: Bytes)
    ensures s == ON || s == OFF
    ensures (s == ON) == on
  {
    if on then ON else OFF
  }

  /** `'on'` is true, `'off'` is false, every other string is a ValueError. */
  function OnOffFromString(s: Bytes): (r: Result<bool>)
    ensures r.Ok? <==> (s == ON || s == OFF)
    ensures r.Ok? ==> OnOffToString(r.value) == s
    ensures r.Err? ==> r.error == InvalidValue(s)
  {
    if s == ON then Ok(true) else if s == OFF then Ok(false) else Err(InvalidValue(s))
  }

  lemma OnOffRoundTrip(on: bool)
    ensures OnOffFromString(OnOffToString(on)) == Ok(on)
  {
  }

  // ---------------------------------------------------------------------------
  // Integers

  /** `int(s)`, a ValueError where Python raises one. */
  function IntFromString(s: Bytes): (r: Result<int>)
    ensures r.Err? ==> r.error == InvalidValue(s)
  {
    match ParseInt(s)
    case Some(i) => Ok(i)
    case None => Err(InvalidValue(s))
  }

  lemma IntStringRoundTrip(i: int)
    ensures IntFromString(FormatInt(i)) == Ok(i)
  {
    IntRoundTrip(i);
  }

  // ---------------------------------------------------------------------------
  // IPv4 addresses

  type Octet = n: nat | n < 256

  datatype Ipv4Address = Ipv4Address(a: Octet, b: Octet, c: Octet, d: Octet)

  function OctetStrings(x: Ipv4Address): seq<Bytes>
  {
    [Numeral(x.a, 10), Numeral(x.b, 10), Numeral(x.c, 10), Numeral(x.d, 10)]
  }

  /** `str(IPv4Address)`: the four octets in decimal, joined by dots. */
  function FormatIpv4(x: Ipv4Address): (s: Bytes)
    ensures forall k :: 0 <= k < |s| ==> DottedByte(s[k])
  {
    OctetStringsDigits(x);
    JoinAll(OctetStrings(x), '.', DottedByte);
    Join(OctetStrings(x), '.')
  }

  predicate DottedByte(b: byte)
  {
    IsAsciiDigit(b) || b == '.'
  }

  lemma OctetStringsDigits(x: Ipv4Address)
    ensures forall j, i :: 0 <= j < 4 && 0 <= i < |OctetStrings(x)[j]| ==> DottedByte(OctetStrings(x)[j][i])
  {
    forall j, i | 0 <= j < 4 && 0 <= i < |OctetStrings(x)[j]|
      ensures DottedByte(OctetStrings(x)[j][i])
    {
      assert DigitValue(OctetStrings(x)[j][i]) < 10;
    }
  }

  /**
   * One octet as `ipaddress` parses it: one to three ASCII decimal digits,
   * no leading zero unless the octet is "0", value at most 255.
   */
  function ParseOctet(p: Bytes): (r: Option<Octet>)
    ensures r.Some? ==> 1 <= |p| <= 3 && AllDigits(p, 10) && ValueOf(p, 10) == r.value
  {
    if p == [] || !AllDigits(p, 10) || |p| > 3 || (p != "0" && p[0] == '0') then None
    else
      var v := ValueOf(p, 10);
      if v > 255 then None else Some(v)
  }

  /** `ipaddress.IPv4Address(s)` for a string `s`; AddressValueError is a ValueError. */
  function ParseIpv4(s: Bytes): (r: Result<Ipv4Address>)
    ensures r.Err? ==> r.error == InvalidValue(s)
  {
    if '/' in s || s == [] then Err(InvalidValue(s))
    else
      var parts := Split(s, '.');
      if |parts| != 4 then Err(InvalidValue(s))
      else
        match (ParseOctet(parts[0]), ParseOctet(parts[1]), ParseOctet(parts[2]), ParseOctet(parts[3]))
        case (Some(a), Some(b), Some(c), Some(d)) => Ok(Ipv4Address(a, b, c, d))
        case _ => Err(InvalidValue(s))
  }

  lemma ParseOctetNumeral(o: Octet)
    ensures ParseOctet(Numeral(o, 10)) == Some(o)
  {
    assert Pow(10, 3) == 1000;
    NumeralLength(o, 10, 3);
    NumeralValue(o, 10);
  }

  lemma OctetStringsDotFree(x: Ipv4Address)
    ensures forall k :: 0 <= k < 4 ==> '.' !in OctetStrings(x)[k] && '/' !in OctetStrings(x)[k]
  {
    forall k | 0 <= k < 4
      ensures '.' !in OctetStrings(x)[k] && '/' !in OctetStrings(x)[k]
    {
      var p := OctetStrings(x)[k];
      assert forall j :: 0 <= j < |p| ==> IsLowerHexDigit(p[j]);
    }
  }

  lemma {:induction false} JoinFree(parts: seq<Bytes>, sep: byte, c: byte)
    requires c != sep
    requires forall k :: 0 <= k < |parts| ==> c !in parts[k]
    ensures c !in Join(parts, sep)
  {
    if |parts| > 1 {
      JoinFree(parts[1..], sep, c);
    }
  }

  /** Parsing the dotted quad of an address gives the address back. */
  lemma Ipv4RoundTrip(x: Ipv4Address)
    ensures ParseIpv4(FormatIpv4(x)) == Ok(x)
  {
    var parts := OctetStrings(x);
    OctetStringsDotFree(x);
    SplitJoin(parts, '.');
    JoinFree(parts, '.', '/');
    ParseOctetNumeral(x.a);
    ParseOctetNumeral(x.b);
    ParseOctetNumeral(x.c);
    ParseOctetNumeral(x.d);
  }

  lemma ParsedOctetCanonical(p: Bytes)
    requires ParseOctet(p).Some?
    ensures Numeral(ParseOctet(p).value, 10) == p
  {
    CanonicalDecimal(p);
  }

  /** Only the canonical dotted quad parses: whatever parses is exactly the rendering of its address. */
  lemma Ipv4Canonical(s: Bytes)
    requires ParseIpv4(s).Ok?
    ensures FormatIpv4(ParseIpv4(s).value) == s
  {
    var parts := Split(s, '.');
    ParsedOctetCanonical(parts[0]);
    ParsedOctetCanonical(parts[1]);
    ParsedOctetCanonical(parts[2]);
    ParsedOctetCanonical(parts[3]);
    assert OctetStrings(ParseIpv4(s).value) == parts;
    JoinSplit(s, '.');
  }

  // ---------------------------------------------------------------------------
  // Typed leaves

  /** The four leaf classes: ZebraConfig, ZebraConfigInteger, ZebraConfigOnOff, ZebraConfigIpv4. */
  datatype Kind = Plain | Integer | OnOff | Address

  /** A Python value handed to, or returned by, a typed leaf. */
  datatype Value = Text(text: Bytes) | Int(number: int) | Bool(flag: bool) | Addr(addr: Ipv4Address)

  /** The value type each leaf class produces. */
  predicate OfKind(v: Value, k: Kind)
  {
    match k
    case Plain => v.Text?
    case Integer => v.Int?
    case OnOff => v.Bool?
    case Address => v.Addr?
  }

  /** Python `str(v)`. */
  function PyStr(v: Value): Bytes
  {
    match v
    case Text(s) => s
    case Int(i) => FormatInt(i)
    case Bool(b) => if b then "True" else "False"
    case Addr(x) => FormatIpv4(x)
  }

  /** Python truthiness (an `IPv4Address` has no `__bool__`, so it is always true). */
  predicate Truthy(v: Value)
  {
    match v
    case Text(s) => s != []
    case Int(i) => i != 0
    case Bool(b) => b
    case Addr(_) => true
  }

  /**
   * `to_string` of each leaf class, followed by the `.encode()` that `setvar`
   * applies: the plain leaf passes its value through, and only a string can
   * be encoded.
   */
  function ToString(k: Kind, v: Value): (r: Result<Bytes>)
    ensures r.Err? <==> k == Plain && !v.Text?
    ensures k == OnOff ==> r == Ok(if Truthy(v) then ON else OFF)
  {
    match k
    case Plain => if v.Text? then Ok(v.text) else Err(UnencodableValue)
    case Integer => Ok(PyStr(v))
    case OnOff => Ok(OnOffToString(Truthy(v)))
    case Address => Ok(PyStr(v))
  }

  /** `from_string` of each leaf class. */
  function FromString(k: Kind, s: Bytes): (r: Result<Value>)
    ensures r.Ok? ==> OfKind(r.value, k)
    ensures r.Err? ==> r.error == InvalidValue(s)
    ensures k == Plain ==> r == Ok(Text(s))
  {
    match k
    case Plain => Ok(Text(s))
    case Integer => (match IntFromString(s) case Ok(i) => Ok(Int(i)) case Err(e) => Err(e))
    case OnOff => (match OnOffFromString(s) case Ok(b) => Ok(Bool(b)) case Err(e) => Err(e))
    case Address => (match ParseIpv4(s) case Ok(x) => Ok(Addr(x)) case Err(e) => Err(e))
  }

  /** Every leaf class reads back the value of its own type that it wrote: `from_string(to_string(v)) == v`. */
  lemma KindRoundTrip(k: Kind, v: Value)
    requires OfKind(v, k)
    ensures ToString(k, v).Ok? && FromString(k, ToString(k, v).value) == Ok(v)
  {
    match k
    case Plain =>
    case Integer => IntStringRoundTrip(v.number);
    case OnOff => OnOffRoundTrip(v.flag);
    case Address => Ipv4RoundTrip(v.addr);
  }

  /** The bytes a typed leaf may put on the wire: ASCII, and none of the bytes the framing gives a meaning to. */
  predicate WireByte(b: byte)
  {
    b as int < 0x80 && b != QUOTE && b != '?' && b != NEWLINE
  }

  /** Integer, on/off and address values are written with wire bytes only. */
  lemma ToStringWireBytes(k: Kind, v: Value)
    requires k != Plain && OfKind(v, k)
    ensures var s := ToString(k, v).value;
      forall j :: 0 <= j < |s| ==> WireByte(s[j])
  {
    if k == Address {
      var parts := OctetStrings(v.addr);
      JoinAll(parts, '.', WireByte);
    }
  }

  // ---------------------------------------------------------------------------
  // WPA pre-shared key

  /** passlib's `pbkdf2(secret, salt, rounds, keylen)`, supplied by the caller. */
  type Kdf = (Bytes, Bytes, nat, nat) -> Bytes

  const PSK_ROUNDS: nat := 4096
  const PSK_KEY_LENGTH: nat := 32

  /** `binascii.b2a_hex(pbkdf2(password, essid, 4096, 32)).decode().upper()`. */
  function Psk(kdf: Kdf, essid: Bytes, password: Bytes): (psk: Bytes)
    ensures |psk| == 2 * |kdf(password, essid, PSK_ROUNDS, PSK_KEY_LENGTH)|
    ensures Unhexlify(psk) == Some(kdf(password, essid, PSK_ROUNDS, PSK_KEY_LENGTH))
  {
    UpperHexShape(kdf(password, essid, PSK_ROUNDS, PSK_KEY_LENGTH));
    Upper(Hexlify(kdf(password, essid, PSK_ROUNDS, PSK_KEY_LENGTH)))
  }

  /**
   * A 32-byte derived key is rendered as 64 upper-case hexadecimal digits
   * that decode back to the key.
   */
  lemma PskShape(kdf: Kdf, essid: Bytes, password: Bytes)
    requires |kdf(password, essid, PSK_ROUNDS, PSK_KEY_LENGTH)| == PSK_KEY_LENGTH
    ensures var psk := Psk(kdf, essid, password);
      && |psk| == 64
      && (forall k :: 0 <= k < |psk| ==> IsUpperHexDigit(psk[k]))
      && Unhexlify(psk) == Some(kdf(password, essid, PSK_ROUNDS, PSK_KEY_LENGTH))
  {
    UpperHexShape(kdf(password, essid, PSK_ROUNDS, PSK_KEY_LENGTH));
  }
}
