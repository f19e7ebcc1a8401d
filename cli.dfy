/**
 * The command-line front end: `name=value` arguments, the verbosity that
 * `-v` and `-q` select, and the `wifi` subcommand's hand-over to the
 * device.
 */
module Cli {
  import opened Bytes
  import opened Errors
  import opened Values
  import opened Sgd
  import opened Device

  // ---------------------------------------------------------------------------
  // name=value arguments

  datatype NameValuePair = NameValuePair(name: Bytes, value: Bytes)

  /** A character of `[\w\.]`, restricted to ASCII. */
  predicate NameChar(c: byte)
  {
    ('a' <= c <= 'z') || ('A' <= c <= 'Z') || ('0' <= c <= '9') || c == '_' || c == '.'
  }

  predicate NameChars(s: Bytes)
  {
    forall k :: 0 <= k < |s| ==> NameChar(s[k])
  }

  /**
   * What `(.+)$` accepts after the `=`: a non-empty line, optionally ended
   * by a single newline, which `$` lets through without capturing it.
   */
  function LineValue(rest: Bytes): (r: Option<Bytes>)
    ensures r.Some? ==> r.value != [] && NEWLINE !in r.value
    ensures r.Some? ==> rest == r.value || rest == r.value + [NEWLINE]
  {
    var v := ChompNewline(rest);
    if v != [] && NEWLINE !in v then Some(v) else None
  }

  /**
   * `NameValuePair.parse(text)`: `[\w\.]+` cannot match an `=`, so the name
   * is everything before the first `=` and must be made of name
   * characters; the value is the rest of the line. Anything else is a
   * ValueError carrying the text.
   */
  function ParseNameValue(text: Bytes): (r: Result<NameValuePair>)
    ensures r.Err? ==> r.error == InvalidValue(text)
  {
    if '=' !in text then Err(InvalidValue(text))
    else
      var i := IndexOf(text, '=');
      var name := text[..i];
      match LineValue(text[i + 1..])
      case Some(v) => if name != [] && NameChars(name) then Ok(NameValuePair(name, v)) else Err(InvalidValue(text))
      case None => Err(InvalidValue(text))
  }

  /** The bytes `name=value`, with or without a final newline. */
  function NameValueText(p: NameValuePair, newline: bool): Bytes
  {
    p.name + ['='] + p.value + (if newline then [NEWLINE] else [])
  }

  /** A well-formed pair reads back from its text, whatever `=` the value holds. */
  lemma NameValueRoundTrip(p: NameValuePair, newline: bool)
    requires p.name != [] && NameChars(p.name) && p.value != [] && NEWLINE !in p.value
    ensures ParseNameValue(NameValueText(p, newline)) == Ok(p)
  {
    var line := p.value + (if newline then [NEWLINE] else []);
    var tail := ['='] + line;
    var text := NameValueText(p, newline);
    assert text == p.name + tail;
    assert '=' !in p.name by {
      assert !NameChar('=');
    }
    IndexOfAfter(p.name, tail, '=');
    var i := |p.name|;
    assert text[..i] == p.name;
    assert text[i + 1..] == line;
    LineValueOf(p.value, newline);
    ParseAt(text, i, p.value);
  }

  lemma ParseAt(text: Bytes, i: nat, v: Bytes)
    requires '=' in text && IndexOf(text, '=') == i
    requires LineValue(text[i + 1..]) == Some(v) && text[..i] != [] && NameChars(text[..i])
    ensures ParseNameValue(text) == Ok(NameValuePair(text[..i], v))
  {
  }

  lemma LineValueOf(v: Bytes, newline: bool)
    requires v != [] && NEWLINE !in v
    ensures LineValue(v + (if newline then [NEWLINE] else [])) == Some(v)
  {
    if newline {
      assert (v + [NEWLINE])[..|v|] == v;
    } else {
      assert v + [] == v;
      assert v[|v| - 1] in v;
    }
  }

  /** Whatever parses is a well-formed pair written out, so parsing accepts exactly those texts. */
  lemma NameValueCanonical(text: Bytes)
    requires ParseNameValue(text).Ok?
    ensures var p := ParseNameValue(text).value;
      && p.name != [] && NameChars(p.name) && p.value != [] && NEWLINE !in p.value
      && (text == NameValueText(p, false) || text == NameValueText(p, true))
  {
    var i := IndexOf(text, '=');
    var v := LineValue(text[i + 1..]);
    assert v.Some? && ParseNameValue(text).value == NameValuePair(text[..i], v.value);
    Reassemble(text, i, v.value);
  }

  lemma Reassemble(text: Bytes, i: nat, v: Bytes)
    requires i < |text| && text[i] == '='
    requires text[i + 1..] == v || text[i + 1..] == v + [NEWLINE]
    ensures text == NameValueText(NameValuePair(text[..i], v), false) || text == NameValueText(NameValuePair(text[..i], v), true)
  {
    assert text == text[..i] + ['='] + text[i + 1..];
  }

  /** `wlan.essid=a=b` sets `wlan.essid` to `a=b`. */
  lemma NameValueSplitsAtFirstEquals()
    ensures ParseNameValue("wlan.essid=a=b") == Ok(NameValuePair("wlan.essid", "a=b"))
  {
    var p := NameValuePair("wlan.essid", "a=b");
    assert NameValueText(p, false) == "wlan.essid=a=b";
    NameValueRoundTrip(p, false);
  }

  // ---------------------------------------------------------------------------
  // Verbosity and log level

  /** The `logging` module's levels. */
  const NOTSET: int := 0
  const DEBUG: int := 10
  const INFO: int := 20
  const WARNING: int := 30
  const ERROR: int := 40

  /** `ZebraCommand.loglevels`, least verbose first. */
  const LOGLEVELS: seq<int> := [ERROR, WARNING, INFO, DEBUG]

  /** `list.index(x)`: the position of the first `x`. */
  function PyIndex(xs: seq<int>, x: int): (i: nat)
    requires x in xs
    ensures i < |xs| && xs[i] == x && x !in xs[..i]
  {
    if xs[0] == x then 0 else 1 + PyIndex(xs[1..], x)
  }

  /** `loglevels.index(logging.INFO) + verbose - quiet`: each `-v` and `-q` moves one place from INFO. */
  function Verbosity(verbose: nat, quiet: nat): (v: int)
    ensures v == 2 + verbose - quiet
  {
    assert LOGLEVELS[2] == INFO && INFO !in LOGLEVELS[..2];
    PyIndex(LOGLEVELS, INFO) + verbose - quiet
  }

  /** Python's `xs[i]`: a negative index counts from the end, and anything outside the list is an IndexError. */
  function PySubscript(xs: seq<int>, i: int): (r: Result<int>)
    ensures r.Ok? <==> -|xs| <= i < |xs|
    ensures r.Ok? ==> r.value in xs
  {
    if 0 <= i < |xs| then Ok(xs[i])
    else if -|xs| <= i < 0 then Ok(xs[|xs| + i])
    else Err(IndexOutOfRange)
  }

  /** The `loglevel` property as written: `loglevels[verbosity]` below the list's length, NOTSET from there on. */
  function LogLevelAsWritten(verbosity: int): (r: Result<int>)
    ensures r.Err? <==> verbosity < -|LOGLEVELS|
    ensures r.Ok? ==> r.value == NOTSET || r.value in LOGLEVELS
  {
    if verbosity < |LOGLEVELS| then PySubscript(LOGLEVELS, verbosity) else Ok(NOTSET)
  }

  /** The `loglevel` property with the quiet end clamped at ERROR. */
  function LogLevel(verbosity: int): (l: int)
    ensures l == NOTSET || l in LOGLEVELS
  {
    if verbosity < 0 then ERROR
    else if verbosity < |LOGLEVELS| then LOGLEVELS[verbosity]
    else NOTSET
  }

  /** More verbosity never means a higher threshold: every message logged at `a` is logged at `b`. */
  lemma LogLevelMonotone(a: int, b: int)
    requires a <= b
    ensures LogLevel(b) <= LogLevel(a)
  {
  }

  /** With no flags the level is INFO; one `-v` is DEBUG, one `-q` WARNING, and any further `-q` stays at ERROR. */
  lemma VerbosityLevels(quiet: nat)
    ensures LogLevel(Verbosity(0, 0)) == INFO
    ensures LogLevel(Verbosity(1, 0)) == DEBUG && LogLevel(Verbosity(0, 1)) == WARNING
    ensures LogLevel(Verbosity(2, 0)) == NOTSET
    ensures quiet >= 2 ==> LogLevel(Verbosity(0, quiet)) == ERROR
  {
    assert PyIndex(LOGLEVELS, INFO) == 2 by {
      assert LOGLEVELS[2] == INFO && INFO !in LOGLEVELS[..2];
    }
  }

  /** The written property and the clamped one agree whenever the verbosity is not negative. */
  lemma LogLevelAgrees(verbosity: int)
    requires verbosity >= 0
    ensures LogLevelAsWritten(verbosity) == Ok(LogLevel(verbosity))
  {
  }

  /** As written, three `-q` log at DEBUG (index -1 is the last level) and seven fail with an IndexError. */
  lemma LogLevelAsWrittenQuiet()
    ensures LogLevelAsWritten(Verbosity(0, 0)) == Ok(INFO)
    ensures LogLevelAsWritten(Verbosity(0, 3)) == Ok(DEBUG)
    ensures LogLevelAsWritten(Verbosity(0, 7)) == Err(IndexOutOfRange)
  {
    VerbosityLevels(0);
  }

  // ---------------------------------------------------------------------------
  // The wifi subcommand

  const RESET_FRAME: Bytes := Frame(Command.Do(DEVICE_RESET, []))

  /**
   * `ZebraCommand.wifi`: `auth` and `country` are passed on only when given,
   * so a missing `auth` takes `wifi`'s default; the printer is reset
   * afterwards unless `--no-reset` was given, and only if `wifi` raised
   * nothing.
   */
  function WifiCommand(essid: Bytes, password: Option<Bytes>, auth: Option<Bytes>, country: Option<Bytes>, reset: bool, kdf: Kdf): (x: Sending)
    ensures var s := Sends(WifiPlan(essid, password, auth.GetOr(WPA_PSK), country, kdf));
      |s.written| <= |x.written| && x.written[..|s.written|] == s.written
    ensures reset && x.result.Ok? ==> x.written != [] && x.written[|x.written| - 1] == RESET_FRAME
    ensures var s := Sends(WifiPlan(essid, password, auth.GetOr(WPA_PSK), country, kdf));
      s.result.Err? ==> x.written == s.written && x.result == s.result
    ensures var s := Sends(WifiPlan(essid, password, auth.GetOr(WPA_PSK), country, kdf));
      s.result.Ok? ==> x == (if reset then Sending(s.written + [RESET_FRAME], Ok(())) else s)
  {
    ResetFrameText();
    var s := Sends(WifiPlan(essid, password, auth.GetOr(WPA_PSK), country, kdf));
    if s.result.Err? || !reset then s
    else Sending(s.written + Written(RESET_FRAME, true), WriteResult(RESET_FRAME, true))
  }

  method Wifi(dev: ZebraDevice, essid: Bytes, password: Option<Bytes>, auth: Option<Bytes>, country: Option<Bytes>, reset: bool, kdf: Kdf)
    returns (r: Result<()>)
    modifies dev.conn
    ensures var x := WifiCommand(essid, password, auth, country, reset, kdf);
      dev.conn.sent == old(dev.conn.sent) + x.written && dev.conn.incoming == old(dev.conn.incoming) && r == x.result
  {
    r := dev.Wifi(essid, password, auth.GetOr(WPA_PSK), country, kdf);
    if r.Ok? && reset {
      r := dev.Reset();
    }
  }

  lemma ResetFrameText()
    ensures ValidUtf8(RESET_FRAME)
  {
    assert Ascii(DEVICE_RESET);
    FrameAscii(Command.Do(DEVICE_RESET, []));
  }

  /**
   * With a password and no `--wpa-psk`, `wifi` configures WPA-PSK, and the
   * reset follows the whole configuration.
   */
  lemma WifiCommandConfiguresThenResets(essid: Bytes, password: Bytes, country: Option<Bytes>, kdf: Kdf)
    requires ValidUtf8(essid) && (country.Some? ==> ValidUtf8(country.value))
    ensures WifiCommand(essid, Some(password), None, country, true, kdf)
      == Sending(WifiHead(essid, country) + WpaPskFrames(essid, password, kdf) + [RESET_FRAME], Ok(()))
    ensures WifiCommand(essid, Some(password), None, country, false, kdf)
      == Sending(WifiHead(essid, country) + WpaPskFrames(essid, password, kdf), Ok(()))
  {
    WifiWrites(essid, Some(password), WPA_PSK, country, kdf);
    ResetFrameText();
  }

  /** Without a password the configuration stops after the network name, and the printer is not reset. */
  lemma WifiCommandWithoutPassword(essid: Bytes, country: Option<Bytes>, reset: bool, kdf: Kdf)
    requires ValidUtf8(essid) && (country.Some? ==> ValidUtf8(country.value))
    ensures WifiCommand(essid, None, None, country, reset, kdf) == Sending(WifiHead(essid, country), Err(MissingPassword))
  {
    WifiWrites(essid, None, WPA_PSK, country, kdf);
  }
}
