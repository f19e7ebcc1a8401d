/**
 * The printer as the tool drives it: a connection that records every write
 * and hands back the reply fragments the printer sends, and `ZebraDevice`,
 * whose commands are SGD frames written to that connection.
 */
module Device {
  import opened Bytes
  import opened Errors
  import opened Numerals
  import opened Values
  import opened Sgd
  import opened Firmware

  // ---------------------------------------------------------------------------
  // Transport selection

  /** The three kinds of connection. */
  datatype Transport = Usb | DeviceFile(path: Bytes) | Network(address: Bytes)

  /** No path means USB; a path holding a slash is a device file; anything else is a network address. */
  function SelectTransport(path: Option<Bytes>): (t: Transport)
    ensures t.Usb? <==> path.None?
    ensures t.DeviceFile? <==> path.Some? && '/' in path.value
    ensures t.DeviceFile? ==> t.path == path.value
    ensures t.Network? ==> t.address == path.value
  {
    match path
    case None => Usb
    case Some(p) => if '/' in p then DeviceFile(p) else Network(p)
  }

  /** The longest fragment a single read asks for. */
  const MAX_RESPONSE_LEN: nat := 16384

  /** Seconds to wait for each fragment unless the caller says otherwise. */
  const DEFAULT_TIMEOUT: real := 2.0

  // ---------------------------------------------------------------------------
  // The connection

  /**
   * A byte stream to the printer. `sent` is every write, in order;
   * `incoming` is what the successive reads will return, an empty fragment
   * standing for a read that timed out.
   */
  class Connection {
    var sent: seq<Bytes>
    var incoming: seq<Bytes>

    constructor (incoming: seq<Bytes>)
      ensures sent == [] && this.incoming == incoming
    {
      sent := [];
      this.incoming := incoming;
    }

    method Write(data: Bytes)
      modifies this
      ensures sent == old(sent) + [data]
      ensures incoming == old(incoming)
    {
      sent := sent + [data];
    }

    /** One read; once the printer has nothing more to say every read times out. */
    method Read() returns (frag: Bytes)
      modifies this
      ensures old(incoming) == [] ==> frag == [] && incoming == []
      ensures old(incoming) != [] ==> frag == old(incoming)[0] && incoming == old(incoming)[1..]
      ensures sent == old(sent)
    {
      if incoming == [] {
        frag := [];
      } else {
        frag := incoming[0];
        incoming := incoming[1..];
      }
    }
  }

  // ---------------------------------------------------------------------------
  // The read loop, as a function of the fragments to come

  /** An outcome of `read`, and the fragments still to come after it. */
  datatype ReadOutcome = ReadOutcome(result: Result<Bytes>, rest: seq<Bytes>)

  /** Whether the buffer satisfies the pattern being waited for; without one, reading never stops early. */
  predicate Matches(pattern: Option<Bytes -> bool>, data: Bytes)
  {
    pattern.Some? && pattern.value(data)
  }

  /** The debug log decodes what it shows, so printable data must be UTF-8. */
  predicate Loggable(printable: bool, data: Bytes)
  {
    !printable || ValidUtf8(data)
  }

  /** What `read` returns once the printer falls silent. */
  function Silence(data: Bytes): Result<Bytes>
  {
    if data == [] then Err(Timeout) else Ok(data)
  }

  /** `read`, having accumulated `data`, on the fragments still to come. */
  function ReadLoop(frags: seq<Bytes>, data: Bytes, pattern: Option<Bytes -> bool>, printable: bool): (o: ReadOutcome)
    ensures |o.rest| <= |frags| && o.rest == frags[|frags| - |o.rest|..]
    ensures frags != [] ==> |o.rest| < |frags|
    ensures o.result.Ok? ==> |data| < |o.result.value| || (o.result.value == data && data != [])
    ensures o.result.Ok? ==> o.result.value[..|data|] == data
    ensures o.result.Err? ==> o.result.error == Timeout || o.result.error == DecodeFailure
    ensures o.result == Err(Timeout) ==> data == []
    ensures !printable ==> o.result != Err(DecodeFailure)
    decreases |frags|
  {
    if frags == [] then ReadOutcome(Silence(data), [])
    else if frags[0] == [] then ReadOutcome(Silence(data), frags[1..])
    else if !Loggable(printable, frags[0]) then ReadOutcome(Err(DecodeFailure), frags[1..])
    else if Matches(pattern, data + frags[0]) then ReadOutcome(Ok(data + frags[0]), frags[1..])
    else ReadLoop(frags[1..], data + frags[0], pattern, printable)
  }

  /** The fragments left once `k` have been read, or none if fewer remained. */
  function After(frags: seq<Bytes>, k: nat): seq<Bytes>
  {
    if k < |frags| then frags[k..] else []
  }

  /** Fragment `j` arrived, could be logged, and did not complete the pattern. */
  predicate Unfinished(frags: seq<Bytes>, data: Bytes, pattern: Option<Bytes -> bool>, printable: bool, j: nat)
    requires j < |frags|
  {
    frags[j] != [] && Loggable(printable, frags[j]) && !Matches(pattern, data + Concat(frags[..j + 1]))
  }

  lemma ConcatFront(frags: seq<Bytes>, j: nat)
    requires 1 <= j <= |frags|
    ensures Concat(frags[..j]) == frags[0] + Concat(frags[1..][..j - 1])
  {
    assert frags[..j][1..] == frags[1..][..j - 1];
  }

  lemma UnfinishedTail(frags: seq<Bytes>, data: Bytes, pattern: Option<Bytes -> bool>, printable: bool, k: nat)
    requires 0 < k <= |frags|
    requires forall j :: 0 <= j < k ==> Unfinished(frags, data, pattern, printable, j)
    ensures forall j :: 0 <= j < k - 1 ==> Unfinished(frags[1..], data + frags[0], pattern, printable, j)
  {
    forall j | 0 <= j < k - 1
      ensures Unfinished(frags[1..], data + frags[0], pattern, printable, j)
    {
      assert Unfinished(frags, data, pattern, printable, j + 1);
      ConcatFront(frags, j + 2);
      assert data + Concat(frags[..j + 2]) == (data + frags[0]) + Concat(frags[1..][..j + 1]);
    }
  }

  lemma ConcatOne(frags: seq<Bytes>)
    requires |frags| >= 1
    ensures Concat(frags[..1]) == frags[0]
  {
    assert frags[..1][1..] == [];
  }

  /**
   * When the printer falls silent after `k` fragments that did not complete
   * the pattern, `read` returns their concatenation (a timeout if there is
   * none) and consumes the silent read.
   */
  lemma {:induction false} ReadUntilSilence(frags: seq<Bytes>, data: Bytes, pattern: Option<Bytes -> bool>, printable: bool, k: nat)
    requires k <= |frags|
    requires forall j :: 0 <= j < k ==> Unfinished(frags, data, pattern, printable, j)
    requires k == |frags| || frags[k] == []
    ensures ReadLoop(frags, data, pattern, printable) == ReadOutcome(Silence(data + Concat(frags[..k])), After(frags, k + 1))
    decreases k
  {
    if k == 0 {
      assert data + Concat(frags[..0]) == data;
      assert |frags| == 1 ==> frags[1..] == [];
    } else {
      assert Unfinished(frags, data, pattern, printable, 0);
      ConcatOne(frags);
      UnfinishedTail(frags, data, pattern, printable, k);
      ReadUntilSilence(frags[1..], data + frags[0], pattern, printable, k - 1);
      ConcatFront(frags, k);
      assert (data + frags[0]) + Concat(frags[1..][..k - 1]) == data + Concat(frags[..k]);
      assert After(frags[1..], k) == After(frags, k + 1);
    }
  }

  /** `read` stops at the first fragment after which the whole buffer, not just that fragment, matches. */
  lemma {:induction false} ReadUntilMatch(frags: seq<Bytes>, data: Bytes, pattern: Option<Bytes -> bool>, printable: bool, k: nat)
    requires k < |frags|
    requires forall j :: 0 <= j < k ==> Unfinished(frags, data, pattern, printable, j)
    requires frags[k] != [] && Loggable(printable, frags[k])
    requires Matches(pattern, data + Concat(frags[..k + 1]))
    ensures ReadLoop(frags, data, pattern, printable) == ReadOutcome(Ok(data + Concat(frags[..k + 1])), frags[k + 1..])
    decreases k
  {
    ConcatOne(frags);
    if k > 0 {
      assert Unfinished(frags, data, pattern, printable, 0);
      UnfinishedTail(frags, data, pattern, printable, k);
      ConcatFront(frags, k + 1);
      assert (data + frags[0]) + Concat(frags[1..][..k]) == data + Concat(frags[..k + 1]);
      ReadUntilMatch(frags[1..], data + frags[0], pattern, printable, k - 1);
      assert frags[1..][k..] == frags[k + 1..];
    }
  }

  /** A printable read fails at the first fragment that is not UTF-8, and consumes it. */
  lemma {:induction false} ReadUndecodable(frags: seq<Bytes>, data: Bytes, pattern: Option<Bytes -> bool>, k: nat)
    requires k < |frags|
    requires forall j :: 0 <= j < k ==> Unfinished(frags, data, pattern, true, j)
    requires frags[k] != [] && !ValidUtf8(frags[k])
    ensures ReadLoop(frags, data, pattern, true) == ReadOutcome(Err(DecodeFailure), frags[k + 1..])
    decreases k
  {
    if k > 0 {
      assert Unfinished(frags, data, pattern, true, 0);
      ConcatOne(frags);
      UnfinishedTail(frags, data, pattern, true, k);
      ReadUndecodable(frags[1..], data + frags[0], pattern, k - 1);
      assert frags[1..][k..] == frags[k + 1..];
    }
  }

  lemma {:induction false} ReadNeverTimesOutWithData(frags: seq<Bytes>, data: Bytes, pattern: Option<Bytes -> bool>, printable: bool)
    requires data != []
    ensures ReadLoop(frags, data, pattern, printable).result != Err(Timeout)
    decreases |frags|
  {
    if frags != [] && frags[0] != [] && Loggable(printable, frags[0]) && !Matches(pattern, data + frags[0]) {
      ReadNeverTimesOutWithData(frags[1..], data + frags[0], pattern, printable);
    }
  }

  /** `read` times out exactly when the very first read brings nothing. */
  lemma ReadTimeout(frags: seq<Bytes>, pattern: Option<Bytes -> bool>, printable: bool)
    ensures ReadLoop(frags, [], pattern, printable).result == Err(Timeout) <==> frags == [] || frags[0] == []
  {
    if frags != [] && frags[0] != [] && Loggable(printable, frags[0]) && !Matches(pattern, frags[0]) {
      assert [] + frags[0] == frags[0];
      assert ReadLoop(frags, [], pattern, printable) == ReadLoop(frags[1..], frags[0], pattern, printable);
      ReadNeverTimesOutWithData(frags[1..], frags[0], pattern, printable);
    }
  }

  // ---------------------------------------------------------------------------
  // Names of the variables and actions the device uses

  const FILE_DIR: Bytes := "file.dir"
  const FILE_TYPE: Bytes := "file.type"
  const FILE_DELETE: Bytes := "file.delete"
  const FILE_RENAME: Bytes := "file.rename"
  const DEVICE_RESET: Bytes := "device.reset"
  const DEVICE_RESTORE_DEFAULTS: Bytes := "device.restore_defaults"
  const WLAN: Bytes := "wlan"
  const WLAN_ESSID: Bytes := "wlan.essid"
  const WLAN_COUNTRY_CODE: Bytes := "wlan.country_code"
  const WLAN_WPA_ENABLE: Bytes := "wlan.wpa.enable"
  const WLAN_WPA_AUTHENTICATION: Bytes := "wlan.wpa.authentication"
  const WLAN_WPA_PSK: Bytes := "wlan.wpa.psk"
  const AUTH_PSK: Bytes := "psk"

  /** The authentication method `wifi` hands over to by default, and the only one there is. */
  const WPA_PSK: Bytes := "wpa_psk"

  // ---------------------------------------------------------------------------
  // Exchanges: what a command writes, what it leaves unread, what it returns

  datatype Exchange<T> = Exchange(written: seq<Bytes>, rest: seq<Bytes>, result: Result<T>)

  function WriteResult(data: Bytes, printable: bool): Result<()>
  {
    if Loggable(printable, data) then Ok(()) else Err(DecodeFailure)
  }

  /** What reaches the connection when `data` is written: nothing if logging it fails. */
  function Written(data: Bytes, printable: bool): seq<Bytes>
  {
    if Loggable(printable, data) then [data] else []
  }

  /** A command frame followed by a read. */
  function CommandThenRead(frame: Bytes, incoming: seq<Bytes>, pattern: Option<Bytes -> bool>, printable: bool): Exchange<Bytes>
  {
    if !ValidUtf8(frame) then Exchange([], incoming, Err(DecodeFailure))
    else
      var o := ReadLoop(incoming, [], pattern, printable);
      Exchange([frame], o.rest, o.result)
  }

  /** The pattern `getvar` waits for. */
  const QUOTED_PATTERN: Option<Bytes -> bool> := Some(QuotedReply)

  /** `getvar(name)` on the wire. */
  function GetvarExchange(name: Bytes, incoming: seq<Bytes>): (x: Exchange<Bytes>)
    ensures x.written == [] || x.written == [Frame(Getvar(name))]
    ensures x.written == [] ==> x.result == Err(DecodeFailure) && x.rest == incoming
  {
    var x := CommandThenRead(Frame(Getvar(name)), incoming, QUOTED_PATTERN, true);
    Exchange(x.written, x.rest, match x.result case Err(e) => Err(e) case Ok(d) => GetvarReply(name, d))
  }

  /** `getint(name)`: the value is read with `int()`. */
  function GetintExchange(name: Bytes, incoming: seq<Bytes>): (x: Exchange<int>)
    ensures x.written == [] || x.written == [Frame(Getvar(name))]
    ensures x.written == [] ==> x.result == Err(DecodeFailure) && x.rest == incoming
  {
    var x := GetvarExchange(name, incoming);
    Exchange(x.written, x.rest, match x.result case Err(e) => Err(e) case Ok(s) => IntFromString(s))
  }

  /** `getbool(name)`: the value must be `on` or `off`. */
  function GetboolExchange(name: Bytes, incoming: seq<Bytes>): (x: Exchange<bool>)
    ensures x.written == [] || x.written == [Frame(Getvar(name))]
    ensures x.written == [] ==> x.result == Err(DecodeFailure) && x.rest == incoming
  {
    var x := GetvarExchange(name, incoming);
    Exchange(x.written, x.rest, match x.result case Err(e) => Err(e) case Ok(s) => OnOffFromString(s))
  }

  /** `list()`: `file.dir`, then everything until silence, decoded and with quotes stripped. */
  function ListExchange(incoming: seq<Bytes>): (x: Exchange<Bytes>)
    ensures x.written == [] || x.written == [Frame(Command.Do(FILE_DIR, []))]
    ensures x.result.Ok? ==> x.result.value == [] || (x.result.value[0] != QUOTE && x.result.value[|x.result.value| - 1] != QUOTE)
  {
    var x := CommandThenRead(Frame(Command.Do(FILE_DIR, [])), incoming, None, true);
    Exchange(x.written, x.rest,
      match x.result
      case Err(e) => Err(e)
      case Ok(d) => if ValidUtf8(d) then Ok(Strip(d, QUOTE)) else Err(DecodeFailure))
  }

  /** `download(filename)`: `file.type`, then the raw bytes until silence. */
  function DownloadExchange(filename: Bytes, incoming: seq<Bytes>): (x: Exchange<Bytes>)
    ensures x.written == [] || x.written == [Frame(Command.Do(FILE_TYPE, filename))]
    ensures x.written != [] ==> x.result.Ok? || x.result == Err(Timeout)
  {
    CommandThenRead(Frame(Command.Do(FILE_TYPE, filename)), incoming, None, false)
  }

  /** A value the printer can echo back in quotes so that `getvar` reads exactly it. */
  predicate Echoable(v: Bytes)
  {
    ValidUtf8(v) && |v| >= 1 && NEWLINE !in v && v != "?" && v[0] != QUOTE && v[|v| - 1] != QUOTE
  }

  /**
   * When the printer answers a `getvar` with the value in quotes in one
   * fragment, `getvar` writes the one frame, consumes the one fragment and
   * returns the value. (The frame is text whenever the name is: FrameUtf8.)
   */
  lemma GetvarReads(name: Bytes, v: Bytes, rest: seq<Bytes>)
    requires ValidUtf8(Frame(Getvar(name))) && Echoable(v)
    ensures GetvarExchange(name, [[QUOTE] + v + [QUOTE]] + rest) == Exchange([Frame(Getvar(name))], rest, Ok(v))
  {
    var d := [QUOTE] + v + [QUOTE];
    var frags := [d] + rest;
    QuotedReplyIntro(v, []);
    assert d + [] == d;
    AsciiIsUtf8([QUOTE]);
    ValidUtf8Append([QUOTE], v);
    ValidUtf8Append([QUOTE] + v, [QUOTE]);
    ConcatOne(frags);
    assert [] + Concat(frags[..1]) == d;
    ReadUntilMatch(frags, [], QUOTED_PATTERN, true, 0);
    assert frags[1..] == rest;
    GetvarReplyQuoted(name, v);
  }

  /** `getint` reads back an integer the printer echoes as `str(i)`. */
  lemma GetintReads(name: Bytes, i: int, rest: seq<Bytes>)
    requires ValidUtf8(Frame(Getvar(name)))
    ensures GetintExchange(name, [[QUOTE] + FormatInt(i) + [QUOTE]] + rest) == Exchange([Frame(Getvar(name))], rest, Ok(i))
  {
    var v := FormatInt(i);
    assert |v| >= 1;
    assert Ascii(v);
    AsciiIsUtf8(v);
    assert v[0] != QUOTE && v[|v| - 1] != QUOTE;
    assert v[0] == '-' || IsLowerHexDigit(v[0]);
    GetvarReads(name, v, rest);
    IntStringRoundTrip(i);
  }

  /** `getbool` reads back the `on` or `off` the printer echoes. */
  lemma GetboolReads(name: Bytes, b: bool, rest: seq<Bytes>)
    requires ValidUtf8(Frame(Getvar(name)))
    ensures GetboolExchange(name, [[QUOTE] + OnOffToString(b) + [QUOTE]] + rest) == Exchange([Frame(Getvar(name))], rest, Ok(b))
  {
    var v := OnOffToString(b);
    assert Ascii(v);
    AsciiIsUtf8(v);
    GetvarReads(name, v, rest);
    OnOffRoundTrip(b);
  }

  lemma ReadTwo(f0: Bytes, f1: Bytes, rest: seq<Bytes>, pattern: Option<Bytes -> bool>, printable: bool)
    requires f0 != [] && Loggable(printable, f0) && !Matches(pattern, f0)
    requires f1 != [] && Loggable(printable, f1) && Matches(pattern, f0 + f1)
    ensures ReadLoop([f0, f1] + rest, [], pattern, printable) == ReadOutcome(Ok(f0 + f1), rest)
  {
    var frags := [f0, f1] + rest;
    assert [] + f0 == f0;
    assert frags[1..] == [f1] + rest;
    assert ([f1] + rest)[1..] == rest;
  }

  /**
   * A reply split over two fragments is reassembled: the pattern is tried on
   * the whole buffer, so the opening quote alone does not end the read.
   */
  lemma GetvarReassembles(name: Bytes, a: Bytes, b: Bytes, rest: seq<Bytes>)
    requires ValidUtf8(Frame(Getvar(name))) && Echoable(a + b)
    requires a != [] && a[|a| - 1] != QUOTE && ValidUtf8(a) && ValidUtf8(b)
    ensures GetvarExchange(name, [[QUOTE] + a, b + [QUOTE]] + rest) == Exchange([Frame(Getvar(name))], rest, Ok(a + b))
  {
    var v := a + b;
    OpeningQuote(a, v);
    QuotedHalves(a, b);
    ReadTwo([QUOTE] + a, b + [QUOTE], rest, QUOTED_PATTERN, true);
    GetvarReplyQuoted(name, v);
  }

  lemma QuotedHalves(a: Bytes, b: Bytes)
    requires Echoable(a + b) && ValidUtf8(a) && ValidUtf8(b)
    ensures ValidUtf8([QUOTE] + a) && ValidUtf8(b + [QUOTE])
    ensures ([QUOTE] + a) + (b + [QUOTE]) == [QUOTE] + (a + b) + [QUOTE]
    ensures QuotedReply([QUOTE] + (a + b) + [QUOTE])
  {
    QuotedText(a, b);
    Quoted(a + b);
  }

  lemma QuotedText(a: Bytes, b: Bytes)
    requires ValidUtf8(a) && ValidUtf8(b)
    ensures ValidUtf8([QUOTE] + a) && ValidUtf8(b + [QUOTE])
  {
    AsciiIsUtf8([QUOTE]);
    ValidUtf8Append([QUOTE], a);
    ValidUtf8Append(b, [QUOTE]);
  }

  lemma Quoted(v: Bytes)
    requires |v| >= 1 && NEWLINE !in v
    ensures QuotedReply([QUOTE] + v + [QUOTE])
  {
    QuotedReplyIntro(v, []);
    assert [QUOTE] + v + [QUOTE] + [] == [QUOTE] + v + [QUOTE];
  }

  lemma OpeningQuote(a: Bytes, v: Bytes)
    requires a != [] && a[|a| - 1] != QUOTE && |a| <= |v| && a == v[..|a|] && NEWLINE !in v
    ensures !QuotedReply([QUOTE] + a)
  {
    assert NEWLINE !in a by {
      assert forall j :: 0 <= j < |a| ==> a[j] == v[j];
    }
    assert ChompNewline([QUOTE] + a) == [QUOTE] + a;
  }

  // ---------------------------------------------------------------------------
  // Write sequences

  /** Frames to write in order, and how the operation ends if all of them are written. */
  datatype Plan = Plan(frames: seq<Bytes>, ending: Result<()>)

  /** What was written and how it ended. */
  datatype Sending = Sending(written: seq<Bytes>, result: Result<()>)

  /** Carrying out a plan: the first frame that cannot be logged ends it with a decode error. */
  function Sends(p: Plan): (s: Sending)
    ensures |s.written| <= |p.frames| && s.written == p.frames[..|s.written|]
    ensures AllUtf8(s.written)
    ensures s.written == p.frames ==> s.result == p.ending
    ensures |s.written| < |p.frames| ==> s.result == Err(DecodeFailure) && !ValidUtf8(p.frames[|s.written|])
    decreases |p.frames|
  {
    if p.frames == [] then Sending([], p.ending)
    else if !ValidUtf8(p.frames[0]) then Sending([], Err(DecodeFailure))
    else
      var s := Sends(Plan(p.frames[1..], p.ending));
      Sending([p.frames[0]] + s.written, s.result)
  }

  predicate AllUtf8(frames: seq<Bytes>)
  {
    forall k :: 0 <= k < |frames| ==> ValidUtf8(frames[k])
  }

  /** Frames that can all be logged are all written, ahead of whatever follows. */
  lemma {:induction false} SendsValidPrefix(valid: seq<Bytes>, p: Plan)
    requires AllUtf8(valid)
    ensures Sends(Plan(valid + p.frames, p.ending)) == Sending(valid + Sends(p).written, Sends(p).result)
  {
    if valid != [] {
      var q := Plan(valid + p.frames, p.ending);
      assert q.frames[0] == valid[0] && ValidUtf8(valid[0]);
      assert q.frames[1..] == valid[1..] + p.frames;
      SendsValidPrefix(valid[1..], p);
      var t := Sends(Plan(valid[1..] + p.frames, p.ending));
      assert Sends(q) == Sending([valid[0]] + t.written, t.result);
      assert [valid[0]] + (valid[1..] + Sends(p).written) == valid + Sends(p).written;
    } else {
      assert valid + p.frames == p.frames;
    }
  }

  /** A frame that cannot be logged stops the plan after the frames before it. */
  lemma SendsStopsAt(p: Plan, valid: seq<Bytes>, bad: Bytes, rest: seq<Bytes>)
    requires p.frames == valid + [bad] + rest
    requires AllUtf8(valid) && !ValidUtf8(bad)
    ensures Sends(p) == Sending(valid, Err(DecodeFailure))
  {
    assert p.frames == valid + ([bad] + rest);
    SendsValidPrefix(valid, Plan([bad] + rest, p.ending));
  }

  /** A plan whose frames can all be logged writes all of them and ends as planned. */
  lemma SendsAllValid(p: Plan)
    requires AllUtf8(p.frames)
    ensures Sends(p) == Sending(p.frames, p.ending)
  {
    SendsValidPrefix(p.frames, Plan([], p.ending));
    assert p.frames + [] == p.frames;
  }

  /** The three settings `wifi_wpa_psk` writes: WPA on, PSK authentication, the derived key. */
  function WpaPskFrames(essid: Bytes, password: Bytes, kdf: Kdf): seq<Bytes>
  {
    [Frame(Setvar(WLAN_WPA_ENABLE, OnOffToString(true))),
     Frame(Setvar(WLAN_WPA_AUTHENTICATION, AUTH_PSK)),
     Frame(Setvar(WLAN_WPA_PSK, Psk(kdf, essid, password)))]
  }

  /** `wifi_wpa_psk`: the key is derived first, so a missing password fails before any write. */
  function WpaPskPlan(essid: Bytes, password: Option<Bytes>, kdf: Kdf): (p: Plan)
    ensures p.ending.Ok? <==> password.Some?
    ensures password.None? ==> p.frames == []
  {
    match password
    case None => Plan([], Err(MissingPassword))
    case Some(pw) => Plan(WpaPskFrames(essid, pw, kdf), Ok(()))
  }

  /** The frames `wifi` writes before it looks up the method for `auth`. */
  function WifiHead(essid: Bytes, country: Option<Bytes>): seq<Bytes>
  {
    [Frame(Command.Do(DEVICE_RESTORE_DEFAULTS, WLAN)), Frame(Setvar(WLAN_ESSID, essid))]
      + (if country.Some? then [Frame(Setvar(WLAN_COUNTRY_CODE, country.value))] else [])
  }

  /** `wifi` hands over to `wifi_<auth>`; there is only `wifi_wpa_psk`. */
  function AuthPlan(essid: Bytes, password: Option<Bytes>, auth: Bytes, kdf: Kdf): (p: Plan)
    ensures p.ending.Ok? <==> auth == WPA_PSK && password.Some?
    ensures auth != WPA_PSK ==> p.frames == [] && p.ending == Err(UnsupportedAuth(auth))
  {
    if auth == WPA_PSK then WpaPskPlan(essid, password, kdf) else Plan([], Err(UnsupportedAuth(auth)))
  }

  /** `wifi`: reset the wireless settings, set the network, then configure authentication. */
  function WifiPlan(essid: Bytes, password: Option<Bytes>, auth: Bytes, country: Option<Bytes>, kdf: Kdf): (p: Plan)
    ensures var h := WifiHead(essid, country); |h| <= |p.frames| && p.frames[..|h|] == h
    ensures p.ending.Ok? <==> auth == WPA_PSK && password.Some?
  {
    var tail := AuthPlan(essid, password, auth, kdf);
    Plan(WifiHead(essid, country) + tail.frames, tail.ending)
  }

  /** The derived key is upper-case hexadecimal, so every frame of `wifi_wpa_psk` is text. */
  lemma WpaPskFramesText(essid: Bytes, password: Bytes, kdf: Kdf)
    ensures AllUtf8(WpaPskFrames(essid, password, kdf))
  {
    WpaSettingsText();
    PskFrameText(Psk(kdf, essid, password), kdf(password, essid, PSK_ROUNDS, PSK_KEY_LENGTH));
  }

  lemma WpaSettingsText()
    ensures ValidUtf8(Frame(Setvar(WLAN_WPA_ENABLE, OnOffToString(true))))
    ensures ValidUtf8(Frame(Setvar(WLAN_WPA_AUTHENTICATION, AUTH_PSK)))
  {
    assert Ascii(WLAN_WPA_ENABLE) && Ascii(ON) && Ascii(WLAN_WPA_AUTHENTICATION) && Ascii(AUTH_PSK);
    FrameAscii(Setvar(WLAN_WPA_ENABLE, ON));
    FrameAscii(Setvar(WLAN_WPA_AUTHENTICATION, AUTH_PSK));
  }

  lemma PskFrameText(psk: Bytes, key: Bytes)
    requires psk == Upper(Hexlify(key))
    ensures ValidUtf8(Frame(Setvar(WLAN_WPA_PSK, psk)))
  {
    UpperHexShape(key);
    assert Ascii(psk) && Ascii(WLAN_WPA_PSK);
    FrameAscii(Setvar(WLAN_WPA_PSK, psk));
  }

  /**
   * With a password, `wifi_wpa_psk` always writes its three settings and
   * succeeds; without one it fails before writing anything.
   */
  lemma WpaPskWrites(essid: Bytes, password: Option<Bytes>, kdf: Kdf)
    ensures password.Some? ==> Sends(WpaPskPlan(essid, password, kdf)) == Sending(WpaPskFrames(essid, password.value, kdf), Ok(()))
    ensures password.None? ==> Sends(WpaPskPlan(essid, password, kdf)) == Sending([], Err(MissingPassword))
  {
    if password.Some? {
      WpaPskFramesText(essid, password.value, kdf);
      SendsAllValid(WpaPskPlan(essid, password, kdf));
    }
  }

  /**
   * With a text ESSID and country code, `wifi` writes every frame of its plan:
   * the reset of the wireless settings, the ESSID, the country code if one
   * was given, and then the settings of the authentication method; it fails
   * only for a missing password or an unknown method.
   */
  lemma WifiWrites(essid: Bytes, password: Option<Bytes>, auth: Bytes, country: Option<Bytes>, kdf: Kdf)
    requires ValidUtf8(essid) && (country.Some? ==> ValidUtf8(country.value))
    ensures var p := WifiPlan(essid, password, auth, country, kdf);
      Sends(p) == Sending(p.frames, p.ending)
    ensures var p := WifiPlan(essid, password, auth, country, kdf);
      p.ending == (if auth != WPA_PSK then Err(UnsupportedAuth(auth)) else if password.None? then Err(MissingPassword) else Ok(()))
  {
    var head := WifiHead(essid, country);
    var tail := AuthPlan(essid, password, auth, kdf);
    WifiHeadText(essid, country);
    if auth == WPA_PSK && password.Some? {
      WpaPskFramesText(essid, password.value, kdf);
    }
    assert AllUtf8(tail.frames);
    AllUtf8Append(head, tail.frames);
    SendsAllValid(Plan(head + tail.frames, tail.ending));
  }

  lemma AllUtf8Append(a: seq<Bytes>, b: seq<Bytes>)
    requires AllUtf8(a) && AllUtf8(b)
    ensures AllUtf8(a + b)
  {
    assert forall k :: 0 <= k < |a + b| ==> (a + b)[k] == if k < |a| then a[k] else b[k - |a|];
  }

  lemma WifiHeadText(essid: Bytes, country: Option<Bytes>)
    requires ValidUtf8(essid) && (country.Some? ==> ValidUtf8(country.value))
    ensures AllUtf8(WifiHead(essid, country))
  {
    assert Ascii(DEVICE_RESTORE_DEFAULTS) && Ascii(WLAN) && Ascii(WLAN_ESSID) && Ascii(WLAN_COUNTRY_CODE);
    HeadFramesText(DEVICE_RESTORE_DEFAULTS, WLAN, WLAN_ESSID, WLAN_COUNTRY_CODE, essid, country);
  }

  lemma HeadFramesText(action: Bytes, param: Bytes, essidName: Bytes, countryName: Bytes, essid: Bytes, country: Option<Bytes>)
    requires Ascii(action) && Ascii(param) && Ascii(essidName) && Ascii(countryName)
    requires ValidUtf8(essid) && (country.Some? ==> ValidUtf8(country.value))
    ensures AllUtf8([Frame(Command.Do(action, param)), Frame(Setvar(essidName, essid))]
      + (if country.Some? then [Frame(Setvar(countryName, country.value))] else []))
  {
    FrameAscii(Command.Do(action, param));
    SetvarText(essidName, essid);
    if country.Some? {
      SetvarText(countryName, country.value);
    }
  }

  lemma RestoreWlanText()
    ensures ValidUtf8(Frame(Command.Do(DEVICE_RESTORE_DEFAULTS, WLAN)))
  {
    assert Ascii(DEVICE_RESTORE_DEFAULTS) && Ascii(WLAN);
    FrameAscii(Command.Do(DEVICE_RESTORE_DEFAULTS, WLAN));
  }

  lemma EssidQueryText()
    ensures ValidUtf8(Frame(Getvar(WLAN_ESSID)))
  {
    assert Ascii(WLAN_ESSID);
    FrameAscii(Getvar(WLAN_ESSID));
  }

  /** Carrying out one plan after another: the second starts only if every frame of the first was written. */
  lemma {:induction false} SendsThen(a: seq<Bytes>, q: Plan)
    ensures var h := Sends(Plan(a, Ok(())));
      Sends(Plan(a + q.frames, q.ending))
        == if h.result.Ok? then Sending(h.written + Sends(q).written, Sends(q).result) else h
    decreases |a|
  {
    if a == [] {
      assert a + q.frames == q.frames;
      assert [] + Sends(q).written == Sends(q).written;
    } else if ValidUtf8(a[0]) {
      assert (a + q.frames)[0] == a[0];
      assert (a + q.frames)[1..] == a[1..] + q.frames;
      SendsThen(a[1..], q);
      var h' := Sends(Plan(a[1..], Ok(())));
      assert [a[0]] + (h'.written + Sends(q).written) == [a[0]] + h'.written + Sends(q).written;
    } else {
      assert (a + q.frames)[0] == a[0];
    }
  }

  /** The settings `wifi` writes before the authentication method, as a plan that ends well. */
  function HeadSends(essid: Bytes, country: Option<Bytes>): Sending
  {
    Sends(Plan(WifiHead(essid, country), Ok(())))
  }

  /** `wifi` is its head followed by the authentication method's plan, which runs only if the whole head was written. */
  lemma WifiSplits(essid: Bytes, password: Option<Bytes>, auth: Bytes, country: Option<Bytes>, kdf: Kdf)
    ensures var h := HeadSends(essid, country);
      var t := Sends(AuthPlan(essid, password, auth, kdf));
      Sends(WifiPlan(essid, password, auth, country, kdf))
        == if h.result.Ok? then Sending(h.written + t.written, t.result) else h
  {
    SendsThen(WifiHead(essid, country), AuthPlan(essid, password, auth, kdf));
  }

  lemma HeadStopsAtEssid(essid: Bytes, country: Option<Bytes>)
    requires !ValidUtf8(Frame(Setvar(WLAN_ESSID, essid)))
    ensures HeadSends(essid, country) == Sending([Frame(Command.Do(DEVICE_RESTORE_DEFAULTS, WLAN))], Err(DecodeFailure))
  {
    var head := WifiHead(essid, country);
    RestoreWlanText();
    assert head == [head[0]] + [head[1]] + head[2..];
    SendsStopsAt(Plan(head, Ok(())), [head[0]], head[1], head[2..]);
  }

  lemma HeadStopsAtCountry(essid: Bytes, country: Option<Bytes>)
    requires country.Some? && ValidUtf8(Frame(Setvar(WLAN_ESSID, essid)))
    requires !ValidUtf8(Frame(Setvar(WLAN_COUNTRY_CODE, country.value)))
    ensures HeadSends(essid, country)
      == Sending([Frame(Command.Do(DEVICE_RESTORE_DEFAULTS, WLAN)), Frame(Setvar(WLAN_ESSID, essid))], Err(DecodeFailure))
  {
    var head := WifiHead(essid, country);
    RestoreWlanText();
    assert head == [head[0], head[1]] + [head[2]] + [];
    SendsStopsAt(Plan(head, Ok(())), [head[0], head[1]], head[2], []);
  }

  lemma HeadAllWritten(essid: Bytes, country: Option<Bytes>)
    requires ValidUtf8(Frame(Setvar(WLAN_ESSID, essid)))
    requires country.Some? ==> ValidUtf8(Frame(Setvar(WLAN_COUNTRY_CODE, country.value)))
    ensures HeadSends(essid, country) == Sending(WifiHead(essid, country), Ok(()))
  {
    RestoreWlanText();
    SendsAllValid(Plan(WifiHead(essid, country), Ok(())));
  }

  /** An ESSID that is not text stops `wifi` after the reset of the wireless settings. */
  lemma WifiStopsAtEssid(essid: Bytes, password: Option<Bytes>, auth: Bytes, country: Option<Bytes>, kdf: Kdf)
    requires !ValidUtf8(Frame(Setvar(WLAN_ESSID, essid)))
    ensures Sends(WifiPlan(essid, password, auth, country, kdf))
      == Sending([Frame(Command.Do(DEVICE_RESTORE_DEFAULTS, WLAN))], Err(DecodeFailure))
  {
    HeadStopsAtEssid(essid, country);
    WifiSplits(essid, password, auth, country, kdf);
  }

  /** A country code that is not text stops `wifi` after the ESSID. */
  lemma WifiStopsAtCountry(essid: Bytes, password: Option<Bytes>, auth: Bytes, country: Option<Bytes>, kdf: Kdf)
    requires country.Some? && ValidUtf8(Frame(Setvar(WLAN_ESSID, essid)))
    requires !ValidUtf8(Frame(Setvar(WLAN_COUNTRY_CODE, country.value)))
    ensures Sends(WifiPlan(essid, password, auth, country, kdf))
      == Sending([Frame(Command.Do(DEVICE_RESTORE_DEFAULTS, WLAN)), Frame(Setvar(WLAN_ESSID, essid))], Err(DecodeFailure))
  {
    HeadStopsAtCountry(essid, country);
    WifiSplits(essid, password, auth, country, kdf);
  }

  // ---------------------------------------------------------------------------
  // The device

  class ZebraDevice {
    const transport: Transport
    const timeout: real
    const conn: Connection

    /** `ZebraDevice(path, timeout)` talking to a printer that will send `incoming`. */
    constructor (path: Option<Bytes>, timeout: Option<real>, incoming: seq<Bytes>)
      ensures transport == SelectTransport(path)
      ensures this.timeout == timeout.GetOr(DEFAULT_TIMEOUT)
      ensures fresh(conn) && conn.sent == [] && conn.incoming == incoming
    {
      transport := SelectTransport(path);
      this.timeout := timeout.GetOr(DEFAULT_TIMEOUT);
      conn := new Connection(incoming);
    }

    /** `write`: printable data is decoded for the log first, so data that is not UTF-8 is never sent. */
    method Write(data: Bytes, printable: bool) returns (r: Result<()>)
      modifies conn
      ensures r == WriteResult(data, printable)
      ensures conn.sent == old(conn.sent) + Written(data, printable)
      ensures conn.incoming == old(conn.incoming)
    {
      if printable && !ValidUtf8(data) {
        return Err(DecodeFailure);
      }
      conn.Write(data);
      r := Ok(());
    }

    /** `read`: accumulate fragments until the printer falls silent or the whole buffer matches `pattern`. */
    method Read(pattern: Option<Bytes -> bool>, printable: bool) returns (r: Result<Bytes>)
      modifies conn
      ensures ReadLoop(old(conn.incoming), [], pattern, printable) == ReadOutcome(r, conn.incoming)
      ensures conn.sent == old(conn.sent)
    {
      var data: Bytes := [];
      while true
        invariant ReadLoop(conn.incoming, data, pattern, printable) == ReadLoop(old(conn.incoming), [], pattern, printable)
        invariant conn.sent == old(conn.sent)
        decreases |conn.incoming|
      {
        ghost var before := conn.incoming;
        var frag := conn.Read();
        if frag == [] {
          assert ReadLoop(before, data, pattern, printable) == ReadOutcome(Silence(data), conn.incoming);
          break;
        }
        if printable && !ValidUtf8(frag) {
          return Err(DecodeFailure);
        }
        data := data + frag;
        if pattern.Some? && pattern.value(data) {
          assert ReadLoop(before, data[..|data| - |frag|], pattern, printable) == ReadOutcome(Ok(data), conn.incoming) by {
            assert data[..|data| - |frag|] + frag == data;
          }
          return Ok(data);
        }
      }
      if data == [] {
        return Err(Timeout);
      }
      return Ok(data);
    }

    /** `do(action, param)`. */
    method Do(action: Bytes, param: Bytes) returns (r: Result<()>)
      modifies conn
      ensures r == WriteResult(Frame(Command.Do(action, param)), true)
      ensures conn.sent == old(conn.sent) + Written(Frame(Command.Do(action, param)), true)
      ensures conn.incoming == old(conn.incoming)
    {
      r := Write(Frame(Command.Do(action, param)), true);
    }

    /** `setvar(name, value)`. */
    method SetVar(name: Bytes, value: Bytes) returns (r: Result<()>)
      modifies conn
      ensures r == WriteResult(Frame(Setvar(name, value)), true)
      ensures conn.sent == old(conn.sent) + Written(Frame(Setvar(name, value)), true)
      ensures conn.incoming == old(conn.incoming)
    {
      r := Write(Frame(Setvar(name, value)), true);
    }

    /** `setint(name, value)`: the value is written as `str(value)`. */
    method SetInt(name: Bytes, value: Value) returns (r: Result<()>)
      modifies conn
      ensures r == WriteResult(Frame(Setvar(name, PyStr(value))), true)
      ensures conn.sent == old(conn.sent) + Written(Frame(Setvar(name, PyStr(value))), true)
      ensures conn.incoming == old(conn.incoming)
    {
      r := SetVar(name, PyStr(value));
    }

    /** `setbool(name, value)`: `on` for a truthy value, `off` otherwise. */
    method SetBool(name: Bytes, value: Value) returns (r: Result<()>)
      modifies conn
      ensures r == WriteResult(Frame(Setvar(name, OnOffToString(Truthy(value)))), true)
      ensures conn.sent == old(conn.sent) + Written(Frame(Setvar(name, OnOffToString(Truthy(value)))), true)
      ensures conn.incoming == old(conn.incoming)
    {
      r := SetVar(name, OnOffToString(Truthy(value)));
    }

    /** `getvar(name)`. */
    method GetVar(name: Bytes) returns (r: Result<Bytes>)
      modifies conn
      ensures var x := GetvarExchange(name, old(conn.incoming));
        conn.sent == old(conn.sent) + x.written && conn.incoming == x.rest && r == x.result
    {
      var w := Write(Frame(Getvar(name)), true);
      if w.Err? {
        return Err(w.error);
      }
      var data := Read(QUOTED_PATTERN, true);
      if data.Err? {
        return Err(data.error);
      }
      r := GetvarReply(name, data.value);
    }

    /** `getint(name)`. */
    method GetInt(name: Bytes) returns (r: Result<int>)
      modifies conn
      ensures var x := GetintExchange(name, old(conn.incoming));
        conn.sent == old(conn.sent) + x.written && conn.incoming == x.rest && r == x.result
    {
      var s := GetVar(name);
      if s.Err? {
        return Err(s.error);
      }
      r := IntFromString(s.value);
    }

    /** `getbool(name)`. */
    method GetBool(name: Bytes) returns (r: Result<bool>)
      modifies conn
      ensures var x := GetboolExchange(name, old(conn.incoming));
        conn.sent == old(conn.sent) + x.written && conn.incoming == x.rest && r == x.result
    {
      var s := GetVar(name);
      if s.Err? {
        return Err(s.error);
      }
      r := OnOffFromString(s.value);
    }

    /** `reset()`. */
    method Reset() returns (r: Result<()>)
      modifies conn
      ensures r == WriteResult(Frame(Command.Do(DEVICE_RESET, [])), true)
      ensures conn.sent == old(conn.sent) + Written(Frame(Command.Do(DEVICE_RESET, [])), true)
      ensures conn.incoming == old(conn.incoming)
    {
      r := Do(DEVICE_RESET, []);
    }

    /** `restore_defaults(category)`. */
    method RestoreDefaults(category: Bytes) returns (r: Result<()>)
      modifies conn
      ensures r == WriteResult(Frame(Command.Do(DEVICE_RESTORE_DEFAULTS, category)), true)
      ensures conn.sent == old(conn.sent) + Written(Frame(Command.Do(DEVICE_RESTORE_DEFAULTS, category)), true)
      ensures conn.incoming == old(conn.incoming)
    {
      r := Do(DEVICE_RESTORE_DEFAULTS, category);
    }

    /** `list()`. */
    method List() returns (r: Result<Bytes>)
      modifies conn
      ensures var x := ListExchange(old(conn.incoming));
        conn.sent == old(conn.sent) + x.written && conn.incoming == x.rest && r == x.result
    {
      var w := Do(FILE_DIR, []);
      if w.Err? {
        return Err(w.error);
      }
      var data := Read(None, true);
      if data.Err? {
        return Err(data.error);
      }
      if !ValidUtf8(data.value) {
        return Err(DecodeFailure);
      }
      r := Ok(Strip(data.value, QUOTE));
    }

    /** `delete(filename)`. */
    method Delete(filename: Bytes) returns (r: Result<()>)
      modifies conn
      ensures r == WriteResult(Frame(Command.Do(FILE_DELETE, filename)), true)
      ensures conn.sent == old(conn.sent) + Written(Frame(Command.Do(FILE_DELETE, filename)), true)
      ensures conn.incoming == old(conn.incoming)
    {
      r := Do(FILE_DELETE, filename);
    }

    /** `rename(oldname, newname)`: both names travel in the one parameter, separated by a space. */
    method Rename(oldname: Bytes, newname: Bytes) returns (r: Result<()>)
      modifies conn
      ensures r == WriteResult(Frame(Command.Do(FILE_RENAME, oldname + " " + newname)), true)
      ensures conn.sent == old(conn.sent) + Written(Frame(Command.Do(FILE_RENAME, oldname + " " + newname)), true)
      ensures conn.incoming == old(conn.incoming)
    {
      r := Do(FILE_RENAME, oldname + " " + newname);
    }

    /** `download(filename)`. */
    method Download(filename: Bytes) returns (r: Result<Bytes>)
      modifies conn
      ensures var x := DownloadExchange(filename, old(conn.incoming));
        conn.sent == old(conn.sent) + x.written && conn.incoming == x.rest && r == x.result
    {
      var w := Do(FILE_TYPE, filename);
      if w.Err? {
        return Err(w.error);
      }
      r := Read(None, false);
    }

    /** `upload(filename, content)`: one binary write, never logged as text. */
    method Upload(filename: Bytes, content: Bytes)
      modifies conn
      ensures conn.sent == old(conn.sent) + [UploadFrame(filename, content)]
      ensures conn.incoming == old(conn.incoming)
    {
      var _ := Write(UploadFrame(filename, content), false);
    }

    /** `upgrade(firmware)` as written: the image goes through the printable write path. */
    method UpgradeAsWritten(fw: Firmware) returns (r: Result<()>)
      modifies conn
      ensures r == WriteResult(Image(fw), true)
      ensures conn.sent == old(conn.sent) + Written(Image(fw), true)
      ensures conn.incoming == old(conn.incoming)
    {
      r := Write(Image(fw), true);
    }

    /** `upgrade(firmware)` writing the image as binary data: exactly its bytes, unframed. */
    method Upgrade(fw: Firmware)
      modifies conn
      ensures conn.sent == old(conn.sent) + [Image(fw)]
      ensures conn.incoming == old(conn.incoming)
    {
      var _ := Write(Image(fw), false);
    }

    /** `wifi_wpa_psk(essid, password)`. */
    method WifiWpaPsk(essid: Bytes, password: Option<Bytes>, kdf: Kdf) returns (r: Result<()>)
      modifies conn
      ensures var s := Sends(WpaPskPlan(essid, password, kdf));
        conn.sent == old(conn.sent) + s.written && r == s.result
      ensures conn.incoming == old(conn.incoming)
    {
      if password.None? {
        return Err(MissingPassword);
      }
      var psk := Psk(kdf, essid, password.value);
      WpaPskWrites(essid, password, kdf);
      WpaPskFramesText(essid, password.value, kdf);
      ghost var frames := WpaPskFrames(essid, password.value, kdf);
      assert ValidUtf8(frames[0]) && ValidUtf8(frames[1]) && ValidUtf8(frames[2]);
      r := SetBool(WLAN_WPA_ENABLE, Bool(true));
      r := SetVar(WLAN_WPA_AUTHENTICATION, AUTH_PSK);
      r := SetVar(WLAN_WPA_PSK, psk);
      assert frames == [frames[0]] + [frames[1]] + [frames[2]];
    }

    /** `getattr(self, 'wifi_%s' % auth)(essid, password)`: an unknown method is an error. */
    method WifiAuth(essid: Bytes, password: Option<Bytes>, auth: Bytes, kdf: Kdf) returns (r: Result<()>)
      modifies conn
      ensures var s := Sends(AuthPlan(essid, password, auth, kdf));
        conn.sent == old(conn.sent) + s.written && r == s.result
      ensures conn.incoming == old(conn.incoming)
    {
      if auth != WPA_PSK {
        return Err(UnsupportedAuth(auth));
      }
      r := WifiWpaPsk(essid, password, kdf);
    }

    /** The writes of `wifi` before it hands over to the authentication method. */
    method WifiHeadWrites(essid: Bytes, country: Option<Bytes>) returns (r: Result<()>)
      modifies conn
      ensures var h := HeadSends(essid, country);
        conn.sent == old(conn.sent) + h.written && r == h.result
      ensures conn.incoming == old(conn.incoming)
    {
      RestoreWlanText();
      r := RestoreDefaults(WLAN);
      r := SetVar(WLAN_ESSID, essid);
      if r.Err? {
        HeadStopsAtEssid(essid, country);
        return;
      }
      if country.Some? {
        r := SetVar(WLAN_COUNTRY_CODE, country.value);
        if r.Err? {
          HeadStopsAtCountry(essid, country);
          return;
        }
      }
      HeadAllWritten(essid, country);
    }

    /** `wifi(essid, password, auth, country)`. */
    method Wifi(essid: Bytes, password: Option<Bytes>, auth: Bytes, country: Option<Bytes>, kdf: Kdf) returns (r: Result<()>)
      modifies conn
      ensures var s := Sends(WifiPlan(essid, password, auth, country, kdf));
        conn.sent == old(conn.sent) + s.written && r == s.result
      ensures conn.incoming == old(conn.incoming)
    {
      r := WifiHeadWrites(essid, country);
      if r.Err? {
        WifiSplits(essid, password, auth, country, kdf);
        return;
      }
      r := WifiAuth(essid, password, auth, kdf);
      WifiSplits(essid, password, auth, country, kdf);
    }
  }

  /**
   * As written, `upgrade` sends a firmware image only when the log can
   * decode it as text: an image holding the byte 0xFF, which no UTF-8 text
   * contains, fails before anything reaches the printer.
   */
  lemma UpgradeAsWrittenDropsBinary(fw: Firmware)
    requires (0xFF as char) in Image(fw)
    ensures WriteResult(Image(fw), true) == Err(DecodeFailure)
    ensures Written(Image(fw), true) == []
  {
    if ValidUtf8(Image(fw)) {
      ValidUtf8NoFF(Image(fw));
    }
  }
}
