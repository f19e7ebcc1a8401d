/**
 * The wire format of Zebra's Set-Get-Do (SGD) command language as the
 * printer tool speaks it: the three one-line commands, the file-upload
 * frame, and the quoted reply a `getvar` waits for.
 */
module Sgd {
  import opened Bytes
  import opened Errors
  import opened Numerals

  const CRLF: Bytes := "\r\n"

  /** A one-line SGD command. */
  datatype Command =
    | Getvar(name: Bytes)
    | Setvar(name: Bytes, value: Bytes)
    | Do(action: Bytes, param: Bytes)

  /** The text in front of each command's first quoted argument, and between its two arguments. */
  const GETVAR_HEAD: Bytes := "! U1 getvar "
  const SETVAR_HEAD: Bytes := "! U1 setvar "
  const DO_HEAD: Bytes := "! U1 do "
  const SPACE: Bytes := " "

  /** The bytes written for a command; arguments are quoted but not escaped. */
  function Frame(c: Command): (f: Bytes)
    ensures |f| >= 7 && f[..5] == "! U1 " && f[|f| - 2..] == CRLF
  {
    match c
    case Getvar(name) => GETVAR_HEAD + [QUOTE] + name + [QUOTE] + CRLF
    case Setvar(name, value) => SETVAR_HEAD + [QUOTE] + name + [QUOTE] + SPACE + [QUOTE] + value + [QUOTE] + CRLF
    case Do(action, param) => DO_HEAD + [QUOTE] + action + [QUOTE] + SPACE + [QUOTE] + param + [QUOTE] + CRLF
  }

  /** Every argument of the command is text (valid UTF-8). */
  predicate TextArguments(c: Command)
  {
    match c
    case Getvar(name) => ValidUtf8(name)
    case Setvar(name, value) => ValidUtf8(name) && ValidUtf8(value)
    case Do(action, param) => ValidUtf8(action) && ValidUtf8(param)
  }

  predicate Ascii(s: Bytes)
  {
    forall k :: 0 <= k < |s| ==> s[k] as int < 0x80
  }

  lemma Utf8Join5(pre: Bytes, a: Bytes, mid: Bytes, b: Bytes, post: Bytes)
    requires Ascii(pre) && Ascii(mid) && Ascii(post)
    requires ValidUtf8(a) && ValidUtf8(b)
    ensures ValidUtf8(pre + a + mid + b + post)
  {
    AsciiIsUtf8(pre);
    AsciiIsUtf8(mid);
    AsciiIsUtf8(post);
    ValidUtf8Append(pre, a);
    ValidUtf8Append(pre + a, mid);
    ValidUtf8Append(pre + a + mid, b);
    ValidUtf8Append(pre + a + mid + b, post);
  }

  /** A frame built from text is text: the framing adds only ASCII. */
  lemma FrameUtf8(c: Command)
    requires TextArguments(c)
    ensures ValidUtf8(Frame(c))
  {
    match c
    case Getvar(name) => GetvarUtf8(name);
    case Setvar(name, value) =>
      assert Ascii(SETVAR_HEAD);
      TwoArgumentUtf8(SETVAR_HEAD, name, value);
    case Do(action, param) =>
      assert Ascii(DO_HEAD);
      TwoArgumentUtf8(DO_HEAD, action, param);
  }

  lemma GetvarUtf8(name: Bytes)
    requires ValidUtf8(name)
    ensures ValidUtf8(GETVAR_HEAD + [QUOTE] + name + [QUOTE] + CRLF)
  {
    Utf8Between(GETVAR_HEAD + [QUOTE], name, [QUOTE] + CRLF);
    assert (GETVAR_HEAD + [QUOTE]) + name + ([QUOTE] + CRLF) == GETVAR_HEAD + [QUOTE] + name + [QUOTE] + CRLF;
  }

  lemma TwoArgumentUtf8(head: Bytes, a: Bytes, b: Bytes)
    requires Ascii(head) && ValidUtf8(a) && ValidUtf8(b)
    ensures ValidUtf8(head + [QUOTE] + a + [QUOTE] + SPACE + [QUOTE] + b + [QUOTE] + CRLF)
  {
    var x := head + [QUOTE] + a;
    var y := x + [QUOTE] + SPACE + [QUOTE];
    Utf8Between(head + [QUOTE], a, [QUOTE] + SPACE + [QUOTE]);
    assert y == (head + [QUOTE]) + a + ([QUOTE] + SPACE + [QUOTE]);
    Utf8Between(y, b, [QUOTE] + CRLF);
    assert y + b + [QUOTE] + CRLF == y + b + ([QUOTE] + CRLF);
  }

  /** Text between two pieces of ASCII, or text, then text, then ASCII, is text. */
  lemma Utf8Between(pre: Bytes, a: Bytes, post: Bytes)
    requires (Ascii(pre) || ValidUtf8(pre)) && ValidUtf8(a) && Ascii(post)
    ensures ValidUtf8(pre + a + post)
  {
    if Ascii(pre) {
      AsciiIsUtf8(pre);
    }
    AsciiIsUtf8(post);
    ValidUtf8Append(pre, a);
    ValidUtf8Append(pre + a, post);
  }

  /** Every argument of the command is ASCII. */
  predicate AsciiArguments(c: Command)
  {
    match c
    case Getvar(name) => Ascii(name)
    case Setvar(name, value) => Ascii(name) && Ascii(value)
    case Do(action, param) => Ascii(action) && Ascii(param)
  }

  /** A command whose arguments are ASCII has a frame that is text. */
  lemma FrameAscii(c: Command)
    requires AsciiArguments(c)
    ensures ValidUtf8(Frame(c))
  {
    match c {
      case Getvar(name) => AsciiIsUtf8(name);
      case Setvar(name, value) => AsciiIsUtf8(name); AsciiIsUtf8(value);
      case Do(action, param) => AsciiIsUtf8(action); AsciiIsUtf8(param);
    }
    FrameUtf8(c);
  }

  /** Setting a variable with an ASCII name to text gives a frame that is text. */
  lemma SetvarText(name: Bytes, value: Bytes)
    requires Ascii(name) && ValidUtf8(value)
    ensures ValidUtf8(Frame(Setvar(name, value)))
  {
    AsciiIsUtf8(name);
    FrameUtf8(Setvar(name, value));
  }

  /** No argument of the command contains a double quote. */
  predicate QuoteFree(c: Command)
  {
    match c
    case Getvar(name) => QUOTE !in name
    case Setvar(name, value) => QUOTE !in name && QUOTE !in value
    case Do(action, param) => QUOTE !in action && QUOTE !in param
  }

  /** The text between the quotes of a frame, as a receiver that splits at every quote sees it. */
  function Pieces(c: Command): seq<Bytes>
  {
    match c
    case Getvar(name) => [GETVAR_HEAD, name, []]
    case Setvar(name, value) => [SETVAR_HEAD, name, SPACE, value, []]
    case Do(action, param) => [DO_HEAD, action, SPACE, param, []]
  }

  lemma Join3(pre: Bytes, a: Bytes)
    ensures Join([pre, a, []], QUOTE) == pre + [QUOTE] + a + [QUOTE]
  {
    assert [pre, a, []][1..] == [a, []];
    assert [a, []][1..] == [[]];
    assert Join([a, []], QUOTE) == a + [QUOTE];
  }

  lemma Join5(pre: Bytes, a: Bytes, mid: Bytes, b: Bytes)
    ensures Join([pre, a, mid, b, []], QUOTE) == pre + [QUOTE] + a + [QUOTE] + mid + [QUOTE] + b + [QUOTE]
  {
    assert [pre, a, mid, b, []][1..] == [a, mid, b, []];
    assert [a, mid, b, []][1..] == [mid, b, []];
    assert [mid, b, []][1..] == [b, []];
    assert [b, []][1..] == [[]];
    assert Join([b, []], QUOTE) == b + [QUOTE];
    assert Join([mid, b, []], QUOTE) == mid + [QUOTE] + b + [QUOTE];
    assert Join([a, mid, b, []], QUOTE) == a + [QUOTE] + mid + [QUOTE] + b + [QUOTE];
  }

  /** A frame is its pieces joined by quotes, then CR LF. */
  lemma FrameIsJoin(c: Command)
    ensures Frame(c) == Join(Pieces(c), QUOTE) + CRLF
  {
    match c
    case Getvar(name) =>
      Join3(GETVAR_HEAD, name);
    case Setvar(name, value) =>
      Join5(SETVAR_HEAD, name, SPACE, value);
    case Do(action, param) =>
      Join5(DO_HEAD, action, SPACE, param);
  }

  /** A receiver's reading of a frame: drop the final CR LF and split at the quotes. */
  function ParseCommand(f: Bytes): Option<Command>
  {
    if |f| < 2 || f[|f| - 2..] != CRLF then None
    else
      var parts := Split(f[..|f| - 2], QUOTE);
      if |parts| == 3 && parts[0] == GETVAR_HEAD && parts[2] == [] then
        Some(Getvar(parts[1]))
      else if |parts| == 5 && parts[0] == SETVAR_HEAD && parts[2] == SPACE && parts[4] == [] then
        Some(Setvar(parts[1], parts[3]))
      else if |parts| == 5 && parts[0] == DO_HEAD && parts[2] == SPACE && parts[4] == [] then
        Some(Do(parts[1], parts[3]))
      else None
  }

  lemma PiecesQuoteFree(c: Command)
    requires QuoteFree(c)
    ensures forall k :: 0 <= k < |Pieces(c)| ==> QUOTE !in Pieces(c)[k]
  {
    assert QUOTE !in SPACE;
    match c
    case Getvar(_) => assert QUOTE !in GETVAR_HEAD;
    case Setvar(_, _) => assert QUOTE !in SETVAR_HEAD;
    case Do(_, _) => assert QUOTE !in DO_HEAD;
  }

  lemma ParsePieces(body: Bytes, c: Command)
    requires Split(body, QUOTE) == Pieces(c)
    ensures ParseCommand(body + CRLF) == Some(c)
  {
    var f := body + CRLF;
    assert f[..|f| - 2] == body;
    assert f[|f| - 2..] == CRLF;
    var parts := Split(body, QUOTE);
    match c
    case Getvar(_) =>
      assert |parts| == 3 && parts[0] == GETVAR_HEAD;
    case Setvar(_, _) =>
      assert |parts| == 5 && parts[0] == SETVAR_HEAD && parts[0] != GETVAR_HEAD;
    case Do(_, _) =>
      assert |parts| == 5 && parts[0] == DO_HEAD && parts[0] != SETVAR_HEAD;
  }

  /** A command whose arguments hold no quote is read back as itself. */
  lemma ParseFrame(c: Command)
    requires QuoteFree(c)
    ensures ParseCommand(Frame(c)) == Some(c)
  {
    FrameIsJoin(c);
    PiecesQuoteFree(c);
    SplitJoin(Pieces(c), QUOTE);
    ParsePieces(Join(Pieces(c), QUOTE), c);
  }

  /** Whatever a receiver reads as a command is exactly that command's frame. */
  lemma ParsedFrame(f: Bytes)
    requires ParseCommand(f).Some?
    ensures Frame(ParseCommand(f).value) == f
  {
    var body := f[..|f| - 2];
    var c := ParseCommand(f).value;
    ParsedPieces(f);
    JoinSplit(body, QUOTE);
    FrameIsJoin(c);
    assert f == body + f[|f| - 2..];
  }

  /** The pieces of a parsed command are the pieces the receiver split the frame into. */
  lemma ParsedPieces(f: Bytes)
    requires ParseCommand(f).Some?
    ensures |f| >= 2 && f[|f| - 2..] == CRLF
    ensures Pieces(ParseCommand(f).value) == Split(f[..|f| - 2], QUOTE)
  {
    var parts := Split(f[..|f| - 2], QUOTE);
    if |parts| == 3 {
      assert parts == [parts[0], parts[1], parts[2]];
    } else {
      assert parts == [parts[0], parts[1], parts[2], parts[3], parts[4]];
    }
  }

  /** With no escaping, a quote inside an argument makes two different commands share one frame. */
  lemma QuotesAreAmbiguous()
    ensures Setvar("a\" \"b", "c") != Setvar("a", "b\" \"c")
    ensures Frame(Setvar("a\" \"b", "c")) == Frame(Setvar("a", "b\" \"c"))
  {
  }

  // ---------------------------------------------------------------------------
  // File upload

  const UPLOAD_HEADER: Bytes := "! CISDFCRC16\r\n0000\r\n"
  const UPLOAD_CRC: Bytes := "0000\r\n"

  /** The upload frame: header, file name, content length as at least eight lower-case hex digits, a zero CRC, then the raw content. */
  function UploadFrame(name: Bytes, content: Bytes): (f: Bytes)
    ensures |f| >= |UPLOAD_HEADER| + |content| && f[..|UPLOAD_HEADER|] == UPLOAD_HEADER && f[|f| - |content|..] == content
  {
    UPLOAD_HEADER + name + CRLF + HexField(|content|, 8) + CRLF + UPLOAD_CRC + content
  }

  /** The text of `r` up to its first CR LF, and what follows the CR LF. */
  function SplitLine(r: Bytes): Option<(Bytes, Bytes)>
  {
    if '\r' !in r then None
    else
      var i := IndexOf(r, '\r');
      if i + 1 < |r| && r[i + 1] == '\n' then Some((r[..i], r[i + 2..])) else None
  }

  lemma SplitLineAfter(x: Bytes, rest: Bytes)
    requires '\r' !in x
    ensures SplitLine(x + CRLF + rest) == Some((x, rest))
  {
    var r := x + CRLF + rest;
    assert r == x + (CRLF + rest);
    IndexOfAfter(x, CRLF + rest, '\r');
    assert r[..|x|] == x;
    assert r[|x| + 2..] == rest;
  }

  /**
   * A receiver's reading of an upload frame: the header, the name line, a
   * hexadecimal length line, the CRC line, and then exactly that many bytes
   * of content.
   */
  function ParseUpload(f: Bytes): Option<(Bytes, Bytes)>
  {
    var h := |UPLOAD_HEADER|;
    if |f| < h || f[..h] != UPLOAD_HEADER then None
    else
      match SplitLine(f[h..])
      case None => None
      case Some((name, r)) =>
        match SplitLine(r)
        case None => None
        case Some((field, r')) =>
          var w := |UPLOAD_CRC|;
          if field == [] || !AllDigits(field, 16) || |r'| < w || r'[..w] != UPLOAD_CRC then None
          else if ValueOf(field, 16) != |r'| - w then None
          else Some((name, r'[w..]))
  }

  lemma ParseUploadSteps(f: Bytes, name: Bytes, rest: Bytes, field: Bytes, content: Bytes)
    requires |f| >= |UPLOAD_HEADER| && f[..|UPLOAD_HEADER|] == UPLOAD_HEADER
    requires SplitLine(f[|UPLOAD_HEADER|..]) == Some((name, rest))
    requires SplitLine(rest) == Some((field, UPLOAD_CRC + content))
    requires field != [] && AllDigits(field, 16) && ValueOf(field, 16) == |content|
    ensures ParseUpload(f) == Some((name, content))
  {
    var tail := UPLOAD_CRC + content;
    assert tail[..|UPLOAD_CRC|] == UPLOAD_CRC && tail[|UPLOAD_CRC|..] == content;
  }

  lemma ParseUploadFields(name: Bytes, field: Bytes, content: Bytes)
    requires '\r' !in name && '\r' !in field
    requires field != [] && AllDigits(field, 16) && ValueOf(field, 16) == |content|
    ensures ParseUpload(UPLOAD_HEADER + name + CRLF + field + CRLF + UPLOAD_CRC + content) == Some((name, content))
  {
    var f := UPLOAD_HEADER + name + CRLF + field + CRLF + UPLOAD_CRC + content;
    var h := |UPLOAD_HEADER|;
    var tail := UPLOAD_CRC + content;
    var rest := field + CRLF + tail;
    assert f[..h] == UPLOAD_HEADER && f[h..] == name + CRLF + rest by {
      assert f == UPLOAD_HEADER + (name + CRLF + rest);
    }
    assert SplitLine(f[h..]) == Some((name, rest)) by {
      SplitLineAfter(name, rest);
    }
    assert SplitLine(rest) == Some((field, tail)) by {
      SplitLineAfter(field, tail);
    }
    ParseUploadSteps(f, name, rest, field, content);
  }

  /** A receiver recovers the name and the content of an upload whose name holds no carriage return. */
  lemma UploadRoundTrip(name: Bytes, content: Bytes)
    requires '\r' !in name
    ensures ParseUpload(UploadFrame(name, content)) == Some((name, content))
  {
    var field := HexField(|content|, 8);
    HexFieldValue(|content|, 8);
    assert '\r' !in field by {
      assert forall k :: 0 <= k < |field| ==> IsLowerHexDigit(field[k]);
    }
    ParseUploadFields(name, field, content);
  }

  /** The length field is exactly eight digits wide for any file below 4 GiB. */
  lemma UploadLengthWidth(content: Bytes)
    requires |content| < 0x1_0000_0000
    ensures |HexField(|content|, 8)| == 8
  {
    HexField8(|content|);
  }

  // ---------------------------------------------------------------------------
  // Replies

  /** The reply to a `getvar` for an unknown variable. */
  const UNKNOWN_REPLY: Bytes := "\"?\""

  /**
   * `re.match(br'".+?"$', data)`: a quote, at least one byte other than a
   * newline, a quote, and then the end of the buffer or a single newline
   * that ends it.
   */
  predicate QuotedReply(data: Bytes)
  {
    var c := ChompNewline(data);
    |c| >= 3 && c[0] == QUOTE && c[|c| - 1] == QUOTE && NEWLINE !in c[1..|c| - 1]
  }

  /** Every buffer of the shape the pattern describes matches it. */
  lemma QuotedReplyIntro(m: Bytes, t: Bytes)
    requires |m| >= 1 && NEWLINE !in m
    requires t == [] || t == [NEWLINE]
    ensures QuotedReply([QUOTE] + m + [QUOTE] + t)
  {
    var d := [QUOTE] + m + [QUOTE] + t;
    assert ChompNewline(d) == [QUOTE] + m + [QUOTE];
    assert ChompNewline(d)[1..|ChompNewline(d)| - 1] == m;
  }

  /** Every buffer that matches has the shape the pattern describes. */
  lemma QuotedReplyParts(data: Bytes) returns (m: Bytes, t: Bytes)
    requires QuotedReply(data)
    ensures |m| >= 1 && NEWLINE !in m && (t == [] || t == [NEWLINE])
    ensures data == [QUOTE] + m + [QUOTE] + t
  {
    var c := ChompNewline(data);
    m := c[1..|c| - 1];
    t := data[|c|..];
    assert c == [QUOTE] + m + [QUOTE];
  }

  /**
   * What `getvar` makes of the bytes it read: they must decode as UTF-8,
   * `"?"` means the variable is unknown, and anything else is returned with
   * every leading and trailing quote removed.
   */
  function GetvarReply(name: Bytes, data: Bytes): (r: Result<Bytes>)
    ensures r.Err? <==> !ValidUtf8(data) || data == UNKNOWN_REPLY
    ensures r == Err(UnknownVariable(name)) <==> ValidUtf8(data) && data == UNKNOWN_REPLY
    ensures r.Err? ==> r.error == DecodeFailure || r.error == UnknownVariable(name)
    ensures r.Ok? ==> r.value == [] || (r.value[0] != QUOTE && r.value[|r.value| - 1] != QUOTE)
    ensures r.Ok? ==> r.value == Strip(data, QUOTE)
  {
    if !ValidUtf8(data) then Err(DecodeFailure)
    else if data == UNKNOWN_REPLY then Err(UnknownVariable(name))
    else Ok(Strip(data, QUOTE))
  }

  /** A value in quotes reads back as the value, unless it is "?" or itself starts or ends with a quote. */
  lemma GetvarReplyQuoted(name: Bytes, v: Bytes)
    requires ValidUtf8(v) && v != "?"
    requires v == [] || (v[0] != QUOTE && v[|v| - 1] != QUOTE)
    ensures GetvarReply(name, [QUOTE] + v + [QUOTE]) == Ok(v)
  {
    var d := [QUOTE] + v + [QUOTE];
    AsciiIsUtf8([QUOTE]);
    ValidUtf8Append([QUOTE], v);
    ValidUtf8Append([QUOTE] + v, [QUOTE]);
    StripWrapped(v, QUOTE);
  }

  // ---------------------------------------------------------------------------
  // An echoing printer

  /**
   * A printer that remembers what `setvar` sets and answers `getvar` with the
   * remembered value in quotes, or with `"?"` for a name it never saw.
   * Returns the new store and the reply bytes.
   */
  function Respond(vars: map<Bytes, Bytes>, c: Command): (map<Bytes, Bytes>, Bytes)
  {
    match c
    case Getvar(name) => (vars, if name in vars then [QUOTE] + vars[name] + [QUOTE] else UNKNOWN_REPLY)
    case Setvar(name, value) => (vars[name := value], [])
    case Do(_, _) => (vars, [])
  }

  /** After setting a value, getting it back reads the echo as that value. */
  lemma EchoSetGet(vars: map<Bytes, Bytes>, name: Bytes, v: Bytes)
    requires ValidUtf8(v) && v != "?"
    requires v == [] || (v[0] != QUOTE && v[|v| - 1] != QUOTE)
    ensures var vars' := Respond(vars, Setvar(name, v)).0;
      GetvarReply(name, Respond(vars', Getvar(name)).1) == Ok(v)
  {
    var vars' := vars[name := v];
    assert Respond(vars', Getvar(name)).1 == [QUOTE] + v + [QUOTE];
    GetvarReplyQuoted(name, v);
  }

  lemma UnknownReplyText()
    ensures ValidUtf8(UNKNOWN_REPLY)
  {
    AsciiIsUtf8(UNKNOWN_REPLY);
  }

  /** Getting a name the printer never saw fails with UnknownVariableError. */
  lemma EchoUnknown(vars: map<Bytes, Bytes>, name: Bytes)
    requires name !in vars
    ensures GetvarReply(name, Respond(vars, Getvar(name)).1) == Err(UnknownVariable(name))
  {
    UnknownReplyText();
  }

  /** Setting the value "?" is indistinguishable from an unknown variable when read back. */
  lemma EchoQuestionMark(vars: map<Bytes, Bytes>, name: Bytes)
    ensures var vars' := Respond(vars, Setvar(name, "?")).0;
      GetvarReply(name, Respond(vars', Getvar(name)).1) == Err(UnknownVariable(name))
  {
    var vars' := Respond(vars, Setvar(name, "?")).0;
    assert vars'[name] == "?";
    assert Respond(vars', Getvar(name)).1 == [QUOTE] + "?" + [QUOTE];
    assert [QUOTE] + "?" + [QUOTE] == UNKNOWN_REPLY;
    UnknownReplyText();
  }
}
