# zebconf in Dafny

A model of the core of `zebconf`, a tool that configures Zebra label printers
over USB, a device file or the network, together with proofs about that model.
The tool speaks Zebra's Set-Get-Do (SGD) command language. It writes one-line
`getvar`, `setvar` and `do` frames, plus a binary frame for file upload. It
reads replies by accumulating fragments until the whole buffer matches a
pattern or the printer falls silent.

The model has four parts.

- **The printer** is `Device.ZebraDevice`, a class over a `Device.Connection`.
  The connection records every write in `sent`. It hands back, one read at a
  time, the reply fragments in `incoming`; an empty fragment is a read that
  timed out. Each device method is proved against a function of the
  connection's old state: `ReadLoop`, `GetvarExchange`, `Sends(WifiPlan(...))`.
  The lemmas beside those functions say what the commands write, in which
  order, what they return, and when each error fires.
- **The typed configuration overlay** is `Config`. A chain of namespace
  blocks (`Scope`) forwards an item to its parent, with the block's key and a
  dot in front. The schema is the tree of blocks and variables from the root
  down to `wlan.wpa`. A leaf converts between a variable's string and a typed
  value: plain, integer, on/off or IPv4 address (`Values`). Writing a
  read-only leaf is refused.
- **Firmware package validation** is `Firmware`. A package is a list of
  archive entries. It must hold exactly one entry whose extension, once
  lower-cased, is `.zpl`. Its name without the extension is the version, and
  its bytes are the image.
- **The command-line micro-parsers** are `Cli`. They cover `name=value`
  arguments, the verbosity and log-level arithmetic, and how the `wifi`
  subcommand hands over to the device.

A Python `str` is modelled by its UTF-8 bytes (`Bytes.Bytes`). So
`str.encode()` is the identity, and `bytes.decode()` is the check
`Bytes.ValidUtf8`, whose failure is `Errors.DecodeFailure`. The tool reports
failures by raising exceptions. Here every operation that can raise returns an
`Errors.Result`, with one `Errors.Error` constructor per kind of exception.

PBKDF2 comes from a library and is passed in as a function `kdf`. The
printer's replies are the `incoming` fragments; the scenario lemmas name a
printer that echoes what was set (`Sgd.Respond`).

## Model

| member | source | states |
|---|---|---|
| Bytes.StripBy | zebconf/device.py:116 | the result is the slice of the input that starts after the leading run of stripped bytes; it neither starts nor ends with a stripped byte, and every byte after it is stripped |
| Bytes.Strip | zebconf/device.py:116 | `s.strip(c)` is the slice of `s` between its leading and its trailing run of `c`: every byte before and after the slice is `c`, and the slice neither starts nor ends with `c` |
| Bytes.StripWrapped | zebconf/device.py:116 | stripping `c` from `v` wrapped in one `c` on each side gives back `v`, unless `v` itself starts or ends with `c` |
| Bytes.ChompNewline | zebconf/device.py:113 | the part a regular expression's `$` can end at: the data itself, or the data less one trailing newline |
| Bytes.IndexOf | zebconf/cli.py:21 | the position of the first occurrence: it holds the byte and nothing before it does |
| Bytes.Split | zebconf/config.py:101 | `split` gives at least one piece, and no piece holds the separator |
| Bytes.JoinSplit | zebconf/config.py:99-105 | joining the pieces of a split restores the string |
| Bytes.SplitJoin | zebconf/config.py:99-105 | splitting a join of separator-free pieces restores the pieces |
| Bytes.JoinAll | zebconf/config.py:104-105 | a byte class that holds for the separator and for every byte of every piece holds for every byte of the join |
| Bytes.Lower | zebconf/firmware.py:25 | `lower()` on the ASCII letters keeps the length, leaves no ASCII capital, keeps every byte that is not a capital, and turns each capital into the small letter whose capital it is |
| Bytes.Upper | zebconf/device.py:177 | `upper()` on the ASCII letters keeps the length, leaves no ASCII small letter, keeps every byte that is not a small letter, and turns each small letter into the capital whose small letter it is |
| Bytes.CaseMappings | zebconf/firmware.py:25 | upper-casing forgets an earlier lower-casing and lower-casing forgets an earlier upper-casing: `s.lower().upper() == s.upper()` and `s.upper().lower() == s.lower()` |
| Bytes.Utf8Length | zebconf/device.py:66 | the length of the well-formed UTF-8 sequence at the head never exceeds the input, and an ASCII byte is a sequence of one |
| Bytes.ValidUtf8Append | zebconf/device.py:66 | text followed by text decodes |
| Bytes.AsciiIsUtf8 | zebconf/device.py:66 | ASCII bytes decode |
| Bytes.ValidUtf8NoFF | zebconf/device.py:66 | no text that `decode()` accepts holds the byte 0xFF |
| Numerals.Numeral | zebconf/config.py:78 | `str(n)` and `'%x' % n` are non-empty lower-case digits of the base, with no leading zero except for 0 itself |
| Numerals.NumeralValue | zebconf/config.py:72-78 | reading a numeral back gives the number written |
| Numerals.CanonicalDecimal | zebconf/config.py:101 | a decimal string without a superfluous leading zero is the numeral of its value |
| Numerals.HexFieldValue | zebconf/device.py:159-160 | `'%08x'` is as wide as asked or as the numeral, holds lower-case hex digits only, and reads back as the length |
| Numerals.HexField8 | zebconf/device.py:159-160 | a length below 2^32 fills exactly eight digits |
| Numerals.FormatInt | zebconf/device.py:104 | `str(i)` is non-empty, starts with a minus sign exactly for a negative number, and is otherwise decimal digits |
| Numerals.DropUnderscores | zebconf/config.py:74 | the result holds no underscore and is no longer than the input; digits and underscores become digits only, and a string without underscores is kept as it is |
| Numerals.DropUnderscoresAppend | zebconf/config.py:74 | removing the underscores of a concatenation is removing those of each part and concatenating |
| Numerals.DropUnderscoresBetween | zebconf/config.py:74 | an underscore between two digit groups is dropped and the groups are joined |
| Numerals.ParseInt | zebconf/config.py:72-74 | `int()` rejects a string of whitespace only, and a negative result needs a minus sign in the string |
| Numerals.IntRoundTrip | zebconf/config.py:72-78 | `int(str(i)) == i` for every integer |
| Numerals.Hexlify | zebconf/device.py:177 | `b2a_hex` gives two lower-case hex digits per byte |
| Numerals.UnhexlifyHexlify | zebconf/device.py:177 | the hex rendering decodes back to the raw bytes |
| Numerals.UpperHexShape | zebconf/device.py:177 | the upper-cased rendering is twice as long as the raw bytes, holds only 0-9 and A-F, and decodes back to them |
| Values.OnOffToString | zebconf/config.py:91-93 | the result is `on` or `off`, and it is `on` exactly for true |
| Values.OnOffFromString | zebconf/config.py:84-89 | it succeeds exactly on `on` and `off`, inverts `OnOffToString`, and otherwise fails with InvalidValue of the string |
| Values.OnOffRoundTrip | zebconf/config.py:84-93 | `from_string(to_string(b)) == b` |
| Values.IntFromString | zebconf/config.py:72-74 | a string `int()` rejects fails with InvalidValue of that string |
| Values.IntStringRoundTrip | zebconf/config.py:72-78 | `from_string(to_string(n)) == n` for every integer |
| Values.ParseIpv4 | zebconf/config.py:99-101 | a rejected string fails with InvalidValue of that string |
| Values.ParseOctet | zebconf/config.py:99-101 | an accepted octet is one to three decimal digits whose value it is |
| Values.Ipv4RoundTrip | zebconf/config.py:99-105 | parsing the dotted quad of an address gives the address back |
| Values.Ipv4Canonical | zebconf/config.py:99-105 | whatever parses is exactly the dotted quad of its address |
| Values.FormatIpv4 | zebconf/config.py:104-105 | `str()` of an address holds only digits and dots |
| Values.ToString | zebconf/config.py:58-105 | only a plain leaf given a non-string fails (`encode` is missing); an on/off leaf writes `on` exactly for a truthy value |
| Values.FromString | zebconf/config.py:58-101 | a success has the leaf's value type, a failure is InvalidValue of the string, and a plain leaf is the identity |
| Values.KindRoundTrip | zebconf/config.py:58-105 | every leaf class reads back the value of its own type that it wrote |
| Values.ToStringWireBytes | zebconf/config.py:72-105 | integer, on/off and address values are written in ASCII, without quote, question mark or newline |
| Values.PskShape | zebconf/config.py:151-154 | a 32-byte derived key becomes 64 upper-case hex digits that decode back to the key |
| Values.Psk | zebconf/config.py:151-154 | the key is twice as long as the derived bytes and decodes back to them |
| Sgd.FrameUtf8 | zebconf/device.py:92-100 | a frame built from text arguments is text |
| Sgd.FrameAscii | zebconf/device.py:92-100 | a frame built from ASCII arguments is text |
| Sgd.SetvarText | zebconf/device.py:97-100 | a setvar with an ASCII name and a text value is text |
| Sgd.FrameIsJoin | zebconf/device.py:92-112 | each frame is its fixed pieces and arguments joined by quotes, then CR LF |
| Sgd.ParseFrame | zebconf/device.py:92-112 | a receiver that splits at quotes reads a quote-free command back from its frame |
| Sgd.ParsedFrame | zebconf/device.py:92-112 | whatever a receiver reads as a command is exactly that command's frame |
| Sgd.QuotesAreAmbiguous | zebconf/device.py:97-100 | with no escaping, two different setvar commands share one frame |
| Sgd.Frame | zebconf/device.py:92-112 | every command frame starts with `! U1 ` and ends with CR LF |
| Sgd.UploadFrame | zebconf/device.py:157-160 | the upload frame starts with the fixed header and ends with the content, untouched |
| Sgd.UploadRoundTrip | zebconf/device.py:157-160 | a receiver recovers the name and the exact content from the upload frame, for any name without a carriage return |
| Sgd.UploadLengthWidth | zebconf/device.py:159-160 | the length field is exactly eight digits for any file below 4 GiB |
| Sgd.QuotedReplyIntro | zebconf/device.py:113 | every buffer of the shape quote, non-newline bytes, quote, optional newline matches `".+?"$` |
| Sgd.QuotedReplyParts | zebconf/device.py:113 | every buffer that matches `".+?"$` has that shape |
| Sgd.GetvarReply | zebconf/device.py:113-116 | it fails exactly on undecodable data or `"?"`: UnknownVariable exactly for `"?"`; a success is the reply with its quotes stripped, so it never starts or ends with a quote |
| Sgd.GetvarReplyQuoted | zebconf/device.py:113-116 | a quoted value reads back as the value, unless it is `?` or itself starts or ends with a quote |
| Sgd.EchoSetGet | zebconf/device.py:97-116 | with an echoing printer, a getvar after a setvar returns the value that was set |
| Sgd.EchoUnknown | zebconf/device.py:110-116 | a getvar of a name the printer never saw fails with UnknownVariable of that name |
| Sgd.EchoQuestionMark | zebconf/device.py:97-116 | setting the value `?` reads back as an unknown variable |
| Device.SelectTransport | zebconf/device.py:30-36 | USB exactly when no path is given, a device file exactly when the path holds a slash, and the network otherwise, each carrying the path |
| Device.Connection.constructor | zebconf/device.py:30-37 | a fresh connection has written nothing and will return the given fragments |
| Device.Connection.Write | zebconf/device.py:68 | a write appends the data to what was sent |
| Device.Connection.Read | zebconf/device.py:79 | a read returns the next fragment, or an empty one once nothing is left |
| Device.ReadLoop | zebconf/device.py:77-90 | the fragments not read are a suffix of those offered, and at least one is read whenever any is offered; a success extends the data already read and is never empty; a failure is a timeout, only with nothing read, or a decode error, only for a printable read |
| Device.ReadUntilSilence | zebconf/device.py:77-90 | when the printer falls silent after fragments that never completed the pattern, `read` returns their concatenation, or a timeout if there were none, and consumes the silent read |
| Device.ReadUntilMatch | zebconf/device.py:77-87 | `read` stops at the first fragment after which the whole buffer, not just that fragment, matches, and returns the buffer |
| Device.ReadUndecodable | zebconf/device.py:82-84 | a printable read fails at the first fragment that is not UTF-8 |
| Device.ReadNeverTimesOutWithData | zebconf/device.py:88-90 | once something was read, `read` never times out |
| Device.ReadTimeout | zebconf/device.py:88-89 | `read` times out exactly when the very first read brings nothing |
| Device.GetvarExchange | zebconf/device.py:110-116 | a getvar writes nothing or its one frame; writing nothing fails with a decode error and reads nothing |
| Device.GetintExchange | zebconf/device.py:118-120 | getint writes nothing or the getvar frame; writing nothing fails with a decode error and reads nothing |
| Device.GetboolExchange | zebconf/device.py:122-129 | getbool writes nothing or the getvar frame; writing nothing fails with a decode error and reads nothing |
| Device.ListExchange | zebconf/device.py:139-142 | `list` writes nothing or the `file.dir` frame, and a listing never starts or ends with a quote |
| Device.DownloadExchange | zebconf/device.py:152-155 | `download` writes nothing or the `file.type` frame; once it is written, the binary read fails only by timing out |
| Device.GetvarReads | zebconf/device.py:110-116 | a getvar writes its one frame, consumes the quoted reply and returns the value |
| Device.GetintReads | zebconf/device.py:118-120 | getint reads back an integer the printer echoes as `str(i)` |
| Device.GetboolReads | zebconf/device.py:122-129 | getbool reads back the `on` or `off` the printer echoes |
| Device.GetvarReassembles | zebconf/device.py:85-86 | a reply split over two fragments is reassembled, because the opening quote alone does not match |
| Device.SendsValidPrefix | zebconf/device.py:63-68 | frames that can all be logged are all written, ahead of whatever follows |
| Device.SendsStopsAt | zebconf/device.py:63-68 | a frame that cannot be logged stops a sequence of writes after the frames before it |
| Device.SendsAllValid | zebconf/device.py:63-68 | a sequence whose frames can all be logged writes all of them and ends as planned |
| Device.Sends | zebconf/device.py:63-68 | a sequence of writes sends a prefix of its frames, all of them text; all of them means the planned ending, fewer means a decode error at the first frame that is not text |
| Device.SendsThen | zebconf/device.py:166-172 | one sequence of writes after another: the second starts only if every frame of the first was written |
| Device.WpaPskPlan | zebconf/device.py:174-180 | `wifi_wpa_psk` succeeds exactly when a password is given, and without one writes nothing |
| Device.AuthPlan | zebconf/device.py:172 | the method succeeds exactly for `wpa_psk` with a password; any other method writes nothing and fails with UnsupportedAuth |
| Device.WifiPlan | zebconf/device.py:166-172 | `wifi` plans the restore, the ESSID and the optional country code first, and succeeds exactly for `wpa_psk` with a password |
| Device.WpaPskFramesText | zebconf/device.py:174-180 | every frame of `wifi_wpa_psk` is text, since the key is upper-case hex |
| Device.WpaPskWrites | zebconf/device.py:174-180 | with a password, `wifi_wpa_psk` writes WPA on, PSK authentication and the derived key, in that order, and succeeds; without one it fails before writing anything |
| Device.WifiWrites | zebconf/device.py:166-180 | with a text ESSID and country code, `wifi` writes the restore of the wireless defaults, the ESSID, the country code if given, then the method's settings; it fails only for an unknown method or a missing password |
| Device.WifiHeadText | zebconf/device.py:166-171 | the writes before the method are text when the ESSID and the country are |
| Device.WifiSplits | zebconf/device.py:166-172 | `wifi` runs the method's writes only if all the writes before them succeeded |
| Device.WifiStopsAtEssid | zebconf/device.py:168-169 | an ESSID that is not text stops `wifi` after the restore of the wireless defaults |
| Device.WifiStopsAtCountry | zebconf/device.py:169-171 | a country code that is not text stops `wifi` after the ESSID |
| Device.ZebraDevice.constructor | zebconf/device.py:30-37 | the transport follows the path, and the timeout is the given one or 2.0 seconds |
| Device.ZebraDevice.Write | zebconf/device.py:63-68 | printable data that is not UTF-8 fails in the log and is never sent; everything else is sent as it is |
| Device.ZebraDevice.Read | zebconf/device.py:70-90 | the loop returns what `ReadLoop` says for the fragments that were to come, and consumes exactly the fragments it read |
| Device.ZebraDevice.Do | zebconf/device.py:92-95 | writes the `do` frame of the action and the parameter |
| Device.ZebraDevice.SetVar | zebconf/device.py:97-100 | writes the `setvar` frame of the name and the value |
| Device.ZebraDevice.SetInt | zebconf/device.py:102-104 | writes the setvar of `str(value)` |
| Device.ZebraDevice.SetBool | zebconf/device.py:106-108 | writes the setvar of `on` for a truthy value and of `off` otherwise |
| Device.ZebraDevice.GetVar | zebconf/device.py:110-116 | writes the getvar frame, reads up to the quoted reply and returns what `GetvarReply` makes of it |
| Device.ZebraDevice.GetInt | zebconf/device.py:118-120 | getvar, then `int()` of the value |
| Device.ZebraDevice.GetBool | zebconf/device.py:122-129 | getvar, then `on`/`off` to a boolean, anything else an InvalidValue |
| Device.ZebraDevice.Reset | zebconf/device.py:131-133 | writes `do "device.reset" ""` |
| Device.ZebraDevice.RestoreDefaults | zebconf/device.py:135-137 | writes `do "device.restore_defaults"` with the category |
| Device.ZebraDevice.List | zebconf/device.py:139-142 | `file.dir`, then everything until silence, decoded and stripped of quotes |
| Device.ZebraDevice.Delete | zebconf/device.py:144-146 | writes `do "file.delete"` with the file name |
| Device.ZebraDevice.Rename | zebconf/device.py:148-150 | writes `do "file.rename"` with both names in one parameter, separated by a space |
| Device.ZebraDevice.Download | zebconf/device.py:152-155 | `file.type` with the name, then the raw bytes until silence, which are never decoded |
| Device.ZebraDevice.Upload | zebconf/device.py:157-160 | exactly one write, the upload frame, whatever the content |
| Device.ZebraDevice.UpgradeAsWritten | zebconf/device.py:162-164 | as written, the image goes through the printable write and is sent only if it decodes as UTF-8 |
| Device.UpgradeAsWrittenDropsBinary | zebconf/device.py:162-164 | as written, an image holding the byte 0xFF fails with a decode error and nothing is sent |
| Device.ZebraDevice.Upgrade | zebconf/device.py:162-164 | exactly the image's bytes are written, unframed |
| Device.ZebraDevice.WifiWpaPsk | zebconf/device.py:174-180 | carries out the `wifi_wpa_psk` writes that `WpaPskWrites` describes |
| Device.ZebraDevice.WifiAuth | zebconf/device.py:172 | an unknown authentication method fails with UnsupportedAuth before any write; `wpa_psk` is `wifi_wpa_psk` |
| Device.ZebraDevice.WifiHeadWrites | zebconf/device.py:166-171 | the restore of the wireless defaults, the ESSID and the optional country code, stopping at the first write that fails |
| Device.ZebraDevice.Wifi | zebconf/device.py:166-172 | carries out the writes that `WifiWrites`, `WifiStopsAtEssid` and `WifiStopsAtCountry` describe |
| Firmware.RFind | zebconf/firmware.py:25 | the position of the last occurrence, or -1 when there is none |
| Firmware.SplitExt | zebconf/firmware.py:25 | stem and extension concatenate to the name; the extension is empty or a dot followed by neither dots nor slashes, and starts at the last dot, after the last slash; when it is empty, everything between the last slash and the last dot is dots |
| Firmware.Zpls | zebconf/firmware.py:24-25 | exactly the qualifying entries are kept |
| Firmware.Load | zebconf/firmware.py:21-34 | a loaded firmware is one of the package's entries and qualifies; a refusal is for no payload or for several |
| Firmware.Version | zebconf/firmware.py:43-46 | the version is a prefix of the entry name, and what it leaves off holds no slash |
| Firmware.ZplsEmpty | zebconf/firmware.py:24-27 | the selection is empty exactly when no entry qualifies |
| Firmware.LoadNoPayload | zebconf/firmware.py:26-27 | a package is refused for having no `.zpl` entry exactly when none qualifies |
| Firmware.LoadMultiple | zebconf/firmware.py:30-31 | a package with two qualifying entries is refused |
| Firmware.LoadSingle | zebconf/firmware.py:32-34 | with exactly one qualifying entry, the firmware is that entry's name and bytes |
| Firmware.VersionPlusExtension | zebconf/firmware.py:43-46 | the version followed by a four-byte extension that lower-cases to `.zpl` gives back the entry name |
| Firmware.UpperCaseQualifies | zebconf/firmware.py:24-25 | `A.ZPL` qualifies |
| Firmware.InnerExtensionDoesNotQualify | zebconf/firmware.py:24-25 | `x.zpl.bak` does not qualify: only the last extension counts |
| Firmware.DotFileDoesNotQualify | zebconf/firmware.py:24-25 | the dot file `.zpl` has no extension and does not qualify |
| Firmware.DirectoryKeptInVersion | zebconf/firmware.py:43-46 | the version of `fw/V1.zpl` is `fw/V1`, directory part kept |
| Config.ResolvePrefix | zebconf/config.py:15-30 | forwarding through a chain of blocks is prefixing with all their keys, outermost first, and fails when the chain does not reach the printer |
| Config.Resolve | zebconf/config.py:26-30 | the device variable an item stands for ends with the item's own name |
| Config.Find | zebconf/config.py:108-185 | attribute lookup finds a member of that name, or reports that there is none |
| Config.BindLeaf | zebconf/config.py:32-35 | a path of attributes that reaches a variable is non-empty and ends with that variable's name |
| Config.BindResolve | zebconf/config.py:32-35 | the variable that a path of attributes reaches resolves to the path joined by dots, inside the starting scope |
| Config.RootResolve | zebconf/config.py:178-185 | from the root, a leaf reached by a path is the device variable named by the path joined by dots |
| Config.PskPath | zebconf/config.py:142-185 | `root.wlan.wpa.psk` is the variable `wlan.wpa.psk` |
| Config.EssidPath | zebconf/config.py:157-185 | `root.wlan.essid` is the variable `wlan.essid` |
| Config.GetExchange | zebconf/config.py:48-51 | a successful read returns a value of the leaf's type |
| Config.GetReadsFullName | zebconf/config.py:48-51 | reading a leaf is a getvar of the full dotted name: the same writes and reads, the getvar's error, or `from_string` of the value it returns; nothing happens without a printer at the end of the chain |
| Config.SetWritesOneFrame | zebconf/config.py:53-56 | a set writes at most one frame, the setvar of the full dotted name, and succeeds exactly when it writes it; a read-only leaf and a chain without a printer write nothing |
| Config.SetSending | zebconf/config.py:53-56 | a set writes at most one frame and succeeds whenever it writes; a read-only leaf writes nothing and fails |
| Config.TypedValueEchoable | zebconf/config.py:72-105 | what integer, on/off and address leaves write is always read back intact |
| Config.SetGetRoundTrip | zebconf/config.py:48-66 | setting a writable leaf and reading it back from an echoing printer returns the value set |
| Config.SetWritesText | zebconf/config.py:53-56 | setting a writable leaf of a block bound to the printer, with a text value string, writes that setvar of the full dotted name and succeeds |
| Config.GetReadsEcho | zebconf/config.py:48-51 | reading a leaf back from a printer that echoes a string writes the getvar of the full dotted name and returns `from_string` of that string |
| Config.Get | zebconf/config.py:48-51 | carries out the read that `GetExchange` describes |
| Config.Set | zebconf/config.py:53-56 | carries out the refusal or the write that `SetWritesOneFrame` describes |
| Config.SetPsk | zebconf/config.py:151-154 | sets the `psk` leaf to the upper-case hex of the key derived from password and ESSID in 4096 rounds with 32 bytes |
| Config.SetWpaPskExchange | zebconf/config.py:173-175 | `set_wpa_psk` writes at most two frames, and a success writes both |
| Config.SetWpaPsk | zebconf/config.py:173-175 | reads the block's ESSID and, if that succeeds, sets the nested `wpa` block's key from it |
| Config.SetWpaPskOnWlan | zebconf/config.py:173-175 | on `root.wlan`, `set_wpa_psk` writes the ESSID query and then only the same `wlan.wpa.psk` setting that `wifi_wpa_psk` writes |
| Config.EssidRead | zebconf/config.py:168-175 | reading `wlan.essid` from a printer that echoes it writes the getvar of `wlan.essid` and returns the ESSID |
| Config.PskSet | zebconf/config.py:149-154 | setting the `psk` leaf of `wlan.wpa` writes the same frame as the last one of `wifi_wpa_psk`, and succeeds |
| Cli.LineValue | zebconf/cli.py:21 | what `(.+)$` takes: a non-empty line without a newline, optionally followed by one newline |
| Cli.ParseNameValue | zebconf/cli.py:19-24 | a text that does not match fails with InvalidValue of that text |
| Cli.NameValueRoundTrip | zebconf/cli.py:19-24 | every well-formed pair reads back from its text, with or without a final newline, whatever `=` the value holds |
| Cli.NameValueCanonical | zebconf/cli.py:19-24 | whatever parses is a well-formed pair written out, so parsing accepts exactly those texts |
| Cli.NameValueSplitsAtFirstEquals | zebconf/cli.py:21 | `wlan.essid=a=b` sets `wlan.essid` to `a=b` |
| Cli.PyIndex | zebconf/cli.py:34 | `list.index` is the position of the first occurrence |
| Cli.PySubscript | zebconf/cli.py:107 | a subscript succeeds exactly for an index from minus the length to below the length, and gives an element of the list |
| Cli.Verbosity | zebconf/cli.py:34-35 | the verbosity is two, the position of INFO among the levels, plus the verbose flags minus the quiet ones |
| Cli.VerbosityLevels | zebconf/cli.py:30-35 | for the corrected, clamped log level: with no flags the level is INFO, one `-v` gives DEBUG, two give NOTSET, one `-q` gives WARNING, and more `-q` stay at ERROR |
| Cli.LogLevelAsWrittenQuiet | zebconf/cli.py:104-108 | as written, no flags give INFO, three `-q` give DEBUG, and seven raise IndexError |
| Cli.LogLevelAsWritten | zebconf/cli.py:104-108 | as written, the property fails exactly for a verbosity below minus four, and otherwise returns NOTSET or one of the four levels |
| Cli.LogLevel | zebconf/cli.py:104-108 | the level is NOTSET or one of the four levels |
| Cli.LogLevelMonotone | zebconf/cli.py:104-108 | more verbosity never raises the threshold |
| Cli.LogLevelAgrees | zebconf/cli.py:104-108 | the level as written and the clamped one agree whenever the verbosity is not negative |
| Cli.Wifi | zebconf/cli.py:174-181 | carries out `wifi` with the defaults for what was not given, then the reset unless `--no-reset` was given or `wifi` failed |
| Cli.WifiCommand | zebconf/cli.py:174-181 | the subcommand begins with what `wifi` writes, with `wpa_psk` when no method is given. When `wifi` succeeds, the subcommand is exactly those writes followed by the reset, which succeeds, or with `--no-reset` exactly those writes. When `wifi` fails, nothing follows and its error is returned |
| Cli.WifiCommandConfiguresThenResets | zebconf/cli.py:174-181 | with a password and no `--wpa-psk`, the subcommand writes the whole WPA-PSK configuration and then, unless told not to, the reset |
| Cli.WifiCommandWithoutPassword | zebconf/cli.py:174-181 | without a password the subcommand writes the restore of the wireless defaults, the network name and the country code if one was given, then fails with a missing password and does not reset |

## Left out

- `zebconf/connection.py` is not part of this model. The connection is a record of writes and a list of the fragments that successive reads return. The USB, device-file and network transports differ only in the constant `Device.Transport` the constructor picks.
- `open`, `close`, `__enter__`, `__exit__` and `__repr__` manage resources or render text; they are not modelled.
- `ZebraDevice.__getitem__` and `__setitem__` are thin aliases. The configuration overlay calls `GetVar` and `SetVar` directly where Python goes through them.
- The 16384-byte cap on one read and the timeout in seconds govern only the transport. A fragment is whatever one read returns, and a timeout is an empty fragment. `DEFAULT_TIMEOUT` is kept as a constant.
- Device.ZebraDevice.Write: the debug log is modelled only through its one effect on the program, the `decode()` of printable data. The log text and the hex rendering of binary data are left out.
- `str.encode()` cannot fail in the model, because a string is held as its UTF-8 bytes. Python's encode error for lone surrogates is left out.
- Bytes.Lower, Bytes.Upper: only the ASCII letters are mapped. Python's Unicode case mapping of `str.lower()` and `str.upper()` is left out, including mappings that change the length, such as `'ß'.upper() == 'SS'`. Neither call site depends on it. At `firmware.py:25` the lower-cased extension is compared with `.zpl`: no non-ASCII character lower-cases to `z`, `p`, `l` or `.`, and a non-ASCII character that stays non-ASCII fails the comparison under either mapping. At `device.py:177` the upper-cased text is hex digits only.
- Cli.NameChar: `\w` is taken as ASCII letters, digits and underscore. Python's Unicode word characters are left out.
- Numerals.ParseInt: `int()` is modelled for ASCII decimal digits, signs, single underscores and ASCII whitespace. Unicode digits and whitespace are left out.
- Values.ParseIpv4: follows the current `ipaddress` rule, which rejects an octet with a leading zero. The older versions of the library that accepted such octets are not modelled.
- Values.OnOffFromString: the ValueError message names the variable; the model's InvalidValue carries only the string. The same holds for `getbool`.
- PBKDF2-HMAC-SHA1 is a library call and is the parameter `kdf`. Only the shape of its rendering is proved: 32 bytes become 64 upper-case hex digits (Values.PskShape).
- `zipfile` is left out: a package is its list of entries. The loop at `firmware.py:28-29` and the version log at line 35 only log.
- A descriptor read on the class itself (`instance is None`) returns the descriptor and touches no printer; it is not modelled.
- The argparse construction and every subcommand other than `wifi` are left out, as are `pull`, `push` and `cat`, which open files.
- Upload: the length is written as `'%08x'`, which is at least eight digits and more for a file of 4 GiB or larger. Sgd.UploadLengthWidth shows that it is exactly eight digits below 4 GiB.
- `set_wpa_psk` sets only `wlan.wpa.psk` (Config.SetWpaPskOnWlan). `wlan.wpa.enable` and `wlan.wpa.authentication` are set only by `wifi_wpa_psk` (Device.WpaPskWrites).

## Findings

| source | as written | input that shows it | evidently intended | confidence | as-written member | corrected member |
|---|---|---|---|---|---|---|
| zebconf/device.py:162-164 | `upgrade` calls `write` with the default `printable=True`, so the debug log decodes the image as UTF-8 before it is sent | a firmware image holding the byte 0xFF: `decode()` raises and nothing reaches the printer | the image is binary and is written unframed as `printable=False`, like `upload` | medium, not executed | Device.ZebraDevice.UpgradeAsWritten, Device.UpgradeAsWrittenDropsBinary | Device.ZebraDevice.Upgrade |
| zebconf/cli.py:104-108 | `loglevels[verbosity]` for any `verbosity < 4`, including negative ones | `-qqq` gives verbosity -1, which Python reads as the last level, DEBUG; `-qqqqqqq` gives -5, an IndexError | quieter means a higher threshold, and the quiet end stays at ERROR | high, not executed | Cli.LogLevelAsWritten, Cli.LogLevelAsWrittenQuiet | Cli.LogLevel, Cli.LogLevelMonotone, Cli.VerbosityLevels |
