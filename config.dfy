/**
 * The typed configuration overlay: namespace blocks that map attribute
 * paths onto dotted device variable names, and typed leaves that convert
 * between a variable's string and a Python value on the way through.
 */
module Config {
  import opened Bytes
  import opened Errors
  import opened Values
  import opened Sgd
  import opened Device

  // ---------------------------------------------------------------------------
  // Blocks and name resolution

  /**
   * What a bound block forwards item access to: nothing (a block made with
   * no parent), the printer itself, or the enclosing block. The key of a
   * block is `None` for the root namespace.
   */
  datatype Scope = Unbound | Printer | Block(key: Option<Bytes>, parent: Scope)

  /** The prefix a block puts in front of every item it forwards. */
  function Prefix(key: Option<Bytes>): Bytes
  {
    match key
    case None => []
    case Some(k) => k + ['.']
  }

  /**
   * The device variable that item `x` of scope `s` stands for: each block
   * hands `prefix + x` to its parent. `None` when the chain ends in a block
   * without a parent, which Python reports as a TypeError.
   */
  function Resolve(s: Scope, x: Bytes): (r: Option<Bytes>)
    ensures r.Some? ==> |x| <= |r.value| && r.value[|r.value| - |x|..] == x
  {
    match s
    case Unbound => None
    case Printer => Some(x)
    case Block(k, p) => Resolve(p, Prefix(k) + x)
  }

  /** Whether the chain of parents ends at the printer. */
  predicate Reaches(s: Scope)
  {
    match s
    case Unbound => false
    case Printer => true
    case Block(_, p) => Reaches(p)
  }

  /** All the prefixes of the chain, outermost first. */
  function FullPrefix(s: Scope): Bytes
  {
    match s
    case Unbound => []
    case Printer => []
    case Block(k, p) => FullPrefix(p) + Prefix(k)
  }

  /** Forwarding through a chain of blocks is prefixing with all their keys, outermost first. */
  lemma {:induction false} ResolvePrefix(s: Scope, x: Bytes)
    ensures Resolve(s, x) == if Reaches(s) then Some(FullPrefix(s) + x) else None
  {
    match s
    case Unbound =>
    case Printer =>
      assert [] + x == x;
    case Block(k, p) =>
      ResolvePrefix(p, Prefix(k) + x);
      assert FullPrefix(p) + (Prefix(k) + x) == FullPrefix(p) + Prefix(k) + x;
  }

  // ---------------------------------------------------------------------------
  // The schema

  /** A configuration variable: its name within its block, its conversions, and whether it may be set. */
  datatype Leaf = Leaf(name: Bytes, kind: Kind, readonly: bool)

  /** A class attribute of a block: a nested block (whose key is its attribute name) or a variable. */
  datatype Member = Namespace(key: Bytes, members: seq<Member>) | Variable(leaf: Leaf)

  function AttributeName(m: Member): Bytes
  {
    match m
    case Namespace(k, _) => k
    case Variable(l) => l.name
  }

  /** Attribute lookup among a block's members: the first with that name. */
  function Find(members: seq<Member>, a: Bytes): (r: Option<Member>)
    ensures r.Some? ==> r.value in members && AttributeName(r.value) == a
    ensures r.None? ==> forall k :: 0 <= k < |members| ==> AttributeName(members[k]) != a
  {
    if members == [] then None
    else if AttributeName(members[0]) == a then Some(members[0])
    else Find(members[1..], a)
  }

  /**
   * `block.a1.a2 ... an` for a block bound to `s` with these members: each
   * nested block is bound to the one it is reached through (`__get__`), and
   * the path must end at a variable. Returns that variable and the scope of
   * the block that holds it; `None` for a missing attribute or a path that
   * ends at a block.
   */
  function BindLeaf(s: Scope, members: seq<Member>, path: seq<Bytes>): (r: Option<(Scope, Leaf)>)
    ensures r.Some? ==> path != [] && r.value.1.name == path[|path| - 1]
    decreases |path|
  {
    if path == [] then None
    else
      match Find(members, path[0])
      case None => None
      case Some(Namespace(k, ms)) => if |path| == 1 then None else BindLeaf(Block(Some(k), s), ms, path[1..])
      case Some(Variable(l)) => if |path| == 1 then Some((s, l)) else None
  }

  /** The variable a path of attributes reaches is the path itself, joined by dots, inside scope `s`. */
  lemma {:induction false} BindResolve(s: Scope, members: seq<Member>, path: seq<Bytes>)
    requires BindLeaf(s, members, path).Some?
    ensures var b := BindLeaf(s, members, path).value;
      Resolve(b.0, b.1.name) == Resolve(s, Join(path, '.'))
    decreases |path|
  {
    var m := Find(members, path[0]).value;
    if m.Namespace? {
      var inner := Block(Some(m.key), s);
      BindResolve(inner, m.members, path[1..]);
      assert Prefix(Some(m.key)) + Join(path[1..], '.') == Join(path, '.');
    }
  }

  // ---------------------------------------------------------------------------
  // The namespace tree of the printer's variables

  const WPA_KEY: Bytes := "wpa"
  const ESSID_NAME: Bytes := "essid"
  const PSK_NAME: Bytes := "psk"

  const ESSID_LEAF: Leaf := Leaf(ESSID_NAME, Plain, false)
  const PSK_LEAF: Leaf := Leaf(PSK_NAME, Plain, false)

  /** `ZebraConfigDevice`. */
  const DEVICE_BLOCK: Member := Namespace("device", [Variable(Leaf("friendly_name", Plain, false))])

  /** `ZebraConfigIpDhcp` and `ZebraConfigIp`. */
  const IP_DHCP_BLOCK: Member := Namespace("dhcp", [Variable(Leaf("enable", OnOff, false)), Variable(Leaf("cid_type", Integer, false))])
  const IP_BLOCK: Member := Namespace("ip", [IP_DHCP_BLOCK])

  /** `ZebraConfigWlanIp`. */
  const WLAN_IP_BLOCK: Member := Namespace("ip", [Variable(Leaf("addr", Address, false)), Variable(Leaf("protocol", Plain, false))])

  /** `ZebraConfigWlanWpa`. */
  const WLAN_WPA_BLOCK: Member := Namespace(WPA_KEY, [
    Variable(Leaf("authentication", Plain, false)),
    Variable(Leaf("enable", OnOff, false)),
    Variable(PSK_LEAF)])

  /** `ZebraConfigWlan`. */
  const WLAN_BLOCK: Member := Namespace(WLAN, [
    WLAN_IP_BLOCK,
    WLAN_WPA_BLOCK,
    Variable(Leaf("allowed_band", Plain, false)),
    Variable(Leaf("country_code", Plain, false)),
    Variable(Leaf("encryption_mode", OnOff, false)),
    Variable(ESSID_LEAF),
    Variable(Leaf("international_mode", OnOff, false)),
    Variable(Leaf("operating_mode", Plain, false)),
    Variable(Leaf("power_save", OnOff, false))])

  /** `ZebraConfigRoot`. */
  const ROOT: seq<Member> := [DEVICE_BLOCK, IP_BLOCK, WLAN_BLOCK]

  /** The root namespace bound to a printer: its key is `None`, so it adds no prefix. */
  const ROOT_SCOPE: Scope := Block(None, Printer)

  /** `root.wlan` and `root.wlan.wpa`. */
  const WLAN_SCOPE: Scope := Block(Some(WLAN), ROOT_SCOPE)
  const WPA_SCOPE: Scope := Block(Some(WPA_KEY), WLAN_SCOPE)

  /** Leaves reached from the root resolve to their attribute path joined by dots. */
  lemma RootResolve(path: seq<Bytes>)
    requires BindLeaf(ROOT_SCOPE, ROOT, path).Some?
    ensures var b := BindLeaf(ROOT_SCOPE, ROOT, path).value;
      Resolve(b.0, b.1.name) == Some(Join(path, '.'))
  {
    BindResolve(ROOT_SCOPE, ROOT, path);
    assert [] + Join(path, '.') == Join(path, '.');
  }

  /** `root.wlan.wpa.psk` is the variable `wlan.wpa.psk`. */
  lemma PskPath()
    ensures BindLeaf(ROOT_SCOPE, ROOT, [WLAN, WPA_KEY, PSK_NAME]) == Some((WPA_SCOPE, PSK_LEAF))
    ensures Resolve(WPA_SCOPE, PSK_NAME) == Some(WLAN_WPA_PSK)
  {
    FindWlan();
    BindWpaPsk();
    BindInto(ROOT_SCOPE, ROOT, [WLAN, WPA_KEY, PSK_NAME], WLAN_BLOCK);
    PskName();
  }

  lemma BindWpaPsk()
    ensures BindLeaf(WLAN_SCOPE, WLAN_BLOCK.members, [WPA_KEY, PSK_NAME]) == Some((WPA_SCOPE, PSK_LEAF))
  {
    FindWpa();
    FindPsk();
    BindInto(WLAN_SCOPE, WLAN_BLOCK.members, [WPA_KEY, PSK_NAME], WLAN_WPA_BLOCK);
    BindLast(WPA_SCOPE, WLAN_WPA_BLOCK.members, PSK_NAME, PSK_LEAF);
  }

  /** One step into a nested block. */
  lemma BindInto(s: Scope, members: seq<Member>, path: seq<Bytes>, m: Member)
    requires |path| > 1 && m.Namespace? && Find(members, path[0]) == Some(m)
    ensures BindLeaf(s, members, path) == BindLeaf(Block(Some(m.key), s), m.members, path[1..])
  {
  }

  /** The last step, onto a variable. */
  lemma BindLast(s: Scope, members: seq<Member>, a: Bytes, l: Leaf)
    requires Find(members, a) == Some(Variable(l))
    ensures BindLeaf(s, members, [a]) == Some((s, l))
  {
  }

  /** `root.wlan.essid` is the variable `wlan.essid`. */
  lemma EssidPath()
    ensures BindLeaf(ROOT_SCOPE, ROOT, [WLAN, ESSID_NAME]) == Some((WLAN_SCOPE, ESSID_LEAF))
    ensures Resolve(WLAN_SCOPE, ESSID_NAME) == Some(WLAN_ESSID)
  {
    FindWlan();
    FindEssid();
    BindInto(ROOT_SCOPE, ROOT, [WLAN, ESSID_NAME], WLAN_BLOCK);
    BindLast(WLAN_SCOPE, WLAN_BLOCK.members, ESSID_NAME, ESSID_LEAF);
    EssidName();
  }

  /** Attribute lookup finds the first member with that name. */
  lemma {:induction false} FindFirst(members: seq<Member>, a: Bytes, i: nat)
    requires i < |members| && AttributeName(members[i]) == a
    requires forall j :: 0 <= j < i ==> AttributeName(members[j]) != a
    ensures Find(members, a) == Some(members[i])
  {
    if i > 0 {
      FindFirst(members[1..], a, i - 1);
    }
  }

  lemma FindWlan()
    ensures Find(ROOT, WLAN) == Some(WLAN_BLOCK)
  {
    assert |AttributeName(ROOT[0])| == 6 && |AttributeName(ROOT[1])| == 2 && |WLAN| == 4;
    FindFirst(ROOT, WLAN, 2);
  }

  lemma FindWpa()
    ensures Find(WLAN_BLOCK.members, WPA_KEY) == Some(WLAN_WPA_BLOCK)
  {
    var ms := WLAN_BLOCK.members;
    assert |AttributeName(ms[0])| == 2 && |WPA_KEY| == 3;
    FindFirst(ms, WPA_KEY, 1);
  }

  lemma FindPsk()
    ensures Find(WLAN_WPA_BLOCK.members, PSK_NAME) == Some(Variable(PSK_LEAF))
  {
    var ms := WLAN_WPA_BLOCK.members;
    assert |AttributeName(ms[0])| == 14 && |AttributeName(ms[1])| == 6 && |PSK_NAME| == 3;
    FindFirst(ms, PSK_NAME, 2);
  }

  lemma FindEssid()
    ensures Find(WLAN_BLOCK.members, ESSID_NAME) == Some(Variable(ESSID_LEAF))
  {
    var ms := WLAN_BLOCK.members;
    assert |ESSID_NAME| == 5;
    assert |AttributeName(ms[0])| == 2 && |AttributeName(ms[1])| == 3;
    assert |AttributeName(ms[2])| == 12 && |AttributeName(ms[3])| == 12 && |AttributeName(ms[4])| == 15;
    FindFirst(ms, ESSID_NAME, 5);
  }

  lemma PskName()
    ensures Resolve(WPA_SCOPE, PSK_NAME) == Some(WLAN_WPA_PSK)
  {
    calc {
      Resolve(WPA_SCOPE, PSK_NAME);
      Resolve(WLAN_SCOPE, WPA_KEY + ['.'] + PSK_NAME);
      Resolve(ROOT_SCOPE, WLAN + ['.'] + (WPA_KEY + ['.'] + PSK_NAME));
      Resolve(Printer, [] + (WLAN + ['.'] + (WPA_KEY + ['.'] + PSK_NAME)));
    }
    assert [] + (WLAN + ['.'] + (WPA_KEY + ['.'] + PSK_NAME)) == WLAN_WPA_PSK;
  }

  lemma EssidName()
    ensures Resolve(WLAN_SCOPE, ESSID_NAME) == Some(WLAN_ESSID)
  {
    calc {
      Resolve(WLAN_SCOPE, ESSID_NAME);
      Resolve(ROOT_SCOPE, WLAN + ['.'] + ESSID_NAME);
      Resolve(Printer, [] + (WLAN + ['.'] + ESSID_NAME));
    }
    assert [] + (WLAN + ['.'] + ESSID_NAME) == WLAN_ESSID;
  }

  // ---------------------------------------------------------------------------
  // Typed leaves on a bound block

  /**
   * Reading leaf `leaf` of a block bound to `s`: a `getvar` of the name the
   * blocks resolve it to, then the leaf's `from_string`. Nothing is written
   * or read when the chain has no printer at its end.
   */
  function GetExchange(s: Scope, leaf: Leaf, incoming: seq<Bytes>): (x: Exchange<Value>)
    ensures x.result.Ok? ==> OfKind(x.result.value, leaf.kind)
  {
    match Resolve(s, leaf.name)
    case None => Exchange([], incoming, Err(NoParent))
    case Some(n) =>
      var g := GetvarExchange(n, incoming);
      Exchange(g.written, g.rest, match g.result case Err(e) => Err(e) case Ok(v) => FromString(leaf.kind, v))
  }

  /**
   * Setting leaf `leaf` of a block bound to `s` to `value`: refused for a
   * read-only leaf, then forwarded up the chain of blocks, and written as a
   * `setvar` of the leaf's `to_string` (which must be a string to be encoded).
   */
  function SetSending(s: Scope, leaf: Leaf, value: Value): (x: Sending)
    ensures |x.written| <= 1 && (x.written != [] ==> x.result.Ok?)
    ensures leaf.readonly ==> x.written == [] && x.result.Err?
  {
    if leaf.readonly then Sending([], Err(ReadOnlyVariable(leaf.name)))
    else
      match Resolve(s, leaf.name)
      case None => Sending([], Err(NoParent))
      case Some(n) =>
        match ToString(leaf.kind, value)
        case Err(e) => Sending([], Err(e))
        case Ok(w) => Sending(Written(Frame(Setvar(n, w)), true), WriteResult(Frame(Setvar(n, w)), true))
  }

  /**
   * A set writes at most one frame, the `setvar` of the full dotted name,
   * and succeeds exactly when it writes it. A read-only leaf and a block
   * without a printer write nothing.
   */
  lemma SetWritesOneFrame(s: Scope, leaf: Leaf, value: Value)
    ensures var x := SetSending(s, leaf, value);
      && (x.result.Ok? <==> x.written != [])
      && (x.written != [] ==> x.written == [Frame(Setvar(FullPrefix(s) + leaf.name, ToString(leaf.kind, value).value))])
      && (leaf.readonly ==> x == Sending([], Err(ReadOnlyVariable(leaf.name))))
      && (!leaf.readonly && !Reaches(s) ==> x == Sending([], Err(NoParent)))
  {
    ResolvePrefix(s, leaf.name);
    if !leaf.readonly && Reaches(s) {
      var n := FullPrefix(s) + leaf.name;
      assert Resolve(s, leaf.name) == Some(n);
      var t := ToString(leaf.kind, value);
      if t.Ok? {
        var f := Frame(Setvar(n, t.value));
        assert SetSending(s, leaf, value) == Sending(Written(f, true), WriteResult(f, true));
        assert WriteResult(f, true).Ok? <==> Written(f, true) != [];
      } else {
        assert SetSending(s, leaf, value) == Sending([], Err(t.error));
      }
    }
  }

  /** A read of a leaf of a block bound to the printer is a `getvar` of the full dotted name. */
  lemma GetReadsFullName(s: Scope, leaf: Leaf, incoming: seq<Bytes>)
    ensures var x := GetExchange(s, leaf, incoming);
      if Reaches(s) then
        var g := GetvarExchange(FullPrefix(s) + leaf.name, incoming);
        && x.written == g.written && x.rest == g.rest
        && (g.result.Err? ==> x.result == Err(g.result.error))
        && (g.result.Ok? ==> x.result == FromString(leaf.kind, g.result.value))
      else x == Exchange([], incoming, Err(NoParent))
  {
    ResolvePrefix(s, leaf.name);
    if Reaches(s) {
      var n := FullPrefix(s) + leaf.name;
      assert Resolve(s, leaf.name) == Some(n);
      var g := GetvarExchange(n, incoming);
      assert GetExchange(s, leaf, incoming)
        == Exchange(g.written, g.rest, match g.result case Err(e) => Err(e) case Ok(v) => FromString(leaf.kind, v));
    }
  }

  /** What integer, on/off and address leaves write is always echoed back intact. */
  lemma TypedValueEchoable(k: Kind, v: Value)
    requires k != Plain && OfKind(v, k)
    ensures Echoable(ToString(k, v).value)
  {
    var w := ToString(k, v).value;
    ToStringWireBytes(k, v);
    AsciiIsUtf8(w);
    match k
    case Integer =>
      assert |w| >= 1;
    case OnOff =>
    case Address =>
      var parts := OctetStrings(v.addr);
      assert Join(parts, '.') == parts[0] + ['.'] + Join(parts[1..], '.');
  }

  /**
   * Setting a writable leaf and then reading it back, with the printer
   * echoing the value it was given, returns the value that was set: each
   * leaf class's `from_string` inverts its `to_string`. A plain leaf needs a
   * value the printer can echo; the typed leaves always round-trip.
   */
  lemma SetGetRoundTrip(s: Scope, leaf: Leaf, v: Value, rest: seq<Bytes>)
    requires !leaf.readonly && Reaches(s) && ValidUtf8(FullPrefix(s) + leaf.name)
    requires OfKind(v, leaf.kind) && (leaf.kind == Plain ==> Echoable(v.text))
    ensures ToString(leaf.kind, v).Ok?
    ensures var n := FullPrefix(s) + leaf.name;
      var w := ToString(leaf.kind, v).value;
      && SetSending(s, leaf, v) == Sending([Frame(Setvar(n, w))], Ok(()))
      && GetExchange(s, leaf, [[QUOTE] + w + [QUOTE]] + rest) == Exchange([Frame(Getvar(n))], rest, Ok(v))
  {
    KindRoundTrip(leaf.kind, v);
    var w := ToString(leaf.kind, v).value;
    if leaf.kind != Plain {
      TypedValueEchoable(leaf.kind, v);
    }
    SetWritesText(s, leaf, v, w);
    GetReadsEcho(s, leaf, w, rest);
  }

  /** Setting a writable leaf to a value whose string is text writes its setvar and succeeds. */
  lemma SetWritesText(s: Scope, leaf: Leaf, v: Value, w: Bytes)
    requires !leaf.readonly && Reaches(s) && ValidUtf8(FullPrefix(s) + leaf.name)
    requires ToString(leaf.kind, v) == Ok(w) && ValidUtf8(w)
    ensures SetSending(s, leaf, v) == Sending([Frame(Setvar(FullPrefix(s) + leaf.name, w))], Ok(()))
  {
    ResolvePrefix(s, leaf.name);
    FrameUtf8(Setvar(FullPrefix(s) + leaf.name, w));
  }

  /** Reading a leaf back from a printer that echoes `w` gives `from_string(w)`. */
  lemma GetReadsEcho(s: Scope, leaf: Leaf, w: Bytes, rest: seq<Bytes>)
    requires Reaches(s) && ValidUtf8(FullPrefix(s) + leaf.name) && Echoable(w)
    ensures var n := FullPrefix(s) + leaf.name;
      GetExchange(s, leaf, [[QUOTE] + w + [QUOTE]] + rest) == Exchange([Frame(Getvar(n))], rest, FromString(leaf.kind, w))
  {
    var n := FullPrefix(s) + leaf.name;
    ResolvePrefix(s, leaf.name);
    FrameUtf8(Getvar(n));
    GetvarReads(n, w, rest);
  }

  /** `leaf.__get__(block)` on a printer. */
  method Get(dev: ZebraDevice, s: Scope, leaf: Leaf) returns (r: Result<Value>)
    modifies dev.conn
    ensures var x := GetExchange(s, leaf, old(dev.conn.incoming));
      dev.conn.sent == old(dev.conn.sent) + x.written && dev.conn.incoming == x.rest && r == x.result
  {
    var n := Resolve(s, leaf.name);
    if n.None? {
      return Err(NoParent);
    }
    var v := dev.GetVar(n.value);
    if v.Err? {
      return Err(v.error);
    }
    r := FromString(leaf.kind, v.value);
  }

  /** `leaf.__set__(block, value)` on a printer. */
  method Set(dev: ZebraDevice, s: Scope, leaf: Leaf, value: Value) returns (r: Result<()>)
    modifies dev.conn
    ensures var x := SetSending(s, leaf, value);
      dev.conn.sent == old(dev.conn.sent) + x.written && dev.conn.incoming == old(dev.conn.incoming) && r == x.result
  {
    if leaf.readonly {
      return Err(ReadOnlyVariable(leaf.name));
    }
    var n := Resolve(s, leaf.name);
    if n.None? {
      return Err(NoParent);
    }
    var w := ToString(leaf.kind, value);
    if w.Err? {
      return Err(w.error);
    }
    r := dev.SetVar(n.value, w.value);
  }

  // ---------------------------------------------------------------------------
  // WPA pre-shared key

  /** `set_psk(essid, password)` on the `wpa` block bound to `wpa`: sets its `psk` leaf to the derived key. */
  method SetPsk(dev: ZebraDevice, wpa: Scope, essid: Bytes, password: Bytes, kdf: Kdf) returns (r: Result<()>)
    modifies dev.conn
    ensures var x := SetSending(wpa, PSK_LEAF, Text(Psk(kdf, essid, password)));
      dev.conn.sent == old(dev.conn.sent) + x.written && dev.conn.incoming == old(dev.conn.incoming) && r == x.result
  {
    r := Set(dev, wpa, PSK_LEAF, Text(Psk(kdf, essid, password)));
  }

  /**
   * `set_wpa_psk(password)` on the `wlan` block bound to `wlan`: reads the
   * block's `essid` and sets the nested `wpa` block's key from it. It sets
   * nothing else.
   */
  function SetWpaPskExchange(wlan: Scope, password: Bytes, kdf: Kdf, incoming: seq<Bytes>): (x: Exchange<()>)
    ensures |x.written| <= 2
    ensures x.result.Ok? ==> |x.written| == 2
  {
    var e := GetExchange(wlan, ESSID_LEAF, incoming);
    match e.result
    case Err(err) => Exchange(e.written, e.rest, Err(err))
    case Ok(v) =>
      var y := SetSending(Block(Some(WPA_KEY), wlan), PSK_LEAF, Text(Psk(kdf, v.text, password)));
      Exchange(e.written + y.written, e.rest, y.result)
  }

  method SetWpaPsk(dev: ZebraDevice, wlan: Scope, password: Bytes, kdf: Kdf) returns (r: Result<()>)
    modifies dev.conn
    ensures var x := SetWpaPskExchange(wlan, password, kdf, old(dev.conn.incoming));
      dev.conn.sent == old(dev.conn.sent) + x.written && dev.conn.incoming == x.rest && r == x.result
  {
    ghost var e := GetExchange(wlan, ESSID_LEAF, dev.conn.incoming);
    var essid := Get(dev, wlan, ESSID_LEAF);
    if essid.Err? {
      return Err(essid.error);
    }
    assert ESSID_LEAF.kind == Plain && essid == e.result;
    ghost var mid := dev.conn.sent;
    r := SetPsk(dev, Block(Some(WPA_KEY), wlan), essid.value.text, password, kdf);
    assert dev.conn.sent == mid + SetSending(Block(Some(WPA_KEY), wlan), PSK_LEAF, Text(Psk(kdf, e.result.value.text, password))).written;
  }

  /**
   * On the root's `wlan` block, with the printer answering the ESSID query,
   * `set_wpa_psk` writes the query and then exactly the `psk` setting that
   * `wifi_wpa_psk` writes for the same ESSID and password, and nothing else
   * (neither `wlan.wpa.enable` nor `wlan.wpa.authentication`).
   */
  lemma SetWpaPskOnWlan(essid: Bytes, password: Bytes, kdf: Kdf, rest: seq<Bytes>)
    requires Echoable(essid)
    ensures SetWpaPskExchange(WLAN_SCOPE, password, kdf, [[QUOTE] + essid + [QUOTE]] + rest)
      == Exchange([Frame(Getvar(WLAN_ESSID)), WpaPskFrames(essid, password, kdf)[2]], rest, Ok(()))
  {
    EssidRead(essid, rest);
    PskSet(essid, password, kdf);
  }

  /** Reading `root.wlan.essid` from a printer that answers with the ESSID in quotes. */
  lemma EssidRead(essid: Bytes, rest: seq<Bytes>)
    requires Echoable(essid)
    ensures GetExchange(WLAN_SCOPE, ESSID_LEAF, [[QUOTE] + essid + [QUOTE]] + rest)
      == Exchange([Frame(Getvar(WLAN_ESSID))], rest, Ok(Text(essid)))
  {
    EssidName();
    EssidQueryText();
    GetvarReads(WLAN_ESSID, essid, rest);
  }

  /** Setting `root.wlan.wpa.psk` writes the same frame as `wifi_wpa_psk` does last. */
  lemma PskSet(essid: Bytes, password: Bytes, kdf: Kdf)
    ensures SetSending(Block(Some(WPA_KEY), WLAN_SCOPE), PSK_LEAF, Text(Psk(kdf, essid, password)))
      == Sending([WpaPskFrames(essid, password, kdf)[2]], Ok(()))
  {
    PskName();
    PskFrameText(Psk(kdf, essid, password), kdf(password, essid, PSK_ROUNDS, PSK_KEY_LENGTH));
  }
}
