/**
 * Firmware packages: a zip archive that must hold exactly one entry with a
 * `.zpl` extension, in any letter case. That entry's bytes are the image
 * sent to the printer, and its name without the extension is the version.
 */
module Firmware {
  import opened Bytes
  import opened Errors

  /** An archive member: its name and its decompressed bytes. */
  datatype Entry = Entry(name: Bytes, content: Bytes)

  /** A validated package: the name of the `.zpl` entry and its bytes. */
  datatype Firmware = Firmware(zpl: Bytes, data: Bytes)

  /** Index of the last `b` in `s`, or -1 (`str.rfind`). */
  function RFind(s: Bytes, b: byte): (i: int)
    ensures -1 <= i < |s|
    ensures i >= 0 ==> s[i] == b
    ensures forall k :: i < k < |s| ==> s[k] != b
  {
    if s == [] then -1
    else if s[|s| - 1] == b then |s| - 1
    else RFind(s[..|s| - 1], b)
  }

  /**
   * `os.path.splitext` on a POSIX path: the extension is the part from the
   * last dot, provided that dot lies after the last slash and the file name
   * before it is not made of dots only; otherwise the extension is empty.
   */
  function SplitExt(p: Bytes): (parts: (Bytes, Bytes))
    ensures parts.0 + parts.1 == p
    ensures parts.1 == [] || (parts.1[0] == '.' && '.' !in parts.1[1..] && '/' !in parts.1)
    ensures parts.1 != [] ==> |parts.0| == RFind(p, '.') && RFind(p, '/') < RFind(p, '.')
    ensures parts.1 == [] ==> forall k :: RFind(p, '/') < k < RFind(p, '.') ==> p[k] == '.'
  {
    var sep := RFind(p, '/');
    var dot := RFind(p, '.');
    if dot > sep && exists k :: sep + 1 <= k < dot && p[k] != '.' then
      assert p[..dot] + p[dot..] == p;
      assert p[dot..][1..] == p[dot + 1..];
      (p[..dot], p[dot..])
    else
      (p, [])
  }

  /** Whether an entry name's extension, lower-cased, is `.zpl`. */
  predicate IsZpl(name: Bytes)
  {
    Lower(SplitExt(name).1) == ".zpl"
  }

  /** The entries that qualify, in archive order. */
  function Zpls(entries: seq<Entry>): (r: seq<Entry>)
    ensures forall k :: 0 <= k < |r| ==> r[k] in entries && IsZpl(r[k].name)
    ensures forall e :: e in entries && IsZpl(e.name) ==> e in r
    ensures |r| <= |entries|
  {
    if entries == [] then []
    else (if IsZpl(entries[0].name) then [entries[0]] else []) + Zpls(entries[1..])
  }

  /** `ZebraFirmware(file)`: the single qualifying entry, or BadFirmwareError. */
  function Load(entries: seq<Entry>): (r: Result<Firmware>)
    ensures r.Ok? ==> Entry(r.value.zpl, r.value.data) in entries && IsZpl(r.value.zpl)
    ensures r.Err? ==> r.error == NoFirmwarePayload || r.error == MultipleFirmwarePayloads
  {
    var zpls := Zpls(entries);
    if zpls == [] then Err(NoFirmwarePayload)
    else if |zpls| > 1 then Err(MultipleFirmwarePayloads)
    else Ok(Firmware(zpls[0].name, zpls[0].content))
  }

  /** `version`: the entry name without its extension, directories kept. */
  function Version(fw: Firmware): (v: Bytes)
    ensures |v| <= |fw.zpl| && v == fw.zpl[..|v|] && '/' !in fw.zpl[|v|..]
  {
    SplitExt(fw.zpl).0
  }

  /** `bytes(firmware)`: the image itself. */
  function Image(fw: Firmware): Bytes
  {
    fw.data
  }

  // ---------------------------------------------------------------------------
  // Properties

  lemma {:induction false} ZplsEmpty(entries: seq<Entry>)
    ensures Zpls(entries) == [] <==> forall k :: 0 <= k < |entries| ==> !IsZpl(entries[k].name)
  {
    if entries != [] {
      ZplsEmpty(entries[1..]);
      assert forall k :: 1 <= k < |entries| ==> entries[k] == entries[1..][k - 1];
    }
  }

  /** A package without a `.zpl` entry is refused. */
  lemma LoadNoPayload(entries: seq<Entry>)
    ensures Load(entries) == Err(NoFirmwarePayload) <==> forall k :: 0 <= k < |entries| ==> !IsZpl(entries[k].name)
  {
    ZplsEmpty(entries);
  }

  lemma {:induction false} ZplsTwo(entries: seq<Entry>, i: nat, j: nat)
    requires i < j < |entries| && IsZpl(entries[i].name) && IsZpl(entries[j].name)
    ensures |Zpls(entries)| >= 2
  {
    if i == 0 {
      assert entries[j] == entries[1..][j - 1];
      assert entries[1..][j - 1] in entries[1..];
      assert |Zpls(entries[1..])| >= 1;
    } else {
      ZplsTwo(entries[1..], i - 1, j - 1);
    }
  }

  /** A package with two `.zpl` entries is refused. */
  lemma LoadMultiple(entries: seq<Entry>, i: nat, j: nat)
    requires i < |entries| && j < |entries| && i != j
    requires IsZpl(entries[i].name) && IsZpl(entries[j].name)
    ensures Load(entries) == Err(MultipleFirmwarePayloads)
  {
    if i < j { ZplsTwo(entries, i, j); } else { ZplsTwo(entries, j, i); }
  }

  lemma {:induction false} ZplsSingle(entries: seq<Entry>, i: nat)
    requires i < |entries| && IsZpl(entries[i].name)
    requires forall k :: 0 <= k < |entries| && k != i ==> !IsZpl(entries[k].name)
    ensures Zpls(entries) == [entries[i]]
  {
    var tail := entries[1..];
    assert forall k :: 0 <= k < |tail| ==> tail[k] == entries[k + 1];
    if i == 0 {
      ZplsEmpty(tail);
    } else {
      ZplsSingle(tail, i - 1);
    }
  }

  /** With exactly one `.zpl` entry, that entry is the firmware: its name and its bytes. */
  lemma LoadSingle(entries: seq<Entry>, i: nat)
    requires i < |entries| && IsZpl(entries[i].name)
    requires forall k :: 0 <= k < |entries| && k != i ==> !IsZpl(entries[k].name)
    ensures Load(entries) == Ok(Firmware(entries[i].name, entries[i].content))
  {
    ZplsSingle(entries, i);
  }

  /** A loaded package's version followed by an extension spelling `.zpl` in some case gives back the entry name. */
  lemma VersionPlusExtension(entries: seq<Entry>)
    requires Load(entries).Ok?
    ensures var fw := Load(entries).value;
      var ext := fw.zpl[|Version(fw)|..];
      |Version(fw)| + 4 == |fw.zpl| && Version(fw) + ext == fw.zpl && Lower(ext) == ".zpl"
  {
    var fw := Load(entries).value;
    var parts := SplitExt(fw.zpl);
    assert |Lower(parts.1)| == 4;
    assert fw.zpl[|parts.0|..] == parts.1;
  }

  lemma RFindAbsent(s: Bytes, b: byte)
    requires b !in s
    ensures RFind(s, b) == -1
  {
  }

  /** The last `b` of `x + y` is the last byte of `x` when it is a `b` and `y` holds none. */
  lemma {:induction false} RFindLast(x: Bytes, y: Bytes, b: byte)
    requires x != [] && x[|x| - 1] == b && b !in y
    ensures RFind(x + y, b) == |x| - 1
  {
    if y != [] {
      var s := x + y;
      assert s[..|s| - 1] == x + y[..|y| - 1];
      RFindLast(x, y[..|y| - 1], b);
    } else {
      assert x + y == x;
    }
  }

  /** `splitext` cuts at the last dot when the file name has a byte other than a dot before it. */
  lemma SplitExtAt(x: Bytes, y: Bytes, k: nat)
    requires x != [] && x[|x| - 1] == '.' && '.' !in y && '/' !in y
    requires RFind(x, '/') < k < |x| - 1 && x[k] != '.'
    ensures SplitExt(x + y) == (x[..|x| - 1], [x[|x| - 1]] + y)
  {
    var p := x + y;
    RFindLast(x, y, '.');
    assert RFind(p, '/') == RFind(x, '/') by {
      RFindAppend(x, y, '/');
    }
    assert p[k] == x[k];
    assert p[..|x| - 1] == x[..|x| - 1];
    assert p[|x| - 1..] == [x[|x| - 1]] + y;
  }

  /** Appending bytes without a `b` leaves the last `b` where it was. */
  lemma {:induction false} RFindAppend(x: Bytes, y: Bytes, b: byte)
    requires b !in y
    ensures RFind(x + y, b) == RFind(x, b)
  {
    if y != [] {
      var s := x + y;
      assert s[..|s| - 1] == x + y[..|y| - 1];
      RFindAppend(x, y[..|y| - 1], b);
    } else {
      assert x + y == x;
    }
  }

  /**
   * A name made of a directory part, a file name that does not start with a
   * dot, a dot and an extension without dots or slashes splits at that dot.
   */
  lemma SplitExtStem(dir: Bytes, stem: Bytes, ext: Bytes)
    requires stem != [] && stem[0] != '.' && '/' !in stem
    requires '.' !in ext && '/' !in ext
    ensures SplitExt(dir + stem + ['.'] + ext) == (dir + stem, ['.'] + ext)
  {
    var x := dir + stem + ['.'];
    assert x == dir + (stem + ['.']);
    RFindAppend(dir, stem + ['.'], '/');
    assert x[|dir|] == stem[0];
    SplitExtAt(x, ext, |dir|);
    assert x[..|x| - 1] == dir + stem;
  }

  lemma LowerZpl()
    ensures Lower(".ZPL") == ".zpl" && Lower(".zpl") == ".zpl"
  {
  }

  /** An upper-case extension qualifies. */
  lemma UpperCaseQualifies()
    ensures IsZpl("A.ZPL") && SplitExt("A.ZPL") == ("A", ".ZPL")
  {
    SplitExtStem([], "A", "ZPL");
    assert [] + "A" + ['.'] + "ZPL" == "A.ZPL" && [] + "A" == "A" && ['.'] + "ZPL" == ".ZPL";
    LowerZpl();
  }

  /** Only the last extension counts. */
  lemma InnerExtensionDoesNotQualify()
    ensures SplitExt("x.zpl.bak") == ("x.zpl", ".bak") && !IsZpl("x.zpl.bak")
  {
    SplitExtStem([], "x.zpl", "bak");
    assert [] + "x.zpl" + ['.'] + "bak" == "x.zpl.bak" && [] + "x.zpl" == "x.zpl" && ['.'] + "bak" == ".bak";
    BakIsNotZpl();
  }

  lemma BakIsNotZpl()
    ensures Lower(".bak") != ".zpl"
  {
    assert Lower(".bak")[1] == 'b';
  }

  /** A dot file has no extension. */
  lemma DotFileDoesNotQualify()
    ensures SplitExt(".zpl") == (".zpl", []) && !IsZpl(".zpl")
  {
    RFindAbsent(".zpl", '/');
    RFindLast(".", "zpl", '.');
    assert ".zpl" == "." + "zpl";
  }

  /** The directory part of an entry name stays in the version. */
  lemma DirectoryKeptInVersion()
    ensures IsZpl("fw/V1.zpl") && Version(Firmware("fw/V1.zpl", [])) == "fw/V1"
  {
    SplitExtStem("fw/", "V1", "zpl");
    assert "fw/" + "V1" + ['.'] + "zpl" == "fw/V1.zpl";
    assert "fw/" + "V1" == "fw/V1";
    LowerZpl();
  }
}
