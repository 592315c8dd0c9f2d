/**
 * The newc cpio builder (`CpioBuilder`) against a parser of the format
 * (Linux: Documentation/driver-api/early-userspace/buffer-format.rst).
 */
module Cpio {
  import opened Bytes

  const HEADER_LEN: nat := 110
  const MAGIC: seq<byte> := [0x30, 0x37, 0x30, 0x37, 0x30, 0x31]
  const TRAILER: seq<byte> := [0x54, 0x52, 0x41, 0x49, 0x4C, 0x45, 0x52, 0x21, 0x21, 0x21]

  // ---- Writing ----------------------------------------------------------------------------

  function HexDigit(d: nat): byte
    requires d < 16
  {
    if d < 10 then 0x30 + d else 0x57 + d
  }

  /** `n` lower-case hexadecimal digits, most significant first (`{:08x}` for n = 8). */
  function Hex(v: nat, n: nat): (s: seq<byte>)
    ensures |s| == n
  {
    if n == 0 then [] else Hex(v / 16, n - 1) + [HexDigit(v % 16)]
  }

  /** The thirteen header fields. */
  function Fields(ino: nat, mode: nat, filesize: nat, namesize: nat): (f: seq<nat>)
    ensures |f| == 13
  {
    [ino, mode, 0, 0, 1, 0, filesize, 0, 0, 0, 0, namesize, 0]
  }

  function HexAll(fields: seq<nat>): (s: seq<byte>)
    ensures |s| == 8 * |fields|
  {
    if fields == [] then [] else HexAll(fields[..|fields| - 1]) + Hex(fields[|fields| - 1], 8)
  }

  function Pad(n: nat): (p: nat)
    ensures p < 4 && (n + p) % 4 == 0
  {
    (4 - n % 4) % 4
  }

  function HeaderBytes(ino: nat, mode: nat, filesize: nat, namesize: nat): (s: seq<byte>)
    ensures |s| == HEADER_LEN
  {
    MAGIC + HexAll(Fields(ino, mode, filesize, namesize))
  }

  /** What follows the header: name with NUL, padding, content, padding. */
  function Body(name: seq<byte>, content: seq<byte>): (b: seq<byte>)
    ensures (HEADER_LEN + |b|) % 4 == 0
  {
    name + [0] + Zeroes(Pad(HEADER_LEN + |name| + 1)) + content + Zeroes(Pad(|content|))
  }

  /** One archive entry. */
  function EntryBytes(ino: nat, mode: nat, name: seq<byte>, content: seq<byte>): seq<byte> {
    HeaderBytes(ino, mode, |content| % U32_RANGE, (|name| + 1) % U32_RANGE) + Body(name, content)
  }

  datatype File = File(path: seq<byte>, content: seq<byte>, mode: nat)

  /** Regular-file bit plus the permission bits. */
  function FileMode(mode: nat): nat { 0x8000 + mode % 0x1000 }

  /** The entries of `files`, with inodes counted from `ino`. */
  function Entries(files: seq<File>, ino: nat): seq<byte> {
    if files == [] then []
    else EntryBytes(ino, FileMode(files[0].mode), files[0].path, files[0].content) + Entries(files[1..], ino + 1)
  }

  function Archive(files: seq<File>): seq<byte> {
    Entries(files, 1) + EntryBytes(|files| + 1, 0, TRAILER, [])
  }

  lemma {:induction false} EntriesSnoc(files: seq<File>, f: File, ino: nat)
    ensures Entries(files + [f], ino) ==
            Entries(files, ino) + EntryBytes(ino + |files|, FileMode(f.mode), f.path, f.content)
  {
    hide EntryBytes, FileMode;
    if files == [] {
      assert files + [f] == [f] && [f][1..] == [];
    } else {
      assert (files + [f])[1..] == files[1..] + [f];
      EntriesSnoc(files[1..], f, ino + 1);
    }
  }

  class CpioBuilder {
    var data: seq<byte>
    var inode: nat
    ghost var files: seq<File>

    ghost predicate Valid()
      reads this
    {
      inode == |files| + 1 && data == Entries(files, 1)
    }

    constructor ()
      ensures Valid() && files == []
    {
      data, inode, files := [], 1, [];
    }

    method AppendEntry(name: seq<byte>, content: seq<byte>, mode: nat)
      modifies this`data, this`inode
      ensures data == old(data) + EntryBytes(old(inode), mode, name, content)
      ensures inode == old(inode) + 1
    {
      hide HeaderBytes, Pad;
      var namesize := |name| + 1;
      var filesize := |content|;
      data := data + HeaderBytes(inode, mode, filesize % U32_RANGE, namesize % U32_RANGE);
      inode := inode + 1;
      data := data + name;
      data := data + [0];
      var namePad := Pad(HEADER_LEN + namesize);
      data := data + Zeroes(namePad);
      data := data + content;
      var dataPad := Pad(filesize);
      data := data + Zeroes(dataPad);
    }

    method AddFile(path: seq<byte>, content: seq<byte>, mode: nat)
      requires Valid()
      modifies this
      ensures Valid() && files == old(files) + [File(path, content, mode)]
    {
      hide EntryBytes;
      EntriesSnoc(files, File(path, content, mode), 1);
      AppendEntry(path, content, FileMode(mode));
      files := files + [File(path, content, mode)];
    }

    method Finish() returns (archive: seq<byte>)
      requires Valid()
      modifies this`data, this`inode
      ensures archive == Archive(files)
    {
      AppendEntry(TRAILER, [], 0);
      archive := data;
    }
  }

  // ---- Reading ----------------------------------------------------------------------------

  function DigitValue(b: byte): Option<nat> {
    if 0x30 <= b <= 0x39 then Some(b - 0x30)
    else if 0x61 <= b <= 0x66 then Some(b - 0x57)
    else if 0x41 <= b <= 0x46 then Some(b - 0x37)
    else None
  }

  function ParseHex(s: seq<byte>): Option<nat> {
    if s == [] then Some(0)
    else match (ParseHex(s[..|s| - 1]), DigitValue(s[|s| - 1]))
      case (Some(h), Some(d)) => Some(16 * h + d)
      case _ => None
  }

  /** Header field `k` of the entry at the front of `s`. */
  function Field(s: seq<byte>, k: nat): Option<nat>
    requires |s| >= HEADER_LEN && k < 13
  {
    ParseHex(s[6 + 8 * k..14 + 8 * k])
  }

  datatype Parsed = Parsed(ino: nat, mode: nat, name: seq<byte>, content: seq<byte>)

  /** The entry at the front of `s` and its length. */
  function ParseEntry(s: seq<byte>): (r: Option<(Parsed, nat)>)
    ensures r.Some? ==> 0 < r.value.1 <= |s|
  {
    if |s| < HEADER_LEN || s[..6] != MAGIC then None
    else match (Field(s, 0), Field(s, 1), Field(s, 6), Field(s, 11))
      case (Some(ino), Some(mode), Some(filesize), Some(namesize)) =>
        var nameEnd := HEADER_LEN + namesize;
        var start := nameEnd + Pad(nameEnd);
        var end := start + filesize + Pad(filesize);
        if namesize == 0 || end > |s| || s[nameEnd - 1] != 0 then None
        else Some((Parsed(ino, mode, s[HEADER_LEN..nameEnd - 1], s[start..start + filesize]), end))
      case _ => None
  }

  /** All files of the concatenated archives in `s`; a trailer ends one archive. */
  function Parse(s: seq<byte>): Option<seq<Parsed>>
    decreases |s|
  {
    if s == [] then Some([])
    else
      var e := ParseEntry(s);
      if e.None? then None
      else
        var rest := Parse(s[e.value.1..]);
        if rest.None? then None
        else if e.value.0.name == TRAILER then rest
        else Some([e.value.0] + rest.value)
  }

  // ---- Round trip -------------------------------------------------------------------------

  function Pow16(n: nat): nat { if n == 0 then 1 else 16 * Pow16(n - 1) }

  lemma {:induction false} HexRoundTrip(v: nat, n: nat)
    requires v < Pow16(n)
    ensures ParseHex(Hex(v, n)) == Some(v)
  {
    if n > 0 {
      HexRoundTrip(v / 16, n - 1);
      assert Hex(v, n)[..n - 1] == Hex(v / 16, n - 1);
    }
  }

  lemma Pow16At8()
    ensures Pow16(8) == U32_RANGE
  {
    assert Pow16(4) == 0x1_0000;
  }

  lemma {:induction false} HexAllSlice(fields: seq<nat>, k: nat)
    requires k < |fields|
    ensures HexAll(fields)[8 * k..8 * k + 8] == Hex(fields[k], 8)
  {
    var n := |fields| - 1;
    var front := HexAll(fields[..n]);
    if k < n {
      HexAllSlice(fields[..n], k);
      assert HexAll(fields)[8 * k..8 * k + 8] == front[8 * k..8 * k + 8];
    }
  }

  lemma FieldOfHeader(fields: seq<nat>, rest: seq<byte>, k: nat)
    requires |fields| == 13 && k < 13 && fields[k] < U32_RANGE
    ensures |MAGIC + HexAll(fields) + rest| >= HEADER_LEN
    ensures Field(MAGIC + HexAll(fields) + rest, k) == Some(fields[k])
  {
    var h := HexAll(fields);
    var s := MAGIC + h + rest;
    assert s[6 + 8 * k..14 + 8 * k] == h[8 * k..8 * k + 8] by {
      assert s[6..6 + |h|] == h;
      SliceOfSlice(s, 6, 6 + |h|, 8 * k, 8 * k + 8);
    }
    HexAllSlice(fields, k);
    Pow16At8();
    HexRoundTrip(fields[k], 8);
  }

  /** The fields that matter, read back from a header. */
  lemma HeaderFields(ino: nat, mode: nat, filesize: nat, namesize: nat, rest: seq<byte>)
    requires ino < U32_RANGE && mode < U32_RANGE && filesize < U32_RANGE && namesize < U32_RANGE
    ensures var s := HeaderBytes(ino, mode, filesize, namesize) + rest;
            && |s| >= HEADER_LEN && s[..6] == MAGIC
            && Field(s, 0) == Some(ino) && Field(s, 1) == Some(mode)
            && Field(s, 6) == Some(filesize) && Field(s, 11) == Some(namesize)
  {
    hide HexAll, Field;
    var f := Fields(ino, mode, filesize, namesize);
    FieldOfHeader(f, rest, 0);
    FieldOfHeader(f, rest, 1);
    FieldOfHeader(f, rest, 6);
    FieldOfHeader(f, rest, 11);
  }

  /** Hexadecimal digits are 0 to 9 and lower-case a to f. */
  lemma {:induction false} HexIsLowerCase(v: nat, n: nat, i: nat)
    requires i < n
    ensures 0x30 <= Hex(v, n)[i] <= 0x39 || 0x61 <= Hex(v, n)[i] <= 0x66
  {
    if i < n - 1 {
      HexIsLowerCase(v / 16, n - 1, i);
    }
  }

  lemma {:induction false} HexAllIsLowerCase(fields: seq<nat>, i: nat)
    requires i < 8 * |fields|
    ensures 0x30 <= HexAll(fields)[i] <= 0x39 || 0x61 <= HexAll(fields)[i] <= 0x66
  {
    hide Hex;
    var n := |fields| - 1;
    if i < 8 * n {
      HexAllIsLowerCase(fields[..n], i);
    } else {
      HexIsLowerCase(fields[n], 8, i - 8 * n);
    }
  }

  /**
   * Every entry starts with the characters 070701 and thirteen numbers in lower-case hexadecimal:
   * inode, mode, four that a reader needs no more than the others (owner, group, one link, time),
   * file size, four device numbers, name size and a zero checksum.
   */
  lemma EntryHeader(ino: nat, mode: nat, name: seq<byte>, content: seq<byte>, k: nat, i: nat)
    requires ino < 0x1_0000_0000 && mode < 0x1_0000_0000 && k < 13 && i < 104
    ensures var e := EntryBytes(ino, mode, name, content);
            && |e| >= 110 && e[..6] == [0x30, 0x37, 0x30, 0x37, 0x30, 0x31]
            && (0x30 <= e[6 + i] <= 0x39 || 0x61 <= e[6 + i] <= 0x66)
            && ParseHex(e[6 + 8 * k..14 + 8 * k]) ==
               Some([ino, mode, 0, 0, 1, 0, |content| % 0x1_0000_0000, 0, 0, 0, 0, (|name| + 1) % 0x1_0000_0000, 0][k])
  {
    hide HexAll, ParseHex, Body;
    var f := Fields(ino, mode, |content| % U32_RANGE, (|name| + 1) % U32_RANGE);
    var e := EntryBytes(ino, mode, name, content);
    FieldOfHeader(f, Body(name, content), k);
    HexAllIsLowerCase(f, i);
    assert e == MAGIC + HexAll(f) + Body(name, content);
    assert e[6 + i] == HexAll(f)[i];
  }

  /** The parts of an entry, found again by their lengths. */
  lemma PartsAt(h: seq<byte>, name: seq<byte>, p: seq<byte>, content: seq<byte>, q: seq<byte>, rest: seq<byte>)
    ensures var s := h + (name + [0] + p + content + q) + rest;
            var n := |h| + |name| + 1;
            var c := n + |p|;
            && c + |content| + |q| <= |s|
            && s[|h|..n - 1] == name && s[n - 1] == 0
            && s[c..c + |content|] == content
  {
  }

  /** What the parser makes of a header and the parts it announces. */
  lemma ParseEntryFrom(s: seq<byte>, ino: nat, mode: nat, name: seq<byte>, content: seq<byte>)
    requires |s| >= HEADER_LEN && s[..6] == MAGIC
    requires Field(s, 0) == Some(ino) && Field(s, 1) == Some(mode)
    requires Field(s, 6) == Some(|content|) && Field(s, 11) == Some(|name| + 1)
    requires var n := HEADER_LEN + |name| + 1;
             var c := n + Pad(n);
             && c + |content| + Pad(|content|) <= |s|
             && s[HEADER_LEN..n - 1] == name && s[n - 1] == 0 && s[c..c + |content|] == content
    ensures var n := HEADER_LEN + |name| + 1;
            ParseEntry(s) == Some((Parsed(ino, mode, name, content), n + Pad(n) + |content| + Pad(|content|)))
  {
    hide Field, Pad;
  }

  /** One entry is parsed back, and what follows it is left alone. */
  lemma EntryRoundTrip(ino: nat, mode: nat, name: seq<byte>, content: seq<byte>, rest: seq<byte>)
    requires ino < U32_RANGE && mode < U32_RANGE && |name| + 1 < U32_RANGE && |content| < U32_RANGE
    ensures var e := EntryBytes(ino, mode, name, content);
            && ParseEntry(e + rest) == Some((Parsed(ino, mode, name, content), |e|))
            && (e + rest)[|e|..] == rest
  {
    hide HeaderBytes, Field, Pad, ParseEntry;
    var h := HeaderBytes(ino, mode, |content|, |name| + 1);
    var b := Body(name, content);
    PartsAt(h, name, Zeroes(Pad(HEADER_LEN + |name| + 1)), content, Zeroes(Pad(|content|)), rest);
    HeaderFields(ino, mode, |content|, |name| + 1, b + rest);
    assert h + b + rest == h + (b + rest);
    ParseEntryFrom(h + b + rest, ino, mode, name, content);
  }

  /** An entry is recovered from its bytes exactly when its sizes fit the 32-bit header fields. */
  lemma EntryRecoveredIff(ino: nat, mode: nat, name: seq<byte>, content: seq<byte>)
    requires ino < U32_RANGE && mode < U32_RANGE
    ensures var r := ParseEntry(EntryBytes(ino, mode, name, content));
            (r.Some? && r.value.0 == Parsed(ino, mode, name, content)) <==>
            |name| + 1 < U32_RANGE && |content| < U32_RANGE
  {
    var e := EntryBytes(ino, mode, name, content);
    if |name| + 1 < U32_RANGE && |content| < U32_RANGE {
      EntryRoundTrip(ino, mode, name, content, []);
      assert e + [] == e;
    } else {
      EntrySizes(ino, mode, name, content);
    }
  }

  /** A parsed entry has the sizes its header says, which are those given modulo 2^32. */
  lemma EntrySizes(ino: nat, mode: nat, name: seq<byte>, content: seq<byte>)
    requires ino < U32_RANGE && mode < U32_RANGE
    ensures var r := ParseEntry(EntryBytes(ino, mode, name, content));
            r.Some? ==> |r.value.0.name| + 1 == (|name| + 1) % U32_RANGE && |r.value.0.content| == |content| % U32_RANGE
  {
    hide HeaderBytes, Field, Body, Pad;
    HeaderFields(ino, mode, |content| % U32_RANGE, (|name| + 1) % U32_RANGE, Body(name, content));
  }

  /** Every entry, and so every archive, ends on a 4-byte boundary. */
  lemma EntryAligned(ino: nat, mode: nat, name: seq<byte>, content: seq<byte>)
    ensures |EntryBytes(ino, mode, name, content)| % 4 == 0
  {
    hide HeaderBytes, Body;
  }

  lemma {:induction false} EntriesAligned(files: seq<File>, ino: nat)
    ensures |Entries(files, ino)| % 4 == 0
  {
    hide EntryBytes;
    if files != [] {
      EntryAligned(ino, FileMode(files[0].mode), files[0].path, files[0].content);
      EntriesAligned(files[1..], ino + 1);
    }
  }

  lemma ArchiveAligned(files: seq<File>)
    ensures |Archive(files)| % 4 == 0
  {
    hide EntryBytes, Entries;
    EntriesAligned(files, 1);
    EntryAligned(|files| + 1, 0, TRAILER, []);
  }

  predicate SizesFit(files: seq<File>) {
    forall i :: 0 <= i < |files| ==> |files[i].path| + 1 < U32_RANGE && |files[i].content| < U32_RANGE
  }

  /** The files a reader gets: in order, with masked modes and consecutive inodes, trailers left out. */
  function Expected(files: seq<File>, ino: nat): seq<Parsed> {
    if files == [] then []
    else
      var rest := Expected(files[1..], ino + 1);
      if files[0].path == TRAILER then rest
      else [Parsed(ino, FileMode(files[0].mode), files[0].path, files[0].content)] + rest
  }

  lemma {:induction false} EntriesRoundTrip(files: seq<File>, ino: nat, rest: seq<byte>)
    requires SizesFit(files) && ino + |files| < U32_RANGE && Parse(rest).Some?
    ensures Parse(Entries(files, ino) + rest) == Some(Expected(files, ino) + Parse(rest).value)
  {
    hide EntryBytes, ParseEntry, SizesFit, FileMode;
    if files == [] {
      assert Entries(files, ino) + rest == rest;
      assert Expected(files, ino) + Parse(rest).value == Parse(rest).value;
    } else {
      var f := files[0];
      var mode := FileMode(f.mode);
      ModeIs(f.mode);
      SizesFitTail(files);
      EntriesRoundTrip(files[1..], ino + 1, rest);
      var tail := Entries(files[1..], ino + 1) + rest;
      var e, p := EntryBytes(ino, mode, f.path, f.content), Parsed(ino, mode, f.path, f.content);
      EntryRoundTrip(ino, mode, f.path, f.content, tail);
      assert Entries(files, ino) + rest == e + tail;
      EntryNotEmpty(ino, mode, f.path, f.content);
      ParseFirst(e, tail, p);
      assert [p] + (Expected(files[1..], ino + 1) + Parse(rest).value)
          == ([p] + Expected(files[1..], ino + 1)) + Parse(rest).value;
    }
  }

  /** A regular file with the twelve permission bits. */
  lemma ModeIs(mode: nat)
    ensures FileMode(mode) == 0x8000 + mode % 0x1000 < 0x1_0000_0000
  {
  }

  lemma SizesFitTail(files: seq<File>)
    requires SizesFit(files) && files != []
    ensures SizesFit(files[1..])
    ensures |files[0].path| + 1 < U32_RANGE && |files[0].content| < U32_RANGE
  {
  }

  lemma EntryNotEmpty(ino: nat, mode: nat, name: seq<byte>, content: seq<byte>)
    ensures EntryBytes(ino, mode, name, content) != []
  {
  }

  /** Parsing peels one entry off the front. */
  lemma ParseFirst(e: seq<byte>, tail: seq<byte>, p: Parsed)
    requires e != [] && ParseEntry(e + tail) == Some((p, |e|)) && Parse(tail).Some?
    ensures Parse(e + tail) == Some(if p.name == TRAILER then Parse(tail).value else [p] + Parse(tail).value)
  {
    hide ParseEntry;
    assert (e + tail)[|e|..] == tail;
  }

  /**
   * Round trip: parsing a finished archive followed by any parseable bytes gives back the files
   * in order, and then the files of what follows.
   */
  lemma ArchiveRoundTrip(files: seq<File>, rest: seq<byte>)
    requires SizesFit(files) && |files| + 1 < U32_RANGE && Parse(rest).Some?
    ensures Parse(Archive(files) + rest) == Some(Expected(files, 1) + Parse(rest).value)
  {
    hide EntryBytes, Entries, Parse, ParseEntry, Expected;
    var t := EntryBytes(|files| + 1, 0, TRAILER, []);
    EntryRoundTrip(|files| + 1, 0, TRAILER, [], rest);
    EntryNotEmpty(|files| + 1, 0, TRAILER, []);
    ParseFirst(t, rest, Parsed(|files| + 1, 0, TRAILER, []));
    EntriesRoundTrip(files, 1, t + rest);
    assert Archive(files) + rest == Entries(files, 1) + (t + rest);
  }

  /** Concatenated archives parse to the concatenated file lists. */
  lemma ArchivesConcatenate(a: seq<File>, b: seq<File>)
    requires SizesFit(a) && SizesFit(b) && |a| + 1 < U32_RANGE && |b| + 1 < U32_RANGE
    ensures Parse(Archive(a) + Archive(b)) == Some(Expected(a, 1) + Expected(b, 1))
  {
    hide Archive, Expected;
    assert Archive(b) + [] == Archive(b);
    ArchiveRoundTrip(b, []);
    assert Expected(b, 1) + [] == Expected(b, 1);
    ArchiveRoundTrip(a, Archive(b));
  }

  /** Every file as it was added: a regular file with its permission bits. */
  function AsAdded(files: seq<File>): (ps: seq<Parsed>)
    ensures |ps| == |files|
  {
    seq(|files|, i requires 0 <= i < |files| =>
      Parsed(i + 1, 0x8000 + files[i].mode % 0x1000, files[i].path, files[i].content))
  }

  lemma {:induction false} ExpectedLength(files: seq<File>, ino: nat)
    ensures |Expected(files, ino)| <= |files|
    ensures |Expected(files, ino)| == |files| <==> forall i :: 0 <= i < |files| ==> files[i].path != TRAILER
    ensures |Expected(files, ino)| == |files| ==>
              forall i :: 0 <= i < |files| ==>
                Expected(files, ino)[i] == Parsed(ino + i, FileMode(files[i].mode), files[i].path, files[i].content)
  {
    hide FileMode;
    if files != [] {
      ExpectedLength(files[1..], ino + 1);
      assert forall i :: 1 <= i < |files| ==> files[i] == files[1..][i - 1];
    }
  }

  /** All files come back, in order, if and only if none is named like the trailer. */
  lemma AllRecoveredIff(files: seq<File>)
    requires SizesFit(files) && |files| + 1 < U32_RANGE
    ensures Parse(Archive(files)) == Some(AsAdded(files)) <==>
            forall i :: 0 <= i < |files| ==> files[i].path != [0x54, 0x52, 0x41, 0x49, 0x4C, 0x45, 0x52, 0x21, 0x21, 0x21]
  {
    hide Archive, Expected, SizesFit, FileMode;
    forall i | 0 <= i < |files| ensures FileMode(files[i].mode) == 0x8000 + files[i].mode % 0x1000 {
      ModeIs(files[i].mode);
    }
    ArchiveRoundTrip(files, []);
    assert Archive(files) + [] == Archive(files);
    assert Expected(files, 1) + [] == Expected(files, 1);
    ExpectedLength(files, 1);
    if |Expected(files, 1)| == |files| {
      assert Expected(files, 1) == AsAdded(files);
    }
  }
}
