/** Reading an OTA file: a text header of fixed size that describes the images behind it. */
module Ota {
  import opened Basics
  import opened Md5
  import opened Numbers
  import opened Text
  import opened Utf8

  const HEADER_SIZE: nat := 131072
  const BLOCK_SIZE: nat := 131072
  const MAX_IMAGES: nat := 8

  datatype Section = Section(
    ty: string, name: string, size: nat, md5: string, crc: nat,
    offset: nat, data: seq<byte>, crcFail: bool, md5Fail: bool)

  datatype Globals = Globals(bsSize: nat, packetMd5: Option<string>, packetMd5Fail: bool)

  const DEFAULT_GLOBALS := Globals(0, None, false)

  /** What the lines of one part of the header set. */
  datatype Fields = Fields(ty: string, name: string, size: nat, md5: string, crc: nat)

  const NO_FIELDS := Fields("?", "", 0, "", 0)

  type Word32 = n: nat | n <= U32_MAX

  /**
   The two functions that sections are checked with: the digest, and the checksum of an image for
   a block size. Nothing here depends on which functions they are.
   */
  datatype Checks = Checks(md5: Hash, crc: (seq<byte>, nat) -> Word32)

  // ---- lines of the form key=value

  /** Key and value of a line, both trimmed. */
  function KeyValue(line: string): Option<(string, string)> {
    var kv := SplitOnce(Trim(line), '=');
    if kv.None? then None else Some((Trim(kv.value.0), Trim(kv.value.1)))
  }

  function NumberOr(s: string, max: nat, fallback: nat): nat {
    var n := ParseUnsigned(s, max);
    if n.None? then fallback else n.value
  }

  function SetField(f: Fields, key: string, val: string): Fields {
    if key == "img_name" then f.(name := val)
    else if key == "img_type" then f.(ty := val)
    else if key == "img_size" then f.(size := NumberOr(val, U32_MAX, 0))
    else if key == "img_md5" then f.(md5 := val)
    else if key == "img_crc" then f.(crc := NumberOr(val, U32_MAX, 0))
    else f
  }

  function FieldLine(f: Fields, line: string): Fields {
    var kv := KeyValue(line);
    if kv.None? then f else SetField(f, kv.value.0, kv.value.1)
  }

  function SetGlobal(g: Globals, key: string, val: string): Globals {
    if key == "bs_size" then g.(bsSize := NumberOr(val, USIZE_MAX, g.bsSize))
    else if key == "ota_img_packet_md5" then g.(packetMd5 := Some(val))
    else g
  }

  function GlobalLine(g: Globals, line: string): Globals {
    var kv := KeyValue(line);
    if kv.None? then g else SetGlobal(g, kv.value.0, kv.value.1)
  }

  function FoldLines<T>(step: (T, string) -> T, acc: T, lines: seq<string>): T
    decreases |lines|
  {
    if lines == [] then acc else FoldLines(step, step(acc, lines[0]), lines[1..])
  }

  lemma {:induction false} FoldLinesSnoc<T>(step: (T, string) -> T, acc: T, lines: seq<string>, line: string)
    ensures FoldLines(step, acc, lines + [line]) == step(FoldLines(step, acc, lines), line)
    decreases |lines|
  {
    if lines == [] {
      assert lines + [line] == [line] && [line][1..] == [];
    } else {
      assert (lines + [line])[1..] == lines[1..] + [line];
      FoldLinesSnoc(step, step(acc, lines[0]), lines[1..], line);
    }
  }

  function FieldsOf(part: string): Fields {
    FoldLines(FieldLine, NO_FIELDS, Lines(part))
  }

  function GlobalsOf(text: string): Globals {
    FoldLines(GlobalLine, Globals(BLOCK_SIZE, None, false), Lines(text))
  }

  // ---- sections

  const GAP := "\n\n"

  /** `str::split("\n\n")`. */
  function SplitGaps(text: string): (parts: seq<string>)
    ensures |parts| >= 1
    decreases |text|
  {
    var at := Find(text, GAP);
    if at.None? then [text] else [text[..at.value]] + SplitGaps(text[at.value + 2..])
  }

  predicate Describes(part: string) {
    Contains(part, "img_name")
  }

  /** The descriptions among the parts, in order. */
  function Described<F>(parts: seq<string>, describes: string -> bool, read: string -> F): seq<F> {
    if parts == [] then []
    else
      var rest := Described(parts[1..], describes, read);
      if describes(parts[0]) then [read(parts[0])] + rest else rest
  }

  lemma NextDescribed<F>(parts: seq<string>, k: nat, describes: string -> bool, read: string -> F)
    requires k < |parts| && describes(parts[k])
    ensures Described(parts[k..], describes, read) == [read(parts[k])] + Described(parts[k + 1..], describes, read)
  {
    assert parts[k..][1..] == parts[k + 1..];
  }

  lemma NextSkipped<F>(parts: seq<string>, k: nat, describes: string -> bool, read: string -> F)
    requires k < |parts| && !describes(parts[k])
    ensures Described(parts[k..], describes, read) == Described(parts[k + 1..], describes, read)
  {
    assert parts[k..][1..] == parts[k + 1..];
  }

  /** A checksum of zero means that there is none to compare. */
  predicate CrcMatches(checks: Checks, data: seq<byte>, bs: nat, crc: nat) {
    crc == 0 || checks.crc(data, bs) == crc
  }

  predicate Md5Matches(checks: Checks, data: seq<byte>, hex: string) {
    hex == "" || HexDigest(hex) == Some(checks.md5(data))
  }

  /** The section that starts at `offset`, with the outcome of both checks. */
  function SectionAt(checks: Checks, f: Fields, buf: seq<byte>, bs: nat, offset: nat): Section
    requires offset + f.size <= |buf|
  {
    var data := buf[offset..offset + f.size];
    Section(f.ty, f.name, f.size, f.md5, f.crc, offset, data,
            !CrcMatches(checks, data, bs, f.crc), !Md5Matches(checks, data, f.md5))
  }

  /** How the scan of the header ended. */
  datatype End =
    | Complete
    | Overrun   // a section does not fit the file
    | Reversed  // a section's end wraps around, and the slice would end before it begins
    | Endless   // a checksum over blocks of size zero is asked for

  datatype Scan = Scan(sections: seq<Section>, end: End)

  /** The checksum loop never advances: the block size is zero and there is something to check. */
  predicate NeverEnds(f: Fields, bs: nat) {
    bs == 0 && f.crc != 0 && f.size > 0
  }

  /** Where the section that starts at `offset` ends, as far as a machine word can say. */
  function EndOf(f: Fields, offset: nat): nat {
    (offset + f.size) % TWO_32
  }

  /** The end does not fit a machine word. What is left of it lies before the start. */
  predicate Wraps(f: Fields, offset: nat) {
    offset + f.size >= TWO_32
  }

  /** For sizes and offsets that are machine words themselves, a wrapped end is one before the start. */
  lemma WrapsIffReversed(f: Fields, offset: nat)
    requires f.size < TWO_32 && offset < TWO_32
    ensures Wraps(f, offset) <==> EndOf(f, offset) < offset
  {
    if Wraps(f, offset) {
      assert EndOf(f, offset) == offset + f.size - TWO_32;
    }
  }

  /** The sections that `fs` describe, at most `room`, the first at `offset`. */
  function ScanFields(checks: Checks, fs: seq<Fields>, buf: seq<byte>, bs: nat, offset: nat, room: nat): Scan
    decreases |fs|
  {
    if fs == [] || room == 0 then Scan([], Complete)
    else
      var f := fs[0];
      if EndOf(f, offset) > |buf| then Scan([], Overrun)
      else if Wraps(f, offset) then Scan([], Reversed)
      else if NeverEnds(f, bs) then Scan([], Endless)
      else
        var rest := ScanFields(checks, fs[1..], buf, bs, offset + f.size, room - 1);
        Scan([SectionAt(checks, f, buf, bs, offset)] + rest.sections, rest.end)
  }

  function HeaderText(buf: seq<byte>): Option<string> {
    Decode(buf[..Min(HEADER_SIZE, |buf|)])
  }

  function EndOffset(sections: seq<Section>): nat {
    if sections == [] then HEADER_SIZE
    else sections[|sections| - 1].offset + sections[|sections| - 1].size
  }

  /** What `parse_ota` does with a file: it may also run forever, or slice what is no range of the file. */
  datatype Outcome =
    | Parsed(sections: seq<Section>, globals: Globals, end: End)
    | NotText
    | RunsForever
    | OutOfBounds   // the packet digest is taken from a header area that the file does not have
    | OutOfOrder    // a section whose end wraps around

  function PacketMd5Fails(checks: Checks, buf: seq<byte>, sections: seq<Section>, packetMd5: string): bool
    requires HEADER_SIZE <= EndOffset(sections) <= |buf|
  {
    HexDigest(packetMd5) != Some(checks.md5(buf[HEADER_SIZE..EndOffset(sections)]))
  }

  function Finish(checks: Checks, buf: seq<byte>, g: Globals, scan: Scan): Outcome {
    match scan.end
    case Endless => RunsForever
    case Reversed => OutOfOrder
    case Overrun => Parsed(scan.sections, g, Overrun)
    case Complete =>
      if g.packetMd5.None? then Parsed(scan.sections, g, Complete)
      else if !(HEADER_SIZE <= EndOffset(scan.sections) <= |buf|) then OutOfBounds
      else
        var fails := PacketMd5Fails(checks, buf, scan.sections, g.packetMd5.value);
        Parsed(scan.sections, g.(packetMd5Fail := fails), Complete)
  }

  function ParseOta(checks: Checks, buf: seq<byte>, room: nat): Outcome {
    var text := HeaderText(buf);
    if text.None? then NotText
    else
      var g := GlobalsOf(text.value);
      var fs := Described(SplitGaps(text.value), Describes, FieldsOf);
      Finish(checks, buf, g, ScanFields(checks, fs, buf, g.bsSize, HEADER_SIZE, room))
  }
}
