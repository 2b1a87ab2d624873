/** The parser as it runs: loops over lines, parts and sections, and the extractor that judges them. */
module OtaReader {
  import opened Basics
  import opened Md5
  import opened Ota
  import opened Text
  import Utf8

  /** The loop over the lines of a text, as `parse_globals` runs it. */
  method FoldText<T>(step: (T, string) -> T, start: T, text: string) returns (acc: T)
    ensures acc == FoldLines(step, start, Lines(text))
  {
    acc := start;
    var lines := Lines(text);
    for i := 0 to |lines|
      invariant acc == FoldLines(step, start, lines[..i])
    {
      FoldLinesSnoc(step, start, lines[..i], lines[i]);
      assert lines[..i] + [lines[i]] == lines[..i + 1];
      acc := step(acc, lines[i]);
    }
    assert lines[..|lines|] == lines;
  }

  /** Builds one section and runs both checks on it. */
  method CheckSection(checks: Checks, f: Fields, buf: seq<byte>, bs: nat, offset: nat) returns (s: Section)
    requires offset + f.size <= |buf|
    ensures s == SectionAt(checks, f, buf, bs, offset)
  {
    var data := buf[offset..offset + f.size];
    s := Section(f.ty, f.name, f.size, f.md5, f.crc, offset, data, false, false);
    if f.crc != 0 && checks.crc(data, bs) != f.crc {
      s := s.(crcFail := true);
    }
    if f.md5 != "" {
      var hex := ParseMd5Hex(f.md5);
      if hex.None? || hex.value != checks.md5(data) {
        s := s.(md5Fail := true);
      }
    }
  }

  function After(images: seq<Section>, scan: Scan): Scan {
    Scan(images + scan.sections, scan.end)
  }

  /** The first description taken off the list. */
  lemma ScanNext(checks: Checks, f: Fields, fs: seq<Fields>, buf: seq<byte>, bs: nat, offset: nat, room: nat)
    requires room > 0
    ensures
      var scan := ScanFields(checks, [f] + fs, buf, bs, offset, room);
      if EndOf(f, offset) > |buf| then scan == Scan([], Overrun)
      else if Wraps(f, offset) then scan == Scan([], Reversed)
      else if NeverEnds(f, bs) then scan == Scan([], Endless)
      else scan == After([SectionAt(checks, f, buf, bs, offset)], ScanFields(checks, fs, buf, bs, offset + f.size, room - 1))
  {
    assert ([f] + fs)[1..] == fs;
  }

  lemma ScanDone(checks: Checks, images: seq<Section>, fs: seq<Fields>, buf: seq<byte>, bs: nat, offset: nat, room: nat)
    requires fs == [] || room == 0
    ensures After(images, ScanFields(checks, fs, buf, bs, offset, room)) == Scan(images, Complete)
  {
    assert images + [] == images;
  }

  /** One described part: a new section, or the reason to stop. */
  method TakeSection(checks: Checks, images0: seq<Section>, f: Fields, ghost later: seq<Fields>,
                     buf: seq<byte>, bs: nat, offset: nat, ghost room: nat)
    returns (images: seq<Section>, stop: Option<End>)
    requires room > 0
    ensures stop.None? ==>
              After(images0, ScanFields(checks, [f] + later, buf, bs, offset, room)) ==
              After(images, ScanFields(checks, later, buf, bs, offset + f.size, room - 1))
    ensures stop.None? ==> |images| == |images0| + 1
    ensures stop.Some? ==> After(images0, ScanFields(checks, [f] + later, buf, bs, offset, room)) == Scan(images, stop.value)
  {
    ScanNext(checks, f, later, buf, bs, offset, room);
    if (offset + f.size) % TWO_32 > |buf| {
      return images0, Some(Overrun);
    }
    if offset + f.size >= TWO_32 {
      return images0, Some(Reversed);
    }
    if NeverEnds(f, bs) {
      return images0, Some(Endless);
    }
    var section := CheckSection(checks, f, buf, bs, offset);
    Associative(images0, [section], ScanFields(checks, later, buf, bs, offset + f.size, room - 1).sections);
    return images0 + [section], None;
  }

  /** The body of the loop over the parts, for the part at `k`. */
  method TakePart(checks: Checks, images0: seq<Section>, offset0: nat, parts: seq<string>, k: nat,
                  describes: string -> bool, read: string -> Fields, buf: seq<byte>, bs: nat, ghost room: nat)
    returns (images: seq<Section>, offset: nat, stop: Option<End>)
    requires k < |parts| && |images0| < room
    ensures
      var before := Pending(checks, images0, Described(parts[k..], describes, read), buf, bs, offset0, room);
      match stop
      case Some(end) => before == Scan(images, end)
      case None =>
        |images| <= room && before == Pending(checks, images, Described(parts[k + 1..], describes, read), buf, bs, offset, room)
  {
    images, offset, stop := images0, offset0, None;
    if describes(parts[k]) {
      NextDescribed(parts, k, describes, read);
      var f := read(parts[k]);
      ghost var later := Described(parts[k + 1..], describes, read);
      images, stop := TakeSection(checks, images0, f, later, buf, bs, offset, room - |images0|);
      offset := offset + f.size;
    } else {
      NextSkipped(parts, k, describes, read);
    }
  }

  /** The scan as it will end, from the images found so far and the descriptions still to come. */
  ghost function Pending(checks: Checks, images: seq<Section>, fs: seq<Fields>, buf: seq<byte>, bs: nat, offset: nat, room: nat): Scan
    requires |images| <= room
  {
    After(images, ScanFields(checks, fs, buf, bs, offset, room - |images|))
  }

  /** The loop over the parts of the header: `images` and `offset` grow together. */
  method ScanHeader(checks: Checks, parts: seq<string>, describes: string -> bool, read: string -> Fields,
                    buf: seq<byte>, bs: nat, room: nat)
    returns (images: seq<Section>, end: End)
    ensures Scan(images, end) == ScanFields(checks, Described(parts, describes, read), buf, bs, HEADER_SIZE, room)
  {
    images := [];
    var offset: nat, stop := HEADER_SIZE, None;
    ghost var all := ScanFields(checks, Described(parts, describes, read), buf, bs, HEADER_SIZE, room);
    assert parts[0..] == parts && [] + all.sections == all.sections;
    var k := 0;
    while k < |parts| && |images| < room
      invariant 0 <= k <= |parts| && |images| <= room
      invariant all == Pending(checks, images, Described(parts[k..], describes, read), buf, bs, offset, room)
    {
      images, offset, stop := TakePart(checks, images, offset, parts, k, describes, read, buf, bs, room);
      if stop.Some? {
        return images, stop.value;
      }
      k := k + 1;
    }
    ScanDone(checks, images, Described(parts[k..], describes, read), buf, bs, offset, room - |images|);
    return images, Complete;
  }

  /** The packet digest, once all sections are there. */
  method CheckPacket(checks: Checks, buf: seq<byte>, g: Globals, images: seq<Section>, end: End) returns (out: Outcome)
    ensures out == Finish(checks, buf, g, Scan(images, end))
  {
    if end == Endless {
      return RunsForever;
    }
    if end == Reversed {
      return OutOfOrder;
    }
    if end == Overrun || g.packetMd5.None? {
      return Parsed(images, g, end);
    }
    var to := EndOffset(images);
    if !(HEADER_SIZE <= to <= |buf|) {
      return OutOfBounds;
    }
    var parsed := ParseMd5Hex(g.packetMd5.value);
    var fails := parsed != Some(checks.md5(buf[HEADER_SIZE..to]));
    return Parsed(images, g.(packetMd5Fail := fails), end);
  }

  /** `parse_ota`: the outcome of reading the header and checking what it describes. */
  method RunParseOta(checks: Checks, buf: seq<byte>, room: nat) returns (out: Outcome)
    ensures out == ParseOta(checks, buf, room)
  {
    var text := HeaderText(buf);
    if text.None? {
      return NotText;
    }
    var g := FoldText(GlobalLine, Globals(BLOCK_SIZE, None, false), text.value);
    var images, end := ScanHeader(checks, SplitGaps(text.value), Describes, FieldsOf, buf, g.bsSize, room);
    out := CheckPacket(checks, buf, g, images, end);
  }

  // ---- the extractor

  datatype Verdict = Accepted | Refused(reason: string) | Diverges | Panics

  /** The first section that failed a check decides, its checksum before its digest. */
  function FirstFailure(sections: seq<Section>): Option<string> {
    if sections == [] then None
    else if sections[0].crcFail then Some("failed section crc check")
    else if sections[0].md5Fail then Some("failed section md5 check")
    else FirstFailure(sections[1..])
  }

  function Judge(out: Outcome): Verdict {
    match out
    case RunsForever => Diverges
    case OutOfBounds => Panics
    case OutOfOrder => Panics
    case NotText => Refused("file has 0 OTA sections")
    case Parsed(sections, g, _) =>
      if sections == [] then Refused("file has 0 OTA sections")
      else
        var failure := FirstFailure(sections);
        if failure.Some? then Refused(failure.value)
        else if g.packetMd5Fail then Refused("failed packet md5 check")
        else Accepted
  }

  /** Section `i` is the first one that failed a check. */
  predicate FirstBad(sections: seq<Section>, i: nat) {
    && i < |sections| && (sections[i].crcFail || sections[i].md5Fail)
    && forall j :: 0 <= j < i ==> !sections[j].crcFail && !sections[j].md5Fail
  }

  lemma {:induction false} FailureIff(sections: seq<Section>)
    ensures FirstFailure(sections) == Some("failed section crc check") <==> exists i: nat :: FirstBad(sections, i) && sections[i].crcFail
    ensures FirstFailure(sections) == Some("failed section md5 check") <==> exists i: nat :: FirstBad(sections, i) && !sections[i].crcFail
    ensures FirstFailure(sections) == None <==> forall i :: 0 <= i < |sections| ==> !sections[i].crcFail && !sections[i].md5Fail
  {
    assert "failed section crc check"[15] != "failed section md5 check"[15];
    if sections != [] {
      var rest := sections[1..];
      FailureIff(rest);
      assert forall j :: 0 < j < |sections| ==> sections[j] == rest[j - 1];
      if sections[0].crcFail || sections[0].md5Fail {
        assert FirstBad(sections, 0);
      } else {
        forall i: nat
          ensures FirstBad(rest, i) <==> FirstBad(sections, i + 1)
        {
          assert FirstBad(rest, i) ==> forall j :: 0 < j < i + 1 ==> sections[j] == rest[j - 1];
          assert FirstBad(sections, i + 1) ==> forall j :: 0 <= j < i ==> rest[j] == sections[j + 1];
        }
        assert forall i: nat :: FirstBad(sections, i) ==> i > 0 && FirstBad(rest, i - 1);
      }
    }
  }

  /** A file that was read to its end or to the last section it has room for is refused for the first reason there is. */
  lemma ReasonIff(sections: seq<Section>, g: Globals, end: End)
    ensures var v := Judge(Parsed(sections, g, end));
      && (v == Refused("file has 0 OTA sections") <==> sections == [])
      && (v == Refused("failed section crc check") <==> exists i: nat :: FirstBad(sections, i) && sections[i].crcFail)
      && (v == Refused("failed section md5 check") <==> exists i: nat :: FirstBad(sections, i) && !sections[i].crcFail)
      && (v == Refused("failed packet md5 check") <==>
          sections != [] && g.packetMd5Fail && forall i :: 0 <= i < |sections| ==> !sections[i].crcFail && !sections[i].md5Fail)
  {
    FailureIff(sections);
    ReasonsDiffer();
    var failure := FirstFailure(sections);
    OneOfTwo(sections);
    assert sections != [] && failure.Some? ==> Judge(Parsed(sections, g, end)) == Refused(failure.value);
  }

  lemma {:induction false} OneOfTwo(sections: seq<Section>)
    ensures FirstFailure(sections) in {None, Some("failed section crc check"), Some("failed section md5 check")}
  {
    if sections != [] {
      OneOfTwo(sections[1..]);
    }
  }

  lemma ReasonsDiffer()
    ensures Distinct(["file has 0 OTA sections", "failed section crc check", "failed section md5 check", "failed packet md5 check"])
  {
    assert "failed section crc check"[15] != "failed section md5 check"[15];
    assert |"file has 0 OTA sections"| == 23 == |"failed packet md5 check"| && |"failed section crc check"| == 24;
    assert "file has 0 OTA sections"[1] != "failed packet md5 check"[1];
  }

  /** A header area that is no text is a file without sections. */
  lemma NoTextNoSections(checks: Checks, buf: seq<byte>, room: nat)
    requires Utf8.Decode(buf[..Min(131072, |buf|)]) == None
    ensures Judge(ParseOta(checks, buf, room)) == Refused("file has 0 OTA sections")
  {
  }

  class OtaExtractor {
    const checks: Checks
    const buf: seq<byte>
    var sections: seq<Option<Section>>
    var globals: Globals
    var parsed: bool

    ghost predicate Valid()
      reads this
    {
      |sections| == MAX_IMAGES
    }

    constructor (checks: Checks, buf: seq<byte>)
      ensures Valid() && this.buf == buf && this.checks == checks
      ensures !parsed && globals == DEFAULT_GLOBALS && forall i :: 0 <= i < MAX_IMAGES ==> sections[i] == None
    {
      this.checks, this.buf := checks, buf;
      sections := seq(MAX_IMAGES, _ => None);
      globals := DEFAULT_GLOBALS;
      parsed := false;
    }

    /** Parses the file into the section slots and judges it; later slots keep what they held. */
    method Parse() returns (v: Verdict)
      requires Valid()
      modifies this
      ensures Valid()
      ensures v == Judge(ParseOta(checks, buf, 8))
      ensures parsed == (old(parsed) || v == Accepted)
      ensures
        var out := ParseOta(checks, buf, 8);
        if out.Parsed? then
          && globals == out.globals
          && |out.sections| <= MAX_IMAGES
          && (forall i :: 0 <= i < |out.sections| ==> sections[i] == Some(out.sections[i]))
          && sections[|out.sections|..] == old(sections)[|out.sections|..]
        else globals == old(globals) && sections == old(sections)
    {
      var out := RunParseOta(checks, buf, MAX_IMAGES);
      if !out.Parsed? {
        return Judge(out);
      }
      SectionsFit(checks, buf, MAX_IMAGES);
      var found := out.sections;
      var n := |found|;
      sections := seq(n, i requires 0 <= i < n => Some(found[i])) + sections[n..];
      globals := out.globals;
      if n == 0 {
        return Refused("file has 0 OTA sections");
      }
      assert found[0..] == found;
      for i := 0 to n
        invariant FirstFailure(found) == FirstFailure(found[i..])
      {
        var image := found[i];
        assert found[i..][0] == image && found[i..][1..] == found[i + 1..];
        if image.crcFail {
          return Refused("failed section crc check");
        }
        if image.md5Fail {
          return Refused("failed section md5 check");
        }
      }
      if globals.packetMd5Fail {
        return Refused("failed packet md5 check");
      }
      parsed := true;
      return Accepted;
    }
  }

  /** The scan goes on behind this section. */
  predicate IsTaken(f: Fields, size: nat, bs: nat, offset: nat) {
    offset + f.size <= size && !Wraps(f, offset) && !NeverEnds(f, bs)
  }

  lemma {:induction false} ScanFits(checks: Checks, fs: seq<Fields>, buf: seq<byte>, bs: nat, offset: nat, room: nat)
    ensures |ScanFields(checks, fs, buf, bs, offset, room).sections| <= room
    decreases |fs|
  {
    if fs != [] && room > 0 && IsTaken(fs[0], |buf|, bs, offset) {
      ScanFits(checks, fs[1..], buf, bs, offset + fs[0].size, room - 1);
    }
  }

  /** Reading the lines never sets the packet verdict. */
  lemma {:induction false} GlobalsUnjudged(g: Globals, lines: seq<string>)
    requires !g.packetMd5Fail
    ensures !FoldLines(GlobalLine, g, lines).packetMd5Fail
    decreases |lines|
  {
    if lines != [] {
      GlobalsUnjudged(GlobalLine(g, lines[0]), lines[1..]);
    }
  }

  /** Whatever the header says, the outcome comes from some settings and some list of descriptions. */
  lemma OutcomeOfText(checks: Checks, buf: seq<byte>, room: nat) returns (g: Globals, fs: seq<Fields>)
    requires ParseOta(checks, buf, room) != NotText
    ensures !g.packetMd5Fail
    ensures ParseOta(checks, buf, room) == Finish(checks, buf, g, ScanFields(checks, fs, buf, g.bsSize, HEADER_SIZE, room))
  {
    var text := HeaderText(buf).value;
    g := GlobalsOf(text);
    fs := Described(SplitGaps(text), Describes, FieldsOf);
    GlobalsUnjudged(Globals(BLOCK_SIZE, None, false), Lines(text));
  }

  lemma SectionsFit(checks: Checks, buf: seq<byte>, room: nat)
    ensures var out := ParseOta(checks, buf, room); out.Parsed? ==> |out.sections| <= room
  {
    if ParseOta(checks, buf, room) != NotText {
      var g, fs := OutcomeOfText(checks, buf, room);
      ScanFits(checks, fs, buf, g.bsSize, HEADER_SIZE, room);
    }
  }

  // ---- what acceptance means

  /** The sections lie one behind the other from `offset` on, inside the file. */
  ghost predicate TileFrom(sections: seq<Section>, buf: seq<byte>, offset: nat)
    decreases |sections|
  {
    sections != [] ==>
      && sections[0].offset == offset && offset + sections[0].size <= |buf|
      && sections[0].data == buf[offset..offset + sections[0].size]
      && TileFrom(sections[1..], buf, offset + sections[0].size)
  }

  function DataOf(sections: seq<Section>): seq<seq<byte>> {
    if sections == [] then [] else [sections[0].data] + DataOf(sections[1..])
  }

  /** Every section carries the verdicts of its two checks. */
  ghost predicate Checked(checks: Checks, bs: nat, s: Section) {
    && (s.crcFail <==> s.crc != 0 && checks.crc(s.data, bs) != s.crc)
    && (s.md5Fail <==> s.md5 != "" && HexDigest(s.md5) != Some(checks.md5(s.data)))
  }

  ghost predicate AllChecked(checks: Checks, bs: nat, ss: seq<Section>) {
    forall i :: 0 <= i < |ss| ==> Checked(checks, bs, ss[i])
  }

  lemma {:induction false} ScanTiles(checks: Checks, fs: seq<Fields>, buf: seq<byte>, bs: nat, offset: nat, room: nat, scan: Scan)
    requires scan == ScanFields(checks, fs, buf, bs, offset, room)
    ensures TileFrom(scan.sections, buf, offset) && AllChecked(checks, bs, scan.sections)
    decreases |fs|
  {
    if fs != [] && room > 0 {
      if IsTaken(fs[0], |buf|, bs, offset) {
        var more, next := fs[1..], offset + fs[0].size;
        var rest := ScanFields(checks, more, buf, bs, next, room - 1);
        ScanTiles(checks, more, buf, bs, next, room - 1, rest);
        ScanTilesNext(checks, fs, buf, bs, offset, room, rest, scan);
      } else {
        ScanNoMore(checks, fs, buf, bs, offset, room);
      }
    }
  }

  lemma ScanTilesNext(checks: Checks, fs: seq<Fields>, buf: seq<byte>, bs: nat, offset: nat, room: nat, rest: Scan, scan: Scan)
    requires fs != [] && room > 0 && IsTaken(fs[0], |buf|, bs, offset) && scan == ScanFields(checks, fs, buf, bs, offset, room)
    requires rest == ScanFields(checks, fs[1..], buf, bs, offset + fs[0].size, room - 1)
    requires TileFrom(rest.sections, buf, offset + fs[0].size) && AllChecked(checks, bs, rest.sections)
    ensures TileFrom(scan.sections, buf, offset) && AllChecked(checks, bs, scan.sections)
  {
    ScanOneMore(checks, fs, buf, bs, offset, room, rest);
    OneTileMore(checks, buf, bs, SectionAt(checks, fs[0], buf, bs, offset), rest.sections, offset);
  }

  lemma ScanOneMore(checks: Checks, fs: seq<Fields>, buf: seq<byte>, bs: nat, offset: nat, room: nat, rest: Scan)
    requires fs != [] && room > 0 && IsTaken(fs[0], |buf|, bs, offset)
    requires rest == ScanFields(checks, fs[1..], buf, bs, offset + fs[0].size, room - 1)
    ensures ScanFields(checks, fs, buf, bs, offset, room) == Scan([SectionAt(checks, fs[0], buf, bs, offset)] + rest.sections, rest.end)
  {
  }

  lemma ScanNoMore(checks: Checks, fs: seq<Fields>, buf: seq<byte>, bs: nat, offset: nat, room: nat)
    requires fs != [] && room > 0 && !IsTaken(fs[0], |buf|, bs, offset)
    ensures ScanFields(checks, fs, buf, bs, offset, room).sections == []
  {
  }

  lemma OneTileMore(checks: Checks, buf: seq<byte>, bs: nat, s: Section, rest: seq<Section>, offset: nat)
    requires s.offset == offset && offset + s.size <= |buf| && s.data == buf[offset..offset + s.size] && Checked(checks, bs, s)
    requires TileFrom(rest, buf, offset + s.size) && AllChecked(checks, bs, rest)
    ensures TileFrom([s] + rest, buf, offset) && AllChecked(checks, bs, [s] + rest)
  {
    assert ([s] + rest)[1..] == rest;
  }

  /** Sections that tile the file are, together, one contiguous stretch of it. */
  lemma {:induction false} TilesConcatenate(sections: seq<Section>, buf: seq<byte>, offset: nat, end: nat)
    requires TileFrom(sections, buf, offset)
    requires end == if sections == [] then offset else sections[|sections| - 1].offset + sections[|sections| - 1].size
    requires offset <= |buf|
    ensures offset <= end <= |buf| && Flatten(DataOf(sections)) == buf[offset..end]
    decreases |sections|
  {
    if sections != [] {
      var next := offset + sections[0].size;
      var rest := sections[1..];
      assert rest != [] ==> rest[|rest| - 1] == sections[|sections| - 1];
      TilesConcatenate(rest, buf, next, end);
      assert buf[offset..end] == buf[offset..next] + buf[next..end];
    }
  }

  /** What `parse_ota` reports: contiguous sections from the end of the header on, each checked. */
  lemma ParsedSectionsTile(checks: Checks, buf: seq<byte>, room: nat)
    ensures
      var out := ParseOta(checks, buf, room);
      out.Parsed? ==>
        && TileFrom(out.sections, buf, 131072)
        && forall i :: 0 <= i < |out.sections| ==> Checked(checks, out.globals.bsSize, out.sections[i])
  {
    if ParseOta(checks, buf, room) != NotText {
      var g, fs := OutcomeOfText(checks, buf, room);
      ScanTiles(checks, fs, buf, g.bsSize, HEADER_SIZE, room, ScanFields(checks, fs, buf, g.bsSize, HEADER_SIZE, room));
    }
  }

  lemma {:induction false} NoFailure(sections: seq<Section>)
    ensures FirstFailure(sections).None? <==> forall i :: 0 <= i < |sections| ==> !sections[i].crcFail && !sections[i].md5Fail
    decreases |sections|
  {
    if sections != [] {
      NoFailure(sections[1..]);
      assert forall i :: 1 <= i < |sections| ==> sections[i] == sections[1..][i - 1];
    }
  }

  /** All that the checks of the format can vouch for. */
  ghost predicate Sound(checks: Checks, sections: seq<Section>, g: Globals, end: End) {
    && sections != []
    && (forall i :: 0 <= i < |sections| ==>
          && (sections[i].crc == 0 || checks.crc(sections[i].data, g.bsSize) == sections[i].crc)
          && (sections[i].md5 == "" || HexDigest(sections[i].md5) == Some(checks.md5(sections[i].data))))
    && (end == Complete && g.packetMd5.Some? ==> HexDigest(g.packetMd5.value) == Some(checks.md5(Flatten(DataOf(sections)))))
  }

  /** The packet digest is compared exactly when no section overran, and covers exactly the sections. */
  lemma PacketVerdict(checks: Checks, buf: seq<byte>, g: Globals, scan: Scan)
    requires scan.sections != [] && TileFrom(scan.sections, buf, HEADER_SIZE) && !g.packetMd5Fail && (scan.end == Complete || scan.end == Overrun)
    ensures
      var out := Finish(checks, buf, g, scan);
      && out.Parsed? && out.sections == scan.sections && out.end == scan.end
      && out.globals.bsSize == g.bsSize && out.globals.packetMd5 == g.packetMd5
      && (out.globals.packetMd5Fail <==>
            (scan.end == Complete && g.packetMd5.Some? &&
             HexDigest(g.packetMd5.value) != Some(checks.md5(Flatten(DataOf(scan.sections))))))
  {
    TilesConcatenate(scan.sections, buf, HEADER_SIZE, EndOffset(scan.sections));
  }

  lemma JudgeIsSound(checks: Checks, sections: seq<Section>, g: Globals, end: End)
    requires forall i :: 0 <= i < |sections| ==> Checked(checks, g.bsSize, sections[i])
    requires sections != [] ==>
               (g.packetMd5Fail <==>
                  (end == Complete && g.packetMd5.Some? &&
                   HexDigest(g.packetMd5.value) != Some(checks.md5(Flatten(DataOf(sections))))))
    ensures Judge(Parsed(sections, g, end)) == Accepted <==> Sound(checks, sections, g, end)
  {
    NoFailure(sections);
  }

  /** A file is accepted if and only if it has sections and everything it claims about them is true. */
  lemma AcceptedIffSound(checks: Checks, buf: seq<byte>, room: nat)
    ensures
      var out := ParseOta(checks, buf, room);
      Judge(out) == Accepted <==> out.Parsed? && Sound(checks, out.sections, out.globals, out.end)
  {
    var out := ParseOta(checks, buf, room);
    if out.Parsed? {
      ParsedSectionsTile(checks, buf, room);
      if out.sections != [] {
        var g, fs := OutcomeOfText(checks, buf, room);
        var scan := ScanFields(checks, fs, buf, g.bsSize, HEADER_SIZE, room);
        ScanTiles(checks, fs, buf, g.bsSize, HEADER_SIZE, room, scan);
        PacketVerdict(checks, buf, g, scan);
      }
      JudgeIsSound(checks, out.sections, out.globals, out.end);
    }
  }
}
