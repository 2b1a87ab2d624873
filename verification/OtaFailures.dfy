/** The two ways in which the parser fails altogether: exactly when, and one file for each. */
module OtaFailures {
  import opened Basics
  import opened Numbers
  import opened Ota
  import opened OtaDamage
  import opened OtaPacker
  import opened OtaReader
  import opened OtaRoundTrip
  import opened OtaText
  import opened Text
  import opened Utf8

  /** The images that a header text describes. */
  function DescribedIn(text: string): seq<Fields> {
    Described(SplitGaps(text), Describes, FieldsOf)
  }

  // ---- out of bounds

  lemma {:induction false} DescribedNothing<F>(parts: seq<string>, describes: string -> bool, read: string -> F)
    ensures Described(parts, describes, read) == [] <==> forall i :: 0 <= i < |parts| ==> !describes(parts[i])
  {
    if parts != [] {
      DescribedNothing(parts[1..], describes, read);
      assert forall i :: 0 < i < |parts| ==> parts[i] == parts[1..][i - 1];
    }
  }

  /** Sections that were found end inside the file. */
  lemma {:induction false} TilesEndInside(sections: seq<Section>, buf: seq<byte>, offset: nat)
    requires TileFrom(sections, buf, offset) && sections != []
    ensures offset <= EndOffset(sections) <= |buf|
    decreases |sections|
  {
    if |sections| > 1 {
      TilesEndInside(sections[1..], buf, offset + sections[0].size);
      assert sections[1..][|sections| - 2] == sections[|sections| - 1];
    }
  }

  /** A scan that reaches its end without a section had nothing to find. */
  lemma EmptyScan(checks: Checks, fs: seq<Fields>, buf: seq<byte>, bs: nat, room: nat)
    requires room > 0 && |buf| < HEADER_SIZE
    ensures ScanFields(checks, fs, buf, bs, HEADER_SIZE, room).sections == []
    ensures ScanFields(checks, fs, buf, bs, HEADER_SIZE, room).end == Complete <==> fs == []
  {
  }

  lemma FinishOutOfBounds(checks: Checks, buf: seq<byte>, g: Globals, scan: Scan)
    requires TileFrom(scan.sections, buf, HEADER_SIZE)
    ensures Finish(checks, buf, g, scan) == OutOfBounds <==>
            scan.end == Complete && g.packetMd5.Some? && scan.sections == [] && |buf| < HEADER_SIZE
  {
    if scan.sections != [] {
      TilesEndInside(scan.sections, buf, HEADER_SIZE);
    }
  }

  /** No part of a header text describes an image. */
  predicate DescribesNothing(text: string) {
    forall part :: part in SplitGaps(text) ==> !Contains(part, "img_name")
  }

  lemma NothingDescribed(text: string)
    ensures DescribedIn(text) == [] <==> DescribesNothing(text)
  {
    DescribedNothing(SplitGaps(text), Describes, FieldsOf);
  }

  lemma ParseInTwo(checks: Checks, buf: seq<byte>, room: nat, text: string, g: Globals, scan: Scan)
    requires HeaderText(buf) == Some(text) && g == GlobalsOf(text)
    requires scan == ScanFields(checks, DescribedIn(text), buf, g.bsSize, HEADER_SIZE, room)
    ensures ParseOta(checks, buf, room) == Finish(checks, buf, g, scan)
  {
  }

  lemma ScanOutOfBounds(checks: Checks, buf: seq<byte>, room: nat, g: Globals, fs: seq<Fields>, scan: Scan)
    requires room > 0 && scan == ScanFields(checks, fs, buf, g.bsSize, HEADER_SIZE, room)
    ensures Finish(checks, buf, g, scan) == OutOfBounds <==> |buf| < HEADER_SIZE && g.packetMd5.Some? && fs == []
  {
    ScanTiles(checks, fs, buf, g.bsSize, HEADER_SIZE, room, scan);
    FinishOutOfBounds(checks, buf, g, scan);
    if |buf| < HEADER_SIZE {
      EmptyScan(checks, fs, buf, g.bsSize, room);
    }
  }

  /**
   The parser indexes past the file exactly when the file is shorter than the header area, its text
   names a packet digest, and no part of it describes an image.
   */
  lemma OutOfBoundsIff(checks: Checks, buf: seq<byte>, room: nat, text: Option<string>)
    requires room > 0 && text == HeaderText(buf)
    ensures ParseOta(checks, buf, room) == OutOfBounds <==>
            |buf| < HEADER_SIZE && text.Some? && GlobalsOf(text.value).packetMd5.Some? && DescribesNothing(text.value)
  {
    if text.Some? {
      var g, fs := GlobalsOf(text.value), DescribedIn(text.value);
      var scan := ScanFields(checks, fs, buf, g.bsSize, HEADER_SIZE, room);
      ParseInTwo(checks, buf, room, text.value, g, scan);
      ScanOutOfBounds(checks, buf, room, g, fs, scan);
      NothingDescribed(text.value);
    }
  }

  lemma OneLineSettings(line: string, value: string)
    requires line == Line("ota_img_packet_md5", value) && OneLine(value) && Trim(value) == value && 'n' !in value
    ensures GlobalsOf(line).packetMd5 == Some(value) && DescribesNothing(line)
  {
    var g0 := Globals(BLOCK_SIZE, None, false);
    PacketLine(g0, value);
    LineIsPlain("ota_img_packet_md5", value);
    FoldLastLine(GlobalLine, g0, line);
    OneLineDescribesNothing(line);
  }

  lemma OneLineDescribesNothing(line: string)
    requires OneLine(line) && 'n' !in line
    ensures DescribesNothing(line)
  {
    SplitNoGap(line);
    LacksCharacter(line, "img_name", 4);
  }

  /** One such file: a single line that names a packet digest. */
  lemma OneLinePanics(checks: Checks, value: string, line: string, buf: seq<byte>)
    requires value == "0" && line == Line("ota_img_packet_md5", value) && buf == Encode(line)
    ensures ParseOta(checks, buf, MAX_IMAGES) == OutOfBounds
  {
    TrimFixpoint(value);
    OneLineSettings(line, value);
    assert |line| == 20;
    ByteLenBounds(line);
    assert buf[..|buf|] == buf;
    DecodeOfEncode(line);
    OutOfBoundsIff(checks, buf, MAX_IMAGES, Some(line));
  }

  // ---- running forever

  /**
   The parser runs forever exactly when its settings have block size zero and, before any described
   section overruns the file, describe a non-empty one with a checksum.
   */
  lemma RunsForeverIff(checks: Checks, buf: seq<byte>, room: nat, text: Option<string>)
    requires text == HeaderText(buf)
    ensures ParseOta(checks, buf, room) == RunsForever <==>
            text.Some? && exists k: nat :: HangsAt(DescribedIn(text.value), k, |buf|, GlobalsOf(text.value).bsSize, HEADER_SIZE, room)
  {
    if text.Some? {
      var g, fs := GlobalsOf(text.value), DescribedIn(text.value);
      var scan := ScanFields(checks, fs, buf, g.bsSize, HEADER_SIZE, room);
      ParseInTwo(checks, buf, room, text.value, g, scan);
      EndlessIff(checks, fs, buf, g.bsSize, HEADER_SIZE, room);
    }
  }

  /** A header with block size zero that describes an image of one byte with a checksum. */
  function EndlessLines(zero: string, one: string): (lines: seq<string>)
    ensures |lines| == 5
  {
    [Line("bs_size", zero), Line("img_type", one), Line("img_name", one), Line("img_size", one), Line("img_crc", one)]
  }

  predicate AreDigits(zero: string, one: string) {
    zero == "0" && one == "1"
  }

  lemma DigitsAreRead(zero: string, one: string)
    requires AreDigits(zero, one)
    ensures Trim(zero) == zero && Trim(one) == one && OneLine(zero) && OneLine(one)
    ensures ParseUnsigned(zero, USIZE_MAX) == Some(0) && ParseUnsigned(one, U32_MAX) == Some(1)
  {
    TrimFixpoint(zero);
    TrimFixpoint(one);
    ParseOfDecimal(0, USIZE_MAX);
    ParseOfDecimal(1, U32_MAX);
    assert Decimal(0) == "0" && Decimal(1) == "1";
  }

  lemma EndlessLinesArePlain(zero: string, one: string)
    requires OneLine(zero) && OneLine(one)
    ensures forall i :: 0 <= i < 5 ==> OneLine(EndlessLines(zero, one)[i]) && EndlessLines(zero, one)[i] != ""
  {
    LineIsPlain("bs_size", zero);
    LineIsPlain("img_type", one);
    LineIsPlain("img_name", one);
    LineIsPlain("img_size", one);
    LineIsPlain("img_crc", one);
  }

  lemma NulsSetNothing(f: Fields, k: nat)
    ensures FoldLines(FieldLine, f, Lines(Nuls(k))) == f
  {
    var s := Nuls(k);
    assert OneLine(s);
    if k > 0 {
      FoldLastLine(FieldLine, f, s);
      TrimFixpoint(s);
      IndexOfUnique(s, '=', k);
    }
  }

  lemma BlockSizeIsNoField(f: Fields, v: string)
    ensures FieldLine(f, Line("bs_size", v)) == f
  {
    FooterKeys();
    LineSets(f, "bs_size", v);
  }

  lemma EndlessFields(zero: string, one: string, f: Fields)
    requires Trim(one) == one && ParseUnsigned(one, U32_MAX) == Some(1) && f == Fields(one, one, 1, "", 1)
    ensures FieldLine(FieldLine(FieldLine(FieldLine(FieldLine(NO_FIELDS, Line("bs_size", zero)), Line("img_type", one)),
                      Line("img_name", one)), Line("img_size", one)), Line("img_crc", one)) == f
  {
    BlockSizeIsNoField(NO_FIELDS, zero);
    TypeLine(NO_FIELDS, one);
    var f1 := NO_FIELDS.(ty := one);
    NameLine(f1, one);
    var f2 := f1.(name := one);
    SizeLine(f2, one, 1);
    CrcLine(f2.(size := 1), one, 1);
  }

  lemma EndlessGlobals(g: Globals, zero: string, one: string)
    requires Trim(zero) == zero && ParseUnsigned(zero, USIZE_MAX) == Some(0)
    ensures GlobalLine(GlobalLine(GlobalLine(GlobalLine(GlobalLine(g, Line("bs_size", zero)), Line("img_type", one)),
                       Line("img_name", one)), Line("img_size", one)), Line("img_crc", one)) == g.(bsSize := 0)
  {
    FooterKeys();
    ImageKeys();
    LineSetsGlobal(g, "bs_size", zero);
    var h := g.(bsSize := 0);
    ImageLineIsLocal(h, "img_type", one);
    ImageLineIsLocal(h, "img_name", one);
    ImageLineIsLocal(h, "img_size", one);
    ImageLineIsLocal(h, "img_crc", one);
  }

  /** What the parser reads from those lines, whatever zero bytes follow them. */
  lemma EndlessTextIsRead(zero: string, one: string, k: nat, text: string)
    requires AreDigits(zero, one) && text == Join(EndlessLines(zero, one)) + "\n" + Nuls(k)
    ensures GlobalsOf(text).bsSize == 0 && FieldsOf(text) == Fields(one, one, 1, "", 1)
  {
    DigitsAreRead(zero, one);
    EndlessLinesArePlain(zero, one);
    EndlessTextSettings(zero, one, k, text, Globals(BLOCK_SIZE, None, false));
    EndlessTextFields(zero, one, k, text, Fields(one, one, 1, "", 1));
  }

  lemma EndlessTextSettings(zero: string, one: string, k: nat, text: string, g: Globals)
    requires OneLine(zero) && OneLine(one) && Trim(zero) == zero && ParseUnsigned(zero, USIZE_MAX) == Some(0)
    requires text == Join(EndlessLines(zero, one)) + "\n" + Nuls(k)
    ensures FoldLines(GlobalLine, g, Lines(text)) == g.(bsSize := 0)
  {
    EndlessLinesArePlain(zero, one);
    GlobalLineIgnoresCr();
    FoldJoinedThen(GlobalLine, g, EndlessLines(zero, one), Nuls(k));
    FoldFive(GlobalLine, g, Line("bs_size", zero), Line("img_type", one), Line("img_name", one), Line("img_size", one), Line("img_crc", one));
    EndlessGlobals(g, zero, one);
    NulsAreLocal(g.(bsSize := 0), k);
  }

  lemma EndlessTextFields(zero: string, one: string, k: nat, text: string, f: Fields)
    requires OneLine(zero) && OneLine(one) && Trim(one) == one && ParseUnsigned(one, U32_MAX) == Some(1)
    requires text == Join(EndlessLines(zero, one)) + "\n" + Nuls(k) && f == Fields(one, one, 1, "", 1)
    ensures FieldsOf(text) == f
  {
    EndlessLinesArePlain(zero, one);
    FieldLineIgnoresCr();
    FoldJoinedThen(FieldLine, NO_FIELDS, EndlessLines(zero, one), Nuls(k));
    FoldFive(FieldLine, NO_FIELDS, Line("bs_size", zero), Line("img_type", one), Line("img_name", one), Line("img_size", one), Line("img_crc", one));
    EndlessFields(zero, one, f);
    NulsSetNothing(f, k);
  }

  lemma EndlessTextHasNoGap(lines: seq<string>, k: nat, text: string)
    requires lines != [] && forall i :: 0 <= i < |lines| ==> OneLine(lines[i]) && lines[i] != ""
    requires text == Join(lines) + "\n" + Nuls(k)
    ensures SplitGaps(text) == [text]
  {
    var body := Join(lines);
    JoinHasNoGap(lines);
    assert forall i :: 0 <= i < |text| ==> text[i] == if i < |body| then body[i] else if i == |body| then '\n' else '\0';
    SplitNoGap(text);
  }

  lemma ThirdLineDescribes(a: string, b: string, rest: string, text: string)
    requires text == a + "\n" + (b + "\n" + ("img_name" + rest))
    ensures Describes(text)
  {
    var before := a + "\n" + (b + "\n");
    assert text == before + ("img_name" + rest);
    OccursBetween(before, "img_name", rest);
    OccurrenceMeansContains(text, "img_name", |before|);
  }

  lemma JoinFive(a: string, b: string, c: string, d: string, e: string)
    ensures Join([a, b, c, d, e]) == a + "\n" + (b + "\n" + (c + "\n" + (d + "\n" + e)))
  {
    JoinThree(c, d, e);
    assert [a, b, c, d, e][1..] == [b, c, d, e] && [b, c, d, e][1..] == [c, d, e];
  }

  lemma EndlessTextDescribes(zero: string, one: string, tail: string, text: string)
    requires text == Join(EndlessLines(zero, one)) + tail
    ensures Describes(text)
  {
    var a, b, c, d, e := Line("bs_size", zero), Line("img_type", one), Line("img_name", one), Line("img_size", one), Line("img_crc", one);
    JoinFive(a, b, c, d, e);
    var behind := "\n" + (d + "\n" + e);
    assert c + behind == "img_name" + ("=" + one + behind);
    ThirdLineDescribes(a, b, ("=" + one + behind) + tail, text);
  }

  lemma PaddedText(header: string, k: nat, buf: seq<byte>)
    requires ByteLen(header) + k == HEADER_SIZE && buf == Encode(header) + Zeros(k + 1)
    ensures HeaderText(buf) == Some(header + Nuls(k)) && |buf| == HEADER_SIZE + 1
  {
    assert buf[..HEADER_SIZE] == Encode(header) + Zeros(k);
    DecodeAfterEncoded(header, Zeros(k));
    DecodeZeros(k);
  }

  /** One such file: those lines, padded with zero bytes to one byte more than the header area. */
  lemma PaddedHeaderRunsForever(checks: Checks, zero: string, one: string, header: string, k: nat, buf: seq<byte>)
    requires AreDigits(zero, one) && header == Join(EndlessLines(zero, one)) + "\n"
    requires ByteLen(header) + k == HEADER_SIZE && buf == Encode(header) + Zeros(k + 1)
    ensures ParseOta(checks, buf, MAX_IMAGES) == RunsForever
  {
    var text := header + Nuls(k);
    PaddedText(header, k, buf);
    EndlessTextIsRead(zero, one, k, text);
    DigitsAreRead(zero, one);
    EndlessLinesArePlain(zero, one);
    EndlessTextHasNoGap(EndlessLines(zero, one), k, text);
    Associative(Join(EndlessLines(zero, one)), "\n", Nuls(k));
    EndlessTextDescribes(zero, one, "\n" + Nuls(k), text);
    OneEndlessPart(text, FieldsOf(text), |buf|);
    RunsForeverIff(checks, buf, MAX_IMAGES, Some(text));
  }

  lemma OneDescribedPart(parts: seq<string>, part: string, describes: string -> bool, read: string -> Fields)
    requires parts == [part] && describes(part)
    ensures Described(parts, describes, read) == [read(part)]
  {
    assert parts[1..] == [];
  }

  lemma OneHangs(fs: seq<Fields>, f: Fields, size: nat)
    requires fs == [f] && f.size == 1 && f.crc == 1 && size == HEADER_SIZE + 1
    ensures HangsAt(fs, 0, size, 0, HEADER_SIZE, MAX_IMAGES)
  {
    HangsFirst(fs, size, 0, HEADER_SIZE, MAX_IMAGES);
  }

  lemma OneEndlessPart(text: string, f: Fields, size: nat)
    requires SplitGaps(text) == [text] && Describes(text) && f == FieldsOf(text) && f.size == 1 && f.crc == 1
    requires size == HEADER_SIZE + 1
    ensures HangsAt(DescribedIn(text), 0, size, 0, HEADER_SIZE, MAX_IMAGES)
  {
    OneDescribedPart([text], text, Describes, FieldsOf);
    OneHangs([f], f, size);
  }

  /** The header is short enough, so there is such a file. */
  lemma EndlessHeaderFits(zero: string, one: string, header: string)
    requires AreDigits(zero, one) && header == Join(EndlessLines(zero, one)) + "\n"
    ensures ByteLen(header) <= HEADER_SIZE
  {
    JoinFive(Line("bs_size", zero), Line("img_type", one), Line("img_name", one), Line("img_size", one), Line("img_crc", one));
    assert |header| <= 80;
    ByteLenBounds(header);
  }
}
