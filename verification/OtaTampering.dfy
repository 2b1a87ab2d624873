/** Damage to an image inside a packed file makes the extractor refuse the file. */
module OtaTampering {
  import opened Basics
  import opened ImageCrc
  import opened Md5
  import opened Ota
  import opened OtaDamage
  import opened OtaFailures
  import opened OtaPacker
  import opened OtaReader
  import opened OtaRoundTrip
  import opened Utf8

  lemma SizeSumCons(fs: seq<Fields>, i: nat)
    requires 0 < i <= |fs|
    ensures SizeSum(fs[..i]) == fs[0].size + SizeSum(fs[1..][..i - 1])
  {
    assert fs[..i][1..] == fs[1..][..i - 1];
  }

  /** When every section fits, all are found, and each at its place: the i-th at `at`. */
  lemma {:induction false} ScanFindsAll(checks: Checks, fs: seq<Fields>, buf: seq<byte>, bs: nat, offset: nat, room: nat,
                                        i: nat, at: nat, scan: Scan)
    requires bs >= 1 && i < |fs| <= room && offset + SizeSum(fs) <= |buf| < TWO_32 && at == offset + SizeSum(fs[..i])
    requires scan == ScanFields(checks, fs, buf, bs, offset, room)
    ensures at + fs[i].size <= |buf| && scan.end == Complete && |scan.sections| == |fs|
    ensures scan.sections[i] == SectionAt(checks, fs[i], buf, bs, at)
    decreases |fs|
  {
    var more, next := fs[1..], offset + fs[0].size;
    var rest := ScanFields(checks, more, buf, bs, next, room - 1);
    ScanCompletes(checks, fs, buf, bs, offset, room, scan);
    ScanOneMore(checks, fs, buf, bs, offset, room, rest);
    if i > 0 {
      SizeSumCons(fs, i);
      ScanFindsAll(checks, more, buf, bs, next, room - 1, i - 1, at, rest);
    } else {
      assert fs[..0] == [];
    }
  }

  /** When every section fits, the scan comes to its end. */
  lemma {:induction false} ScanCompletes(checks: Checks, fs: seq<Fields>, buf: seq<byte>, bs: nat, offset: nat, room: nat, scan: Scan)
    requires bs >= 1 && |fs| <= room && offset + SizeSum(fs) <= |buf| < TWO_32
    requires scan == ScanFields(checks, fs, buf, bs, offset, room)
    ensures scan.end == Complete && |scan.sections| == |fs|
    decreases |fs|
  {
    if fs != [] {
      var more, next := fs[1..], offset + fs[0].size;
      var rest := ScanFields(checks, more, buf, bs, next, room - 1);
      ScanCompletes(checks, more, buf, bs, next, room - 1, rest);
      ScanOneMore(checks, fs, buf, bs, offset, room, rest);
    }
  }

  lemma {:induction false} DescriptionAt(ps: seq<Packed>, i: nat)
    requires i < |ps|
    ensures |Descriptions(ps)| == |ps| && Descriptions(ps)[i] == DescriptionOf(ps[i])
    ensures SizeSum(Descriptions(ps)[..i]) == |PackedData(ps[..i])|
    ensures SizeSum(Descriptions(ps)) == |PackedData(ps)|
    decreases |ps|
  {
    var rest := ps[1..];
    if i > 0 {
      DescriptionAt(rest, i - 1);
      SizeSumCons(Descriptions(ps), i);
      assert ps[..i][1..] == rest[..i - 1];
    } else {
      assert Descriptions(ps)[..0] == [] && ps[..0] == [];
      if rest != [] {
        DescriptionAt(rest, 0);
      }
    }
  }

  /** A file whose scan flags a section is refused, whatever its packet digest. */
  lemma FlaggedScanIsRefused(checks: Checks, buf: seq<byte>, text: string, g: Globals, scan: Scan, i: nat)
    requires HeaderText(buf) == Some(text) && g == GlobalsOf(text)
    requires scan == ScanFields(checks, DescribedIn(text), buf, g.bsSize, HEADER_SIZE, MAX_IMAGES)
    requires scan.end == Complete && i < |scan.sections| && scan.sections[i].crcFail
    ensures Judge(ParseOta(checks, buf, MAX_IMAGES)).Refused?
  {
    ParseInTwo(checks, buf, MAX_IMAGES, text, g, scan);
    ScanTiles(checks, DescribedIn(text), buf, g.bsSize, HEADER_SIZE, MAX_IMAGES, scan);
    FinishOutOfBounds(checks, buf, g, scan);
    FlaggedFileIsRefused(checks, buf, i);
  }

  /** The header of a packed file, read from any file that begins like it. */
  lemma HeaderOfPacked(checks: Checks, ps: seq<Packed>, buf: seq<byte>, bad: seq<byte>, size: nat) returns (text: string)
    requires AllPackable(ps) && ByteLen(Header(checks.md5, ps)) <= HEADER_SIZE_MAX && HEADER_SIZE + |PackedData(ps)| <= size
    requires buf == Image(Zeros(size), Encode(Header(checks.md5, ps)), PackedData(ps))
    requires |bad| == |buf| && bad[..HEADER_SIZE] == buf[..HEADER_SIZE]
    ensures HeaderText(bad) == Some(text) && GlobalsOf(text).bsSize == BLOCK_SIZE && DescribedIn(text) == Descriptions(ps)
  {
    var k := HEADER_SIZE - ByteLen(Header(checks.md5, ps));
    text := Header(checks.md5, ps) + Nuls(k);
    PackedFileText(Header(checks.md5, ps), PackedData(ps), buf, size, k, text);
    GlobalsOfHeader(checks.md5, ps, k);
    DescriptionsOfHeader(checks.md5, ps, k);
  }

  /** `bad` is the file with the image at `offset` replaced by `data`. */
  ghost predicate Replaced(buf: seq<byte>, bad: seq<byte>, offset: nat, data: seq<byte>) {
    HEADER_SIZE <= offset && offset + |data| <= |buf| && bad == Splice(buf, offset, data)
  }

  /**
   If one image of a packed file is damaged within four consecutive bytes of one block, and its
   recorded checksum is not zero, the extractor refuses the file.
   */
  lemma DamagedImageIsRefused(md5: Hash, checks: Checks, ps: seq<Packed>, buf: seq<byte>, bad: seq<byte>, size: nat,
                              i: nat, data: seq<byte>, k: nat, p: int)
    requires checks == Checks(md5, CrcNumber) && AllPackable(ps) && AllGenuine(checks, ps) && i < |ps| <= MAX_IMAGES
    requires ByteLen(Header(md5, ps)) <= HEADER_SIZE_MAX && HEADER_SIZE + |PackedData(ps)| <= size < TWO_32
    requires buf == Image(Zeros(size), Encode(Header(md5, ps)), PackedData(ps))
    requires Replaced(buf, bad, HEADER_SIZE + |PackedData(ps[..i])|, data)
    requires FourBytesDiffer(ps[i].data, data, BLOCK_SIZE, k, p) && ps[i].data != data && ps[i].crc != 0
    ensures Judge(ParseOta(checks, bad, MAX_IMAGES)).Refused?
  {
    var offset := HEADER_SIZE + |PackedData(ps[..i])|;
    ReplacedParts(buf, bad, offset, data);
    var text := HeaderOfPacked(checks, ps, buf, bad, size);
    DescriptionAt(ps, i);
    assert Genuine(checks, ps[i]);
    var scan := ScanFields(checks, Descriptions(ps), bad, BLOCK_SIZE, HEADER_SIZE, MAX_IMAGES);
    DamageIsFound(md5, checks, Descriptions(ps), bad, MAX_IMAGES, offset, i, ps[i].data, data, k, p, scan);
    FlaggedScanIsRefused(checks, bad, text, GlobalsOf(text), scan, i);
  }

  lemma ReplacedParts(buf: seq<byte>, bad: seq<byte>, offset: nat, data: seq<byte>)
    requires Replaced(buf, bad, offset, data)
    ensures |bad| == |buf| && bad[..HEADER_SIZE] == buf[..HEADER_SIZE] && bad[offset..offset + |data|] == data
  {
  }

  /** The scan of any file that holds damaged data at the place of a section flags them. */
  lemma DamageIsFound(md5: Hash, checks: Checks, fs: seq<Fields>, bad: seq<byte>, room: nat, offset: nat, i: nat,
                      good: seq<byte>, now: seq<byte>, k: nat, p: int, scan: Scan)
    requires checks == Checks(md5, CrcNumber) && i < |fs| <= room && HEADER_SIZE + SizeSum(fs) <= |bad| < TWO_32
    requires offset == HEADER_SIZE + SizeSum(fs[..i]) && offset + fs[i].size <= |bad| && now == bad[offset..offset + fs[i].size]
    requires |good| == fs[i].size && fs[i].crc == CrcNumber(good, BLOCK_SIZE) != 0
    requires FourBytesDiffer(good, now, BLOCK_SIZE, k, p) && good != now
    requires scan == ScanFields(checks, fs, bad, BLOCK_SIZE, HEADER_SIZE, room)
    ensures scan.end == Complete && i < |scan.sections| && scan.sections[i].crcFail
  {
    ScanFindsAll(checks, fs, bad, BLOCK_SIZE, HEADER_SIZE, room, i, offset, scan);
    DamagedIsFlagged(md5, checks, fs[i], good, now, bad, BLOCK_SIZE, offset, k, p, scan.sections[i]);
  }

  lemma DamagedIsFlagged(md5: Hash, checks: Checks, f: Fields, good: seq<byte>, now: seq<byte>, bad: seq<byte>, bs: nat, offset: nat,
                         k: nat, p: int, s: Section)
    requires checks == Checks(md5, CrcNumber) && bs >= 1 && |good| == f.size && f.crc == CrcNumber(good, bs) != 0
    requires offset + f.size <= |bad| && now == bad[offset..offset + f.size] && s == SectionAt(checks, f, bad, bs, offset)
    requires FourBytesDiffer(good, now, bs, k, p) && good != now
    ensures s.crcFail
  {
    DamagedSectionIsFlagged(md5, f, good, now, bad, bs, offset, k, p);
  }
}
