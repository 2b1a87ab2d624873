/** Packing images into an OTA file and reading the file back. */
module OtaRoundTrip {
  import opened Basics
  import opened Md5
  import opened Numbers
  import opened Ota
  import opened OtaPacker
  import opened OtaReader
  import opened OtaText
  import opened Text
  import opened Utf8

  /** Names and types that the line format can carry, and data whose size it can state. */
  ghost predicate Packable(p: Packed) {
    OneLine(p.ty) && OneLine(p.name) && |p.data| <= U32_MAX
  }

  ghost predicate AllPackable(ps: seq<Packed>) {
    forall i :: 0 <= i < |ps| ==> Packable(ps[i])
  }

  // ---- one block

  lemma VisibleIsPlain(s: string)
    requires s != "" && forall i :: 0 <= i < |s| ==> !IsSpace(s[i])
    ensures OneLine(s) && Trim(s) == s
  {
    TrimFixpoint(s);
    assert IsSpace('\n');
  }

  lemma DecimalIsPlain(n: nat)
    ensures OneLine(Decimal(n)) && Trim(Decimal(n)) == Decimal(n)
  {
    var s := Decimal(n);
    DecimalFacts(n);
    assert forall i :: 0 <= i < |s| ==> IsDigit(s[i]);
    VisibleIsPlain(s);
  }

  lemma HexIsPlain(d: Digest)
    ensures OneLine(HexString(d)) && Trim(HexString(d)) == HexString(d) && HexString(d) != ""
  {
    var s := HexString(d);
    HexStringChars(d);
    VisibleIsPlain(s);
  }

  lemma LineIsPlain(k: string, v: string)
    requires OneLine(k) && OneLine(v)
    ensures OneLine(Line(k, v)) && Line(k, v) != ""
  {
  }

  lemma FiveLinesArePlain(ty: string, name: string, size: string, md5: string, crc: string)
    requires OneLine(ty) && OneLine(name) && OneLine(size) && OneLine(md5) && OneLine(crc)
    ensures
      var lines := [Line("img_type", ty), Line("img_name", name), Line("img_size", size), Line("img_md5", md5), Line("img_crc", crc)];
      forall i :: 0 <= i < |lines| ==> OneLine(lines[i]) && lines[i] != ""
  {
    LineIsPlain("img_type", ty);
    LineIsPlain("img_name", name);
    LineIsPlain("img_size", size);
    LineIsPlain("img_md5", md5);
    LineIsPlain("img_crc", crc);
  }

  lemma BlockLinesArePlain(p: Packed)
    requires Packable(p)
    ensures forall i :: 0 <= i < 5 ==> OneLine(BlockLines(p)[i]) && BlockLines(p)[i] != ""
  {
    DecimalIsPlain(|p.data|);
    DecimalIsPlain(p.crc);
    HexIsPlain(p.md5);
    FiveLinesArePlain(p.ty, p.name, Decimal(|p.data|), HexString(p.md5), Decimal(p.crc));
  }

  lemma LineSets(f: Fields, k: string, v: string)
    requires IsKey(k)
    ensures FieldLine(f, Line(k, v)) == SetField(f, k, Trim(v))
  {
    KeyValueOfLine(k, v);
  }

  lemma ImageKeys()
    ensures IsKey("img_type") && IsKey("img_name") && IsKey("img_size") && IsKey("img_md5") && IsKey("img_crc")
  {
  }

  lemma TypeLine(f: Fields, v: string)
    ensures FieldLine(f, Line("img_type", v)) == f.(ty := Trim(v))
  {
    ImageKeys();
    LineSets(f, "img_type", v);
  }

  lemma NameLine(f: Fields, v: string)
    ensures FieldLine(f, Line("img_name", v)) == f.(name := Trim(v))
  {
    ImageKeys();
    LineSets(f, "img_name", v);
  }

  lemma SizeLine(f: Fields, v: string, n: nat)
    requires Trim(v) == v && ParseUnsigned(v, U32_MAX) == Some(n)
    ensures FieldLine(f, Line("img_size", v)) == f.(size := n)
  {
    ImageKeys();
    LineSets(f, "img_size", v);
  }

  lemma Md5Line(f: Fields, v: string)
    requires Trim(v) == v
    ensures FieldLine(f, Line("img_md5", v)) == f.(md5 := v)
  {
    ImageKeys();
    LineSets(f, "img_md5", v);
  }

  lemma CrcLine(f: Fields, v: string, n: nat)
    requires Trim(v) == v && ParseUnsigned(v, U32_MAX) == Some(n)
    ensures FieldLine(f, Line("img_crc", v)) == f.(crc := n)
  {
    ImageKeys();
    LineSets(f, "img_crc", v);
  }

  lemma FoldCons<T>(step: (T, string) -> T, acc: T, line: string, rest: seq<string>)
    ensures FoldLines(step, acc, [line] + rest) == FoldLines(step, step(acc, line), rest)
  {
    assert ([line] + rest)[1..] == rest;
  }

  lemma FoldFive<T>(step: (T, string) -> T, acc: T, a: string, b: string, c: string, d: string, e: string)
    ensures FoldLines(step, acc, [a, b, c, d, e]) == step(step(step(step(step(acc, a), b), c), d), e)
  {
    assert [a, b, c, d, e] == [a] + ([b] + ([c] + ([d] + ([e] + []))));
    FoldCons(step, acc, a, [b] + ([c] + ([d] + ([e] + []))));
    FoldCons(step, step(acc, a), b, [c] + ([d] + ([e] + [])));
    FoldCons(step, step(step(acc, a), b), c, [d] + ([e] + []));
    FoldCons(step, step(step(step(acc, a), b), c), d, [e] + []);
    FoldCons(step, step(step(step(step(acc, a), b), c), d), e, []);
  }

  /** What a packed block says about its image; only the white space around names is lost. */
  function DescriptionOf(p: Packed): Fields {
    Fields(Trim(p.ty), Trim(p.name), |p.data|, HexString(p.md5), p.crc)
  }

  lemma FiveLinesSet(ty: string, name: string, size: string, n: nat, md5: string, crc: string, c: nat)
    requires Trim(size) == size && ParseUnsigned(size, U32_MAX) == Some(n)
    requires Trim(crc) == crc && ParseUnsigned(crc, U32_MAX) == Some(c) && Trim(md5) == md5
    ensures FieldLine(FieldLine(FieldLine(FieldLine(FieldLine(NO_FIELDS, Line("img_type", ty)), Line("img_name", name)),
                      Line("img_size", size)), Line("img_md5", md5)), Line("img_crc", crc))
            == Fields(Trim(ty), Trim(name), n, md5, c)
  {
    TypeLine(NO_FIELDS, ty);
    var f1 := NO_FIELDS.(ty := Trim(ty));
    NameLine(f1, name);
    var f2 := f1.(name := Trim(name));
    SizeLine(f2, size, n);
    var f3 := f2.(size := n);
    Md5Line(f3, md5);
    CrcLine(f3.(md5 := md5), crc, c);
  }

  lemma BlockReadsBack(p: Packed)
    requires Packable(p)
    ensures FieldsOf(Join(BlockLines(p))) == DescriptionOf(p)
  {
    BlockLinesArePlain(p);
    FieldLineIgnoresCr();
    FoldJoined(FieldLine, NO_FIELDS, BlockLines(p));
    FoldFive(FieldLine, NO_FIELDS, Line("img_type", p.ty), Line("img_name", p.name), Line("img_size", Decimal(|p.data|)),
             Line("img_md5", HexString(p.md5)), Line("img_crc", Decimal(p.crc)));
    DecimalIsPlain(|p.data|);
    DecimalIsPlain(p.crc);
    HexIsPlain(p.md5);
    ParseOfDecimal(|p.data|, U32_MAX);
    ParseOfDecimal(p.crc, U32_MAX);
    FiveLinesSet(p.ty, p.name, Decimal(|p.data|), |p.data|, HexString(p.md5), Decimal(p.crc), p.crc);
  }

  lemma BlockDescribes(p: Packed)
    ensures Describes(Join(BlockLines(p)))
  {
    var l := BlockLines(p);
    assert l[1..][0] == Line("img_name", p.name);
    var tail := "=" + p.name + "\n" + Join(l[1..][1..]);
    assert Join(l[1..]) == "img_name" + tail;
    var before := l[0] + "\n";
    assert Join(l) == before + ("img_name" + tail);
    OccursBetween(before, "img_name", tail);
    OccurrenceMeansContains(Join(l), "img_name", |before|);
  }

  lemma OccursBetween(a: string, pat: string, b: string)
    ensures OccursAt(a + (pat + b), pat, |a|)
  {
    var s := a + (pat + b);
    assert s[|a|..|a| + |pat|] == pat;
  }

  // ---- the parts of a header

  function Bodies(ps: seq<Packed>): seq<string> {
    if ps == [] then [] else [Join(BlockLines(ps[0]))] + Bodies(ps[1..])
  }

  function Descriptions(ps: seq<Packed>): seq<Fields> {
    if ps == [] then [] else [DescriptionOf(ps[0])] + Descriptions(ps[1..])
  }

  lemma {:induction false} SplitBlocks(ps: seq<Packed>, tail: string)
    requires AllPackable(ps) && NoGap(tail)
    ensures SplitGaps(Blocks(ps) + tail) == Bodies(ps) + [tail]
    decreases |ps|
  {
    if ps == [] {
      assert Blocks(ps) + tail == tail && Bodies(ps) + [tail] == [tail];
      SplitNoGap(tail);
    } else {
      var body, later := Join(BlockLines(ps[0])), Blocks(ps[1..]) + tail;
      BlockLinesArePlain(ps[0]);
      JoinHasNoGap(BlockLines(ps[0]));
      Associative(body + GAP, Blocks(ps[1..]), tail);
      SplitBehind(body, later);
      SplitBlocks(ps[1..], tail);
      Associative([body], Bodies(ps[1..]), [tail]);
    }
  }

  lemma {:induction false} DescribedAll<F>(parts: seq<string>, tail: string, describes: string -> bool, read: string -> F, results: seq<F>)
    requires |results| == |parts| && !describes(tail)
    requires forall i :: 0 <= i < |parts| ==> describes(parts[i]) && read(parts[i]) == results[i]
    ensures Described(parts + [tail], describes, read) == results
    decreases |parts|
  {
    var all := parts + [tail];
    if parts == [] {
      assert all[1..] == [];
    } else {
      DescribedAll(parts[1..], tail, describes, read, results[1..]);
      assert all[1..] == parts[1..] + [tail];
      assert results == [results[0]] + results[1..];
    }
  }

  lemma {:induction false} BodyAt(ps: seq<Packed>, i: nat)
    requires i < |ps|
    ensures |Bodies(ps)| == |Descriptions(ps)| == |ps|
    ensures Bodies(ps)[i] == Join(BlockLines(ps[i])) && Descriptions(ps)[i] == DescriptionOf(ps[i])
    decreases |ps|
  {
    if |ps| > 1 {
      BodyAt(ps[1..], if i == 0 then 0 else i - 1);
    }
  }

  lemma {:induction false} BodiesLength(ps: seq<Packed>)
    ensures |Bodies(ps)| == |Descriptions(ps)| == |ps|
  {
    if ps != [] {
      BodiesLength(ps[1..]);
    }
  }

  lemma BodyDescribed(ps: seq<Packed>, i: nat, body: string, f: Fields)
    requires i < |ps| && Packable(ps[i]) && |Bodies(ps)| == |Descriptions(ps)| == |ps|
    requires body == Bodies(ps)[i] && f == Descriptions(ps)[i]
    ensures Describes(body) && FieldsOf(body) == f
  {
    BodyAt(ps, i);
    BlockDescribes(ps[i]);
    BlockReadsBack(ps[i]);
  }

  lemma DescribedBodies(ps: seq<Packed>, tail: string)
    requires AllPackable(ps) && !Describes(tail)
    ensures Described(Bodies(ps) + [tail], Describes, FieldsOf) == Descriptions(ps)
  {
    var bodies, fs := Bodies(ps), Descriptions(ps);
    BodiesLength(ps);
    forall i | 0 <= i < |bodies|
      ensures Describes(bodies[i]) && FieldsOf(bodies[i]) == fs[i]
    {
      BodyDescribed(ps, i, bodies[i], fs[i]);
    }
    DescribedAll(bodies, tail, Describes, FieldsOf, fs);
  }

  lemma FirstLineDescribesNothing()
    ensures OneLine(FIRST_LINE) && !Describes(FIRST_LINE)
  {
    LacksCharacter(FIRST_LINE, "img_name", 1);
  }

  // ---- the end of a header

  lemma ThreeLinesArePlain(bs: string, hex: string)
    requires OneLine(bs) && OneLine(hex)
    ensures
      var lines := [Line("check_img", "1"), Line("bs_size", bs), Line("ota_img_packet_md5", hex)];
      forall i :: 0 <= i < |lines| ==> OneLine(lines[i]) && lines[i] != ""
  {
    LineIsPlain("check_img", "1");
    LineIsPlain("bs_size", bs);
    LineIsPlain("ota_img_packet_md5", hex);
  }

  lemma FooterLinesArePlain(digest: Digest)
    ensures forall i :: 0 <= i < 3 ==> OneLine(FooterLines(digest)[i]) && FooterLines(digest)[i] != ""
  {
    DecimalIsPlain(BLOCK_SIZE);
    HexIsPlain(digest);
    ThreeLinesArePlain(Decimal(BLOCK_SIZE), HexString(digest));
  }

  /** The footer and the zero bytes behind it are one part, and describe no image. */
  lemma TailIsOnePart(digest: Digest, k: nat)
    ensures NoGap(Footer(digest) + Nuls(k)) && !Describes(Footer(digest) + Nuls(k))
  {
    var lines := FooterLines(digest);
    FooterLinesArePlain(digest);
    JoinHasNoGap(lines);
    var body := Join(lines);
    var s := Footer(digest) + Nuls(k);
    assert forall i :: 0 <= i < |s| ==> s[i] == if i < |body| then body[i] else if i == |body| then '\n' else '\0';
    FooterHasNoN(digest);
    LacksCharacter(s, "img_name", 4);
  }

  lemma ThreeLinesLack(c: char, bs: string, hex: string)
    requires c == 'n' && c !in bs && c !in hex
    ensures c !in Join([Line("check_img", "1"), Line("bs_size", bs), Line("ota_img_packet_md5", hex)])
  {
    var x, y, z := Line("check_img", "1"), Line("bs_size", bs), Line("ota_img_packet_md5", hex);
    assert c !in x && c !in y && c !in z;
    JoinThree(x, y, z);
  }

  lemma FooterHasNoN(digest: Digest)
    ensures 'n' !in Join(FooterLines(digest))
  {
    var bs, hex := Decimal(BLOCK_SIZE), HexString(digest);
    HexStringChars(digest);
    DecimalFacts(BLOCK_SIZE);
    assert forall i :: 0 <= i < |bs| ==> IsDigit(bs[i]);
    ThreeLinesLack('n', bs, hex);
  }

  lemma JoinThree(a: string, b: string, c: string)
    ensures Join([a, b, c]) == a + "\n" + (b + "\n" + c)
  {
    assert [a, b, c][1..] == [b, c] && [b, c][1..] == [c];
    assert Join([b, c]) == b + "\n" + Join([c]);
  }

  // ---- the settings

  lemma LineSetsGlobal(g: Globals, k: string, v: string)
    requires IsKey(k)
    ensures GlobalLine(g, Line(k, v)) == SetGlobal(g, k, Trim(v))
  {
    KeyValueOfLine(k, v);
  }

  /** The lines that describe images set nothing global. */
  lemma ImageLineIsLocal(g: Globals, k: string, v: string)
    requires IsKey(k) && k != "bs_size" && k != "ota_img_packet_md5"
    ensures GlobalLine(g, Line(k, v)) == g
  {
    LineSetsGlobal(g, k, v);
  }

  lemma EmptyLineIsLocal(g: Globals)
    ensures GlobalLine(g, "") == g
  {
  }

  lemma BlockIsLocal(g: Globals, p: Packed)
    ensures FoldLines(GlobalLine, g, BlockLines(p)) == g
  {
    ImageKeys();
    ImageLineIsLocal(g, "img_type", p.ty);
    ImageLineIsLocal(g, "img_name", p.name);
    ImageLineIsLocal(g, "img_size", Decimal(|p.data|));
    ImageLineIsLocal(g, "img_md5", HexString(p.md5));
    ImageLineIsLocal(g, "img_crc", Decimal(p.crc));
    FoldFive(GlobalLine, g, Line("img_type", p.ty), Line("img_name", p.name), Line("img_size", Decimal(|p.data|)),
             Line("img_md5", HexString(p.md5)), Line("img_crc", Decimal(p.crc)));
  }

  lemma {:induction false} GlobalsOfBlocks(g: Globals, ps: seq<Packed>, rest: string)
    requires AllPackable(ps)
    ensures FoldLines(GlobalLine, g, Lines(Blocks(ps) + rest)) == FoldLines(GlobalLine, g, Lines(rest))
    decreases |ps|
  {
    if ps == [] {
      assert Blocks(ps) + rest == rest;
    } else {
      GlobalsOfBlock(g, ps[0], Blocks(ps[1..]) + rest);
      Associative(Block(ps[0]), Blocks(ps[1..]), rest);
      GlobalsOfBlocks(g, ps[1..], rest);
    }
  }

  lemma GlobalsOfBlock(g: Globals, p: Packed, rest: string)
    requires Packable(p)
    ensures FoldLines(GlobalLine, g, Lines(Block(p) + rest)) == FoldLines(GlobalLine, g, Lines(rest))
  {
    var lines := BlockLines(p);
    var body, behind := Join(lines), "" + "\n" + rest;
    assert Block(p) + rest == body + "\n" + behind;
    BlockLinesArePlain(p);
    GlobalLineIgnoresCr();
    FoldJoinedThen(GlobalLine, g, lines, behind);
    BlockIsLocal(g, p);
    FoldOneLine(GlobalLine, g, "", rest);
    EmptyLineIsLocal(g);
  }

  lemma FoldThree<T>(step: (T, string) -> T, acc: T, a: string, b: string, c: string)
    ensures FoldLines(step, acc, [a, b, c]) == step(step(step(acc, a), b), c)
  {
    assert [a, b, c] == [a] + ([b] + ([c] + []));
    FoldCons(step, acc, a, [b] + ([c] + []));
    FoldCons(step, step(acc, a), b, [c] + []);
    FoldCons(step, step(step(acc, a), b), c, []);
  }

  lemma FooterKeys()
    ensures IsKey("check_img") && IsKey("bs_size") && IsKey("ota_img_packet_md5") && IsKey("ota_version")
  {
  }

  lemma BlockSizeLine(g: Globals)
    ensures GlobalLine(g, Line("bs_size", Decimal(BLOCK_SIZE))) == g.(bsSize := BLOCK_SIZE)
  {
    FooterKeys();
    LineSetsGlobal(g, "bs_size", Decimal(BLOCK_SIZE));
    DecimalIsPlain(BLOCK_SIZE);
    ParseOfDecimal(BLOCK_SIZE, USIZE_MAX);
  }

  lemma PacketLine(g: Globals, hex: string)
    requires Trim(hex) == hex
    ensures GlobalLine(g, Line("ota_img_packet_md5", hex)) == g.(packetMd5 := Some(hex))
  {
    FooterKeys();
    LineSetsGlobal(g, "ota_img_packet_md5", hex);
  }

  lemma FooterSets(g: Globals, digest: Digest)
    ensures FoldLines(GlobalLine, g, FooterLines(digest)) == g.(bsSize := BLOCK_SIZE, packetMd5 := Some(HexString(digest)))
  {
    FooterKeys();
    ImageLineIsLocal(g, "check_img", "1");
    BlockSizeLine(g);
    HexIsPlain(digest);
    PacketLine(g.(bsSize := BLOCK_SIZE), HexString(digest));
    FoldThree(GlobalLine, g, Line("check_img", "1"), Line("bs_size", Decimal(BLOCK_SIZE)), Line("ota_img_packet_md5", HexString(digest)));
  }

  lemma NulsAreLocal(g: Globals, k: nat)
    ensures FoldLines(GlobalLine, g, Lines(Nuls(k))) == g
  {
    var s := Nuls(k);
    assert OneLine(s);
    if k > 0 {
      FoldLastLine(GlobalLine, g, s);
      TrimFixpoint(s);
      IndexOfUnique(s, '=', k);
    }
  }

  lemma GlobalsOfFooter(g: Globals, digest: Digest, k: nat)
    ensures FoldLines(GlobalLine, g, Lines(Footer(digest) + Nuls(k))) == g.(bsSize := BLOCK_SIZE, packetMd5 := Some(HexString(digest)))
  {
    FooterLinesArePlain(digest);
    GlobalLineIgnoresCr();
    FoldJoinedThen(GlobalLine, g, FooterLines(digest), Nuls(k));
    FooterSets(g, digest);
    NulsAreLocal(g.(bsSize := BLOCK_SIZE, packetMd5 := Some(HexString(digest))), k);
  }

  lemma FirstLineIsLocal(g: Globals)
    ensures GlobalLine(g, FIRST_LINE) == g
  {
    FooterKeys();
    assert FIRST_LINE == Line("ota_version", "0");
    ImageLineIsLocal(g, "ota_version", "0");
  }

  lemma GlobalsOfHeader(md5: Hash, ps: seq<Packed>, k: nat)
    requires AllPackable(ps)
    ensures GlobalsOf(Header(md5, ps) + Nuls(k)) == Globals(BLOCK_SIZE, Some(HexString(md5(PackedData(ps)))), false)
  {
    var g := Globals(BLOCK_SIZE, None, false);
    var digest := md5(PackedData(ps));
    var tail := Footer(digest) + Nuls(k);
    HeaderShape(md5, ps, k);
    GlobalsOfStart(g, Blocks(ps) + tail);
    GlobalsOfBlocks(g, ps, tail);
    GlobalsOfFooter(g, digest, k);
  }

  /** The first line and the empty line behind it set nothing. */
  lemma GlobalsOfStart(g: Globals, rest: string)
    ensures FoldLines(GlobalLine, g, Lines(FIRST_LINE + GAP + rest)) == FoldLines(GlobalLine, g, Lines(rest))
  {
    FirstLineDescribesNothing();
    FirstLineIsLocal(g);
    EmptyLineIsLocal(g);
    GlobalLineIgnoresCr();
    FoldLineAndGap(GlobalLine, g, FIRST_LINE, rest);
  }

  lemma HeaderShape(md5: Hash, ps: seq<Packed>, k: nat)
    ensures Header(md5, ps) + Nuls(k) == FIRST_LINE + GAP + (Blocks(ps) + (Footer(md5(PackedData(ps))) + Nuls(k)))
  {
    var start, blocks, footer := FIRST_LINE + GAP, Blocks(ps), Footer(md5(PackedData(ps)));
    Associative(start, blocks, footer);
    Associative(start, blocks + footer, Nuls(k));
    Associative(blocks, footer, Nuls(k));
  }

  lemma DescriptionsOfHeader(md5: Hash, ps: seq<Packed>, k: nat)
    requires AllPackable(ps)
    ensures Described(SplitGaps(Header(md5, ps) + Nuls(k)), Describes, FieldsOf) == Descriptions(ps)
  {
    var digest := md5(PackedData(ps));
    var tail := Footer(digest) + Nuls(k);
    HeaderShape(md5, ps, k);
    FirstLineDescribesNothing();
    SplitBehind(FIRST_LINE, Blocks(ps) + tail);
    TailIsOnePart(digest, k);
    SplitBlocks(ps, tail);
    var parts := [FIRST_LINE] + (Bodies(ps) + [tail]);
    assert parts[0..] == parts && parts[1..] == Bodies(ps) + [tail];
    NextSkipped(parts, 0, Describes, FieldsOf);
    DescribedBodies(ps, tail);
  }

  // ---- the round trip

  /** The section that a packed image comes back as. */
  function Restored(p: Packed, offset: nat): Section {
    Section(Trim(p.ty), Trim(p.name), |p.data|, HexString(p.md5), p.crc, offset, p.data, false, false)
  }

  function RestoredAll(ps: seq<Packed>, offset: nat): (ss: seq<Section>)
    ensures |ss| == |ps|
    decreases |ps|
  {
    if ps == [] then [] else [Restored(ps[0], offset)] + RestoredAll(ps[1..], offset + |ps[0].data|)
  }

  lemma SectionReadsBack(checks: Checks, p: Packed, buf: seq<byte>, offset: nat)
    requires Genuine(checks, p) && offset + |p.data| <= |buf| && buf[offset..offset + |p.data|] == p.data
    ensures SectionAt(checks, DescriptionOf(p), buf, BLOCK_SIZE, offset) == Restored(p, offset)
  {
    HexDigestOfPrinted(p.md5);
  }

  lemma SliceInTwo(buf: seq<byte>, offset: nat, a: seq<byte>, b: seq<byte>)
    requires offset + |a| + |b| <= |buf| && buf[offset..offset + |a| + |b|] == a + b
    ensures buf[offset..offset + |a|] == a && buf[offset + |a|..offset + |a| + |b|] == b
  {
    var all := buf[offset..offset + |a| + |b|];
    assert buf[offset..offset + |a|] == all[..|a|];
    assert buf[offset + |a|..offset + |a| + |b|] == all[|a|..];
  }

  lemma ScanOne(checks: Checks, f: Fields, fs: seq<Fields>, buf: seq<byte>, offset: nat, next: nat, room: nat,
                s: Section, ss: seq<Section>)
    requires room > 0 && next == offset + f.size <= |buf| < TWO_32 && s == SectionAt(checks, f, buf, BLOCK_SIZE, offset)
    requires ScanFields(checks, fs, buf, BLOCK_SIZE, next, room - 1) == Scan(ss, Complete)
    ensures ScanFields(checks, [f] + fs, buf, BLOCK_SIZE, offset, room) == Scan([s] + ss, Complete)
  {
    ScanNext(checks, f, fs, buf, BLOCK_SIZE, offset, room);
  }

  lemma ScanOneImage(checks: Checks, p: Packed, fs: seq<Fields>, buf: seq<byte>, offset: nat, next: nat, room: nat, ss: seq<Section>)
    requires room > 0 && Genuine(checks, p) && next == offset + |p.data| <= |buf| < TWO_32 && buf[offset..next] == p.data
    requires ScanFields(checks, fs, buf, BLOCK_SIZE, next, room - 1) == Scan(ss, Complete)
    ensures ScanFields(checks, [DescriptionOf(p)] + fs, buf, BLOCK_SIZE, offset, room) == Scan([Restored(p, offset)] + ss, Complete)
  {
    SectionReadsBack(checks, p, buf, offset);
    ScanOne(checks, DescriptionOf(p), fs, buf, offset, next, room, Restored(p, offset), ss);
  }

  /** The data of the images lie one behind the other from `offset` on. */
  ghost predicate LaidOut(ps: seq<Packed>, buf: seq<byte>, offset: nat)
    decreases |ps|
  {
    ps != [] ==>
      && offset + |ps[0].data| <= |buf| && buf[offset..offset + |ps[0].data|] == ps[0].data
      && LaidOut(ps[1..], buf, offset + |ps[0].data|)
  }

  lemma {:induction false} PackedIsLaidOut(ps: seq<Packed>, buf: seq<byte>, offset: nat)
    requires offset + |PackedData(ps)| <= |buf| && buf[offset..offset + |PackedData(ps)|] == PackedData(ps)
    ensures LaidOut(ps, buf, offset)
    decreases |ps|
  {
    if ps != [] {
      SliceInTwo(buf, offset, ps[0].data, PackedData(ps[1..]));
      PackedIsLaidOut(ps[1..], buf, offset + |ps[0].data|);
    }
  }

  lemma {:induction false} ScanReadsBack(checks: Checks, ps: seq<Packed>, buf: seq<byte>, offset: nat, room: nat,
                                         fs: seq<Fields>, ss: seq<Section>)
    requires AllGenuine(checks, ps) && |ps| <= room && LaidOut(ps, buf, offset) && |buf| < TWO_32
    requires fs == Descriptions(ps) && ss == RestoredAll(ps, offset)
    ensures ScanFields(checks, fs, buf, BLOCK_SIZE, offset, room) == Scan(ss, Complete)
    decreases |ps|
  {
    if ps != [] {
      var rest, next := ps[1..], offset + |ps[0].data|;
      ScanReadsBack(checks, rest, buf, next, room - 1, Descriptions(rest), RestoredAll(rest, next));
      ScanOneImage(checks, ps[0], Descriptions(rest), buf, offset, next, room, RestoredAll(rest, next));
    }
  }

  lemma RestoredEnd(ps: seq<Packed>, offset: nat)
    requires ps != []
    ensures EndOffset(RestoredAll(ps, offset)) == offset + |PackedData(ps)|
  {
    var k := |ps| - 1;
    RestoredAt(ps, offset, k);
    LastAddsItsData(ps);
  }

  lemma LastAddsItsData(ps: seq<Packed>)
    requires ps != []
    ensures |PackedData(ps)| == |PackedData(ps[..|ps| - 1])| + |ps[|ps| - 1].data|
  {
    var k := |ps| - 1;
    assert ps == ps[..k] + [ps[k]];
    PackedDataSnoc(ps[..k], ps[k]);
  }

  lemma ImageParts(header: seq<byte>, payload: seq<byte>, size: nat, k: nat, buf: seq<byte>)
    requires |header| + k == HEADER_SIZE && HEADER_SIZE + |payload| <= size && buf == Image(Zeros(size), header, payload)
    ensures buf[..HEADER_SIZE] == header + Zeros(k) && buf[HEADER_SIZE..HEADER_SIZE + |payload|] == payload
  {
    var inner := Splice(Zeros(size), 0, header);
    assert inner == header + Zeros(size - |header|);
    assert inner[..HEADER_SIZE] == header + Zeros(k);
    assert buf == inner[..HEADER_SIZE] + payload + inner[HEADER_SIZE + |payload|..];
  }

  /** The bytes of a packed file: the header text, zeros up to the images, the images, anything. */
  lemma PackedFileText(header: string, payload: seq<byte>, buf: seq<byte>, size: nat, k: nat, text: string)
    requires ByteLen(header) + k == HEADER_SIZE && HEADER_SIZE + |payload| <= size && text == header + Nuls(k)
    requires buf == Image(Zeros(size), Encode(header), payload)
    ensures HeaderText(buf) == Some(text)
    ensures |buf| == size && buf[HEADER_SIZE..HEADER_SIZE + |payload|] == payload
  {
    ImageParts(Encode(header), payload, size, k, buf);
    DecodeAfterEncoded(header, Zeros(k));
    DecodeZeros(k);
  }

  /**
   Packing up to eight images into a zeroed buffer and parsing it gives back every image: types and
   names without the white space around them, data, sizes, offsets, digests and checksums; and all
   three layers of checks pass. The one condition beyond size limits is that names fit on a line.
   */
  lemma PackThenParse(checks: Checks, ps: seq<Packed>, buf: seq<byte>, size: nat)
    requires AllPackable(ps) && AllGenuine(checks, ps) && |ps| <= MAX_IMAGES
    requires ByteLen(Header(checks.md5, ps)) <= HEADER_SIZE_MAX && HEADER_SIZE + |PackedData(ps)| <= size < TWO_32
    requires buf == Image(Zeros(size), Encode(Header(checks.md5, ps)), PackedData(ps))
    ensures ParseOta(checks, buf, 8) ==
            Parsed(RestoredAll(ps, 131072), Globals(131072, Some(HexString(checks.md5(PackedData(ps)))), false), Complete)
  {
    var k := HEADER_SIZE - ByteLen(Header(checks.md5, ps));
    var text := Header(checks.md5, ps) + Nuls(k);
    PackedFileText(Header(checks.md5, ps), PackedData(ps), buf, size, k, text);
    var g := Globals(BLOCK_SIZE, Some(HexString(checks.md5(PackedData(ps)))), false);
    ParsePackedText(checks, ps, buf, text, k, g, RestoredAll(ps, HEADER_SIZE));
  }

  lemma ParsePackedText(checks: Checks, ps: seq<Packed>, buf: seq<byte>, text: string, k: nat, g: Globals, ss: seq<Section>)
    requires AllPackable(ps) && AllGenuine(checks, ps) && |ps| <= MAX_IMAGES
    requires HeaderText(buf) == Some(text) && text == Header(checks.md5, ps) + Nuls(k)
    requires HEADER_SIZE + |PackedData(ps)| <= |buf| < TWO_32 && buf[HEADER_SIZE..HEADER_SIZE + |PackedData(ps)|] == PackedData(ps)
    requires g == Globals(BLOCK_SIZE, Some(HexString(checks.md5(PackedData(ps)))), false) && ss == RestoredAll(ps, HEADER_SIZE)
    ensures ParseOta(checks, buf, MAX_IMAGES) == Parsed(ss, g, Complete)
  {
    GlobalsOfHeader(checks.md5, ps, k);
    DescriptionsOfHeader(checks.md5, ps, k);
    ScanPacked(checks, ps, buf);
    PacketReadsBack(checks, ps, buf, g);
    ParseInSteps(checks, buf, text, g, Descriptions(ps), ss);
  }

  lemma ScanPacked(checks: Checks, ps: seq<Packed>, buf: seq<byte>)
    requires AllGenuine(checks, ps) && |ps| <= MAX_IMAGES
    requires HEADER_SIZE + |PackedData(ps)| <= |buf| < TWO_32 && buf[HEADER_SIZE..HEADER_SIZE + |PackedData(ps)|] == PackedData(ps)
    ensures ScanFields(checks, Descriptions(ps), buf, BLOCK_SIZE, HEADER_SIZE, MAX_IMAGES) == Scan(RestoredAll(ps, HEADER_SIZE), Complete)
  {
    PackedIsLaidOut(ps, buf, HEADER_SIZE);
    ScanReadsBack(checks, ps, buf, HEADER_SIZE, MAX_IMAGES, Descriptions(ps), RestoredAll(ps, HEADER_SIZE));
  }

  lemma ParseInSteps(checks: Checks, buf: seq<byte>, text: string, g: Globals, fs: seq<Fields>, ss: seq<Section>)
    requires HeaderText(buf) == Some(text) && GlobalsOf(text) == g && g.bsSize == BLOCK_SIZE
    requires Described(SplitGaps(text), Describes, FieldsOf) == fs
    requires ScanFields(checks, fs, buf, BLOCK_SIZE, HEADER_SIZE, MAX_IMAGES) == Scan(ss, Complete)
    requires Finish(checks, buf, g, Scan(ss, Complete)) == Parsed(ss, g, Complete)
    ensures ParseOta(checks, buf, MAX_IMAGES) == Parsed(ss, g, Complete)
  {
  }

  lemma PacketReadsBack(checks: Checks, ps: seq<Packed>, buf: seq<byte>, g: Globals)
    requires HEADER_SIZE + |PackedData(ps)| <= |buf| && buf[HEADER_SIZE..HEADER_SIZE + |PackedData(ps)|] == PackedData(ps)
    requires g == Globals(BLOCK_SIZE, Some(HexString(checks.md5(PackedData(ps)))), false)
    ensures Finish(checks, buf, g, Scan(RestoredAll(ps, HEADER_SIZE), Complete)) == Parsed(RestoredAll(ps, HEADER_SIZE), g, Complete)
  {
    HexDigestOfPrinted(checks.md5(PackedData(ps)));
    if ps != [] {
      RestoredEnd(ps, HEADER_SIZE);
    }
  }

  lemma {:induction false} RestoredPasses(ps: seq<Packed>, offset: nat)
    ensures FirstFailure(RestoredAll(ps, offset)).None?
    decreases |ps|
  {
    if ps != [] {
      RestoredPasses(ps[1..], offset + |ps[0].data|);
      assert RestoredAll(ps, offset)[1..] == RestoredAll(ps[1..], offset + |ps[0].data|);
    }
  }

  /** The extractor accepts every packed file that holds an image at all. */
  lemma PackedFileIsAccepted(checks: Checks, ps: seq<Packed>, buf: seq<byte>, size: nat)
    requires AllPackable(ps) && AllGenuine(checks, ps) && |ps| <= MAX_IMAGES
    requires ByteLen(Header(checks.md5, ps)) <= HEADER_SIZE_MAX && HEADER_SIZE + |PackedData(ps)| <= size < TWO_32
    requires buf == Image(Zeros(size), Encode(Header(checks.md5, ps)), PackedData(ps))
    ensures Judge(ParseOta(checks, buf, MAX_IMAGES)) == if ps == [] then Refused("file has 0 OTA sections") else Accepted
  {
    PackThenParse(checks, ps, buf, size);
    RestoredPasses(ps, HEADER_SIZE);
  }

  /** The packer and the extractor, back to back: whatever was added is accepted again. */
  method PackAndExtract(packer: Packer, size: nat) returns (v: Verdict)
    requires packer.Valid() && AllPackable(packer.Added())
    requires ByteLen(Header(packer.checks.md5, packer.Added())) <= HEADER_SIZE_MAX
    requires HEADER_SIZE + |PackedData(packer.Added())| <= size < TWO_32
    ensures v == if packer.Added() == [] then Refused("file has 0 OTA sections") else Accepted
  {
    var out := new byte[size](_ => 0);
    assert out[..] == Zeros(size);
    packer.Pack(out);
    packer.AddedAreGenuine();
    PackedFileIsAccepted(packer.checks, packer.Added(), out[..], size);
    var extractor := new OtaExtractor(packer.checks, out[..]);
    v := extractor.Parse();
  }

  /** Types and names survive unchanged if and only if they have no white space at their ends. */
  lemma {:induction false} NamesSurviveIffTrimmed(ps: seq<Packed>, offset: nat)
    ensures
      var ss := RestoredAll(ps, offset);
      (forall i :: 0 <= i < |ps| ==> ss[i].ty == ps[i].ty && ss[i].name == ps[i].name)
      <==> (forall i :: 0 <= i < |ps| ==> Trimmed(ps[i].ty) && Trimmed(ps[i].name))
  {
    forall i | 0 <= i < |ps|
      ensures RestoredAll(ps, offset)[i].ty == Trim(ps[i].ty) && RestoredAll(ps, offset)[i].name == Trim(ps[i].name)
    {
      RestoredAt(ps, offset, i);
      TrimFixpoint(ps[i].ty);
      TrimFixpoint(ps[i].name);
    }
    forall i | 0 <= i < |ps|
      ensures Trimmed(ps[i].ty) <==> Trim(ps[i].ty) == ps[i].ty
      ensures Trimmed(ps[i].name) <==> Trim(ps[i].name) == ps[i].name
    {
      TrimFixpoint(ps[i].ty);
      TrimFixpoint(ps[i].name);
    }
  }

  lemma {:induction false} RestoredAt(ps: seq<Packed>, offset: nat, i: nat)
    requires i < |ps|
    ensures RestoredAll(ps, offset)[i] == Restored(ps[i], offset + |PackedData(ps[..i])|)
    decreases |ps|
  {
    if i == 0 {
      assert ps[..0] == [];
    } else {
      RestoredAt(ps[1..], offset + |ps[0].data|, i - 1);
      assert ps[..i][1..] == ps[1..][..i - 1];
    }
  }
}
