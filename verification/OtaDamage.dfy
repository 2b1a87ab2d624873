/** The parser with the checksum it really uses: damage to a section does not go unnoticed. */
module OtaDamage {
  import opened Basics
  import opened ImageCrc
  import opened Md5
  import opened Ota
  import opened OtaReader

  lemma NumberFits(x: bv32)
    ensures 0 <= x as int <= 0xFFFF_FFFF
  {
  }

  lemma NumberInjective(x: bv32, y: bv32)
    requires x != y
    ensures x as int != y as int
  {
    assert (x as int) as bv32 == x && (y as int) as bv32 == y;
  }

  /** The image checksum as a number. With block size zero it is only ever asked for empty data. */
  function CrcNumber(data: seq<byte>, bs: nat): Word32 {
    var x := XorCrc(data, if bs == 0 then 1 else bs);
    NumberFits(x);
    x as int
  }

  lemma DamageChangesNumber(good: seq<byte>, bad: seq<byte>, bs: nat, k: nat, p: int)
    requires bs >= 1 && FourBytesDiffer(good, bad, bs, k, p) && good != bad
    ensures CrcNumber(good, bs) != CrcNumber(bad, bs)
  {
    DamageIsDetected(good, bad, bs, k, p);
    NumberInjective(XorCrc(good, bs), XorCrc(bad, bs));
  }

  /**
   A section whose description carries the non-zero checksum of `good`, but which holds data that
   differ from it within four consecutive bytes of one block, is always flagged.
   */
  lemma DamagedSectionIsFlagged(md5: Hash, f: Fields, good: seq<byte>, now: seq<byte>, buf: seq<byte>, bs: nat, offset: nat,
                                k: nat, p: int)
    requires bs >= 1 && |good| == f.size && offset + f.size <= |buf| && now == buf[offset..offset + f.size]
    requires f.crc == CrcNumber(good, bs) != 0
    requires FourBytesDiffer(good, now, bs, k, p) && good != now
    ensures SectionAt(Checks(md5, CrcNumber), f, buf, bs, offset).crcFail
  {
    DamageChangesNumber(good, now, bs, k, p);
    WrongNumberIsFlagged(md5, f, buf, bs, offset, now);
  }

  lemma WrongNumberIsFlagged(md5: Hash, f: Fields, buf: seq<byte>, bs: nat, offset: nat, now: seq<byte>)
    requires bs >= 1 && offset + f.size <= |buf| && now == buf[offset..offset + f.size]
    requires f.crc != 0 && f.crc != CrcNumber(now, bs)
    ensures SectionAt(Checks(md5, CrcNumber), f, buf, bs, offset).crcFail
  {
  }

  lemma {:induction false} FlaggedIsFailure(sections: seq<Section>, i: nat)
    requires i < |sections| && sections[i].crcFail
    ensures FirstFailure(sections).Some?
    decreases i
  {
    if i > 0 {
      FlaggedIsFailure(sections[1..], i - 1);
    }
  }

  /** A file with a flagged section is never accepted. */
  lemma FlaggedFileIsRefused(checks: Checks, buf: seq<byte>, i: nat)
    requires
      var out := ParseOta(checks, buf, MAX_IMAGES);
      out.Parsed? && i < |out.sections| && out.sections[i].crcFail
    ensures Judge(ParseOta(checks, buf, MAX_IMAGES)).Refused?
  {
    FlaggedIsFailure(ParseOta(checks, buf, MAX_IMAGES).sections, i);
  }

  function SizeSum(fs: seq<Fields>): nat {
    if fs == [] then 0 else fs[0].size + SizeSum(fs[1..])
  }

  /** A section that ends there is inside a file of that size. */
  predicate FitsFile(end: nat, size: nat) {
    end <= size && end < TWO_32
  }

  /** The `k`-th description asks for the checksum of data that are there, in blocks of size zero. */
  predicate HangsAt(fs: seq<Fields>, k: nat, size: nat, bs: nat, offset: nat, room: nat) {
    k < |fs| && k < room && bs == 0 && fs[k].crc != 0 && fs[k].size > 0 && FitsFile(offset + SizeSum(fs[..k + 1]), size)
  }

  lemma HangsLater(fs: seq<Fields>, k: nat, size: nat, bs: nat, offset: nat, room: nat)
    requires fs != [] && k > 0 && room > 0
    ensures HangsAt(fs, k, size, bs, offset, room) <==> HangsAt(fs[1..], k - 1, size, bs, offset + fs[0].size, room - 1)
  {
    if k < |fs| {
      assert fs[..k + 1][1..] == fs[1..][..k];
    }
  }

  lemma HangsFirst(fs: seq<Fields>, size: nat, bs: nat, offset: nat, room: nat)
    requires fs != []
    ensures HangsAt(fs, 0, size, bs, offset, room) <==> room > 0 && NeverEnds(fs[0], bs) && FitsFile(offset + fs[0].size, size)
  {
    var one := fs[..1];
    assert one[1..] == [] && SizeSum(one) == one[0].size + SizeSum(one[1..]);
  }

  lemma FirstFits(fs: seq<Fields>, k: nat, size: nat, bs: nat, offset: nat, room: nat)
    requires HangsAt(fs, k, size, bs, offset, room)
    ensures room > 0 && FitsFile(offset + fs[0].size, size)
  {
    assert SizeSum(fs[..k + 1]) >= fs[0].size;
  }

  /**
   The parser runs forever exactly when the header sets the block size to zero and, before any section
   overruns the file, describes a non-empty one with a checksum.
   */
  lemma {:induction false} EndlessIff(checks: Checks, fs: seq<Fields>, buf: seq<byte>, bs: nat, offset: nat, room: nat)
    ensures ScanFields(checks, fs, buf, bs, offset, room).end == Endless <==>
            HangsSomewhere(fs, |buf|, bs, offset, room)
    decreases |fs|
  {
    if fs != [] && room > 0 {
      var more, next := fs[1..], offset + fs[0].size;
      EndlessIff(checks, more, buf, bs, next, room - 1);
      EndlessNext(checks, fs, buf, bs, offset, room, ScanFields(checks, more, buf, bs, next, room - 1));
      HangsSomewhereNext(fs, |buf|, bs, offset, room, more, next, room - 1);
    }
  }

  ghost predicate HangsSomewhere(fs: seq<Fields>, size: nat, bs: nat, offset: nat, room: nat) {
    exists k: nat :: HangsAt(fs, k, size, bs, offset, room)
  }

  /** Some description hangs the parser: the first, or one behind it if the first is inside the file. */
  lemma HangsSomewhereNext(fs: seq<Fields>, size: nat, bs: nat, offset: nat, room: nat, more: seq<Fields>, next: nat, left: nat)
    requires fs != [] && room == left + 1 && more == fs[1..] && next == offset + fs[0].size
    ensures HangsSomewhere(fs, size, bs, offset, room) <==>
            FitsFile(next, size) && (NeverEnds(fs[0], bs) || HangsSomewhere(more, size, bs, next, left))
  {
    HangsFirst(fs, size, bs, offset, room);
    if k: nat :| HangsAt(fs, k, size, bs, offset, room) {
      FirstFits(fs, k, size, bs, offset, room);
      if k > 0 {
        HangsLater(fs, k, size, bs, offset, room);
      }
    }
    if k: nat :| HangsAt(more, k, size, bs, next, left) {
      NextFits(more, k, size, bs, next, left);
      HangsLater(fs, k + 1, size, bs, offset, room);
    }
  }

  lemma NextFits(fs: seq<Fields>, k: nat, size: nat, bs: nat, offset: nat, room: nat)
    requires HangsAt(fs, k, size, bs, offset, room)
    ensures FitsFile(offset, size)
  {
  }

  lemma EndlessNext(checks: Checks, fs: seq<Fields>, buf: seq<byte>, bs: nat, offset: nat, room: nat, rest: Scan)
    requires fs != [] && room > 0 && rest == ScanFields(checks, fs[1..], buf, bs, offset + fs[0].size, room - 1)
    ensures ScanFields(checks, fs, buf, bs, offset, room).end == Endless <==>
            FitsFile(offset + fs[0].size, |buf|) && (NeverEnds(fs[0], bs) || rest.end == Endless)
  {
  }
}
