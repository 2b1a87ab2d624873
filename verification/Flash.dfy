/** A flash chip behind up to four partition devices, presented as one flat image of 16 MiB. */
module Flash {
  import opened Basics
  import opened Mmap

  const FLASH_SIZE: nat := 16 * 1024 * 1024
  const FLASH_BLOCK_SIZE: nat := 64 * 1024
  const ULTRA_NAND_FLASH_SIZE: nat := 128 * 1024 * 1024

  datatype Layout = Modern | Legacy | LegacyUltraNor | LegacyUltraNand | Unknown

  /** The size that a partition's size file reports; an unreadable one counts as zero. */
  function SizeOr0(stat: Option<nat>): nat {
    if stat.Some? then stat.value else 0
  }

  function LayoutOf(stats: seq<Option<nat>>, ultra: bool): Layout
    requires |stats| == 4
  {
    var a, b, c, d := SizeOr0(stats[0]), SizeOr0(stats[1]), SizeOr0(stats[2]), SizeOr0(stats[3]);
    var sum := a + b + c + d;
    if ultra && sum == ULTRA_NAND_FLASH_SIZE then LegacyUltraNand
    else if a == FLASH_SIZE then Modern
    else if sum == FLASH_SIZE && a > 0 && b > 0 && c > 0 then
      if d > 0 && ultra then LegacyUltraNor else Legacy
    else Unknown
  }

  // ---- the flat image

  /** The sizes of the first `k` partitions together. */
  function Base(parts: seq<seq<byte>>, k: nat): nat
    requires k <= |parts|
  {
    if k == 0 then 0 else Base(parts, k - 1) + |parts[k - 1]|
  }

  lemma {:induction false} FlattenLength(parts: seq<seq<byte>>, k: nat)
    requires k <= |parts|
    ensures |Flatten(parts[..k])| == Base(parts, k)
  {
    if k == 0 {
      assert parts[..0] == [];
    } else {
      FlattenLength(parts, k - 1);
      assert parts[..k] == parts[..k - 1] + [parts[k - 1]];
      FlattenSnoc(parts[..k - 1], parts[k - 1]);
    }
  }

  /** A flat image, seen from one partition. */
  lemma FlattenAround(parts: seq<seq<byte>>, k: nat, before: seq<byte>, after: seq<byte>)
    requires k < |parts| && before == Flatten(parts[..k]) && after == Flatten(parts[k + 1..])
    ensures Flatten(parts) == before + parts[k] + after && |before| == Base(parts, k)
  {
    FlattenLength(parts, k);
    assert parts[..k + 1] == parts[..k] + [parts[k]];
    FlattenSnoc(parts[..k], parts[k]);
    assert parts == parts[..k + 1] + parts[k + 1..];
    FlattenAppend(parts[..k + 1], parts[k + 1..]);
  }

  lemma SpliceInside(before: seq<byte>, part: seq<byte>, after: seq<byte>, off: nat, data: seq<byte>)
    requires off + |data| <= |part|
    ensures before + Splice(part, off, data) + after == Splice(before + part + after, |before| + off, data)
  {
  }

  lemma FlattenFour<T>(parts: seq<seq<T>>, a: seq<T>, b: seq<T>, c: seq<T>, d: seq<T>)
    requires parts == [a, b, c, d]
    ensures Flatten(parts) == a + b + c + d
  {
    var two, one := [c, d], [d];
    assert parts[1..] == [b] + two && ([b] + two)[1..] == two && two[1..] == one && one[1..] == [];
    assert Flatten(one) == d && Flatten(two) == c + d && Flatten([b] + two) == b + (c + d);
  }

  /** Writing inside one partition writes at the corresponding place of the flat image. */
  lemma FlattenSplice(parts: seq<seq<byte>>, k: nat, off: nat, data: seq<byte>, part: seq<byte>, flat: seq<byte>, flat': seq<byte>)
    requires k < |parts| && off + |data| <= |parts[k]| && part == Splice(parts[k], off, data)
    requires flat == Flatten(parts) && flat' == Flatten(parts[k := part])
    ensures Base(parts, k) + off + |data| <= |flat|
    ensures flat' == Splice(flat, Base(parts, k) + off, data)
  {
    var before, after := Flatten(parts[..k]), Flatten(parts[k + 1..]);
    FlattenAround(parts, k, before, after);
    FlattenUpdated(parts, k, part, before, after);
    SpliceInside(before, parts[k], after, off, data);
  }

  lemma FlattenUpdated(parts: seq<seq<byte>>, k: nat, part: seq<byte>, before: seq<byte>, after: seq<byte>)
    requires k < |parts| && before == Flatten(parts[..k]) && after == Flatten(parts[k + 1..])
    ensures Flatten(parts[k := part]) == before + part + after
  {
    assert parts[k := part][..k] == parts[..k] && parts[k := part][k + 1..] == parts[k + 1..];
    FlattenAround(parts[k := part], k, before, after);
  }

  lemma SliceInside(before: seq<byte>, part: seq<byte>, after: seq<byte>, off: nat, len: nat)
    requires off + len <= |part|
    ensures (before + part + after)[|before| + off..|before| + off + len] == part[off..off + len]
  {
  }

  lemma FlattenSlice(parts: seq<seq<byte>>, k: nat, off: nat, len: nat, flat: seq<byte>, at: nat)
    requires k < |parts| && off + len <= |parts[k]| && flat == Flatten(parts) && at == Base(parts, k) + off
    ensures at + len <= |flat| && flat[at..at + len] == parts[k][off..off + len]
  {
    var before, after := Flatten(parts[..k]), Flatten(parts[k + 1..]);
    FlattenAround(parts, k, before, after);
    SliceInside(before, parts[k], after, off, len);
  }

  lemma {:induction false} BaseGrows(parts: seq<seq<byte>>, j: nat, k: nat)
    requires j <= k <= |parts|
    ensures Base(parts, j) <= Base(parts, k)
    decreases k
  {
    if j < k {
      BaseGrows(parts, j, k - 1);
    }
  }

  lemma {:induction false} BaseOfUpdated(parts: seq<seq<byte>>, parts': seq<seq<byte>>, k: nat)
    requires k <= |parts| == |parts'| && forall i :: 0 <= i < |parts| ==> |parts[i]| == |parts'[i]|
    ensures Base(parts, k) == Base(parts', k)
  {
    if k > 0 {
      BaseOfUpdated(parts, parts', k - 1);
    }
  }

  // ---- the devices

  /** Whether the system calls on one partition device succeed. */
  datatype Attempt = Attempt(opens: bool, maps: bool, syncs: bool)

  predicate AllWork(env: seq<Attempt>) {
    forall i :: 0 <= i < |env| ==> env[i].opens && env[i].maps && env[i].syncs
  }

  const OFFLINE := "legacy partition is offline"

  /** What an offset and a slice can be at most on a 32-bit machine. */
  predicate AreWords(offset: nat, len: nat) {
    offset < TWO_32 && len < 0x8000_0000
  }

  /** The end wraps around: the range starts far behind the chip. */
  predicate Wraps(offset: nat, len: nat) {
    offset + len >= TWO_32
  }

  lemma EndIsSum(offset: nat, len: nat)
    requires AreWords(offset, len)
    ensures !Wraps(offset, len) ==> (offset + len) % TWO_32 == offset + len
    ensures Wraps(offset, len) ==> offset > FLASH_SIZE
  {
  }

  const NAND_UNSUPPORTED := "flashing ultra NAND not supported yet"

  /** The layouts whose partitions together make up the image. */
  predicate IsSplit(l: Layout) {
    l == Legacy || l == LegacyUltraNor
  }

  lemma SpliceNothing(was: seq<byte>, offset: nat, data: seq<byte>)
    requires offset <= |was|
    ensures Splice(was, offset, data[..0]) == was
  {
  }

  lemma SpliceOverAll(was: seq<byte>, buf: seq<byte>)
    requires |was| == |buf|
    ensures Splice(was, 0, buf[..|buf|]) == buf
  {
  }

  class Chip {
    const parts: seq<array<byte>>
    const readable: seq<bool>
    const ultra: bool

    ghost predicate Valid() {
      && |parts| == 4 && |readable| == 4
      && forall i, j :: 0 <= i < j < |parts| ==> parts[i] != parts[j]
    }

    constructor (parts: seq<array<byte>>, readable: seq<bool>, ultra: bool)
      requires |parts| == 4 && |readable| == 4 && forall i, j :: 0 <= i < j < |parts| ==> parts[i] != parts[j]
      ensures Valid() && this.parts == parts && this.readable == readable && this.ultra == ultra
    {
      this.parts, this.readable, this.ultra := parts, readable, ultra;
    }

    /** What the four devices hold. */
    ghost function Contents(): (c: seq<seq<byte>>)
      reads parts
      ensures |c| == |parts|
    {
      seq(|parts|, i requires 0 <= i < |parts| reads parts => parts[i][..])
    }

    function Stats(): (s: seq<Option<nat>>)
      requires Valid()
      ensures |s| == 4
    {
      seq(4, i requires 0 <= i < 4 => if readable[i] then Some(parts[i].Length) else None)
    }

    function CurrentLayout(): Layout
      requires Valid()
    {
      LayoutOf(Stats(), ultra)
    }

    /** The flat image that `read` and `write` work on. */
    ghost function Flat(): seq<byte>
      requires Valid()
      reads parts
    {
      if CurrentLayout() == Modern then parts[0][..] else Flatten(Contents())
    }

    /** The first partition is the whole image of a modern chip; otherwise all four are, one behind the other. */
    lemma FlatIs()
      requires Valid()
      ensures CurrentLayout() == Modern ==> Flat() == parts[0][..]
      ensures CurrentLayout() != Modern ==> Flat() == parts[0][..] + parts[1][..] + parts[2][..] + parts[3][..]
    {
      var c := Contents();
      FlattenFour(c, c[0], c[1], c[2], c[3]);
    }

    /**
     One partition's share of a write. It may fail, but never leaves half of its share behind. The copy
     syncs what it changes; with `again` the caller syncs once more, whether anything changed or not.
     */
    method WritePart(i: nat, off: nat, chunk: seq<byte>, again: bool, a: Attempt) returns (e: Option<string>, ghost copied: bool)
      requires Valid() && i < 4 && off + |chunk| <= parts[i].Length
      modifies parts[i]
      ensures copied ==> Contents() == old(Contents())[i := Splice(old(Contents())[i], off, chunk)]
      ensures !copied ==> Contents() == old(Contents())
      ensures e.None? ==> copied
      ensures e.None? <==>
                a.opens && a.maps && (a.syncs || (!again && old(Contents())[i][off..off + |chunk|] == chunk))
    {
      copied := false;
      if !a.opens {
        return Some("failed to open fd"), false;
      }
      if !a.maps {
        return Some("mmap failed"), false;
      }
      ghost var before := Contents();
      var ok, synced, stores := WriteIfDifferent(parts[i], off, chunk, FLASH_BLOCK_SIZE, a.syncs);
      assert Contents() == before[i := Splice(before[i], off, chunk)];
      SpliceSame(before[i], off, chunk);
      copied := true;
      if !ok || (again && !a.syncs) {
        return Some("msync failed"), true;
      }
      e := None;
    }

    /** Every size file must be readable; otherwise the partitions cannot be told apart. */
    predicate AllReadable()
      requires Valid()
    {
      readable[0] && readable[1] && readable[2] && readable[3]
    }

    /** The share of partition `i`, as part of writing `data` at `offset` of the flat image. */
    method WriteShare(i: nat, off: nat, offset: nat, data: seq<byte>, from: nat, to: nat, a: Attempt, ghost was: seq<seq<byte>>)
      returns (e: Option<string>, ghost done: nat)
      requires Valid() && i < 4 && from <= to <= |data| && off + (to - from) <= parts[i].Length
      requires SameSizes(Contents(), was) && offset + |data| <= |Flatten(was)| && offset + from == Base(was, i) + off
      requires Flatten(Contents()) == Splice(Flatten(was), offset, data[..from])
      modifies parts[i]
      ensures SameSizes(Contents(), was) && from <= done <= to && (e.None? ==> done == to)
      ensures e.None? <==> a.opens && a.maps && a.syncs
      ensures Flatten(Contents()) == Splice(Flatten(was), offset, data[..done])
    {
      ghost var before, chunk := Contents(), data[from..to];
      ghost var copied;
      e, copied := WritePart(i, off, data[from..to], true, a);
      done := from;
      if copied {
        ShareWritten(was, before, i, off, chunk, Splice(before[i], off, chunk), offset, data, from, to,
                     Flatten(was), Flatten(before), Flatten(Contents()));
        done := to;
      }
    }

    /**
     The loop over the partitions. Whatever happens, a prefix of `data` has been written and nothing
     outside its range has changed; success means that the prefix is all of it.
     */
    method WriteLegacy(offset: nat, data: seq<byte>, env: seq<Attempt>) returns (e: Option<string>, ghost done: nat)
      requires Valid() && |env| == 4 && offset + |data| <= Base(Contents(), 4)
      modifies parts
      ensures done <= |data| && offset + |data| <= |old(Flatten(Contents()))|
      ensures Flatten(Contents()) == Splice(old(Flatten(Contents())), offset, data[..done])
      ensures e.None? ==> done == |data|
      ensures AllWork(env) ==> e.None?
    {
      done := 0;
      e := None;
      var written, off, i := 0, offset, 0;
      ghost var was := Contents();
      FlattenLength(was, 4);
      assert was[..4] == was && data[..0] == [];
      while i < 4
        invariant 0 <= i <= 4 && 0 <= written <= |data| && done == written && off >= 0 && e.None?
        invariant SameSizes(Contents(), was)
        invariant offset + written == Base(was, i) + off
        invariant Flatten(Contents()) == Splice(Flatten(was), offset, data[..written])
      {
        if off >= parts[i].Length {
          off := off - parts[i].Length;
          i := i + 1;
          continue;
        }
        var toWrite := Min(parts[i].Length - off, |data| - written);
        e, done := WriteShare(i, off, offset, data, written, written + toWrite, env[i], was);
        if e.Some? {
          return;
        }
        written := written + toWrite;
        off := 0;
        if written >= |data| {
          return;
        }
        i := i + 1;
      }
    }

    /** With all size files readable, a split layout adds up to the size of the chip. */
    lemma SplitLayoutIsWhole()
      requires Valid() && IsSplit(CurrentLayout()) && AllReadable()
      ensures Base(Contents(), 4) == FLASH_SIZE
    {
      var c := Contents();
      assert Base(c, 4) == Base(c, 3) + |c[3]|;
      assert Base(c, 3) == Base(c, 2) + |c[2]|;
      assert Base(c, 2) == Base(c, 1) + |c[1]|;
      assert Base(c, 1) == |c[0]|;
    }

    lemma WholeImage()
      requires Valid() && IsSplit(CurrentLayout()) && AllReadable()
      ensures Base(Contents(), 4) == FLASH_SIZE == |Flatten(Contents())|
    {
      SplitLayoutIsWhole();
      FlattenLength(Contents(), 4);
      assert Contents()[..4] == Contents();
    }

    /** The loop over the partitions from behind their end: each is skipped, and nothing is touched. */
    method SkipPartitions(offset: nat) returns (k: nat)
      requires Valid() && offset >= Base(Contents(), 4)
      ensures k == 4
    {
      var off: nat := offset;
      k := 0;
      while k < 4
        invariant k <= 4 && off + Base(Contents(), k) == offset
      {
        BaseGrows(Contents(), k + 1, 4);
        assert off >= parts[k].Length;
        off := off - parts[k].Length;
        k := k + 1;
      }
    }

    method WriteModern(offset: nat, data: seq<byte>, a: Attempt) returns (e: Option<string>, ghost done: nat)
      requires Valid() && offset + |data| <= parts[0].Length
      modifies parts[0]
      ensures done == 0 || done == |data|
      ensures parts[0][..] == Splice(old(parts[0][..]), offset, data[..done])
      ensures e.None? ==> done == |data|
      ensures e.None? <==>
                a.opens && a.maps && (a.syncs || old(parts[0][..])[offset..offset + |data|] == data)
    {
      ghost var copied, was := false, Contents();
      e, copied := WritePart(0, offset, data, false, a);
      done := if copied then |data| else 0;
      assert data[..|data|] == data && data[..0] == [];
      assert Contents()[0] == parts[0][..] && was[0] == old(parts[0][..]);
    }

    /**
     Writes `data` at `offset` of the flat image. On success the image is the old one with `data` in
     place; on failure some prefix of `data` is in place; never is anything else changed. A range
     whose end wraps around passes the size check: then one partition makes the program stop, and
     with several the loop skips them all and reports success, and nothing is written.
     */
    method Write(offset: nat, data: seq<byte>, env: seq<Attempt>) returns (e: Option<string>, crashed: bool, ghost done: nat)
      requires Valid() && |env| == 4 && AreWords(offset, |data|)
      modifies parts
      ensures done <= |data| && (done == 0 || offset + done <= |old(Flat())|)
      ensures Flat() == if done == 0 then old(Flat()) else Splice(old(Flat()), offset, data[..done])
      ensures !crashed && e.None? && offset + |data| < 0x1_0000_0000 ==> done == |data| && offset + |data| <= FLASH_SIZE == |Flat()|
      ensures (offset + |data|) % 0x1_0000_0000 > FLASH_SIZE ==> e == Some("write exceeds flash size") && !crashed
      ensures IsSplit(CurrentLayout()) && !AllReadable() ==> e.Some? && done == 0
      ensures IsSplit(CurrentLayout()) && !AllReadable() && (offset + |data|) % 0x1_0000_0000 <= FLASH_SIZE ==>
                e == Some("legacy partition is offline")
      ensures offset + |data| <= FLASH_SIZE && AllWork(env) ==>
                (e.None? <==> CurrentLayout() == Modern || (IsSplit(CurrentLayout()) && AllReadable()))
      ensures offset + |data| >= 0x1_0000_0000 && (offset + |data|) % 0x1_0000_0000 <= FLASH_SIZE ==>
                && done == 0
                && (e.None? <==> crashed || (IsSplit(CurrentLayout()) && AllReadable()))
      ensures crashed <==> (offset + |data| >= 0x1_0000_0000 && (offset + |data|) % 0x1_0000_0000 <= FLASH_SIZE && CurrentLayout() == Modern &&
                            env[0].opens && env[0].maps)
    {
      done, crashed := 0, false;
      EndIsSum(offset, |data|);
      if (offset + |data|) % TWO_32 > FLASH_SIZE {
        return Some("write exceeds flash size"), false, 0;
      }
      ghost var was := Flat();
      var layout := CurrentLayout();
      if layout == Modern {
        if offset > FLASH_SIZE {
          e, crashed := SliceBehind(env[0]);
          return;
        }
        e, done := WriteModern(offset, data, env[0]);
        return;
      }
      if !IsSplit(layout) {
        e := Some(if layout == LegacyUltraNand then NAND_UNSUPPORTED else "unknown flash layout");
        return;
      }
      if !AllReadable() {
        return Some(OFFLINE), false, 0;
      }
      WholeImage();
      if offset > FLASH_SIZE {
        var skipped := SkipPartitions(offset);
        return None, false, 0;
      }
      // The second size check of the program cannot fail.
      assert offset + |data| <= Base(Contents(), 4);
      e, done := WriteLegacy(offset, data, env);
      if done == 0 {
        SpliceNothing(was, offset, data);
      }
    }

    /** Mapping the one partition, to slice its memory where it does not reach. */
    method SliceBehind(a: Attempt) returns (e: Option<string>, crashed: bool)
      ensures crashed <==> a.opens && a.maps
      ensures e.None? <==> crashed
    {
      if !a.opens {
        return Some("failed to open fd"), false;
      }
      if !a.maps {
        return Some("mmap failed"), false;
      }
      return None, true;
    }

    /** One partition's share of a read. */
    method ReadPart(i: nat, off: nat, data: array<byte>, at: nat, len: nat, a: Attempt) returns (e: Option<string>)
      requires Valid() && i < 4 && off + len <= parts[i].Length && at + len <= data.Length && data !in parts
      modifies data
      ensures e.None? ==> data[..] == Splice(old(data[..]), at, Contents()[i][off..off + len])
      ensures e.None? <==> a.opens && a.maps
    {
      if !a.opens {
        return Some("failed to open fd");
      }
      if !a.maps {
        return Some("mmap failed");
      }
      assert parts[i] in parts;
      Mmap.Read(parts[i], off, data, at, len);
      assert Contents()[i][off..off + len] == parts[i][off..off + len];
      e := None;
    }

    /** The share of partition `i`, as part of reading from `offset` of the flat image. */
    method ReadShare(i: nat, off: nat, offset: nat, data: array<byte>, n: nat, end: nat, a: Attempt, ghost flat: seq<byte>)
      returns (e: Option<string>)
      requires Valid() && i < 4 && n <= end <= data.Length && off + (end - n) <= parts[i].Length && data !in parts
      requires flat == Flatten(Contents()) && offset + n == Base(Contents(), i) + off && Begun(data[..], n, flat, offset)
      modifies data
      ensures Contents() == old(Contents())
      ensures e.None? ==> Begun(data[..], end, flat, offset)
      ensures e.None? <==> a.opens && a.maps
    {
      var len := end - n;
      ghost var before, c := data[..], Contents();
      FlattenSlice(c, i, off, len, flat, offset + n);
      e := ReadPart(i, off, data, n, len, a);
      if e.None? {
        ReadMore(before, data[..], flat, offset, n, len, c[i][off..off + len]);
      }
    }

    method ReadLegacy(offset: nat, data: array<byte>, env: seq<Attempt>) returns (e: Option<string>)
      requires Valid() && |env| == 4 && offset + data.Length <= Base(Contents(), 4) && data !in parts
      modifies data
      ensures offset + data.Length <= |Flatten(Contents())|
      ensures e.None? ==> data[..] == Flatten(Contents())[offset..offset + data.Length]
      ensures AllWork(env) ==> e.None?
    {
      e := None;
      var readTotal: nat, off: nat, i := 0, offset, 0;
      ghost var c := Contents();
      ghost var flat := Flatten(c);
      FlattenLength(c, 4);
      assert c[..4] == c;
      while i < 4
        invariant 0 <= i <= 4 && readTotal <= data.Length && e.None? && Contents() == c
        invariant offset + readTotal == Base(c, i) + off
        invariant Begun(data[..], readTotal, flat, offset)
      {
        BaseNext(c, i, i + 1, parts[i].Length);
        if off >= parts[i].Length {
          off := off - parts[i].Length;
          i := i + 1;
          continue;
        }
        var toRead := Min(parts[i].Length - off, data.Length - readTotal);
        var end := readTotal + toRead;
        e := ReadShare(i, off, offset, data, readTotal, end, env[i], flat);
        if e.Some? {
          return;
        }
        readTotal := end;
        off := 0;
        if readTotal >= data.Length {
          ReadIsWhole(data[..], readTotal, flat, offset);
          return;
        }
        i := i + 1;
      }
      ReadIsWhole(data[..], readTotal, flat, offset);
    }

    /**
     Fills `data` with the bytes of the flat image from `offset` on. A range whose end wraps around
     fares as in `Write`: with several partitions success is reported and `data` is as before.
     */
    method Read(offset: nat, data: array<byte>, env: seq<Attempt>) returns (e: Option<string>, crashed: bool)
      requires Valid() && |env| == 4 && data !in parts && AreWords(offset, data.Length)
      modifies data
      ensures !crashed && e.None? && offset + data.Length < 0x1_0000_0000 ==>
                offset + data.Length <= FLASH_SIZE == |Flat()| && data[..] == Flat()[offset..offset + data.Length]
      ensures (offset + data.Length) % 0x1_0000_0000 > FLASH_SIZE ==> e == Some("read exceeds flash size") && !crashed
      ensures offset + data.Length <= FLASH_SIZE && AllWork(env) ==>
                (e.None? <==> CurrentLayout() == Modern || (IsSplit(CurrentLayout()) && AllReadable()))
      ensures offset + data.Length >= 0x1_0000_0000 && (offset + data.Length) % 0x1_0000_0000 <= FLASH_SIZE ==>
                && data[..] == old(data[..])
                && (e.None? <==> crashed || (IsSplit(CurrentLayout()) && AllReadable()))
      ensures crashed <==> (offset + data.Length >= 0x1_0000_0000 && (offset + data.Length) % 0x1_0000_0000 <= FLASH_SIZE &&
                            CurrentLayout() == Modern && env[0].opens && env[0].maps)
    {
      crashed := false;
      EndIsSum(offset, data.Length);
      if (offset + data.Length) % TWO_32 > FLASH_SIZE {
        return Some("read exceeds flash size"), false;
      }
      var layout := CurrentLayout();
      if layout == Modern {
        if offset > FLASH_SIZE {
          e, crashed := SliceBehind(env[0]);
          return;
        }
        e := ReadPart(0, offset, data, 0, data.Length, env[0]);
        if e.None? {
          assert data[..] == Contents()[0][offset..offset + data.Length];
        }
        return;
      }
      if !IsSplit(layout) {
        return Some(if layout == LegacyUltraNand then NAND_UNSUPPORTED else "unknown flash layout"), false;
      }
      if !AllReadable() {
        return Some(OFFLINE), false;
      }
      WholeImage();
      if offset > FLASH_SIZE {
        var skipped := SkipPartitions(offset);
        return None, false;
      }
      e := ReadLegacy(offset, data, env);
    }

    /** A full backup is the whole image. */
    method Backup(buf: array<byte>, env: seq<Attempt>) returns (e: Option<string>)
      requires Valid() && |env| == 4 && buf !in parts
      modifies buf
      ensures e.None? ==> buf[..] == Flat()
      ensures buf.Length != FLASH_SIZE ==> e == Some("invalid buffer size for backup")
    {
      if buf.Length != FLASH_SIZE {
        return Some("invalid buffer size for backup");
      }
      var crashed;
      e, crashed := Read(0, buf, env);
      if e.None? {
        assert Flat()[0..FLASH_SIZE] == Flat();
      }
    }

    /** Flashing replaces the whole image. */
    method FlashNosign(buf: seq<byte>, env: seq<Attempt>) returns (e: Option<string>, ghost done: nat)
      requires Valid() && |env| == 4
      modifies parts
      ensures e.None? ==> Flat() == buf
      ensures |buf| != FLASH_SIZE ==> e == Some("invalid file size for flashing") && Flat() == old(Flat())
      ensures done <= |buf| && (done == 0 || done <= |old(Flat())|)
      ensures Flat() == if done == 0 then old(Flat()) else Splice(old(Flat()), 0, buf[..done])
    {
      if |buf| != FLASH_SIZE {
        return Some("invalid file size for flashing"), 0;
      }
      ghost var was := Flat();
      var crashed;
      e, crashed, done := Write(0, buf, env);
      if e.None? {
        SpliceOverAll(was, buf);
      }
    }
  }

  /** The first `n` bytes have been read from `offset` on. */
  predicate Begun(data: seq<byte>, n: nat, flat: seq<byte>, offset: nat) {
    n <= |data| && offset + n <= |flat| && data[..n] == flat[offset..offset + n]
  }

  lemma ReadIsWhole(data: seq<byte>, n: nat, flat: seq<byte>, offset: nat)
    requires Begun(data, n, flat, offset) && n == |data|
    ensures data == flat[offset..offset + |data|]
  {
    assert data[..n] == data;
  }

  lemma BaseNext(parts: seq<seq<byte>>, k: nat, next: nat, size: nat)
    requires next == k + 1 <= |parts| && |parts[k]| == size
    ensures Base(parts, next) == Base(parts, k) + size
  {
  }

  lemma ReadMore(before: seq<byte>, after: seq<byte>, flat: seq<byte>, offset: nat, n: nat, len: nat, chunk: seq<byte>)
    requires offset + n + len <= |flat| && n + len <= |before| && |chunk| == len
    requires before[..n] == flat[offset..offset + n] && chunk == flat[offset + n..offset + n + len]
    requires after == Splice(before, n, chunk)
    ensures after[..n + len] == flat[offset..offset + n + len]
  {
    assert after[..n + len] == before[..n] + chunk;
    assert flat[offset..offset + n + len] == flat[offset..offset + n] + flat[offset + n..offset + n + len];
  }

  /** Writing and then reading the same range gives back what was written, in every working layout. */
  method ReadAfterWrite(chip: Chip, offset: nat, data: seq<byte>, buf: array<byte>, env1: seq<Attempt>, env2: seq<Attempt>)
    returns (ok: bool)
    requires chip.Valid() && |env1| == 4 && |env2| == 4 && buf !in chip.parts && buf.Length == |data|
    requires AreWords(offset, |data|)
    modifies chip.parts, buf
    ensures ok && offset + |data| < 0x1_0000_0000 ==> buf[..] == data
    ensures (offset + |data| <= FLASH_SIZE && AllWork(env1) && AllWork(env2) &&
             (chip.CurrentLayout() == Modern || (IsSplit(chip.CurrentLayout()) && chip.AllReadable()))) ==> ok
  {
    ghost var was := chip.Flat();
    var e, crashed, done := chip.Write(offset, data, env1);
    if crashed || e.Some? {
      return false;
    }
    assert data[..|data|] == data;
    e, crashed := chip.Read(offset, buf, env2);
    if !crashed && e.None? && |data| > 0 && !Wraps(offset, |data|) {
      assert Splice(was, offset, data)[offset..offset + |data|] == data;
    }
    ok := !crashed && e.None?;
  }

  /**
   The documented three-partition layout is recognised, yet cannot be written or read: the fourth
   size file, which only the four-partition device has, must be readable as well.
   */
  /** Which chips are taken for what, by the sizes of their partitions; one that is not readable counts as empty. */
  lemma LayoutIff(chip: Chip, a: nat, b: nat, c: nat, d: nat)
    requires chip.Valid()
    requires a == (if chip.readable[0] then chip.parts[0].Length else 0) && b == (if chip.readable[1] then chip.parts[1].Length else 0)
    requires c == (if chip.readable[2] then chip.parts[2].Length else 0) && d == (if chip.readable[3] then chip.parts[3].Length else 0)
    ensures chip.CurrentLayout() == LegacyUltraNand <==> chip.ultra && a + b + c + d == 0x800_0000
    ensures chip.CurrentLayout() == Modern <==> a == 0x100_0000 && !(chip.ultra && a + b + c + d == 0x800_0000)
    ensures chip.CurrentLayout() == LegacyUltraNor <==>
              a > 0 && b > 0 && c > 0 && d > 0 && a + b + c + d == 0x100_0000 && chip.ultra
    ensures chip.CurrentLayout() == Legacy <==>
              a > 0 && b > 0 && c > 0 && a + b + c + d == 0x100_0000 && !(d > 0 && chip.ultra)
  {
  }

  lemma ThreePartitionsAreOffline(chip: Chip)
    requires chip.Valid() && !chip.readable[3] && !chip.ultra
    requires chip.readable[0] && chip.readable[1] && chip.readable[2]
    requires chip.parts[0].Length + chip.parts[1].Length + chip.parts[2].Length == FLASH_SIZE
    requires chip.parts[0].Length > 0 && chip.parts[1].Length > 0 && chip.parts[2].Length > 0
    ensures chip.CurrentLayout() == Legacy && !chip.AllReadable()
  {
  }

  ghost predicate SameSizes(a: seq<seq<byte>>, b: seq<seq<byte>>) {
    |a| == |b| && forall k :: 0 <= k < |a| ==> |a[k]| == |b[k]|
  }

  lemma SpliceChain(f0: seq<byte>, f1: seq<byte>, f2: seq<byte>, offset: nat, data: seq<byte>, from: nat, to: nat, at: nat)
    requires offset + |data| <= |f0| && from <= to <= |data| && at == offset + from
    requires f1 == Splice(f0, offset, data[..from]) && f2 == Splice(f1, at, data[from..to])
    ensures f2 == Splice(f0, offset, data[..to])
  {
    SpliceNext(f0, offset, data, from, to);
  }

  lemma SharePlaced(was: seq<seq<byte>>, before: seq<seq<byte>>, i: nat, off: nat, chunk: seq<byte>, part: seq<byte>,
                    f1: seq<byte>, f2: seq<byte>, at: nat)
    requires i < |was| && SameSizes(before, was) && off + |chunk| <= |was[i]| && at == Base(was, i) + off
    requires part == Splice(before[i], off, chunk) && f1 == Flatten(before) && f2 == Flatten(before[i := part])
    ensures SameSizes(before[i := part], was) && at + |chunk| <= |f1| && f2 == Splice(f1, at, chunk)
  {
    BaseOfUpdated(was, before, i);
    FlattenSplice(before, i, off, chunk, part, f1, f2);
  }

  /** One partition's share extends the written prefix from `from` to `to`. */
  lemma ShareWritten(was: seq<seq<byte>>, before: seq<seq<byte>>, i: nat, off: nat, chunk: seq<byte>, part: seq<byte>,
                     offset: nat, data: seq<byte>, from: nat, to: nat, f0: seq<byte>, f1: seq<byte>, f2: seq<byte>)
    requires i < |was| && SameSizes(before, was) && from <= to <= |data| && off + (to - from) <= |was[i]|
    requires chunk == data[from..to] && part == Splice(before[i], off, chunk)
    requires f1 == Flatten(before) && f2 == Flatten(before[i := part])
    requires offset + |data| <= |f0| && offset + from == Base(was, i) + off
    requires f1 == Splice(f0, offset, data[..from])
    ensures SameSizes(before[i := part], was) && f2 == Splice(f0, offset, data[..to])
  {
    SharePlaced(was, before, i, off, chunk, part, f1, f2, offset + from);
    SpliceChain(f0, f1, f2, offset, data, from, to, offset + from);
  }
}
