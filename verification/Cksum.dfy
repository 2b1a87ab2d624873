/** The table-driven checksum program, and the per-block checksum of an image built on it. */
module Cksum {
  import opened Basics
  import opened Lfsr
  import opened Crc

  // ---- specification

  /** The register after one more byte. */
  function ByteStep(crc: bv32, b: byte): bv32 {
    REG.Enter(crc, BitsOf(b))
  }

  function Feed(crc: bv32, data: seq<byte>): bv32
    decreases |data|
  {
    if data == [] then crc else Feed(ByteStep(crc, data[0]), data[1..])
  }

  /** The bytes of a length, lowest first and no more than needed. */
  function LengthBytes(n: nat): seq<byte> {
    if n == 0 then [] else [n % 256] + LengthBytes(n / 256)
  }

  /** The number that bytes make up, the lowest first: the sum of b[i] * 256^i. */
  function NumberOf(b: seq<byte>): nat {
    if b == [] then 0 else b[0] + 256 * NumberOf(b[1..])
  }

  /** The bytes make up `n`, and there are no more of them than needed. */
  predicate Spells(b: seq<byte>, n: nat) {
    NumberOf(b) == n && (b != [] ==> b[|b| - 1] != 0)
  }

  lemma {:induction false} LengthIsSpelled(n: nat)
    ensures Spells(LengthBytes(n), n)
  {
    if n > 0 {
      var rest := LengthBytes(n / 256);
      LengthIsSpelled(n / 256);
      assert LengthBytes(n)[1..] == rest;
      assert rest == [] ==> n == n % 256;
    }
  }

  /** There is only one way to spell a number. */
  lemma {:induction false} SpelledOnce(b: seq<byte>, n: nat)
    requires Spells(b, n)
    ensures b == LengthBytes(n)
  {
    if b != [] {
      SpelledOnce(b[1..], n / 256);
      assert b == [b[0]] + b[1..];
      assert b[1..] == [] ==> n == b[0] && n != 0;
    }
  }

  function ZeroBits(n: nat): (z: seq<bool>)
    ensures |z| == n && forall i :: 0 <= i < n ==> !z[i]
  {
    seq(n, _ => false)
  }

  /** What the program computes: the data, then the length cut to 32 bits. */
  function Checksum(data: seq<byte>): bv32 {
    Feed(0, data + LengthBytes(|data| % TWO_32))
  }

  lemma {:induction false} FeedAppend(crc: bv32, a: seq<byte>, b: seq<byte>)
    ensures Feed(crc, a + b) == Feed(Feed(crc, a), b)
    decreases |a|
  {
    if a == [] {
      assert a + b == b;
    } else {
      assert (a + b)[1..] == a[1..] + b;
      FeedAppend(ByteStep(crc, a[0]), a[1..], b);
    }
  }

  lemma FeedOne(crc: bv32, b: byte)
    ensures Feed(crc, [b]) == ByteStep(crc, b)
  {
    assert [b][1..] == [];
  }

  /** Feeding bytes is entering their bits. */
  lemma {:induction false} FeedIsEnter(crc: bv32, data: seq<byte>)
    ensures Feed(crc, data) == REG.Enter(crc, AllBits(data))
    decreases |data|
  {
    if data != [] {
      FeedIsEnter(ByteStep(crc, data[0]), data[1..]);
      EnterAppend(REG, crc, BitsOf(data[0]), AllBits(data[1..]));
    }
  }

  /**
   The checksum is the remainder of the data, the length (lowest byte first, no more bytes than needed)
   and 32 zeros. For every input shorter than 2^32 bytes that is the POSIX one, not complemented.
   */
  lemma ChecksumIsPosix(data: seq<byte>, length: seq<byte>)
    requires Spells(length, |data| % TWO_32)
    ensures Checksum(data) == REG.Divide(REG.zero, AllBits(data + length) + ZeroBits(32))
  {
    SpelledOnce(length, |data| % TWO_32);
    FeedIsDivision(data + length);
  }

  lemma FeedIsDivision(message: seq<byte>)
    ensures Feed(0, message) == REG.Divide(REG.zero, AllBits(message) + ZeroBits(32))
  {
    FeedIsEnter(0, message);
    EnterIsLongDivision(AllBits(message), ZeroBits(32));
  }

  lemma EnterIsLongDivision(bits: seq<bool>, zeros: seq<bool>)
    requires |zeros| == 32 && forall i :: 0 <= i < |zeros| ==> !zeros[i]
    ensures REG.Enter(REG.zero, bits) == REG.Divide(REG.zero, bits + zeros)
  {
    RegisterIsLawful();
    ShortFormIsLongDivision(REG, bits, zeros);
  }

  // ---- the table

  predicate IsCksumTable(t: seq<bv32>) {
    |t| == 256 && forall i :: 0 <= i < 256 ==> t[i] == TableEntry(i as bv32)
  }

  /** The table index for a byte: the top byte of the register, exclusive-ored with it. */
  function TableIndex(crc: bv32, b: byte): (i: nat)
    ensures i < 256
  {
    var x := (crc >> 24) ^ Wide(b);
    IndexFits(crc, Wide(b));
    x as int
  }

  lemma IndexFits(crc: bv32, w: bv32)
    requires w & 0xFFFF_FF00 == 0
    ensures (crc >> 24) ^ w < 256
  {
  }

  lemma MaskIsIdle(x: bv32)
    requires x < 256
    ensures x & 0xFF == x
  {
  }

  lemma EntryAt(t: seq<bv32>, x: bv32)
    requires IsCksumTable(t) && x < 256
    ensures x as int < 256 && t[x as int] == TableEntry(x)
  {
    assert (x as int) as bv32 == x;
  }

  lemma LookUpValue(crc: bv32, b: byte, x: bv32, e: bv32)
    requires x == (crc >> 24) ^ Wide(b) && e == TableEntry(x)
    ensures (crc << 8) ^ e == ByteStep(crc, b)
  {
    TableStepIsEightBits(crc, b);
  }

  lemma OneStep(r: bv32, n: nat)
    requires n > 0
    ensures REG.Steps(r, n) == REG.Steps(TimesX(r), n - 1)
  {
  }

  lemma Doubles(r: bv32, s: bv32)
    requires r & 0x8000_0000 == 0 && s == r << 1
    ensures TimesX(r) == s
  {
  }

  /** The entry of 1 in the published table of this checksum. */
  lemma EntryOfOne(n: nat)
    requires n == 8
    ensures REG.Steps(0x0100_0000, n) == 0x04C1_1DB7
  {
    OneStep(0x0100_0000, n);
    Doubles(0x0100_0000, 0x0200_0000);
    OneStep(0x0200_0000, n - 1);
    Doubles(0x0200_0000, 0x0400_0000);
    OneStep(0x0400_0000, n - 2);
    Doubles(0x0400_0000, 0x0800_0000);
    OneStep(0x0800_0000, n - 3);
    Doubles(0x0800_0000, 0x1000_0000);
    OneStep(0x1000_0000, n - 4);
    Doubles(0x1000_0000, 0x2000_0000);
    OneStep(0x2000_0000, n - 5);
    Doubles(0x2000_0000, 0x4000_0000);
    OneStep(0x4000_0000, n - 6);
    Doubles(0x4000_0000, 0x8000_0000);
    OneStep(0x8000_0000, n - 7);
    Overflows(0x8000_0000);
  }

  lemma Overflows(r: bv32)
    requires r == 0x8000_0000
    ensures TimesX(r) == 0x04C1_1DB7
  {
  }

  lemma ShiftedOne(x: bv32)
    requires x == 1
    ensures x << 24 == 0x0100_0000
  {
  }

  lemma StepOfOne(b: byte, w: bv32)
    requires b == 1 && w == Wide(b)
    ensures ByteStep(0, b) == 0x04C1_1DB7
  {
    assert w == 1;
    ShiftedOne(w);
    EntryOfOne(OctetBits());
    FirstLookUp(b, w, TableEntry(w));
  }

  /** The first look-up of all: the register is still zero. */
  lemma FirstLookUp(b: byte, w: bv32, e: bv32)
    requires w == Wide(b) && e == TableEntry(w)
    ensures ByteStep(0, b) == e
  {
    LookUpValue(0, b, w, e);
  }

  lemma StepOfZero(b: byte, w: bv32)
    requires b == 0 && w == Wide(b)
    ensures ByteStep(0, b) == 0
  {
    assert w == 0;
    assert w << 24 == 0;
    RegisterIsLawful();
    StepsZero(REG, OctetBits());
    FirstLookUp(b, w, TableEntry(w));
  }

  lemma {:induction false} ZerosFeed(data: seq<byte>)
    requires forall i :: 0 <= i < |data| ==> data[i] == 0
    ensures Feed(0, data) == 0
  {
    if data != [] {
      StepOfZero(data[0], Wide(data[0]));
      ZerosFeed(data[1..]);
    }
  }

  /** The checksum of 256 zero bytes is the polynomial itself. */
  lemma KnownValue(data: seq<byte>, n: nat)
    requires |data| == n == 256 && forall i :: 0 <= i < |data| ==> data[i] == 0
    ensures Checksum(data) == 0x04C1_1DB7
  {
    assert LengthBytes(n / 256) == [1] + LengthBytes(n / 256 / 256);
    assert LengthBytes(n) == [0] + [1];
    ZerosFeed(data + [0]);
    FeedAppend(0, data + [0], [1]);
    Associative(data, [0], [1]);
    FeedOne(0, 1);
    StepOfOne(1, Wide(1));
  }

  lemma LookUpEntry(t: seq<bv32>, crc: bv32, b: byte, x: bv32)
    requires IsCksumTable(t) && x == (crc >> 24) ^ Wide(b)
    ensures t[TableIndex(crc, b)] == TableEntry(x)
  {
    IndexFits(crc, Wide(b));
    EntryAt(t, x);
  }

  /** One look-up in a correct table advances the register by one byte. */
  lemma LookUpIsByteStep(t: seq<bv32>, crc: bv32, b: byte)
    requires IsCksumTable(t)
    ensures (crc << 8) ^ t[TableIndex(crc, b)] == ByteStep(crc, b)
  {
    var x := (crc >> 24) ^ Wide(b);
    LookUpEntry(t, crc, b, x);
    LookUpValue(crc, b, x, t[TableIndex(crc, b)]);
  }

  lemma ShiftedStep(crc: bv32, next: bv32, n: nat)
    requires n > 0 && next == TimesX(crc)
    ensures REG.Steps(crc, n) == REG.Steps(next, n - 1)
  {
  }

  /** Eight rounds of shift and conditional exclusive or. */
  method EightRounds(start: bv32) returns (crc: bv32)
    ensures crc == REG.Steps(start, OctetBits())
  {
    crc := start;
    var bit := 0;
    ghost var n := OctetBits();
    while bit < 8
      invariant 0 <= bit <= 8 && n == 8 - bit
      invariant REG.Steps(crc, n) == REG.Steps(start, OctetBits())
    {
      ghost var before := crc;
      if crc & 0x8000_0000 != 0 {
        crc := (crc << 1) ^ POLY;
      } else {
        crc := crc << 1;
      }
      ShiftedStep(before, crc, n);
      bit := bit + 1;
      n := n - 1;
    }
  }

  /** The first `n` entries are there. */
  predicate Rows(t: seq<bv32>, n: nat) {
    forall j :: 0 <= j < n && j < |t| && j < 256 ==> t[j] == TableEntry(j as bv32)
  }

  lemma RowsNext(t: seq<bv32>, u: seq<bv32>, n: nat, crc: bv32)
    requires n < |t| == 256 && Rows(t, n) && crc == REG.Steps((n as bv32) << 24, OctetBits()) && u == t[n := crc]
    ensures Rows(u, n + 1)
  {
    assert crc == TableEntry(n as bv32);
  }

  method MakeCksumTable() returns (tbl: array<bv32>)
    ensures fresh(tbl) && IsCksumTable(tbl[..])
  {
    tbl := new bv32[256](_ => 0);
    var i := 0;
    while i < 256
      invariant 0 <= i <= 256
      invariant Rows(tbl[..], i)
    {
      var crc := EightRounds((i as bv32) << 24);
      ghost var before := tbl[..];
      tbl[i] := crc;
      RowsNext(before, tbl[..], i, crc);
      i := i + 1;
    }
  }

  /** `(crc << 8) ^ CKSUM_TABLE[...]`, as each of the unrolled steps does it. */
  method Advance(tbl: array<bv32>, crc: bv32, b: byte) returns (next: bv32)
    requires IsCksumTable(tbl[..])
    ensures next == Feed(crc, [b])
  {
    LookUpIsByteStep(tbl[..], crc, b);
    FeedOne(crc, b);
    next := (crc << 8) ^ tbl[TableIndex(crc, b)];
  }

  /** The same with the index masked, as both tail loops do it: the mask changes nothing. */
  method AdvanceMasked(tbl: array<bv32>, crc: bv32, b: byte) returns (next: bv32)
    requires IsCksumTable(tbl[..])
    ensures next == Feed(crc, [b])
  {
    var idx := MaskedIndex(crc, b);
    LookUpIsByteStep(tbl[..], crc, b);
    FeedOne(crc, b);
    next := (crc << 8) ^ tbl[idx];
  }

  method MaskedIndex(crc: bv32, b: byte) returns (idx: nat)
    ensures idx == TableIndex(crc, b)
  {
    var x := (crc >> 24) ^ Wide(b);
    IndexFits(crc, Wide(b));
    MaskIsIdle(x);
    idx := (x & 0xFF) as int;
  }

  lemma FeedSlice(data: seq<byte>, i: nat, j: nat)
    requires i <= j <= |data|
    ensures Feed(Feed(0, data[..i]), data[i..j]) == Feed(0, data[..j])
  {
    assert data[..j] == data[..i] + data[i..j];
    FeedAppend(0, data[..i], data[i..j]);
  }

  lemma QuadSlice(data: seq<byte>, i: nat)
    requires i + 4 <= |data|
    ensures Feed(Feed(0, data[..i]), [data[i], data[i + 1], data[i + 2], data[i + 3]]) == Feed(0, data[..i + 4])
  {
    assert data[i..i + 4] == [data[i], data[i + 1], data[i + 2], data[i + 3]];
    FeedSlice(data, i, i + 4);
  }

  lemma OctetSlice(data: seq<byte>, i: nat)
    requires i < |data|
    ensures Feed(Feed(0, data[..i]), [data[i]]) == Feed(0, data[..i + 1])
  {
    assert data[i..i + 1] == [data[i]];
    FeedSlice(data, i, i + 1);
  }

  /** The unrolled body: four bytes. */
  method AdvanceFour(tbl: array<bv32>, crc0: bv32, a: byte, b: byte, c: byte, d: byte) returns (crc: bv32)
    requires IsCksumTable(tbl[..])
    ensures crc == Feed(crc0, [a, b, c, d])
  {
    crc := Advance(tbl, crc0, a);
    crc := Advance(tbl, crc, b);
    crc := Advance(tbl, crc, c);
    crc := Advance(tbl, crc, d);
    FeedFour(crc0, a, b, c, d);
  }

  method TakeFour(tbl: array<bv32>, crc0: bv32, data: seq<byte>, i: nat) returns (crc: bv32)
    requires IsCksumTable(tbl[..]) && i + 4 <= |data| && crc0 == Feed(0, data[..i])
    ensures crc == Feed(0, data[..i + 4])
  {
    crc := AdvanceFour(tbl, crc0, data[i], data[i + 1], data[i + 2], data[i + 3]);
    QuadSlice(data, i);
  }

  method TakeOne(tbl: array<bv32>, crc0: bv32, data: seq<byte>, i: nat) returns (crc: bv32)
    requires IsCksumTable(tbl[..]) && i < |data| && crc0 == Feed(0, data[..i])
    ensures crc == Feed(0, data[..i + 1])
  {
    crc := AdvanceMasked(tbl, crc0, data[i]);
    OctetSlice(data, i);
  }

  /** The unrolled loop: as many whole groups of four bytes as there are. */
  method TakeFours(tbl: array<bv32>, data: seq<byte>) returns (crc: bv32, i: nat)
    requires IsCksumTable(tbl[..])
    ensures i <= |data| < i + 4 && crc == Feed(0, data[..i])
  {
    crc, i := 0, 0;
    assert data[..0] == [];
    while i + 4 <= |data|
      invariant 0 <= i <= |data|
      invariant crc == Feed(0, data[..i])
    {
      crc := TakeFour(tbl, crc, data, i);
      i := i + 4;
    }
  }

  /** The program: four bytes per round, then one, then the bytes of the length. */
  method CksumCrc32(tbl: array<bv32>, data: seq<byte>) returns (crc: bv32)
    requires IsCksumTable(tbl[..])
    ensures crc == Checksum(data)
    ensures forall length :: Spells(length, |data| % TWO_32) ==>
              crc == REG.Divide(REG.zero, AllBits(data + length) + ZeroBits(32))
  {
    var i;
    crc, i := TakeFours(tbl, data);
    while i < |data|
      invariant 0 <= i <= |data|
      invariant crc == Feed(0, data[..i])
    {
      crc := TakeOne(tbl, crc, data, i);
      i := i + 1;
    }
    assert data[..i] == data;
    crc := EndWithLength(tbl, crc, data);
    forall length | Spells(length, |data| % TWO_32)
      ensures crc == REG.Divide(REG.zero, AllBits(data + length) + ZeroBits(32))
    {
      ChecksumIsPosix(data, length);
    }
  }

  method EndWithLength(tbl: array<bv32>, crc0: bv32, data: seq<byte>) returns (crc: bv32)
    requires IsCksumTable(tbl[..]) && crc0 == Feed(0, data)
    ensures crc == Checksum(data)
  {
    FeedAppend(0, data, LengthBytes(|data| % TWO_32));
    crc := AppendLength(tbl, crc0, |data| % TWO_32);
  }

  /** The length loop; the caller has cast the length to u32. */
  method AppendLength(tbl: array<bv32>, start: bv32, n: nat) returns (crc: bv32)
    requires IsCksumTable(tbl[..])
    ensures crc == Feed(start, LengthBytes(n))
  {
    crc := start;
    var len: nat := n;
    while len != 0
      invariant Feed(crc, LengthBytes(len)) == Feed(start, LengthBytes(n))
    {
      FeedAppend(crc, [len % 256], LengthBytes(len / 256));
      crc := AdvanceMasked(tbl, crc, len % 256);
      len := len / 256;
    }
  }

  lemma FeedFour(crc: bv32, a: byte, b: byte, c: byte, d: byte)
    ensures Feed(Feed(Feed(Feed(crc, [a]), [b]), [c]), [d]) == Feed(crc, [a, b, c, d])
  {
    FeedAppend(crc, [a], [b]);
    FeedAppend(crc, [a, b], [c]);
    FeedAppend(crc, [a, b, c], [d]);
    assert [a] + [b] == [a, b] && [a, b] + [c] == [a, b, c] && [a, b, c] + [d] == [a, b, c, d];
  }
}
