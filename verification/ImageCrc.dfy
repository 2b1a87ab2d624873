/** The checksum of an image: the exclusive or of the checksums of its blocks, and what it detects. */
module ImageCrc {
  import opened Basics
  import opened Lfsr
  import opened Crc
  import opened Cksum

  /** The exclusive or of the checksums of the blocks of `data`; only the last may be short. */
  function XorCrc(data: seq<byte>, bs: nat): bv32
    requires bs >= 1
    decreases |data|
  {
    if data == [] then 0
    else if |data| <= bs then Checksum(data)
    else Checksum(data[..bs]) ^ XorCrc(data[bs..], bs)
  }

  /** The exclusive or of the checksums of these blocks. */
  function XorAll(blocks: seq<seq<byte>>): bv32 {
    if blocks == [] then 0 else Checksum(blocks[0]) ^ XorAll(blocks[1..])
  }

  /** An image that consists of whole blocks and a last one that is not longer has the checksum of these blocks. */
  lemma {:induction false} XorCrcOfBlocks(blocks: seq<seq<byte>>, last: seq<byte>, bs: nat)
    requires bs >= 1 && 0 < |last| <= bs && forall i :: 0 <= i < |blocks| ==> |blocks[i]| == bs
    ensures XorCrc(Flatten(blocks) + last, bs) == XorAll(blocks + [last])
  {
    var data := Flatten(blocks) + last;
    if blocks == [] {
      assert data == last && blocks + [last] == [last] && [last][1..] == [];
    } else {
      var rest := blocks[1..];
      Associative(blocks[0], Flatten(rest), last);
      assert data[..bs] == blocks[0] && data[bs..] == Flatten(rest) + last;
      assert (blocks + [last])[1..] == rest + [last];
      XorCrcOfBlocks(rest, last, bs);
    }
  }

  lemma XorCrcNext(data: seq<byte>, bs: nat, off: nat, end: nat)
    requires bs >= 1 && off < |data| && end == Min(off + bs, |data|)
    ensures XorCrc(data[off..], bs) == Checksum(data[off..end]) ^ XorCrc(data[end..], bs)
  {
    var rest := data[off..];
    if end == |data| {
      assert data[off..end] == rest && data[end..] == [];
    } else {
      assert rest[..bs] == data[off..end] && rest[bs..] == data[end..];
    }
  }

  lemma XorShuffle(total: bv32, c: bv32, rest: bv32)
    ensures (total ^ c) ^ rest == total ^ (c ^ rest)
  {
  }

  /** Folds the checksums of the blocks, left to right. A block size of zero would never end. */
  method XorCrcImg(tbl: array<bv32>, data: seq<byte>, bs: nat) returns (total: bv32)
    requires IsCksumTable(tbl[..]) && bs >= 1
    ensures total == XorCrc(data, bs)
  {
    total := 0;
    var off := 0;
    assert data[0..] == data;
    while off < |data|
      invariant 0 <= off <= |data|
      invariant total ^ XorCrc(data[off..], bs) == XorCrc(data, bs)
    {
      var end := Min(off + bs, |data|);
      XorCrcNext(data, bs, off, end);
      var c := CksumCrc32(tbl, data[off..end]);
      XorShuffle(total, c, XorCrc(data[end..], bs));
      total := total ^ c;
      off := end;
    }
    assert data[off..] == [];
  }

  // ---- what a damaged block does to the checksum

  /** `a` and `b` differ, and all differences lie within 32 consecutive bits. */
  ghost predicate Burst(a: seq<bool>, b: seq<bool>, before: seq<bool>, x: seq<bool>, y: seq<bool>, after: seq<bool>) {
    a == before + x + after && b == before + y + after && |x| == |y| <= 32 && x != y
  }

  lemma {:induction false} AllBitsAppend(a: seq<byte>, b: seq<byte>)
    ensures AllBits(a + b) == AllBits(a) + AllBits(b)
  {
    if a == [] {
      assert a + b == b;
    } else {
      assert (a + b)[1..] == a[1..] + b;
      AllBitsAppend(a[1..], b);
      Associative(BitsOf(a[0]), AllBits(a[1..]), AllBits(b));
    }
  }

  /** Blocks of the same length that differ by a burst of at most 32 bits have different checksums. */
  lemma BurstInBlock(a: seq<byte>, b: seq<byte>, before: seq<bool>, x: seq<bool>, y: seq<bool>, after: seq<bool>)
    requires |a| == |b| && Burst(AllBits(a), AllBits(b), before, x, y, after)
    ensures Checksum(a) != Checksum(b)
  {
    var len := LengthBytes(|a| % TWO_32);
    FeedIsEnter(0, a + len);
    FeedIsEnter(0, b + len);
    AllBitsAppend(a, len);
    AllBitsAppend(b, len);
    Associative(before + x, after, AllBits(len));
    Associative(before + y, after, AllBits(len));
    BurstEnters(before, x, y, after + AllBits(len));
  }

  lemma BurstEnters(before: seq<bool>, x: seq<bool>, y: seq<bool>, after: seq<bool>)
    requires |x| == |y| <= 32 && x != y
    ensures REG.Enter(0, before + x + after) != REG.Enter(0, before + y + after)
  {
    RegisterIsLawful();
    BurstDetected(REG, 0, before, x, y, after);
  }

  // ---- bytes

  lemma SameBitsSameWord(v: bv32, w: bv32)
    requires v & 0xFFFF_FF00 == 0 && w & 0xFFFF_FF00 == 0
    requires (v & 0x80 != 0) == (w & 0x80 != 0) && (v & 0x40 != 0) == (w & 0x40 != 0)
    requires (v & 0x20 != 0) == (w & 0x20 != 0) && (v & 0x10 != 0) == (w & 0x10 != 0)
    requires (v & 8 != 0) == (w & 8 != 0) && (v & 4 != 0) == (w & 4 != 0)
    requires (v & 2 != 0) == (w & 2 != 0) && (v & 1 != 0) == (w & 1 != 0)
    ensures v == w
  {
  }

  lemma WideInjective(x: byte, y: byte)
    requires Wide(x) == Wide(y)
    ensures x == y
  {
    WideningInjective(x as bv8, y as bv8);
    ByteOfNumber(x);
    ByteOfNumber(y);
  }

  lemma WideningInjective(v: bv8, w: bv8)
    requires v as bv32 == w as bv32
    ensures v == w
  {
  }

  lemma ByteOfNumber(x: int)
    requires 0 <= x < 256
    ensures (x as bv8) as int == x
  {
    assert x % 256 == x;
  }

  lemma BitsInjective(x: byte, y: byte)
    requires BitsOf(x) == BitsOf(y)
    ensures x == y
  {
    var p, q := BitsOf(x), BitsOf(y);
    assert p[0] == q[0] && p[1] == q[1] && p[2] == q[2] && p[3] == q[3];
    assert p[4] == q[4] && p[5] == q[5] && p[6] == q[6] && p[7] == q[7];
    WideFits(x);
    WideFits(y);
    SameBitsSameWord(Wide(x), Wide(y));
    WideInjective(x, y);
  }

  lemma {:induction false} AllBitsLength(a: seq<byte>)
    ensures |AllBits(a)| == 8 * |a|
  {
    if a != [] {
      AllBitsLength(a[1..]);
    }
  }

  lemma {:induction false} AllBitsInjective(a: seq<byte>, b: seq<byte>)
    requires |a| == |b| && AllBits(a) == AllBits(b)
    ensures a == b
  {
    if a != [] {
      var x, y := AllBits(a), AllBits(b);
      assert x[..8] == BitsOf(a[0]) && x[8..] == AllBits(a[1..]);
      assert y[..8] == BitsOf(b[0]) && y[8..] == AllBits(b[1..]);
      BitsInjective(a[0], b[0]);
      AllBitsInjective(a[1..], b[1..]);
      assert a == [a[0]] + a[1..] && b == [b[0]] + b[1..];
    }
  }

  /** The byte window from `s` to `e` of two blocks that agree elsewhere is a burst of bits. */
  lemma FourBytesInBlock(a: seq<byte>, b: seq<byte>, s: nat, e: nat)
    requires |a| == |b| && s <= e <= |a| && e - s <= 4 && a != b
    requires a[..s] == b[..s] && a[e..] == b[e..]
    ensures Checksum(a) != Checksum(b)
  {
    var x, y := a[s..e], b[s..e];
    assert a == a[..s] + x + a[e..] && b == a[..s] + y + a[e..];
    AllBitsAppend(a[..s] + x, a[e..]);
    AllBitsAppend(a[..s] + y, a[e..]);
    AllBitsAppend(a[..s], x);
    AllBitsAppend(a[..s], y);
    AllBitsLength(x);
    AllBitsLength(y);
    if AllBits(x) == AllBits(y) {
      AllBitsInjective(x, y);
    }
    BurstInBlock(a, b, AllBits(a[..s]), AllBits(x), AllBits(y), AllBits(a[e..]));
  }

  // ---- images

  /** Of equal length, and different only from `lo` up to `hi`. */
  predicate DifferWithin(a: seq<byte>, b: seq<byte>, lo: int, hi: int) {
    |a| == |b| && forall i :: 0 <= i < |a| && a[i] != b[i] ==> lo <= i < hi
  }

  /** All differences between `a` and `b` lie in block `k`, within the four bytes from `p` on. */
  ghost predicate FourBytesDiffer(a: seq<byte>, b: seq<byte>, bs: nat, k: nat, p: int)
    requires bs >= 1
  {
    DifferWithin(a, b, p, p + 4) && DifferWithin(a, b, k * bs, k * bs + bs)
  }

  lemma XorCancelLeft(c: bv32, x: bv32, y: bv32)
    requires x != y
    ensures c ^ x != c ^ y
  {
  }

  lemma XorCancelRight(c: bv32, x: bv32, y: bv32)
    requires x != y
    ensures x ^ c != y ^ c
  {
  }

  /** Differences confined to the first block. */
  lemma FirstBlockDamaged(a: seq<byte>, b: seq<byte>, bs: nat, p: int)
    requires bs >= 1 && FourBytesDiffer(a, b, bs, 0, p) && a != b
    ensures XorCrc(a, bs) != XorCrc(b, bs)
  {
    var n := Min(bs, |a|);
    var u, v := a[..n], b[..n];
    assert a[n..] == b[n..];
    assert u != v by {
      assert a == u + a[n..] && b == v + b[n..];
    }
    var s := if p < 0 then 0 else Min(p, n);
    var e := if p + 4 < s then s else Min(p + 4, n);
    assert u[..s] == v[..s] && u[e..] == v[e..];
    FourBytesInBlock(u, v, s, e);
    FirstChecksumTells(a, b, bs, u, v);
  }

  lemma FirstChecksumTells(a: seq<byte>, b: seq<byte>, bs: nat, u: seq<byte>, v: seq<byte>)
    requires bs >= 1 && |a| == |b| && u == a[..Min(bs, |a|)] && v == b[..Min(bs, |b|)]
    requires a[Min(bs, |a|)..] == b[Min(bs, |b|)..] && Checksum(u) != Checksum(v)
    ensures XorCrc(a, bs) != XorCrc(b, bs)
  {
    if |a| <= bs {
      assert u == a && v == b;
    } else {
      XorCancelRight(XorCrc(a[bs..], bs), Checksum(u), Checksum(v));
    }
  }

  lemma DifferBehind(a: seq<byte>, b: seq<byte>, lo: int, hi: int, n: nat)
    requires DifferWithin(a, b, lo, hi) && n <= |a|
    ensures DifferWithin(a[n..], b[n..], lo - n, hi - n)
  {
    var a', b' := a[n..], b[n..];
    assert forall i :: 0 <= i < |a'| ==> a'[i] == a[i + n] && b'[i] == b[i + n];
  }

  lemma SameBefore(a: seq<byte>, b: seq<byte>, lo: int, hi: int, n: nat)
    requires DifferWithin(a, b, lo, hi) && n <= lo && a != b
    ensures n < |a| && a[..n] == b[..n] && a[n..] != b[n..]
  {
    var d :| 0 <= d < |a| && a[d] != b[d];
    assert a[n..][d - n] == a[d] && b[n..][d - n] == b[d];
  }

  /** Differences beyond the first block are differences of the rest, one block earlier. */
  lemma BehindFirstBlock(a: seq<byte>, b: seq<byte>, bs: nat, k: nat, p: int)
    requires bs >= 1 && k >= 1 && FourBytesDiffer(a, b, bs, k, p) && a != b
    ensures |a| > bs && a[..bs] == b[..bs] && a[bs..] != b[bs..]
    ensures FourBytesDiffer(a[bs..], b[bs..], bs, k - 1, p - bs)
  {
    var start := k * bs;
    assert start == (k - 1) * bs + bs;
    assert (k - 1) * bs >= 0;
    SameBefore(a, b, start, start + bs, bs);
    DifferBehind(a, b, start, start + bs, bs);
    DifferBehind(a, b, p, p + 4, bs);
  }

  /**
   Two images of the same length that differ, but only within four consecutive bytes of one block,
   never have the same checksum, whatever the block size.
   */
  lemma {:induction false} DamageIsDetected(a: seq<byte>, b: seq<byte>, bs: nat, k: nat, p: int)
    requires bs >= 1 && FourBytesDiffer(a, b, bs, k, p) && a != b
    ensures XorCrc(a, bs) != XorCrc(b, bs)
    decreases k
  {
    if k == 0 {
      FirstBlockDamaged(a, b, bs, p);
    } else {
      BehindFirstBlock(a, b, bs, k, p);
      DamageIsDetected(a[bs..], b[bs..], bs, k - 1, p - bs);
      XorCancelLeft(Checksum(a[..bs]), XorCrc(a[bs..], bs), XorCrc(b[bs..], bs));
    }
  }
}
