/** The shift register of the POSIX cksum CRC (IEEE Std 1003.1, the cksum utility), and its table. */
module Crc {
  import opened Basics
  import opened Lfsr

  /** The generator x^32 + x^26 + x^23 + ... + 1 without its leading term. */
  const POLY: bv32 := 0x04C1_1DB7
  const TOP: bv32 := 0x8000_0000

  // ---- the register: 32 bits, divided by the generator

  function Xor(a: bv32, b: bv32): bv32 {
    a ^ b
  }

  /** Multiplication by x, modulo the generator. */
  function TimesX(r: bv32): bv32 {
    if r & TOP != 0 then (r << 1) ^ POLY else r << 1
  }

  /** x^k, for k up to 31. */
  function Pow(k: nat): bv32 {
    if k == 0 then 1 else Pow(k - 1) << 1
  }

  /** x^(31 - i). */
  function Mono(i: nat): bv32 {
    if i <= 31 then Pow(31 - i) else 0
  }

  predicate Low(a: bv32) {
    a & TOP == 0
  }

  const REG: Register<bv32> := Register(32, 0, Xor, TimesX, Mono, Low)

  lemma AddBothTops(a: bv32, b: bv32)
    requires a & TOP != 0 && b & TOP != 0
    ensures TimesX(a ^ b) == TimesX(a) ^ TimesX(b)
  {
    assert (a ^ b) & TOP == 0;
    assert (a ^ b) << 1 == ((a << 1) ^ POLY) ^ ((b << 1) ^ POLY);
  }

  lemma AddLeftTop(a: bv32, b: bv32)
    requires a & TOP != 0 && b & TOP == 0
    ensures TimesX(a ^ b) == TimesX(a) ^ TimesX(b)
  {
    assert (a ^ b) & TOP != 0;
    assert ((a ^ b) << 1) ^ POLY == ((a << 1) ^ POLY) ^ (b << 1);
  }

  lemma AddRightTop(a: bv32, b: bv32)
    requires a & TOP == 0 && b & TOP != 0
    ensures TimesX(a ^ b) == TimesX(a) ^ TimesX(b)
  {
    assert (a ^ b) & TOP != 0;
    assert ((a ^ b) << 1) ^ POLY == (a << 1) ^ ((b << 1) ^ POLY);
  }

  lemma AddNoTop(a: bv32, b: bv32)
    requires a & TOP == 0 && b & TOP == 0
    ensures TimesX(a ^ b) == TimesX(a) ^ TimesX(b)
  {
    assert (a ^ b) & TOP == 0;
    assert (a ^ b) << 1 == (a << 1) ^ (b << 1);
  }

  lemma TimesXAdditive(a: bv32, b: bv32)
    ensures TimesX(a ^ b) == TimesX(a) ^ TimesX(b)
  {
    if a & TOP != 0 {
      if b & TOP != 0 { AddBothTops(a, b); } else { AddLeftTop(a, b); }
    } else {
      if b & TOP != 0 { AddRightTop(a, b); } else { AddNoTop(a, b); }
    }
  }

  /** The generator has a constant term, so nothing but zero is mapped to zero. */
  lemma TimesXKernel(a: bv32)
    requires TimesX(a) == 0
    ensures a == 0
  {
  }

  lemma LowPows0()
    ensures Low(Pow(0)) && Low(Pow(1)) && Low(Pow(2)) && Low(Pow(3)) && Low(Pow(4))
    ensures Low(Pow(5)) && Low(Pow(6)) && Low(Pow(7)) && Low(Pow(8)) && Low(Pow(9))
    ensures Low(Pow(10)) && Low(Pow(11)) && Low(Pow(12)) && Low(Pow(13)) && Low(Pow(14))
    ensures Low(Pow(15))
  {
  }

  lemma LowPows1()
    ensures Low(Pow(16)) && Low(Pow(17)) && Low(Pow(18)) && Low(Pow(19)) && Low(Pow(20))
    ensures Low(Pow(21)) && Low(Pow(22)) && Low(Pow(23)) && Low(Pow(24)) && Low(Pow(25))
    ensures Low(Pow(26)) && Low(Pow(27)) && Low(Pow(28)) && Low(Pow(29)) && Low(Pow(30))
  {
    Pow16();
    assert Pow(20) == 0x10_0000 && Pow(24) == 0x100_0000 && Pow(28) == 0x1000_0000;
  }

  lemma Pow16()
    ensures Pow(16) == 0x1_0000
  {
    assert Pow(4) == 16 && Pow(8) == 256 && Pow(12) == 4096;
  }

  lemma TopPow()
    ensures Pow(31) == TOP
  {
    Pow16();
    assert Pow(20) == 0x10_0000 && Pow(24) == 0x100_0000 && Pow(28) == 0x1000_0000;
  }

  lemma LowPow(k: nat)
    requires k <= 30
    ensures Low(Pow(k))
  {
    if k < 16 {
      LowPows0();
    } else {
      LowPows1();
    }
  }

  /** Below the top, multiplication by x is a plain shift. */
  lemma MonoRises(i: nat, m: bv32, n: bv32)
    requires 0 < i < 32 && m == Mono(i) && n == Mono(i - 1)
    ensures TimesX(m) == n && Low(m)
  {
    MonoIsLow(i);
    MonoShifts(i);
    LowShifts(m);
  }

  lemma MonoIsLow(i: nat)
    requires 0 < i < 32
    ensures Low(Mono(i))
  {
    LowPow(31 - i);
  }

  lemma MonoShifts(i: nat)
    requires 0 < i < 32
    ensures Mono(i - 1) == Mono(i) << 1
  {
  }

  lemma LowShifts(p: bv32)
    requires Low(p)
    ensures TimesX(p) == p << 1
  {
  }

  lemma LowSum(a: bv32, b: bv32)
    requires Low(a) && Low(b)
    ensures Low(a ^ b)
  {
  }

  lemma PlusIsXor(a: bv32, b: bv32)
    ensures REG.plus(a, b) == a ^ b
  {
  }

  lemma PlusAssociative()
    ensures forall a, b, c :: REG.plus(REG.plus(a, b), c) == REG.plus(a, REG.plus(b, c))
  {
    forall a, b, c ensures REG.plus(REG.plus(a, b), c) == REG.plus(a, REG.plus(b, c)) {
      PlusIsXor(a, b);
      PlusIsXor(b, c);
      PlusIsXor(a ^ b, c);
      PlusIsXor(a, b ^ c);
    }
  }

  lemma PlusZero()
    ensures forall a :: REG.plus(a, REG.zero) == a && REG.plus(REG.zero, a) == a
  {
    forall a ensures REG.plus(a, REG.zero) == a && REG.plus(REG.zero, a) == a {
      PlusIsXor(a, 0);
      PlusIsXor(0, a);
    }
  }

  lemma PlusSelf()
    ensures forall a :: REG.plus(a, a) == REG.zero
  {
    forall a ensures REG.plus(a, a) == REG.zero {
      PlusIsXor(a, a);
    }
  }

  lemma TimesXIsLinear()
    ensures IsLinear(REG)
  {
    forall a, b ensures REG.step(REG.plus(a, b)) == REG.plus(REG.step(a), REG.step(b)) {
      PlusIsXor(a, b);
      PlusIsXor(TimesX(a), TimesX(b));
      TimesXAdditive(a, b);
    }
    forall a | REG.step(a) == REG.zero ensures a == REG.zero {
      TimesXKernel(a);
    }
  }

  lemma MonoIsMonomial()
    ensures HasMonomials(REG)
  {
    forall i: nat | 0 < i < 32 ensures REG.step(REG.mono(i)) == REG.mono(i - 1) && REG.low(REG.mono(i)) {
      MonoRises(i, Mono(i), Mono(i - 1));
    }
    forall a, b | REG.low(a) && REG.low(b) ensures REG.low(REG.plus(a, b)) {
      PlusIsXor(a, b);
      LowSum(a, b);
    }
    TopPow();
  }

  lemma RegisterIsLawful()
    ensures Lawful(REG)
  {
    PlusAssociative();
    PlusZero();
    PlusSelf();
    TimesXIsLinear();
    MonoIsMonomial();
  }

  // ---- bytes

  /** A byte as the low bits of a word. */
  function Wide(b: byte): bv32 {
    b as bv8 as bv32
  }

  /** The bits of a byte, highest first. */
  function BitsOf(b: byte): (bits: seq<bool>)
    ensures |bits| == 8
  {
    var v := Wide(b);
    [v & 0x80 != 0, v & 0x40 != 0, v & 0x20 != 0, v & 0x10 != 0, v & 8 != 0, v & 4 != 0, v & 2 != 0, v & 1 != 0]
  }

  /** Eight, the length of what `BitsOf` returns: what is proved of a byte's steps holds for any number of them. */
  function OctetBits(): nat {
    |[false, false, false, false, false, false, false, false]|
  }

  function AllBits(data: seq<byte>): seq<bool> {
    if data == [] then [] else BitsOf(data[0]) + AllBits(data[1..])
  }

  lemma MonoValues()
    ensures Mono(0) == 0x8000_0000 && Mono(1) == 0x4000_0000 && Mono(2) == 0x2000_0000 && Mono(3) == 0x1000_0000
    ensures Mono(4) == 0x0800_0000 && Mono(5) == 0x0400_0000 && Mono(6) == 0x0200_0000 && Mono(7) == 0x0100_0000
  {
    Pow16();
    assert Pow(20) == 0x10_0000 && Pow(24) == 0x100_0000 && Pow(28) == 0x1000_0000;
  }

  lemma WideFits(b: byte)
    ensures Wide(b) & 0xFFFF_FF00 == 0
  {
  }

  lemma BitJoins(v: bv32, bit: bv32, lower: bv32)
    requires lower & bit == 0 && (v & bit == 0 || v & bit == bit)
    ensures (if v & bit != 0 then bit << 24 else 0) ^ ((v & lower) << 24) == (v & (lower | bit)) << 24
  {
  }

  /** One more bit of `v`, above those that `lower` selects, as register contents. */
  lemma WordOfBit(v: bv32, i: nat, bit: bv32, lower: bv32, rest: seq<bool>, m: bv32)
    requires REG.Word(i + 1, rest) == (v & lower) << 24 && Mono(i) == m == bit << 24
    requires lower & bit == 0 && (v & bit == 0 || v & bit == bit)
    ensures REG.Word(i, [v & bit != 0] + rest) == (v & (lower | bit)) << 24
  {
    WordCons(REG, i, v & bit != 0, rest);
    PlusIsXor(REG.If(v & bit != 0, m), (v & lower) << 24);
    BitJoins(v, bit, lower);
  }

  function LowBits(v: bv32): seq<bool> {
    [v & 8 != 0] + ([v & 4 != 0] + ([v & 2 != 0] + ([v & 1 != 0] + [])))
  }

  lemma WordOfLowBits(v: bv32)
    ensures REG.Word(4, LowBits(v)) == (v & 0x0F) << 24
  {
    MonoValues();
    WordOfBit(v, 7, 1, 0, [], 0x0100_0000);
    WordOfBit(v, 6, 2, 1, [v & 1 != 0] + [], 0x0200_0000);
    WordOfBit(v, 5, 4, 3, [v & 2 != 0] + ([v & 1 != 0] + []), 0x0400_0000);
    WordOfBit(v, 4, 8, 7, [v & 4 != 0] + ([v & 2 != 0] + ([v & 1 != 0] + [])), 0x0800_0000);
  }

  lemma WordOfMiddleBits(v: bv32, low: seq<bool>)
    requires REG.Word(4, low) == (v & 0x0F) << 24
    ensures REG.Word(2, [v & 0x20 != 0] + ([v & 0x10 != 0] + low)) == (v & 0x3F) << 24
  {
    MonoValues();
    WordOfBit(v, 3, 0x10, 0x0F, low, 0x1000_0000);
    WordOfBit(v, 2, 0x20, 0x1F, [v & 0x10 != 0] + low, 0x2000_0000);
  }

  lemma WordOfHighBits(v: bv32, low: seq<bool>)
    requires REG.Word(2, low) == (v & 0x3F) << 24
    ensures REG.Word(0, [v & 0x80 != 0] + ([v & 0x40 != 0] + low)) == (v & 0xFF) << 24
  {
    MonoValues();
    WordOfBit(v, 1, 0x40, 0x3F, low, 0x4000_0000);
    WordOfBit(v, 0, 0x80, 0x7F, [v & 0x40 != 0] + low, 0x8000_0000);
  }

  lemma OneByOne(a: bool, b: bool, c: bool, d: bool, rest: seq<bool>)
    ensures [a, b, c, d] + rest == [a] + ([b] + ([c] + ([d] + rest)))
  {
  }

  lemma FourAndFour(a: bool, b: bool, c: bool, d: bool, e: bool, f: bool, g: bool, h: bool)
    ensures [a, b, c, d, e, f, g, h] == [a, b, c, d] + ([e, f, g, h] + [])
  {
  }

  lemma WordOfBits(v: bv32, bits: seq<bool>)
    requires v & 0xFFFF_FF00 == 0
    requires bits == [v & 0x80 != 0, v & 0x40 != 0, v & 0x20 != 0, v & 0x10 != 0, v & 8 != 0, v & 4 != 0, v & 2 != 0, v & 1 != 0]
    ensures REG.Word(0, bits) == v << 24
  {
    var low := LowBits(v);
    WordOfLowBits(v);
    WordOfMiddleBits(v, low);
    WordOfHighBits(v, [v & 0x20 != 0] + ([v & 0x10 != 0] + low));
    FourAndFour(v & 0x80 != 0, v & 0x40 != 0, v & 0x20 != 0, v & 0x10 != 0, v & 8 != 0, v & 4 != 0, v & 2 != 0, v & 1 != 0);
    OneByOne(v & 8 != 0, v & 4 != 0, v & 2 != 0, v & 1 != 0, []);
    OneByOne(v & 0x80 != 0, v & 0x40 != 0, v & 0x20 != 0, v & 0x10 != 0, low);
    LowByteOnly(v);
  }

  lemma LowByteOnly(v: bv32)
    requires v & 0xFFFF_FF00 == 0
    ensures v & 0xFF == v
  {
  }

  /** The bits of a byte, as register contents, are the byte in the top position. */
  lemma WordOfByte(b: byte)
    ensures REG.Word(0, BitsOf(b)) == Wide(b) << 24
  {
    WideFits(b);
    WordOfBits(Wide(b), BitsOf(b));
  }

  // ---- a byte at a time

  /** What eight steps make of a byte in the top position: the entry of the table. */
  function TableEntry(i: bv32): bv32 {
    REG.Steps(i << 24, OctetBits())
  }

  lemma PlainStep(x: bv32, n: nat)
    requires x & TOP == 0
    ensures REG.Steps(x, n + 1) == REG.Steps(x << 1, n)
  {
  }

  lemma ShiftTwice(x: bv32)
    ensures (x << 1) << 1 == x << 2 && (x << 2) << 2 == x << 4 && (x << 4) << 4 == x << 8
  {
  }

  lemma TwoPlainSteps(x: bv32, n: nat)
    requires x & 0xC000_0000 == 0
    ensures REG.Steps(x, n + 2) == REG.Steps(x << 2, n)
  {
    assert x & TOP == 0 && (x << 1) & TOP == 0;
    PlainStep(x, n + 1);
    PlainStep(x << 1, n);
    ShiftTwice(x);
  }

  lemma FourPlainSteps(x: bv32, n: nat)
    requires x & 0xF000_0000 == 0
    ensures REG.Steps(x, n + 4) == REG.Steps(x << 4, n)
  {
    assert x & 0xC000_0000 == 0 && (x << 2) & 0xC000_0000 == 0;
    TwoPlainSteps(x, n + 2);
    TwoPlainSteps(x << 2, n);
    ShiftTwice(x);
  }

  /** With the top byte clear, eight steps are a plain shift. */
  lemma EightPlainSteps(x: bv32, n: nat)
    requires x & 0xFF00_0000 == 0
    ensures REG.Steps(x, n + 8) == REG.Steps(x << 8, n)
  {
    assert x & 0xF000_0000 == 0 && (x << 4) & 0xF000_0000 == 0;
    FourPlainSteps(x, n + 4);
    FourPlainSteps(x << 4, n);
    ShiftTwice(x);
  }

  lemma SplitTopByte(crc: bv32, w: bv32)
    ensures crc ^ (w << 24) == (crc & 0x00FF_FFFF) ^ (((crc >> 24) ^ w) << 24)
  {
  }

  lemma LowPart(crc: bv32)
    ensures (crc & 0x00FF_FFFF) & 0xFF00_0000 == 0 && (crc & 0x00FF_FFFF) << 8 == crc << 8
  {
  }

  lemma EnterOctet(crc: bv32, bits: seq<bool>, w: bv32, c: bv32, n: nat)
    requires |bits| == n == 8 && w == REG.Word(0, bits) && c == crc ^ w
    ensures REG.Enter(crc, bits) == REG.Steps(c, n)
  {
    RegisterIsLawful();
    EnterIsSteps(REG, crc, bits);
    PlusIsXor(crc, w);
  }

  lemma LowSteps(low: bv32, x: bv32, n: nat)
    requires low & 0xFF00_0000 == 0 && x == low << 8 && n == 8
    ensures REG.Steps(low, n) == x
  {
    EightPlainSteps(low, n - 8);
  }

  lemma LowValue(crc: bv32, low: bv32, x: bv32)
    requires low == crc & 0x00FF_FFFF && x == crc << 8
    ensures low & 0xFF00_0000 == 0 && x == low << 8
  {
    LowPart(crc);
  }

  lemma StepsOfSum(c: bv32, low: bv32, high: bv32, n: nat, x: bv32, y: bv32, z: bv32)
    requires REG.plus(low, high) == c && REG.plus(x, y) == z
    requires x == REG.Steps(low, n) && y == REG.Steps(high, n)
    ensures REG.Steps(c, n) == z
  {
    TimesXIsLinear();
    StepsAdditive(REG, low, high, n);
  }

  lemma SplitWord(crc: bv32, w: bv32, c: bv32, low: bv32, high: bv32)
    requires c == crc ^ (w << 24) && low == crc & 0x00FF_FFFF && high == ((crc >> 24) ^ w) << 24
    ensures c == low ^ high
  {
    SplitTopByte(crc, w);
  }

  lemma XorIsPlus(c: bv32, low: bv32, high: bv32)
    requires c == low ^ high
    ensures REG.plus(low, high) == c
  {
    PlusIsXor(low, high);
  }

  lemma SplitSteps(crc: bv32, w: bv32, c: bv32, low: bv32, high: bv32, n: nat, x: bv32, y: bv32, z: bv32)
    requires c == crc ^ (w << 24) && low == crc & 0x00FF_FFFF && high == ((crc >> 24) ^ w) << 24
    requires x == REG.Steps(low, n) && y == REG.Steps(high, n) && z == x ^ y
    ensures REG.Steps(c, n) == z
  {
    SplitWord(crc, w, c, low, high);
    XorIsPlus(c, low, high);
    XorIsPlus(z, x, y);
    StepsOfSum(c, low, high, n, x, y, z);
  }

  lemma EnterByTable(crc: bv32, bits: seq<bool>, w: bv32, c: bv32, low: bv32, high: bv32, n: nat, x: bv32, y: bv32, z: bv32)
    requires |bits| == n == 8 && REG.Word(0, bits) == w << 24
    requires c == crc ^ (w << 24) && low == crc & 0x00FF_FFFF && high == ((crc >> 24) ^ w) << 24
    requires x == crc << 8 && y == REG.Steps(high, n) && z == x ^ y
    ensures REG.Enter(crc, bits) == z
  {
    LowValue(crc, low, x);
    LowSteps(low, x, n);
    SplitSteps(crc, w, c, low, high, n, x, y, z);
    EnterOctet(crc, bits, w << 24, c, n);
  }

  lemma EntrySteps(i: bv32, high: bv32, n: nat)
    requires high == i << 24 && n == OctetBits()
    ensures TableEntry(i) == REG.Steps(high, n)
  {
  }

  lemma TableStepOfBits(crc: bv32, bits: seq<bool>, w: bv32, i: bv32, z: bv32)
    requires |bits| == 8 && REG.Word(0, bits) == w << 24
    requires i == (crc >> 24) ^ w && z == (crc << 8) ^ TableEntry(i)
    ensures REG.Enter(crc, bits) == z
  {
    var n, high := OctetBits(), i << 24;
    EntrySteps(i, high, n);
    EnterByTable(crc, bits, w, crc ^ (w << 24), crc & 0x00FF_FFFF, high, n, crc << 8, TableEntry(i), z);
  }

  /** One table look-up does the work of eight bits. */
  lemma TableStepIsEightBits(crc: bv32, b: byte)
    ensures REG.Enter(crc, BitsOf(b)) == (crc << 8) ^ TableEntry((crc >> 24) ^ Wide(b))
  {
    WordOfByte(b);
    var i := (crc >> 24) ^ Wide(b);
    TableStepOfBits(crc, BitsOf(b), Wide(b), i, (crc << 8) ^ TableEntry(i));
  }
}
