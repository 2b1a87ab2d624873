/** The firmware argument block of a MIPS kernel, and what the kernel reads out of it. */
module BootArgs {
  import opened Basics
  import Text
  import Utf8
  import opened Mips
  import opened Trampoline

  const STRINGS: nat := 16
  const ENVP: nat := 12
  /** "linux" and a NUL. */
  const LINUX: seq<byte> := [0x6C, 0x69, 0x6E, 0x75, 0x78, 0]

  datatype FwArgs = FwArgs(blob: seq<byte>, argc: nat, argv: int, envp: int, promvec: int)

  function CommandLine(cmdline: string): seq<byte> {
    Utf8.Encode(cmdline) + [0]
  }

  function Pointer(p: int): seq<byte>
    requires 0 <= p < TWO_32
  {
    LittleEndian(p)
  }

  predicate PointersFit(base: int) {
    0 <= base + STRINGS && base + STRINGS + |LINUX| < TWO_32
  }

  /** Two pointers, the terminator of `argv`, an empty `envp`, and the two strings. */
  function Block(base: int, cmdline: string): seq<byte>
    requires PointersFit(base)
  {
    Pointer(base + STRINGS) + Pointer(base + STRINGS + |LINUX|) + LittleEndian(0) + LittleEndian(0)
    + LINUX + CommandLine(cmdline)
  }

  lemma SpliceOver(front: seq<byte>, was: seq<byte>, rest: seq<byte>, part: seq<byte>)
    requires |part| == |was|
    ensures Splice(front + (was + rest), |front|, part) == front + (part + rest)
  {
  }

  /** Storing one word of the table: the words before it stay, the zeros behind it are next. */
  lemma WordStored(b: seq<byte>, front: seq<byte>, part: seq<byte>, rest: seq<byte>, at: nat)
    requires |part| == 4 && b == front + (Zeros(4) + rest) && at == |front|
    ensures Splice(b, at, part) == (front + part) + rest
  {
    SpliceOver(front, Zeros(4), rest, part);
    Associative(front, part, rest);
  }

  /** Storing the four words of the table in front of the strings, one by one. */
  lemma TableStored(p0: seq<byte>, p1: seq<byte>, z: seq<byte>, strings: seq<byte>, b: seq<byte>)
    requires |p0| == 4 && |p1| == 4 && |z| == 4 && b == Zeros(STRINGS) + strings
    ensures Splice(Splice(Splice(Splice(b, 0, p0), 4, p1), 8, z), 12, z) == p0 + p1 + z + z + strings
  {
    var o := Zeros(4);
    var r2 := o + strings;
    var r1 := o + r2;
    var r0 := o + r1;
    assert b == [] + (o + r0);
    WordStored(b, [], p0, r0, 0);
    var b1 := Splice(b, 0, p0);
    assert [] + p0 == p0;
    WordStored(b1, p0, p1, r1, 4);
    var b2 := Splice(b1, 4, p1);
    WordStored(b2, p0 + p1, z, r2, 8);
    var b3 := Splice(b2, 8, z);
    WordStored(b3, p0 + p1 + z, z, strings, 12);
  }

  lemma StringsStored(linux: seq<byte>, text: seq<byte>, b: seq<byte>)
    requires b == Zeros(STRINGS + |linux| + |text|)
    ensures Splice(Splice(b, STRINGS, linux), STRINGS + |linux|, text) == Zeros(STRINGS) + (linux + text)
  {
    var o, x, y := Zeros(STRINGS), Zeros(|linux|), Zeros(|text|);
    assert b == o + (x + y);
    SpliceOver(o, x, y, linux);
    assert o + (linux + y) == (o + linux) + (y + []);
    SpliceOver(o + linux, y, [], text);
    assert (o + linux) + (text + []) == o + (linux + text);
  }

  /** A block address whose pointers do not fit into 32 bits cannot be packed. */
  method Build(base: int, cmdline: string) returns (r: Option<FwArgs>)
    ensures r.Some? <==> PointersFit(base)
    ensures r.Some? ==> r.value.blob == Block(base, cmdline) && r.value.argc == 2
                        && r.value.argv == base && r.value.envp == base + ENVP && r.value.promvec == 0
  {
    var text := CommandLine(cmdline);
    var blob := new byte[STRINGS + |LINUX| + |text|](_ => 0);
    assert blob[..] == Zeros(STRINGS + |LINUX| + |text|);
    StringsStored(LINUX, text, blob[..]);
    CopyInto(blob, STRINGS, LINUX);
    CopyInto(blob, STRINGS + |LINUX|, text);
    if !PointersFit(base) {
      return None;
    }
    var p0, p1, zero := Pointer(base + STRINGS), Pointer(base + STRINGS + |LINUX|), LittleEndian(0);
    TableStored(p0, p1, zero, LINUX + text, blob[..]);
    CopyInto(blob, 0, p0);
    CopyInto(blob, 4, p1);
    CopyInto(blob, 8, zero);
    CopyInto(blob, ENVP, zero);
    Associative(p0 + p1 + zero + zero, LINUX, text);
    r := Some(FwArgs(blob[..], 2, base, base + ENVP, 0));
  }

  // ---- the kernel's view

  /** The bytes from an address up to the first NUL. */
  function CString(s: seq<byte>): seq<byte> {
    s[..Text.IndexOf(s, 0)]
  }

  lemma {:induction false} IndexOfAtMost(s: seq<byte>, c: byte, j: nat)
    requires j < |s| && s[j] == c
    ensures Text.IndexOf(s, c) <= j
    decreases j
  {
    if s[0] != c {
      IndexOfAtMost(s[1..], c, j - 1);
    }
  }

  predicate NulFree(s: seq<byte>) {
    0 !in s
  }

  /** A string is read up to its first NUL: all of it exactly when it has none. */
  lemma CStringOf(text: seq<byte>, rest: seq<byte>)
    ensures CString(text + [0] + rest) == text <==> NulFree(text)
    ensures CString(text + [0] + rest) <= text
    ensures NulFree(CString(text + [0] + rest))
  {
    var s := text + [0] + rest;
    var k := Text.IndexOf(s, 0);
    Text.IndexOfIsFirst(s, 0);
    assert s[|text|] == 0;
    IndexOfAtMost(s, 0, |text|);
    assert s[..k] == text[..k];
    if NulFree(text) {
      Text.IndexOfAfter(text, 0, rest);
    }
  }

  /** What a kernel finds in the block when it follows the pointers. */
  ghost predicate ReadsArguments(mem: Memory, argv: int, envp: int, line: seq<byte>) {
    && WordAt(mem, argv) == Some(argv + STRINGS) && WordAt(mem, argv + 4) == Some(argv + STRINGS + |LINUX|)
    && WordAt(mem, argv + 8) == Some(0) && WordAt(mem, envp) == Some(0)
    && RAM_BASE <= argv + STRINGS <= argv + STRINGS + |LINUX| <= RAM_END
    && CString(mem[argv + STRINGS - RAM_BASE..]) == [0x6C, 0x69, 0x6E, 0x75, 0x78]
    && CString(mem[argv + STRINGS + |LINUX| - RAM_BASE..]) == line
  }

  lemma HoldsThrough(mem: Memory, at: int, data: seq<byte>)
    requires Holds(mem, at, data)
    ensures mem[at - RAM_BASE..] == data + mem[at - RAM_BASE + |data|..]
  {
  }

  lemma HeldWord(mem: Memory, at: int, b: seq<byte>, w: nat)
    requires |b| == 4 && Holds(mem, at, b) && WordOf(b) == w
    ensures WordAt(mem, at) == Some(w)
  {
  }

  lemma HeldString(mem: Memory, at: int, text: seq<byte>)
    requires Holds(mem, at, text + [0])
    ensures CString(mem[at - RAM_BASE..]) == CString(text + [0])
    ensures CString(text + [0]) == text <==> NulFree(text)
  {
    var rest := mem[at - RAM_BASE + |text + [0]|..];
    HoldsThrough(mem, at, text + [0]);
    CStringOf(text, rest);
    CStringOf(text, []);
    assert text + [0] + [] == text + [0];
    CStringPrefix(text + [0], rest);
  }

  lemma CStringPrefix(s: seq<byte>, rest: seq<byte>)
    requires 0 in s
    ensures CString(s + rest) == CString(s)
  {
    var k := Text.IndexOf(s, 0);
    Text.IndexOfIsFirst(s, 0);
    var j :| 0 <= j < |s| && s[j] == 0;
    IndexOfAtMost(s, 0, j);
    assert (s + rest)[..k] == s[..k];
    Text.IndexOfUnique(s + rest, 0, k);
  }

  lemma LinuxIsRead(mem: Memory, at: int)
    requires Holds(mem, at, LINUX)
    ensures CString(mem[at - RAM_BASE..]) == [0x6C, 0x69, 0x6E, 0x75, 0x78]
  {
    var name: seq<byte> := LINUX[..5];
    assert name + [0] == LINUX;
    HeldString(mem, at, name);
  }

  lemma TableIsRead(mem: Memory, base: int, p0: seq<byte>, p1: seq<byte>, z: seq<byte>)
    requires PointersFit(base) && |p0| == 4 && |p1| == 4 && |z| == 4
    requires WordOf(p0) == base + STRINGS && WordOf(p1) == base + STRINGS + |LINUX| && WordOf(z) == 0
    requires Holds(mem, base, p0) && Holds(mem, base + 4, p1) && Holds(mem, base + 8, z) && Holds(mem, base + ENVP, z)
    ensures WordAt(mem, base) == Some(base + STRINGS) && WordAt(mem, base + 4) == Some(base + STRINGS + |LINUX|)
    ensures WordAt(mem, base + 8) == Some(0) && WordAt(mem, base + ENVP) == Some(0)
  {
    HeldWord(mem, base, p0, base + STRINGS);
    HeldWord(mem, base + 4, p1, base + STRINGS + |LINUX|);
    HeldWord(mem, base + 8, z, 0);
    HeldWord(mem, base + ENVP, z, 0);
  }

  /** The kernel reads "linux" and the command line up to its first NUL, all of it if it has none. */
  lemma BlockIsRead(mem: Memory, base: int, envp: int, cmdline: string, line: seq<byte>)
    requires PointersFit(base) && Holds(mem, base, Block(base, cmdline)) && envp == base + ENVP && line == Utf8.Encode(cmdline)
    ensures ReadsArguments(mem, base, envp, CString(line + [0]))
    ensures CString(line + [0]) == line <==> NulFree(line)
  {
    PointersAreRead(base);
    var p0, p1, z := Pointer(base + STRINGS), Pointer(base + STRINGS + |LINUX|), LittleEndian(0);
    assert Block(base, cmdline) == p0 + p1 + z + z + LINUX + (line + [0]);
    PartsAreRead(mem, base, envp, p0, p1, z, p0 + p1 + z + z, line);
  }

  lemma PointersAreRead(base: int)
    requires PointersFit(base)
    ensures WordOf(Pointer(base + STRINGS)) == base + STRINGS && WordOf(LittleEndian(0)) == 0
    ensures WordOf(Pointer(base + STRINGS + |LINUX|)) == base + STRINGS + |LINUX|
  {
    WordOfLittleEndian(base + STRINGS);
    WordOfLittleEndian(base + STRINGS + |LINUX|);
    WordOfLittleEndian(0);
  }

  lemma PartsAreRead(mem: Memory, base: int, envp: int, p0: seq<byte>, p1: seq<byte>, z: seq<byte>, table: seq<byte>, line: seq<byte>)
    requires PointersFit(base) && envp == base + ENVP && |p0| == 4 && |p1| == 4 && |z| == 4
    requires WordOf(p0) == base + STRINGS && WordOf(p1) == base + STRINGS + |LINUX| && WordOf(z) == 0
    requires table == p0 + p1 + z + z && Holds(mem, base, table + LINUX + (line + [0]))
    ensures ReadsArguments(mem, base, envp, CString(line + [0]))
    ensures CString(line + [0]) == line <==> NulFree(line)
  {
    Associative(table, LINUX, line + [0]);
    TableOfBlock(mem, base, p0, p1, z, LINUX + (line + [0]), table + LINUX + (line + [0]));
    var at, next := base + STRINGS, base + STRINGS + |LINUX|;
    StringsOfBlock(mem, base, table, line, at, next);
    StringsAreRead(mem, at, next, line);
    ReadThrough(mem, base, envp, at, next, CString(line + [0]));
  }

  lemma ReadThrough(mem: Memory, base: int, envp: int, at: int, next: int, line: seq<byte>)
    requires WordAt(mem, base) == Some(at) && WordAt(mem, base + 4) == Some(next)
    requires WordAt(mem, base + 8) == Some(0) && WordAt(mem, envp) == Some(0)
    requires envp == base + ENVP && at == base + STRINGS && next == at + |LINUX| && RAM_BASE <= at <= next <= RAM_END
    requires CString(mem[at - RAM_BASE..]) == [0x6C, 0x69, 0x6E, 0x75, 0x78] && CString(mem[next - RAM_BASE..]) == line
    ensures ReadsArguments(mem, base, envp, line)
  {
  }

  lemma TableOfBlock(mem: Memory, base: int, p0: seq<byte>, p1: seq<byte>, z: seq<byte>, strings: seq<byte>, all: seq<byte>)
    requires PointersFit(base) && |p0| == 4 && |p1| == 4 && |z| == 4
    requires WordOf(p0) == base + STRINGS && WordOf(p1) == base + STRINGS + |LINUX| && WordOf(z) == 0
    requires all == p0 + p1 + z + z + strings && Holds(mem, base, all)
    ensures WordAt(mem, base) == Some(base + STRINGS) && WordAt(mem, base + 4) == Some(base + STRINGS + |LINUX|)
    ensures WordAt(mem, base + 8) == Some(0) && WordAt(mem, base + ENVP) == Some(0)
  {
    BlockParts(mem, base, p0, p1, z, strings);
    TableIsRead(mem, base, p0, p1, z);
  }

  lemma StringsOfBlock(mem: Memory, base: int, table: seq<byte>, line: seq<byte>, at: int, next: int)
    requires |table| == STRINGS && Holds(mem, base, table + LINUX + (line + [0])) && at == base + STRINGS && next == at + |LINUX|
    ensures RAM_BASE <= at <= next <= RAM_END && Holds(mem, at, LINUX) && Holds(mem, next, line + [0])
  {
    StringsOfParts(mem, base, table, LINUX, line + [0]);
  }

  lemma StringsOfParts(mem: Memory, base: int, table: seq<byte>, first: seq<byte>, second: seq<byte>)
    requires Holds(mem, base, table + first + second)
    ensures Holds(mem, base + |table|, first) && Holds(mem, base + |table| + |first|, second)
  {
    HoldsSplit(mem, base, table + first, second);
    HoldsSplit(mem, base, table, first);
  }

  lemma StringsAreRead(mem: Memory, at: int, next: int, line: seq<byte>)
    requires Holds(mem, at, LINUX) && Holds(mem, next, line + [0])
    ensures CString(mem[at - RAM_BASE..]) == [0x6C, 0x69, 0x6E, 0x75, 0x78]
    ensures CString(mem[next - RAM_BASE..]) == CString(line + [0])
    ensures CString(line + [0]) == line <==> NulFree(line)
  {
    LinuxIsRead(mem, at);
    HeldString(mem, next, line);
  }

  lemma BlockParts(mem: Memory, base: int, p0: seq<byte>, p1: seq<byte>, z: seq<byte>, strings: seq<byte>)
    requires |p0| == 4 && |p1| == 4 && |z| == 4 && Holds(mem, base, p0 + p1 + z + z + strings)
    ensures Holds(mem, base, p0) && Holds(mem, base + 4, p1) && Holds(mem, base + 8, z) && Holds(mem, base + 12, z)
  {
    HoldsSplit(mem, base, p0 + p1 + z + z, strings);
    HoldsSplit(mem, base, p0 + p1 + z, z);
    HoldsSplit(mem, base, p0 + p1, z);
    HoldsSplit(mem, base, p0, p1);
  }
}
