/** The code generator of the boot trampoline, and what the processor makes of its output. */
module Trampoline {
  import opened Basics
  import opened Bits
  import opened Mips

  const A0: nat := 4
  const A1: nat := 5
  const A2: nat := 6
  const A3: nat := 7
  const T9: nat := 25
  const TRAMPOLINE_SIZE := 48

  function LoadU32(reg: nat, value: int): seq<nat> {
    [LuiWord(reg, value / 0x1_0000 % 0x1_0000), OriWord(reg, reg, value % 0x1_0000)]
  }

  /** The instructions of a load. */
  function LoadCode(reg: nat, value: int): seq<Instruction> {
    [Lui(reg, value / 0x1_0000 % 0x1_0000), Ori(reg, reg, value % 0x1_0000)]
  }

  predicate AllProper(code: seq<Instruction>) {
    forall i :: 0 <= i < |code| ==> Proper(code[i])
  }

  function CodeBytes(code: seq<Instruction>): seq<byte>
    requires AllProper(code)
  {
    if code == [] then [] else LittleEndian(Encode(code[0])) + CodeBytes(code[1..])
  }

  lemma {:induction false} CodeBytesSnoc(code: seq<Instruction>, i: Instruction)
    requires AllProper(code) && Proper(i)
    ensures CodeBytes(code + [i]) == CodeBytes(code) + LittleEndian(Encode(i))
    ensures |CodeBytes(code)| == 4 * |code|
  {
    if code == [] {
      assert [i][1..] == [];
    } else {
      CodeBytesSnoc(code[1..], i);
      assert (code + [i])[1..] == code[1..] + [i];
      Associative(LittleEndian(Encode(code[0])), CodeBytes(code[1..]), LittleEndian(Encode(i)));
    }
  }

  /** The program: five loads, the jump, and the instruction in its delay slot. */
  function Program(entry: int, a0: int, a1: int, a2: int, a3: int): (code: seq<Instruction>)
    ensures |code| == 12 && AllProper(code)
  {
    LoadCode(A0, a0) + LoadCode(A1, a1) + LoadCode(A2, a2) + LoadCode(A3, a3) + LoadCode(T9, entry) + [Jr(T9), Nop]
  }

  /** The words are those of the instructions. */
  ghost predicate Encoded(words: seq<nat>, code: seq<Instruction>) {
    |words| == |code| && AllProper(code) && forall i :: 0 <= i < |code| ==> words[i] == Encode(code[i])
  }

  lemma LoadEncoded(words: seq<nat>, code: seq<Instruction>, reg: nat, value: int)
    requires Encoded(words, code) && reg < 32
    ensures Encoded(words + LoadU32(reg, value), code + LoadCode(reg, value))
  {
    assert Encoded(LoadU32(reg, value), LoadCode(reg, value));
  }

  method BuildLinuxMips(entry: int, a0: int, a1: int, a2: int, a3: int) returns (bytes: seq<byte>)
    ensures bytes == CodeBytes(Program(entry, a0, a1, a2, a3))
    ensures |bytes| == TRAMPOLINE_SIZE
  {
    var words: seq<nat> := [];
    ghost var code: seq<Instruction> := [];
    LoadEncoded(words, code, A0, a0);
    words, code := words + LoadU32(A0, a0), code + LoadCode(A0, a0);
    LoadEncoded(words, code, A1, a1);
    words, code := words + LoadU32(A1, a1), code + LoadCode(A1, a1);
    LoadEncoded(words, code, A2, a2);
    words, code := words + LoadU32(A2, a2), code + LoadCode(A2, a2);
    LoadEncoded(words, code, A3, a3);
    words, code := words + LoadU32(A3, a3), code + LoadCode(A3, a3);
    LoadEncoded(words, code, T9, entry);
    words, code := words + LoadU32(T9, entry), code + LoadCode(T9, entry);
    words, code := words + [JrWord(T9)] + [0], code + [Jr(T9), Nop];
    assert code == Program(entry, a0, a1, a2, a3);
    bytes := PackWords(words, code);
  }

  method PackWords(words: seq<nat>, ghost code: seq<Instruction>) returns (bytes: seq<byte>)
    requires Encoded(words, code)
    ensures bytes == CodeBytes(code) && |bytes| == 4 * |words|
  {
    bytes := [];
    for i := 0 to |words|
      invariant bytes == CodeBytes(code[..i]) && |bytes| == 4 * i
    {
      CodeBytesSnoc(code[..i], code[i]);
      assert code[..i + 1] == code[..i] + [code[i]];
      bytes := bytes + LittleEndian(words[i]);
    }
    assert code[..|words|] == code;
  }

  // ---- the code in memory

  lemma HoldsSplit(mem: Memory, at: int, a: seq<byte>, b: seq<byte>)
    requires Holds(mem, at, a + b)
    ensures Holds(mem, at, a) && Holds(mem, at + |a|, b)
  {
    var i := at - RAM_BASE;
    assert mem[i..i + |a + b|] == a + b;
    assert mem[i..i + |a|] == mem[i..i + |a + b|][..|a|];
    assert mem[i + |a|..i + |a + b|] == mem[i..i + |a + b|][|a|..];
  }

  ghost predicate CodeAt(code: Code, at: int, instructions: seq<Instruction>) {
    forall i :: 0 <= i < |instructions| ==> code(at + 4 * i) == Some(instructions[i])
  }

  lemma Fetched(mem: Memory, at: int, i: Instruction)
    requires Proper(i) && Holds(mem, at, LittleEndian(Encode(i)))
    ensures CodeIn(mem)(at) == Some(i)
  {
    DecodeOfEncode(i);
    WordOfLittleEndian(Encode(i));
  }

  lemma FirstFetched(mem: Memory, at: int, first: Instruction, more: seq<byte>)
    requires Proper(first) && Holds(mem, at, LittleEndian(Encode(first)) + more)
    ensures CodeIn(mem)(at) == Some(first) && Holds(mem, at + 4, more)
  {
    HoldsSplit(mem, at, LittleEndian(Encode(first)), more);
    Fetched(mem, at, first);
  }

  lemma {:induction false} IthFetched(mem: Memory, at: int, instructions: seq<Instruction>, i: nat, place: int)
    requires AllProper(instructions) && Holds(mem, at, CodeBytes(instructions)) && i < |instructions| && place == at + 4 * i
    ensures CodeIn(mem)(place) == Some(instructions[i])
    decreases i
  {
    var first, rest := instructions[0], instructions[1..];
    FirstFetched(mem, at, first, CodeBytes(rest));
    if i > 0 {
      IthFetched(mem, at + 4, rest, i - 1, place);
    }
  }

  /** A memory that holds the code has the processor fetch its instructions. */
  lemma CodeIsFetched(mem: Memory, at: int, instructions: seq<Instruction>)
    requires AllProper(instructions) && Holds(mem, at, CodeBytes(instructions))
    ensures CodeAt(CodeIn(mem), at, instructions)
  {
    forall i | 0 <= i < |instructions|
      ensures CodeIn(mem)(at + 4 * i) == Some(instructions[i])
    {
      IthFetched(mem, at, instructions, i, at + 4 * i);
    }
  }

  // ---- its execution

  /** The two halves make up the value, as an unsigned 32-bit number. */
  lemma Halves(value: int, hi: nat, lo: nat)
    requires hi == value / 0x1_0000 % 0x1_0000 && lo == value % 0x1_0000
    ensures Or(hi * 0x1_0000, lo) == value % TWO_32
  {
    var upper: int := value / 0x1_0000;
    assert value == upper * 0x1_0000 + lo;
    assert upper == upper / 0x1_0000 * 0x1_0000 + hi;
    ModuloUnique(value, upper / 0x1_0000, hi * 0x1_0000 + lo);
    Pow2Of16();
    OrAdds(hi, 16, lo);
  }

  lemma ModuloUnique(value: int, q: int, r: nat)
    requires value == q * TWO_32 + r && r < TWO_32
    ensures value % TWO_32 == r
  {
  }

  lemma Pow2Of16()
    ensures Pow2(16) == 0x1_0000
  {
    assert Pow2(8) == 256;
  }

  /** An address in RAM does not wrap around. */
  predicate InRam(at: int, size: nat) {
    RAM_BASE <= at && at + size <= RAM_END
  }

  lemma NoWrap(next: nat)
    requires next + 4 < TWO_32
    ensures (next + 4) % TWO_32 == next + 4
  {
  }

  /** Executing a load puts the value into its register. */
  lemma LoadExecutes(code: Code, regs: Registers, at: nat, reg: nat, value: int)
    requires InRam(at, 16) && at % 4 == 0 && 0 < reg < 32 && CodeAt(code, at, LoadCode(reg, value))
    ensures Step(code, Step(code, Running(regs, at, at + 4))) == Running(regs[reg := value % TWO_32], at + 8, at + 12)
  {
    var hi, lo := value / 0x1_0000 % 0x1_0000, value % 0x1_0000;
    Halves(value, hi, lo);
    TwoFetches(code, at, Lui(reg, hi), Ori(reg, reg, lo));
    LoadSteps(code, regs, at, reg, hi, lo, value % TWO_32);
  }

  lemma TwoFetches(code: Code, at: int, first: Instruction, second: Instruction)
    requires CodeAt(code, at, [first, second])
    ensures code(at) == Some(first) && code(at + 4) == Some(second)
  {
    assert code(at + 4 * 0) == Some([first, second][0]);
    assert code(at + 4 * 1) == Some([first, second][1]);
  }

  lemma LoadSteps(code: Code, regs: Registers, at: nat, reg: nat, hi: nat, lo: nat, v: nat)
    requires InRam(at, 16) && at % 4 == 0 && 0 < reg < 32
    requires code(at) == Some(Lui(reg, hi)) && code(at + 4) == Some(Ori(reg, reg, lo)) && v == Or(hi * 0x1_0000, lo)
    ensures Step(code, Step(code, Running(regs, at, at + 4))) == Running(regs[reg := v], at + 8, at + 12)
  {
    var upper := regs[reg := hi * 0x1_0000];
    NoWrap(at + 4);
    NoWrap(at + 8);
    assert Step(code, Running(regs, at, at + 4)) == Running(upper, at + 4, at + 8);
    assert upper[reg := v] == regs[reg := v];
  }

  lemma JumpSteps(code: Code, regs: Registers, at: nat, slot: nat, target: nat, follow: nat)
    requires at % 4 == 0 && slot % 4 == 0 && target == regs[T9] && follow == (target + 4) % TWO_32
    requires code(at) == Some(Jr(T9)) && code(slot) == Some(Nop)
    ensures Step(code, Step(code, Running(regs, at, slot))) == Running(regs, target, follow)
  {
    assert Step(code, Running(regs, at, slot)) == Running(regs, slot, target);
  }

  /** Executing the jump and its delay slot continues at the address in the register. */
  lemma JumpExecutes(code: Code, regs: Registers, at: nat)
    requires InRam(at, 8) && at % 4 == 0 && CodeAt(code, at, [Jr(T9), Nop])
    ensures Step(code, Step(code, Running(regs, at, at + 4))) == Running(regs, regs[T9], (regs[T9] + 4) % TWO_32)
  {
    assert code(at + 4 * 0) == Some([Jr(T9), Nop][0]);
    assert code(at + 4 * 1) == Some([Jr(T9), Nop][1]);
    JumpSteps(code, regs, at, at + 4, regs[T9], (regs[T9] + 4) % TWO_32);
  }

  lemma RunTwoMore(code: Code, cpu: Cpu, n: nat)
    ensures Run(code, cpu, n + 2) == Step(code, Step(code, Run(code, cpu, n)))
  {
    var once := Run(code, cpu, n);
    RunMore(code, cpu, n, 1);
    RunMore(code, cpu, n + 1, 1);
    assert Run(code, once, 1) == Step(code, once);
    assert Run(code, Step(code, once), 1) == Step(code, Step(code, once));
  }

  type Load = l: (nat, int) | 0 < l.0 < 32 witness (1, 0)

  /** The registers once the first `n` loads are done. */
  function LoadedSome(regs: Registers, loads: seq<Load>, n: nat): Registers
    requires n <= |loads|
  {
    if n == 0 then regs else LoadedSome(regs, loads, n - 1)[loads[n - 1].0 := loads[n - 1].1 % TWO_32]
  }

  /** Every loaded register holds its value. */
  lemma {:induction false} LoadedHolds(regs: Registers, loads: seq<Load>, n: nat, i: nat)
    requires i < n <= |loads|
    requires forall i, j :: 0 <= i < j < |loads| ==> loads[i].0 != loads[j].0
    ensures LoadedSome(regs, loads, n)[loads[i].0] == loads[i].1 % TWO_32
  {
    if i < n - 1 {
      LoadedHolds(regs, loads, n - 1, i);
    }
  }

  ghost predicate LoadsAt(code: Code, at: int, loads: seq<Load>) {
    forall i :: 0 <= i < |loads| ==> CodeAt(code, at + 8 * i, LoadCode(loads[i].0, loads[i].1))
  }

  lemma StaysAligned(at: nat, k: nat)
    requires at % 4 == 0
    ensures (at + 8 * k) % 4 == 0
  {
  }

  /** After `n` loads the first `n` registers are set and the next load is due. */
  lemma {:induction false} LoadsExecute(code: Code, regs: Registers, at: nat, loads: seq<Load>, n: nat)
    requires InRam(at, 8 * |loads| + 8) && at % 4 == 0 && LoadsAt(code, at, loads) && n <= |loads|
    ensures Run(code, Running(regs, at, at + 4), 2 * n) == Running(LoadedSome(regs, loads, n), at + 8 * n, at + 8 * n + 4)
  {
    if n > 0 {
      var load := loads[n - 1];
      LoadsExecute(code, regs, at, loads, n - 1);
      StaysAligned(at, n - 1);
      RunTwoMore(code, Running(regs, at, at + 4), 2 * (n - 1));
      assert CodeAt(code, at + 8 * (n - 1), LoadCode(loads[n - 1].0, loads[n - 1].1));
      LoadExecutes(code, LoadedSome(regs, loads, n - 1), at + 8 * (n - 1), load.0, load.1);
    }
  }

  lemma LoadsThenJump(code: Code, regs: Registers, at: nat, loads: seq<Load>, steps: nat)
    requires InRam(at, 8 * |loads| + 8) && at % 4 == 0 && LoadsAt(code, at, loads)
    requires CodeAt(code, at + 8 * |loads|, [Jr(T9), Nop]) && steps == 2 * |loads| + 2
    ensures var last := LoadedSome(regs, loads, |loads|);
      Run(code, Running(regs, at, at + 4), steps) == Running(last, last[T9], (last[T9] + 4) % TWO_32)
  {
    LoadsExecute(code, regs, at, loads, |loads|);
    StaysAligned(at, |loads|);
    JumpExecutes(code, LoadedSome(regs, loads, |loads|), at + 8 * |loads|);
    RunTwoMore(code, Running(regs, at, at + 4), 2 * |loads|);
  }

  function Loads(entry: int, a0: int, a1: int, a2: int, a3: int): seq<Load> {
    [(A0, a0), (A1, a1), (A2, a2), (A3, a3), (T9, entry)]
  }

  /** The processor is about to execute the kernel, with the arguments in its registers. */
  predicate InKernel(cpu: Cpu, entry: int, a0: int, a1: int, a2: int, a3: int) {
    && cpu.Running? && cpu.pc == entry % TWO_32
    && cpu.regs[4] == a0 % TWO_32 && cpu.regs[5] == a1 % TWO_32
    && cpu.regs[6] == a2 % TWO_32 && cpu.regs[7] == a3 % TWO_32
  }

  lemma LoadedAll(regs: Registers, loads: seq<Load>, entry: int, a0: int, a1: int, a2: int, a3: int, pc: nat, next: nat)
    requires loads == Loads(entry, a0, a1, a2, a3)
    requires pc == LoadedSome(regs, loads, |loads|)[T9]
    ensures InKernel(Running(LoadedSome(regs, loads, |loads|), pc, next), entry, a0, a1, a2, a3)
  {
    var n := |loads|;
    LoadedHolds(regs, loads, n, 0);
    LoadedHolds(regs, loads, n, 1);
    LoadedHolds(regs, loads, n, 2);
    LoadedHolds(regs, loads, n, 3);
    LoadedHolds(regs, loads, n, 4);
  }

  lemma CodeAtPart(code: Code, at: int, all: seq<Instruction>, i: nat, n: nat, part: seq<Instruction>)
    requires CodeAt(code, at, all) && i + n <= |all| && part == all[i..i + n]
    ensures CodeAt(code, at + 4 * i, part)
  {
    forall k | 0 <= k < |part|
      ensures code(at + 4 * i + 4 * k) == Some(part[k])
    {
      assert code(at + 4 * (i + k)) == Some(all[i + k]);
    }
  }

  lemma ProgramParts(all: seq<Instruction>, loads: seq<Load>, entry: int, a0: int, a1: int, a2: int, a3: int)
    requires all == Program(entry, a0, a1, a2, a3) && loads == Loads(entry, a0, a1, a2, a3)
    ensures |all| == 2 * |loads| + 2 && all[2 * |loads|..2 * |loads| + 2] == [Jr(T9), Nop]
    ensures forall i :: 0 <= i < |loads| ==> all[2 * i..2 * i + 2] == LoadCode(loads[i].0, loads[i].1)
  {
  }

  lemma PartsAt(code: Code, at: int, all: seq<Instruction>, loads: seq<Load>)
    requires CodeAt(code, at, all) && |all| == 2 * |loads| + 2 && all[2 * |loads|..2 * |loads| + 2] == [Jr(T9), Nop]
    requires forall i :: 0 <= i < |loads| ==> all[2 * i..2 * i + 2] == LoadCode(loads[i].0, loads[i].1)
    ensures LoadsAt(code, at, loads) && CodeAt(code, at + 8 * |loads|, [Jr(T9), Nop])
  {
    forall i | 0 <= i < |loads|
      ensures CodeAt(code, at + 8 * i, LoadCode(loads[i].0, loads[i].1))
    {
      CodeAtPart(code, at, all, 2 * i, 2, LoadCode(loads[i].0, loads[i].1));
    }
    CodeAtPart(code, at, all, 2 * |loads|, 2, [Jr(T9), Nop]);
  }

  /** From a word-aligned place, the program runs into the kernel with its arguments in registers. */
  lemma ProgramExecutes(code: Code, regs: Registers, at: nat, all: seq<Instruction>, entry: int, a0: int, a1: int, a2: int, a3: int)
    requires InRam(at, TRAMPOLINE_SIZE) && at % 4 == 0
    requires all == Program(entry, a0, a1, a2, a3) && CodeAt(code, at, all)
    ensures InKernel(Run(code, Running(regs, at, at + 4), |all|), entry, a0, a1, a2, a3)
  {
    var loads := Loads(entry, a0, a1, a2, a3);
    ProgramParts(all, loads, entry, a0, a1, a2, a3);
    PartsAt(code, at, all, loads);
    LoadsThenJump(code, regs, at, loads, |all|);
    var pc := LoadedSome(regs, loads, |loads|)[T9];
    LoadedAll(regs, loads, entry, a0, a1, a2, a3, pc, (pc + 4) % TWO_32);
  }

  /** From anywhere else it faults at once. */
  lemma MisalignedFaults(code: Code, regs: Registers, at: nat, steps: nat)
    requires at % 4 != 0 && steps > 0
    ensures Run(code, Running(regs, at, at + 4), steps) == Fault
  {
    FaultStays(code, steps - 1);
  }
}
