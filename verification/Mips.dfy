/** The MIPS32 instructions of the boot trampoline: their encoding, and a processor that executes them. */
module Mips {
  import opened Basics
  import opened Bits

  const RAM_BASE: nat := 0x8000_0000
  const RAM_END: nat := 0x8400_0000

  // ---- encoding

  // The encoders mask each field, shift it to its place and or it in; `ITypeOrs` and `RTypeOrs` show
  // that this is the sum.

  function ITypeWord(op: int, rs: int, rt: int, imm: int): nat {
    op % 64 * 0x400_0000 + rs % 32 * 0x20_0000 + rt % 32 * 0x1_0000 + imm % 0x1_0000
  }

  function RTypeWord(rs: int, rt: int, rd: int, shamt: int, funct: int): nat {
    rs % 32 * 0x20_0000 + rt % 32 * 0x1_0000 + rd % 32 * 0x800 + shamt % 32 * 0x40 + funct % 64
  }

  function LuiWord(rt: int, imm: int): nat {
    ITypeWord(0x0F, 0, rt, imm)
  }

  function OriWord(rt: int, rs: int, imm: int): nat {
    ITypeWord(0x0D, rs, rt, imm)
  }

  function JrWord(rs: int): nat {
    RTypeWord(rs, 0, 0, 0, 0x08)
  }

  // ---- the processor

  type Memory = m: seq<byte> | |m| == RAM_END - RAM_BASE witness Zeros(0x400_0000)

  /** The bytes stored at an address. */
  predicate Holds(mem: Memory, at: int, data: seq<byte>) {
    RAM_BASE <= at && at + |data| <= RAM_END && mem[at - RAM_BASE..at - RAM_BASE + |data|] == data
  }

  function LittleEndian(w: nat): (b: seq<byte>)
    ensures |b| == 4
  {
    [w % 256, w / 0x100 % 256, w / 0x1_0000 % 256, w / 0x100_0000 % 256]
  }

  function WordOf(b: seq<byte>): nat
    requires |b| == 4
  {
    var b0: int, b1: int, b2: int, b3: int := b[0], b[1], b[2], b[3];
    b0 + 0x100 * b1 + 0x1_0000 * b2 + 0x100_0000 * b3
  }

  lemma WordOfLittleEndian(w: nat)
    requires w < TWO_32
    ensures WordOf(LittleEndian(w)) == w
  {
    var a, b, c := w / 256, w / 256 / 256, w / 256 / 256 / 256;
    assert w == 256 * a + w % 256 && a == 256 * b + a % 256 && b == 256 * c + b % 256;
    assert w / 0x1_0000 == b && w / 0x100_0000 == c;
  }

  /** The word a program finds at an address, if there is memory. */
  function WordAt(mem: Memory, at: int): Option<nat> {
    if RAM_BASE <= at && at + 4 <= RAM_END then Some(WordOf(mem[at - RAM_BASE..at - RAM_BASE + 4])) else None
  }

  datatype Instruction =
    | Lui(rt: nat, imm: nat)
    | Ori(rt: nat, rs: nat, imm: nat)
    | Jr(rs: nat)
    | Nop
    | Other

  /** The instructions that a loader may use; any other word is not modelled. */
  function Decode(w: nat): Instruction {
    var op, rs, rt, imm := w / 0x400_0000, w / 0x20_0000 % 32, w / 0x1_0000 % 32, w % 0x1_0000;
    if w == 0 then Nop
    else if op == 0x0F && rs == 0 then Lui(rt, imm)
    else if op == 0x0D then Ori(rt, rs, imm)
    else if op == 0 && rt == 0 && imm == 8 then Jr(rs)
    else Other
  }

  lemma AtLeastOnce(low: nat, high: nat, d: nat)
    requires low < high
    ensures high * d >= low * d + d
  {
    assert high * d == low * d + (high - low) * d;
    assert (high - low - 1) * d >= 0;
  }

  lemma Euclid(n: nat, d: nat)
    requires d > 0
    ensures n == n / d * d + n % d
  {
  }

  lemma Quotient(n: nat, d: nat, q: nat, r: nat)
    requires n == q * d + r && r < d
    ensures n / d == q && n % d == r
  {
    var p := n / d;
    Euclid(n, d);
    if p < q {
      AtLeastOnce(p, q, d);
    } else if q < p {
      AtLeastOnce(q, p, d);
    }
  }

  lemma FieldsOf(w: nat, op: nat, rs: nat, rt: nat, imm: nat)
    requires w == op * 0x400_0000 + rs * 0x20_0000 + rt * 0x1_0000 + imm
    requires rs < 32 && rt < 32 && imm < 0x1_0000
    ensures w / 0x400_0000 == op && w / 0x20_0000 % 32 == rs && w / 0x1_0000 % 32 == rt && w % 0x1_0000 == imm
  {
    Quotient(w, 0x400_0000, op, rs * 0x20_0000 + rt * 0x1_0000 + imm);
    Quotient(w, 0x20_0000, op * 32 + rs, rt * 0x1_0000 + imm);
    Quotient(op * 32 + rs, 32, op, rs);
    Quotient(w, 0x1_0000, (op * 32 + rs) * 32 + rt, imm);
    Quotient((op * 32 + rs) * 32 + rt, 32, op * 32 + rs, rt);
  }

  /** The instructions whose fields are within their width. */
  predicate Proper(i: Instruction) {
    match i
    case Lui(rt, imm) => rt < 32 && imm < 0x1_0000
    case Ori(rt, rs, imm) => rt < 32 && rs < 32 && imm < 0x1_0000
    case Jr(rs) => rs < 32
    case Nop => true
    case Other => false
  }

  function Encode(i: Instruction): nat
    requires Proper(i)
  {
    match i
    case Lui(rt, imm) => LuiWord(rt, imm)
    case Ori(rt, rs, imm) => OriWord(rt, rs, imm)
    case Jr(rs) => JrWord(rs)
    case Nop => 0
  }

  lemma PowersOfTwo()
    ensures Pow2(6) == 64 && Pow2(11) == 0x800 && Pow2(16) == 0x1_0000 && Pow2(21) == 0x20_0000 && Pow2(26) == 0x400_0000
  {
    assert Pow2(4) == 16;
    assert Pow2(8) == 256;
    assert Pow2(20) == 0x10_0000;
    assert Pow2(24) == 0x100_0000;
  }

  lemma OrField(q: nat, k: nat, p: nat, b: nat)
    requires p == Pow2(k) && b < p
    ensures Or(q * p, b) == q * p + b
  {
    OrAdds(q, k, b);
  }

  /** The fields of an instruction share no bits, so or-ing them adds them. */
  lemma ITypeOrs(op: int, rs: int, rt: int, imm: int, a: nat, b: nat, c: nat, d: nat)
    requires a == op % 64 && b == rs % 32 && c == rt % 32 && d == imm % 0x1_0000
    ensures ITypeWord(op, rs, rt, imm) == Or(Or(Or(a * 0x400_0000, b * 0x20_0000), c * 0x1_0000), d)
  {
    PowersOfTwo();
    RegistersOr(a, b, c, (a * 32 + b) * 32 + c);
    OrField((a * 32 + b) * 32 + c, 16, 0x1_0000, d);
  }

  lemma RegistersOr(a: nat, b: nat, c: nat, abc: nat)
    requires b < 32 && c < 32 && abc == (a * 32 + b) * 32 + c
    ensures Or(Or(a * 0x400_0000, b * 0x20_0000), c * 0x1_0000) == abc * 0x1_0000
  {
    PowersOfTwo();
    OrField(a, 26, 0x400_0000, b * 0x20_0000);
    OrField(a * 32 + b, 21, 0x20_0000, c * 0x1_0000);
  }

  lemma RTypeOrs(rs: int, rt: int, rd: int, shamt: int, funct: int, a: nat, b: nat, c: nat, d: nat, e: nat)
    requires a == rs % 32 && b == rt % 32 && c == rd % 32 && d == shamt % 32 && e == funct % 64
    ensures RTypeWord(rs, rt, rd, shamt, funct) == Or(Or(Or(Or(a * 0x20_0000, b * 0x1_0000), c * 0x800), d * 0x40), e)
  {
    UpperOrs(a, b, c, a * 0x20_0000 + b * 0x1_0000, (a * 32 + b) * 32 + c);
    LowerOrs((a * 32 + b) * 32 + c, d, e);
  }

  lemma UpperOrs(a: nat, b: nat, c: nat, ab: nat, abc: nat)
    requires b < 32 && c < 32 && ab == a * 0x20_0000 + b * 0x1_0000 && abc == (a * 32 + b) * 32 + c
    ensures Or(Or(a * 0x20_0000, b * 0x1_0000), c * 0x800) == abc * 0x800
  {
    PowersOfTwo();
    OrField(a, 21, 0x20_0000, b * 0x1_0000);
    assert ab == (a * 32 + b) * 0x1_0000;
    OrField(a * 32 + b, 16, 0x1_0000, c * 0x800);
  }

  lemma LowerOrs(abc: nat, d: nat, e: nat)
    requires d < 32 && e < 64
    ensures Or(Or(abc * 0x800, d * 0x40), e) == abc * 0x800 + d * 0x40 + e
  {
    PowersOfTwo();
    OrField(abc, 11, 0x800, d * 0x40);
    OrField(abc * 32 + d, 6, 64, e);
  }

  /** The processor sees the instruction that was encoded. */
  lemma DecodeOfEncode(i: Instruction)
    requires Proper(i)
    ensures Encode(i) < TWO_32 && Decode(Encode(i)) == i
  {
    match i
    case Lui(rt, imm) => FieldsOf(Encode(i), 0x0F, 0, rt, imm);
    case Ori(rt, rs, imm) => FieldsOf(Encode(i), 0x0D, rs, rt, imm);
    case Jr(rs) => FieldsOf(Encode(i), 0, rs, 0, 8);
    case Nop =>
  }

  type Registers = r: seq<nat> | |r| == 32 && r[0] == 0 witness seq(32, _ => 0)

  function SetRegister(regs: Registers, i: nat, value: nat): Registers {
    if 0 < i < 32 then regs[i := value] else regs
  }

  /** `next` is the instruction after the one at `pc`: a jump takes effect behind its delay slot. */
  datatype Cpu = Running(regs: Registers, pc: nat, next: nat) | Fault

  function Execute(regs: Registers, i: Instruction, next: nat): Cpu {
    var follow := (next + 4) % TWO_32;
    match i
    case Nop => Running(regs, next, follow)
    case Lui(rt, imm) => Running(SetRegister(regs, rt, imm * 0x1_0000), next, follow)
    case Ori(rt, rs, imm) => Running(SetRegister(regs, rt, Or(if rs < 32 then regs[rs] else 0, imm)), next, follow)
    case Jr(rs) => Running(regs, next, if rs < 32 then regs[rs] else 0)
    case Other => Fault
  }

  /** What the processor fetches at an address: nothing where there is no memory. */
  type Code = int -> Option<Instruction>

  function CodeIn(mem: Memory): Code {
    at => match WordAt(mem, at) case None => None case Some(w) => Some(Decode(w))
  }

  /** Fetching from a misaligned address, or from where there is no memory, faults. */
  function Step(code: Code, cpu: Cpu): Cpu {
    match cpu
    case Fault => Fault
    case Running(regs, pc, next) =>
      if pc % 4 != 0 then Fault
      else match code(pc)
        case None => Fault
        case Some(i) => Execute(regs, i, next)
  }

  function Run(code: Code, cpu: Cpu, steps: nat): Cpu
    decreases steps
  {
    if steps == 0 then cpu else Run(code, Step(code, cpu), steps - 1)
  }

  lemma {:induction false} RunMore(code: Code, cpu: Cpu, m: nat, n: nat)
    ensures Run(code, cpu, m + n) == Run(code, Run(code, cpu, m), n)
    decreases m
  {
    if m > 0 {
      RunMore(code, Step(code, cpu), m - 1, n);
    }
  }

  lemma {:induction false} FaultStays(code: Code, steps: nat)
    ensures Run(code, Fault, steps) == Fault
    decreases steps
  {
    if steps > 0 {
      FaultStays(code, steps - 1);
    }
  }
}
