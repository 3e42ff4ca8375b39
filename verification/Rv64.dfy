/** Concrete semantics of the RV64IM register instructions (RISC-V Unprivileged ISA
    v20191213, chapters 2, 5 and 7), shared by the verifier's soundness statement and
    the JIT's. */
module Rv64 {
  import opened Words
  import opened Decoder

  /** Sign extension of the low 32 bits to 64. */
  function Sext32(x: int): u64
  {
    var v := x % 0x1_0000_0000;
    if v < 0x8000_0000 then v else v + 0xffff_ffff_0000_0000
  }

  function Signed32(x: int): int
  {
    var v := x % 0x1_0000_0000;
    if v < 0x8000_0000 then v else v - 0x1_0000_0000
  }

  function Abs(x: int): nat { if x < 0 then -x else x }

  /** Division rounding toward zero, and its remainder. */
  function Quot(x: int, y: int): int
    requires y != 0
  {
    if (x < 0) == (y < 0) then Abs(x) / Abs(y) else -(Abs(x) / Abs(y))
  }
  function Rem(x: int, y: int): int
    requires y != 0
  {
    x - y * Quot(x, y)
  }

  function Flag(b: bool): u64 { if b then 1 else 0 }

  function Alu(op: AluOp, x: u64, y: u64): u64
  {
    match op
    case Add => Wrap64(x + y)
    case Sub => Wrap64(x - y)
    case Sll => ShiftLeft(x, y % 64)
    case Slt => Flag(Signed(x) < Signed(y))
    case Sltu => Flag(x < y)
    case Xor => Words.Xor(x, y)
    case Srl => ShiftRight(x, y % 64)
    case Sra => ShiftRightArith(x, y % 64)
    case Or => Words.Or(x, y)
    case And => Words.And(x, y)
    case MulLow => Wrap64(x * y)
    case MulH => Wrap64(Signed(x) * Signed(y) / TWO64)
    case MulHU => Wrap64(x * y / TWO64)
    case MulHSU => Wrap64(Signed(x) * y / TWO64)
    case DivS => if y == 0 then TWO64 - 1 else Wrap64(Quot(Signed(x), Signed(y)))
    case DivU => if y == 0 then TWO64 - 1 else Wrap64(x / y)
    case RemS => if y == 0 then x else Wrap64(Rem(Signed(x), Signed(y)))
    case RemU => if y == 0 then x else Wrap64(x % y)
  }

  /** The *W forms: on the low 32 bits, result sign-extended. */
  function AluW(op: AluOp, x: u64, y: u64): u64
  {
    var a, b := x % 0x1_0000_0000, y % 0x1_0000_0000;
    match op
    case Add => Sext32(a + b)
    case Sub => Sext32(a - b)
    case Sll => Sext32(a * Pow2(b % 32))
    case Srl => Sext32(a / Pow2(b % 32))
    case Sra => Sext32(Signed32(a) / Pow2(b % 32))
    case MulLow => Sext32(a * b)
    case DivS => if b == 0 then TWO64 - 1 else Sext32(Quot(Signed32(a), Signed32(b)))
    case DivU => if b == 0 then TWO64 - 1 else Sext32(a / b)
    case RemS => if b == 0 then Sext32(a) else Sext32(Rem(Signed32(a), Signed32(b)))
    case RemU => if b == 0 then Sext32(a) else Sext32(a % b)
    case _ => 0
  }

  /** The word a register instruction writes, from its operands. */
  function Result(i: Insn, a: u64, b: u64): u64
  {
    match i.cls
    case AluImm => Alu(i.aluOp, a, Wrap64(i.imm))
    case ShiftImm => Alu(i.aluOp, a, Wrap64(i.imm))
    case AluImmW => AluW(i.aluOp, a, Wrap64(i.imm))
    case AluReg => Alu(i.aluOp, a, b)
    case AluRegW => AluW(i.aluOp, a, b)
    case Mul => if i.wordOp then AluW(i.aluOp, a, b) else Alu(i.aluOp, a, b)
    case Div => if i.wordOp then AluW(i.aluOp, a, b) else Alu(i.aluOp, a, b)
    case Lui => Wrap64(i.imm)
    case _ => 0
  }

  predicate Taken(k: BranchKind, a: u64, b: u64)
  {
    match k
    case Beq => a == b
    case Bne => a != b
    case Blt => Signed(a) < Signed(b)
    case Bge => Signed(a) >= Signed(b)
    case Bltu => a < b
    case Bgeu => a >= b
  }

  /** Bytes a load or store touches: funct3 gives the logarithm in its low two bits. */
  function AccessBytes(funct3: nat): (n: nat)
    ensures n in {1, 2, 4, 8}
  {
    assert Pow2(0) == 1 && Pow2(1) == 2 && Pow2(2) == 4 && Pow2(3) == 8;
    Pow2(funct3 % 4)
  }

  /** The registers a call does not preserve, a0 apart: t0 to t6 and a1 to a7 of the
      standard calling convention. */
  predicate LostInCall(k: int) { k in {5, 6, 7, 28, 29, 30, 31} || k in {11, 12, 13, 14, 15, 16, 17} }
}
