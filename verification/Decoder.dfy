/** The RV64IM decoder of tools/merlin-verifier/decode.c, shared by the verifier and
    the JIT, with an assembler for the RISC-V instruction formats as its partner. */
module Decoder {
  import opened Basics
  import opened Words

  type Reg = x: int | 0 <= x < 32
  type Imm = x: int | -0x8000_0000 <= x < 0x8000_0000

  datatype Class =
    | Invalid | Unsupported
    | Lui | Auipc | Jal | Jalr | Branch | Load | Store
    | AluImm | ShiftImm | AluReg | Fence | Ecall | Ebreak
    | AluImmW | AluRegW | Mul | Div
    | Csr | Priv | FenceI | Float

  datatype BranchKind = Beq | Bne | Blt | Bge | Bltu | Bgeu

  datatype AluOp =
    | Add | Sub | Sll | Slt | Sltu | Xor | Srl | Sra | Or | And
    | MulLow | DivS | DivU | RemS | RemU | MulH | MulHU | MulHSU

  /** Fields that a class does not use keep the values `Blank` gives them.  `width` is
      funct3 of a load or store. */
  datatype Insn = Insn(cls: Class, rd: Reg, rs1: Reg, rs2: Reg, imm: Imm,
                       brKind: BranchKind, width: nat, aluOp: AluOp, wordOp: bool)

  // ----- immediates -----

  /** Sign extension of a value below 2 * sign. */
  function Sext(v: int, sign: int): int { if v < sign then v else v - 2 * sign }

  function ImmI(w: u32): Imm { Sext(w / 0x10_0000, 0x800) }
  function ImmS(w: u32): Imm { Sext(w / 0x200_0000 * 32 + w / 0x80 % 32, 0x800) }
  function ImmB(w: u32): Imm
  {
    Sext(w / 0x8000_0000 * 0x1000 + w / 0x80 % 2 * 0x800 + w / 0x200_0000 % 64 * 32 + w / 0x100 % 16 * 2, 0x1000)
  }
  function ImmU(w: u32): Imm { Sext(w / 0x1000 * 0x1000, 0x8000_0000) }
  function ImmJ(w: u32): Imm
  {
    Sext(w / 0x8000_0000 * 0x10_0000 + w / 0x1000 % 256 * 0x1000 + w / 0x10_0000 % 2 * 0x800 + w / 0x20_0000 % 1024 * 2, 0x10_0000)
  }

  // ----- decoding -----

  function Blank(w: u32): Insn
  {
    Insn(Invalid, w / 0x80 % 32, w / 0x8000 % 32, w / 0x10_0000 % 32, 0, Beq, 0, Add, false)
  }

  function Decode(w: u32): Insn
  {
    var op, f3, f7 := w % 128, w / 0x1000 % 8, w / 0x200_0000;
    var out := Blank(w);
    if w % 4 != 3 then out.(cls := Unsupported)
    else if op == 0x37 then out.(cls := Lui, imm := ImmU(w))
    else if op == 0x17 then out.(cls := Auipc, imm := ImmU(w))
    else if op == 0x6f then out.(cls := Jal, imm := ImmJ(w))
    else if op == 0x67 then (if f3 != 0 then out else out.(cls := Jalr, imm := ImmI(w)))
    else if op == 0x63 then DecodeBranch(out, f3, ImmB(w))
    else if op == 0x03 then (if f3 > 6 then out else out.(cls := Load, width := f3, imm := ImmI(w)))
    else if op == 0x23 then (if f3 > 3 then out else out.(cls := Store, width := f3, imm := ImmS(w)))
    else if op == 0x13 then DecodeAluImm(out, w, f3)
    else if op == 0x33 then DecodeAluReg(out, f3, f7)
    else if op == 0x1b then DecodeAluImmW(out.(wordOp := true), w, f3)
    else if op == 0x3b then DecodeAluRegW(out.(wordOp := true), f3, f7)
    else if op == 0x0f then (if f3 == 0 then out.(cls := Fence) else if f3 == 1 then out.(cls := FenceI) else out)
    else if op == 0x73 then
      (if f3 != 0 then out.(cls := Csr)
       else if w == 0x73 then out.(cls := Ecall)
       else if w == 0x10_0073 then out.(cls := Ebreak)
       else out.(cls := Priv))
    else if op in {0x07, 0x27, 0x43, 0x47, 0x4b, 0x4f, 0x53} then out.(cls := Float)
    else out
  }

  function DecodeBranch(out: Insn, f3: int, imm: Imm): Insn
  {
    if f3 == 2 || f3 == 3 then out
    else
      out.(cls := Branch, imm := imm,
           brKind := if f3 == 0 then Beq else if f3 == 1 then Bne else if f3 == 4 then Blt
                     else if f3 == 5 then Bge else if f3 == 6 then Bltu else Bgeu)
  }

  function DecodeAluImm(out: Insn, w: u32, f3: int): Insn
  {
    if f3 == 1 then out.(cls := ShiftImm, aluOp := Sll, imm := w / 0x10_0000 % 64)
    else if f3 == 5 then
      out.(cls := ShiftImm, aluOp := if w / 0x4000_0000 % 2 == 1 then Sra else Srl, imm := w / 0x10_0000 % 64)
    else
      out.(cls := AluImm, imm := ImmI(w),
           aluOp := if f3 == 0 then Add else if f3 == 2 then Slt else if f3 == 3 then Sltu
                    else if f3 == 4 then Xor else if f3 == 6 then Or else And)
  }

  function DecodeAluReg(out: Insn, f3: int, f7: int): Insn
  {
    if f7 == 1 then
      (if f3 == 0 then out.(cls := Mul, aluOp := MulLow)
       else if f3 == 1 then out.(cls := Mul, aluOp := MulH)
       else if f3 == 2 then out.(cls := Mul, aluOp := MulHSU)
       else if f3 == 3 then out.(cls := Mul, aluOp := MulHU)
       else DecodeDiv(out, f3))
    else
      out.(cls := AluReg,
           aluOp := if f3 == 0 then (if f7 == 0x20 then Sub else Add) else if f3 == 1 then Sll
                    else if f3 == 2 then Slt else if f3 == 3 then Sltu else if f3 == 4 then Xor
                    else if f3 == 5 then (if f7 == 0x20 then Sra else Srl) else if f3 == 6 then Or else And)
  }

  function DecodeDiv(out: Insn, f3: int): Insn
  {
    out.(cls := Div, aluOp := if f3 == 4 then DivS else if f3 == 5 then DivU else if f3 == 6 then RemS else RemU)
  }

  function DecodeAluImmW(out: Insn, w: u32, f3: int): Insn
  {
    if f3 == 0 then out.(cls := AluImmW, aluOp := Add, imm := ImmI(w))
    else if f3 == 1 then out.(cls := AluImmW, aluOp := Sll, imm := w / 0x10_0000 % 32)
    else if f3 == 5 then
      out.(cls := AluImmW, aluOp := if w / 0x4000_0000 % 2 == 1 then Sra else Srl, imm := w / 0x10_0000 % 32)
    else out
  }

  function DecodeAluRegW(out: Insn, f3: int, f7: int): Insn
  {
    if f7 == 1 then
      (if f3 == 0 then out.(cls := Mul, aluOp := MulLow)
       else if f3 >= 4 then DecodeDiv(out, f3)
       else out)
    else if f3 == 0 then out.(cls := AluRegW, aluOp := if f7 == 0x20 then Sub else Add)
    else if f3 == 1 then out.(cls := AluRegW, aluOp := Sll)
    else if f3 == 5 then out.(cls := AluRegW, aluOp := if f7 == 0x20 then Sra else Srl)
    else out
  }

  /** The default profile: these classes are rejected wherever they occur. */
  predicate Permitted(cls: Class)
  {
    !(cls.Ebreak? || cls.Csr? || cls.Priv? || cls.FenceI? || cls.Float? || cls.Invalid? || cls.Unsupported?)
  }

  predicate IsControl(cls: Class) { cls.Branch? || cls.Jal? || cls.Jalr? }

  /** What each class's immediate can be: branch and jump offsets are even and span 13 and
      21 bits, shift amounts 6 or 5 bits, upper immediates the high 20 of 32, others 12. */
  predicate Ranged(i: Insn)
  {
    && (i.cls.Branch? ==> i.imm % 2 == 0 && -0x1000 <= i.imm < 0x1000)
    && (i.cls.Jal? ==> i.imm % 2 == 0 && -0x10_0000 <= i.imm < 0x10_0000)
    && (i.cls.AluImm? || i.cls.Load? || i.cls.Store? || i.cls.Jalr? ==> -0x800 <= i.imm < 0x800)
    && (i.cls.Load? ==> i.width <= 6) && (i.cls.Store? ==> i.width <= 3)
    && (i.cls.Lui? || i.cls.Auipc? ==> i.imm % 0x1000 == 0 && -0x8000_0000 <= i.imm < 0x8000_0000)
    && (i.cls.ShiftImm? ==> 0 <= i.imm < 64 && i.aluOp in {Sll, Srl, Sra})
    && (i.cls.AluImmW? ==> if i.aluOp.Add? then -0x800 <= i.imm < 0x800 else 0 <= i.imm < 32 && i.aluOp in {Sll, Srl, Sra})
  }

  lemma ImmRanges(w: u32)
    ensures Ranged(Decode(w))
  {
    hide ImmI, ImmS, ImmB, ImmU, ImmJ, DecodeBranch, DecodeAluImm, DecodeAluImmW, DecodeAluReg, DecodeAluRegW, Blank;
    var out := Blank(w);
    BlankShape(w);
    ImmIRange(w); ImmSRange(w); ImmBRange(w); ImmURange(w); ImmJRange(w);
    BranchRanged(out, w / 0x1000 % 8, ImmB(w));
    AluRanged(out, w, w / 0x1000 % 8);
    RegRanged(out, w / 0x1000 % 8, w / 0x200_0000);
  }

  lemma BlankShape(w: u32)
    ensures Blank(w).cls.Invalid? && Blank(w).width == 0
  {
  }

  lemma BranchRanged(out: Insn, f3: int, imm: Imm)
    requires out.cls.Invalid? && imm % 2 == 0 && -0x1000 <= imm < 0x1000
    ensures Ranged(DecodeBranch(out, f3, imm))
  {
  }

  lemma AluRanged(out: Insn, w: u32, f3: int)
    requires out.cls.Invalid?
    ensures Ranged(DecodeAluImm(out, w, f3)) && Ranged(DecodeAluImmW(out.(wordOp := true), w, f3))
  {
    hide ImmI;
    ImmIRange(w);
  }

  lemma RegRanged(out: Insn, f3: int, f7: int)
    requires out.cls.Invalid?
    ensures Ranged(DecodeAluReg(out, f3, f7)) && Ranged(DecodeAluRegW(out.(wordOp := true), f3, f7))
  {
  }

  lemma ImmIRange(w: u32)
    ensures -0x800 <= ImmI(w) < 0x800
  {
  }

  lemma ImmSRange(w: u32)
    ensures -0x800 <= ImmS(w) < 0x800
  {
    assert 0 <= w / 0x200_0000 < 128;
  }

  lemma ImmURange(w: u32)
    ensures ImmU(w) % 0x1000 == 0 && -0x8000_0000 <= ImmU(w) < 0x8000_0000
  {
    assert 0 <= w / 0x1000 < 0x10_0000;
  }

  lemma ImmBRange(w: u32)
    ensures ImmB(w) % 2 == 0 && -0x1000 <= ImmB(w) < 0x1000
  {
    assert 0 <= w / 0x8000_0000 < 2;
    assert 0 <= w / 0x80 % 2 < 2 && 0 <= w / 0x200_0000 % 64 < 64 && 0 <= w / 0x100 % 16 < 16;
  }

  lemma ImmJRange(w: u32)
    ensures ImmJ(w) % 2 == 0 && -0x10_0000 <= ImmJ(w) < 0x10_0000
  {
    assert 0 <= w / 0x8000_0000 < 2;
    assert 0 <= w / 0x1000 % 256 < 256 && 0 <= w / 0x10_0000 % 2 < 2 && 0 <= w / 0x20_0000 % 1024 < 1024;
  }

  // ----- program text -----

  function WordAt(text: seq<u8>, off: int): u32
    requires 0 <= off && off + 4 <= |text|
  {
    var b0: int, b1: int, b2: int, b3: int := text[off], text[off + 1], text[off + 2], text[off + 3];
    b0 + b1 * 0x100 + b2 * 0x1_0000 + b3 * 0x100_0000
  }

  function InsnAt(text: seq<u8>, off: int): Insn
    requires 0 <= off && off + 4 <= |text|
  {
    Decode(WordAt(text, off))
  }

  // ----- the assembler -----

  /** Instructions as an assembler takes them (formats R, I, S, B, U and J); the W forms
      work on the low 32 bits. */
  datatype Asm =
    | AsmLui(rd: Reg, imm: int)
    | AsmAuipc(rd: Reg, imm: int)
    | AsmJal(rd: Reg, imm: int)
    | AsmJalr(rd: Reg, rs1: Reg, imm: int)
    | AsmBranch(kind: BranchKind, rs1: Reg, rs2: Reg, imm: int)
    | AsmLoad(width: nat, rd: Reg, rs1: Reg, imm: int)
    | AsmStore(width: nat, rs1: Reg, rs2: Reg, imm: int)
    | AsmImm(op: AluOp, rd: Reg, rs1: Reg, imm: int)
    | AsmShift(op: AluOp, rd: Reg, rs1: Reg, imm: int)
    | AsmAddiw(rd: Reg, rs1: Reg, imm: int)
    | AsmShiftW(op: AluOp, rd: Reg, rs1: Reg, imm: int)
    | AsmReg(op: AluOp, rd: Reg, rs1: Reg, rs2: Reg)
    | AsmRegW(op: AluOp, rd: Reg, rs1: Reg, rs2: Reg)
    | AsmFence
    | AsmFenceI
    | AsmEcall
    | AsmEbreak

  predicate IsShift(op: AluOp) { op in {Sll, Srl, Sra} }
  predicate IsMulDiv(op: AluOp) { op in {MulLow, MulH, MulHSU, MulHU, DivS, DivU, RemS, RemU} }

  predicate Encodable(a: Asm)
  {
    match a
    case AsmLui(_, imm) => imm % 0x1000 == 0 && -0x8000_0000 <= imm < 0x8000_0000
    case AsmAuipc(_, imm) => imm % 0x1000 == 0 && -0x8000_0000 <= imm < 0x8000_0000
    case AsmJal(_, imm) => imm % 2 == 0 && -0x10_0000 <= imm < 0x10_0000
    case AsmJalr(_, _, imm) => -0x800 <= imm < 0x800
    case AsmBranch(_, _, _, imm) => imm % 2 == 0 && -0x1000 <= imm < 0x1000
    case AsmLoad(width, _, _, imm) => width <= 6 && -0x800 <= imm < 0x800
    case AsmStore(width, _, _, imm) => width <= 3 && -0x800 <= imm < 0x800
    case AsmImm(op, _, _, imm) => op in {Add, Slt, Sltu, Xor, Or, And} && -0x800 <= imm < 0x800
    case AsmShift(op, _, _, imm) => IsShift(op) && 0 <= imm < 64
    case AsmAddiw(_, _, imm) => -0x800 <= imm < 0x800
    case AsmShiftW(op, _, _, imm) => IsShift(op) && 0 <= imm < 32
    case AsmReg(_, _, _, _) => true
    case AsmRegW(op, _, _, _) => IsShift(op) || op in {Add, Sub, MulLow, DivS, DivU, RemS, RemU}
    case _ => true
  }

  /** The fields of a 32-bit word, from the low end: opcode, rd, funct3, rs1, rs2, funct7. */
  function Fields(op: int, rd: int, f3: int, rs1: int, rs2: int, f7: int): u32
    requires 0 <= op < 128 && 0 <= rd < 32 && 0 <= f3 < 8 && 0 <= rs1 < 32 && 0 <= rs2 < 32 && 0 <= f7 < 128
  {
    op + rd * 0x80 + f3 * 0x1000 + rs1 * 0x8000 + rs2 * 0x10_0000 + f7 * 0x200_0000
  }

  lemma FieldsOf(op: int, rd: int, f3: int, rs1: int, rs2: int, f7: int)
    requires 0 <= op < 128 && 0 <= rd < 32 && 0 <= f3 < 8 && 0 <= rs1 < 32 && 0 <= rs2 < 32 && 0 <= f7 < 128
    ensures var w := Fields(op, rd, f3, rs1, rs2, f7);
            && w % 128 == op && w % 4 == op % 4 && w / 0x80 % 32 == rd && w / 0x1000 % 8 == f3
            && w / 0x8000 % 32 == rs1 && w / 0x10_0000 % 32 == rs2 && w / 0x200_0000 == f7
            && w / 0x10_0000 == rs2 + 32 * f7
  {
    var w := Fields(op, rd, f3, rs1, rs2, f7);
    var top := rs2 + 32 * f7;
    var r3 := rs1 + 32 * top;
    var r2 := f3 + 8 * r3;
    var r1 := rd + 32 * r2;
    Unpack(r1, op, 128, w);
    Unpack(op / 4 + 32 * r1, op % 4, 4, w);
    Unpack(r2, rd, 32, r1);
    Unpack(r3, f3, 8, r2);
    Unpack(top, rs1, 32, r3);
    Unpack(f7, rs2, 32, top);
    DivDiv(w, 0x80, 32);
    DivDiv(w, 0x1000, 8);
    DivDiv(w, 0x8000, 32);
    DivDiv(w, 0x10_0000, 32);
  }

  function Unsigned(imm: int, span: int): int { if imm < 0 then imm + span else imm }

  function BranchF3(k: BranchKind): int
  {
    match k
    case Beq => 0 case Bne => 1 case Blt => 4 case Bge => 5 case Bltu => 6 case Bgeu => 7
  }

  function RegF3(op: AluOp): int
  {
    match op
    case Add => 0 case Sub => 0 case MulLow => 0
    case Sll => 1 case MulH => 1
    case Slt => 2 case MulHSU => 2
    case Sltu => 3 case MulHU => 3
    case Xor => 4 case DivS => 4
    case Srl => 5 case Sra => 5 case DivU => 5
    case Or => 6 case RemS => 6
    case And => 7 case RemU => 7
  }

  function RegF7(op: AluOp): int { if IsMulDiv(op) then 1 else if op == Sub || op == Sra then 0x20 else 0 }

  /** The immediate of each format, cut into the pieces section 2.3 of the RISC-V
      Unprivileged ISA scatters over the word. */
  function Assemble(a: Asm): u32
    requires Encodable(a)
  {
    match a
    case AsmLui(rd, imm) => var u := Unsigned(imm, 0x1_0000_0000) / 0x1000; Fields(0x37, rd, u % 8, u / 8 % 32, u / 256 % 32, u / 0x2000)
    case AsmAuipc(rd, imm) => var u := Unsigned(imm, 0x1_0000_0000) / 0x1000; Fields(0x17, rd, u % 8, u / 8 % 32, u / 256 % 32, u / 0x2000)
    case AsmJal(rd, imm) =>
      var u := Unsigned(imm, 0x20_0000);
      Fields(0x6f, rd, u / 0x1000 % 8, u / 0x8000 % 32, u / 2 % 16 * 2 + u / 0x800 % 2, u / 0x10_0000 * 64 + u / 32 % 64)
    case AsmJalr(rd, rs1, imm) => Short(0x67, rd, 0, rs1, imm)
    case AsmBranch(k, rs1, rs2, imm) =>
      var u := Unsigned(imm, 0x2000);
      Fields(0x63, u / 2 % 16 * 2 + u / 0x800 % 2, BranchF3(k), rs1, rs2, u / 0x1000 * 64 + u / 32 % 64)
    case AsmLoad(width, rd, rs1, imm) => Short(0x03, rd, width, rs1, imm)
    case AsmStore(width, rs1, rs2, imm) => var u := Unsigned(imm, 0x1000); Fields(0x23, u % 32, width, rs1, rs2, u / 32)
    case AsmImm(op, rd, rs1, imm) => Short(0x13, rd, RegF3(op), rs1, imm)
    case AsmShift(op, rd, rs1, imm) => Fields(0x13, rd, RegF3(op), rs1, imm % 32, RegF7(op) + imm / 32)
    case AsmAddiw(rd, rs1, imm) => Short(0x1b, rd, 0, rs1, imm)
    case AsmShiftW(op, rd, rs1, imm) => Fields(0x1b, rd, RegF3(op), rs1, imm, RegF7(op))
    case AsmReg(op, rd, rs1, rs2) => Fields(0x33, rd, RegF3(op), rs1, rs2, RegF7(op))
    case AsmRegW(op, rd, rs1, rs2) => Fields(0x3b, rd, RegF3(op), rs1, rs2, RegF7(op))
    case AsmFence => 0x0f
    case AsmFenceI => 0x100f
    case AsmEcall => 0x73
    case AsmEbreak => 0x10_0073
  }

  /** Format I: a 12-bit immediate in place of rs2 and funct7. */
  function Short(op: int, rd: Reg, f3: int, rs1: Reg, imm: int): u32
    requires 0 <= op < 128 && 0 <= f3 < 8 && -0x800 <= imm < 0x800
  {
    var u := Unsigned(imm, 0x1000);
    Fields(op, rd, f3, rs1, u % 32, u / 32)
  }

  /** What a decoded instruction says in the assembler's terms; None where the decoder
      recognised nothing the assembler has. */
  function View(i: Insn): Option<Asm>
  {
    match i.cls
    case Lui => Some(AsmLui(i.rd, i.imm))
    case Auipc => Some(AsmAuipc(i.rd, i.imm))
    case Jal => Some(AsmJal(i.rd, i.imm))
    case Jalr => Some(AsmJalr(i.rd, i.rs1, i.imm))
    case Branch => Some(AsmBranch(i.brKind, i.rs1, i.rs2, i.imm))
    case Load => Some(AsmLoad(i.width, i.rd, i.rs1, i.imm))
    case Store => Some(AsmStore(i.width, i.rs1, i.rs2, i.imm))
    case AluImm => Some(AsmImm(i.aluOp, i.rd, i.rs1, i.imm))
    case ShiftImm => Some(AsmShift(i.aluOp, i.rd, i.rs1, i.imm))
    case AluImmW => Some(if i.aluOp.Add? then AsmAddiw(i.rd, i.rs1, i.imm) else AsmShiftW(i.aluOp, i.rd, i.rs1, i.imm))
    case AluReg => Some(AsmReg(i.aluOp, i.rd, i.rs1, i.rs2))
    case AluRegW => Some(AsmRegW(i.aluOp, i.rd, i.rs1, i.rs2))
    case Mul => Some(if i.wordOp then AsmRegW(i.aluOp, i.rd, i.rs1, i.rs2) else AsmReg(i.aluOp, i.rd, i.rs1, i.rs2))
    case Div => Some(if i.wordOp then AsmRegW(i.aluOp, i.rd, i.rs1, i.rs2) else AsmReg(i.aluOp, i.rd, i.rs1, i.rs2))
    case Fence => Some(AsmFence)
    case FenceI => Some(AsmFenceI)
    case Ecall => Some(AsmEcall)
    case Ebreak => Some(AsmEbreak)
    case _ => None
  }

  /** The finer pieces that the B and J immediates are read from. */
  lemma PiecesOf(op: int, rd: int, f3: int, rs1: int, rs2: int, f7: int)
    requires 0 <= op < 128 && 0 <= rd < 32 && 0 <= f3 < 8 && 0 <= rs1 < 32 && 0 <= rs2 < 32 && 0 <= f7 < 128
    ensures var w := Fields(op, rd, f3, rs1, rs2, f7);
            && w / 0x8000_0000 == f7 / 64 && w / 0x200_0000 % 64 == f7 % 64
            && w / 0x80 % 2 == rd % 2 && w / 0x100 % 16 == rd / 2
            && w / 0x1000 % 256 == f3 + 8 * rs1
            && w / 0x10_0000 % 2 == rs2 % 2 && w / 0x20_0000 % 1024 == rs2 / 2 + 16 * (f7 % 64)
            && w / 0x10_0000 % 64 == rs2 + 32 * (f7 % 2) && w / 0x4000_0000 % 2 == f7 / 32 % 2
  {
    var w := Fields(op, rd, f3, rs1, rs2, f7);
    LowPieces(w, op, rd, f3 + 8 * rs1 + 0x100 * rs2 + 0x2000 * f7);
    HighPieces(w, op + 0x80 * rd, f3, rs1, rs2, f7);
  }

  lemma LowPieces(w: int, op: int, rd: int, rest: int)
    requires 0 <= op < 128 && 0 <= rd < 32 && 0 <= rest && w == op + 0x80 * rd + 0x1000 * rest
    ensures w / 0x80 % 2 == rd % 2 && w / 0x100 % 16 == rd / 2
  {
    assert w / 0x80 == rd + 32 * rest;
    assert w / 0x100 == rd / 2 + 16 * rest;
  }

  lemma HighPieces(w: int, low: int, f3: int, rs1: int, rs2: int, f7: int)
    requires 0 <= low < 0x1000 && 0 <= f3 < 8 && 0 <= rs1 < 32 && 0 <= rs2 < 32 && 0 <= f7 < 128
    requires w == low + f3 * 0x1000 + rs1 * 0x8000 + rs2 * 0x10_0000 + f7 * 0x200_0000
    ensures w / 0x8000_0000 == f7 / 64 && w / 0x200_0000 % 64 == f7 % 64
    ensures w / 0x1000 % 256 == f3 + 8 * rs1
    ensures w / 0x10_0000 % 2 == rs2 % 2 && w / 0x20_0000 % 1024 == rs2 / 2 + 16 * (f7 % 64)
    ensures w / 0x10_0000 % 64 == rs2 + 32 * (f7 % 2) && w / 0x4000_0000 % 2 == f7 / 32 % 2
  {
    var mid, top, q, r := f3 + 8 * rs1, rs2 + 32 * f7, f7 / 64, f7 % 64;
    Unpack(mid + 256 * top, low, 0x1000, w);
    Unpack(top, mid, 256, mid + 256 * top);
    DivDiv(w, 0x1000, 256);
    TopPieces(w, top, rs2, f7);
  }

  lemma TopPieces(w: int, top: int, rs2: int, f7: int)
    requires 0 <= w && w / 0x10_0000 == top == rs2 + 32 * f7 && 0 <= rs2 < 32 && 0 <= f7 < 128
    ensures w / 0x8000_0000 == f7 / 64 && w / 0x200_0000 % 64 == f7 % 64
    ensures w / 0x10_0000 % 2 == rs2 % 2 && w / 0x20_0000 % 1024 == rs2 / 2 + 16 * (f7 % 64)
    ensures w / 0x10_0000 % 64 == rs2 + 32 * (f7 % 2) && w / 0x4000_0000 % 2 == f7 / 32 % 2
  {
    Unpack(f7, rs2, 32, top);
    DivDiv(w, 0x10_0000, 32);
    DivDiv(w, 0x200_0000, 64);
    DivDiv(w, 0x200_0000, 32);
    DivDiv(w, 0x10_0000, 2);
    Unpack(rs2 / 2 + 16 * f7, rs2 % 2, 2, top);
    Unpack(f7 / 64, rs2 / 2 + 16 * (f7 % 64), 1024, rs2 / 2 + 16 * f7);
    Unpack(f7 / 2, rs2 + 32 * (f7 % 2), 64, top);
  }

  /** The digit of u with weight m, in base k. */
  lemma Digit(u: nat, m: nat, k: nat)
    requires m > 0 && k > 0 && m * k > 0
    ensures u / m == k * (u / (m * k)) + u / m % k
  {
    DivDiv(u, m, k);
    DivMod(u / m, k);
  }

  lemma DivMod(q: int, k: nat)
    requires k > 0
    ensures q == k * (q / k) + q % k
  {
  }

  lemma SplitB(u: int)
    requires 0 <= u < 0x2000 && u % 2 == 0
    ensures u == u / 0x1000 * 0x1000 + u / 0x800 % 2 * 0x800 + u / 32 % 64 * 32 + u / 2 % 16 * 2
  {
    Digit(u, 2, 16);
    Digit(u, 32, 64);
    Digit(u, 0x800, 2);
  }

  lemma SplitJ(u: int)
    requires 0 <= u < 0x20_0000 && u % 2 == 0
    ensures u == u / 0x10_0000 * 0x10_0000 + u / 0x8000 % 32 * 0x8000 + u / 0x1000 % 8 * 0x1000
                 + u / 0x800 % 2 * 0x800 + u / 32 % 64 * 32 + u / 2 % 16 * 2
  {
    Digit(u, 2, 16);
    Digit(u, 32, 64);
    Digit(u, 0x800, 2);
    Digit(u, 0x1000, 8);
    Digit(u, 0x8000, 32);
  }

  /** A pair packed as hi * m + lo splits again. */
  lemma Unpack(hi: int, lo: int, m: int, x: int)
    requires m > 0 && 0 <= lo < m && x == hi * m + lo
    ensures x / m == hi && x % m == lo
  {
    ModUnique(x, m, hi, lo);
  }

  lemma ImmJOf(u: int, rd: Reg)
    requires 0 <= u < 0x20_0000 && u % 2 == 0
    ensures ImmJ(Fields(0x6f, rd, u / 0x1000 % 8, u / 0x8000 % 32, u / 2 % 16 * 2 + u / 0x800 % 2, u / 0x10_0000 * 64 + u / 32 % 64))
            == Sext(u, 0x10_0000)
  {
    SplitJ(u);
    JalImm(u / 2 % 16, u / 32 % 64, u / 0x800 % 2, u / 0x1000 % 8, u / 0x8000 % 32, u / 0x10_0000, rd);
  }

  lemma JalImm(a: int, b: int, c: int, d: int, e: int, f: int, rd: Reg)
    requires 0 <= a < 16 && 0 <= b < 64 && 0 <= c < 2 && 0 <= d < 8 && 0 <= e < 32 && 0 <= f < 2
    ensures ImmJ(Fields(0x6f, rd, d, e, a * 2 + c, f * 64 + b))
            == Sext(f * 0x10_0000 + e * 0x8000 + d * 0x1000 + c * 0x800 + b * 32 + a * 2, 0x10_0000)
  {
    hide Fields;
    PiecesOf(0x6f, rd, d, e, a * 2 + c, f * 64 + b);
    Unpack(a, c, 2, a * 2 + c);
    Unpack(f, b, 64, f * 64 + b);
  }

  lemma ImmBOf(u: int, f3: int, rs1: Reg, rs2: Reg)
    requires 0 <= u < 0x2000 && u % 2 == 0 && 0 <= f3 < 8
    ensures ImmB(Fields(0x63, u / 2 % 16 * 2 + u / 0x800 % 2, f3, rs1, rs2, u / 0x1000 * 64 + u / 32 % 64)) == Sext(u, 0x1000)
  {
    SplitB(u);
    BranchImm(u / 2 % 16, u / 32 % 64, u / 0x800 % 2, u / 0x1000, f3, rs1, rs2);
  }

  lemma BranchImm(a: int, b: int, c: int, d: int, f3: int, rs1: Reg, rs2: Reg)
    requires 0 <= a < 16 && 0 <= b < 64 && 0 <= c < 2 && 0 <= d < 2 && 0 <= f3 < 8
    ensures ImmB(Fields(0x63, a * 2 + c, f3, rs1, rs2, d * 64 + b)) == Sext(d * 0x1000 + c * 0x800 + b * 32 + a * 2, 0x1000)
  {
    hide Fields;
    PiecesOf(0x63, a * 2 + c, f3, rs1, rs2, d * 64 + b);
    Unpack(a, c, 2, a * 2 + c);
    Unpack(d, b, 64, d * 64 + b);
  }

  lemma ImmUOf(u: int, op: int, rd: Reg)
    requires 0 <= u < 0x10_0000 && 0 <= op < 128
    ensures ImmU(Fields(op, rd, u % 8, u / 8 % 32, u / 256 % 32, u / 0x2000)) == Sext(u * 0x1000, 0x8000_0000)
  {
    Digit(u, 8, 32);
    Digit(u, 256, 32);
    UpperImm(u, op, rd, u % 8, u / 8 % 32, u / 256 % 32, u / 0x2000);
  }

  lemma UpperImm(u: int, op: int, rd: Reg, f3: int, rs1: Reg, rs2: Reg, f7: int)
    requires 0 <= u < 0x10_0000 && 0 <= op < 128 && 0 <= f3 < 8 && 0 <= f7 < 128
    requires u == f3 + 8 * rs1 + 256 * rs2 + 0x2000 * f7
    ensures ImmU(Fields(op, rd, f3, rs1, rs2, f7)) == Sext(u * 0x1000, 0x8000_0000)
  {
    var w := Fields(op, rd, f3, rs1, rs2, f7);
    Unpack(u, op + 0x80 * rd, 0x1000, w);
  }

  lemma ImmIOf(u: int, op: int, rd: Reg, f3: int, rs1: Reg)
    requires 0 <= u < 0x1000 && 0 <= op < 128 && 0 <= f3 < 8
    ensures ImmI(Fields(op, rd, f3, rs1, u % 32, u / 32)) == Sext(u, 0x800)
    ensures ImmS(Fields(op, u % 32, f3, rs1, rd, u / 32)) == Sext(u, 0x800)
  {
    FieldsOf(op, rd, f3, rs1, u % 32, u / 32);
    FieldsOf(op, u % 32, f3, rs1, rd, u / 32);
  }

  lemma SignBack(imm: int, sign: int)
    requires sign > 0 && -sign <= imm < sign
    ensures Sext(Unsigned(imm, 2 * sign), sign) == imm && 0 <= Unsigned(imm, 2 * sign) < 2 * sign
  {
  }

  /** Decoding an assembled instruction gives it back, for every encodable one. */
  lemma DecodeAssembled(a: Asm)
    requires Encodable(a)
    ensures View(Decode(Assemble(a))) == Some(a)
  {
    hide Decode, View, Assemble, Encodable;
    if a.AsmLui? || a.AsmAuipc? { UpperAssembled(a); }
    else if a.AsmJal? { JalAssembled(a); }
    else if a.AsmBranch? { BranchAssembled(a); }
    else if a.AsmReg? || a.AsmRegW? { RegAssembled(a); }
    else if a.AsmShift? || a.AsmShiftW? { ShiftAssembled(a); }
    else if a.AsmFence? || a.AsmFenceI? || a.AsmEcall? || a.AsmEbreak? { FixedAssembled(a); }
    else { ShortAssembled(a); }
  }

  lemma FixedAssembled(a: Asm)
    requires a.AsmFence? || a.AsmFenceI? || a.AsmEcall? || a.AsmEbreak?
    ensures Encodable(a) && View(Decode(Assemble(a))) == Some(a)
  {
    hide Decode;
    FixedWords();
  }

  lemma FixedWords()
    ensures Decode(0x0f).cls.Fence? && Decode(0x100f).cls.FenceI? && Decode(0x73).cls.Ecall? && Decode(0x10_0073).cls.Ebreak?
  {
    hide Blank, DecodeBranch, DecodeAluImm, DecodeAluImmW, DecodeAluReg, DecodeAluRegW, ImmI, ImmS, ImmU, ImmJ, ImmB;
  }

  lemma RegAssembled(a: Asm)
    requires Encodable(a) && (a.AsmReg? || a.AsmRegW?)
    ensures View(Decode(Assemble(a))) == Some(a)
  {
    hide Fields, Decode, DecodeAluReg, DecodeAluRegW;
    var op := if a.AsmReg? then 0x33 else 0x3b;
    RegFields(op, a.op, a.rd, a.rs1, a.rs2);
    RegOpBack(a.op, a.rd, a.rs1, a.rs2);
  }

  lemma RegFields(op: int, f: AluOp, rd: Reg, rs1: Reg, rs2: Reg)
    requires op == 0x33 || op == 0x3b
    ensures 0 <= RegF3(f) < 8 && 0 <= RegF7(f) < 128
    ensures var out := Insn(Invalid, rd, rs1, rs2, 0, Beq, 0, Add, false);
            Decode(Fields(op, rd, RegF3(f), rs1, rs2, RegF7(f))) ==
            if op == 0x33 then DecodeAluReg(out, RegF3(f), RegF7(f)) else DecodeAluRegW(out.(wordOp := true), RegF3(f), RegF7(f))
  {
    hide Fields, DecodeAluReg, DecodeAluRegW;
    assert 0 <= RegF3(f) < 8 && 0 <= RegF7(f) < 128;
    hide RegF3, RegF7;
    FieldsOf(op, rd, RegF3(f), rs1, rs2, RegF7(f));
  }

  lemma RegOpBack(f: AluOp, rd: Reg, rs1: Reg, rs2: Reg)
    ensures var out := Insn(Invalid, rd, rs1, rs2, 0, Beq, 0, Add, false);
            && View(DecodeAluReg(out, RegF3(f), RegF7(f))) == Some(AsmReg(f, rd, rs1, rs2))
            && (Encodable(AsmRegW(f, rd, rs1, rs2)) ==>
                  View(DecodeAluRegW(out.(wordOp := true), RegF3(f), RegF7(f))) == Some(AsmRegW(f, rd, rs1, rs2)))
  {
  }

  lemma ShiftAssembled(a: Asm)
    requires Encodable(a) && (a.AsmShift? || a.AsmShiftW?)
    ensures View(Decode(Assemble(a))) == Some(a)
  {
    hide Fields, Decode, View;
    if a.AsmShift? {
      ShiftFields(0x13, a.op, a.rd, a.rs1, a.imm % 32, a.imm / 32);
    } else {
      ShiftFields(0x1b, a.op, a.rd, a.rs1, a.imm, 0);
    }
  }

  lemma ShiftFields(op: int, f: AluOp, rd: Reg, rs1: Reg, lo: int, hi: int)
    requires IsShift(f) && 0 <= lo < 32 && 0 <= hi < 2 && (op == 0x13 || (op == 0x1b && hi == 0))
    ensures 0 <= RegF3(f) < 8 && 0 <= RegF7(f) + hi < 128
    ensures View(Decode(Fields(op, rd, RegF3(f), rs1, lo, RegF7(f) + hi))) ==
            Some(if op == 0x13 then AsmShift(f, rd, rs1, lo + 32 * hi) else AsmShiftW(f, rd, rs1, lo))
  {
    hide Fields, Decode, View;
    var f7 := RegF7(f) + hi;
    ShiftF7(f, hi);
    hide RegF3, RegF7;
    PiecesOf(op, rd, RegF3(f), rs1, lo, f7);
    FieldsOf(op, rd, RegF3(f), rs1, lo, f7);
    var w := Fields(op, rd, RegF3(f), rs1, lo, f7);
    ShiftOf(op, w, f, rd, rs1, lo, hi);
  }

  lemma ShiftF7(f: AluOp, hi: int)
    requires IsShift(f) && 0 <= hi < 2
    ensures var f7 := RegF7(f) + hi;
            0 <= f7 < 128 && f7 % 2 == hi && f7 / 32 % 2 == (if f == Sra then 1 else 0) && 0 <= RegF3(f) < 8
  {
  }

  lemma ShiftOf(op: int, w: u32, f: AluOp, rd: Reg, rs1: Reg, lo: int, hi: int)
    requires IsShift(f) && (op == 0x13 || op == 0x1b) && w % 128 == op && w % 4 == 3 && w / 0x80 % 32 == rd && w / 0x8000 % 32 == rs1
    requires w / 0x1000 % 8 == RegF3(f) && w / 0x4000_0000 % 2 == (if f == Sra then 1 else 0)
    requires w / 0x10_0000 % 64 == lo + 32 * hi && w / 0x10_0000 % 32 == lo
    ensures View(Decode(w)) == Some(if op == 0x13 then AsmShift(f, rd, rs1, lo + 32 * hi) else AsmShiftW(f, rd, rs1, lo))
  {
    hide ImmI;
  }

  lemma UpperAssembled(a: Asm)
    requires Encodable(a) && (a.AsmLui? || a.AsmAuipc?)
    ensures View(Decode(Assemble(a))) == Some(a)
  {
    hide Fields, ImmU, Unsigned;
    SignBack(a.imm, 0x8000_0000);
    var op := if a.AsmLui? then 0x37 else 0x17;
    var u := Unsigned(a.imm, 0x1_0000_0000) / 0x1000;
    assert Unsigned(a.imm, 0x1_0000_0000) == u * 0x1000 by { AlignedUnsigned(a.imm); }
    FieldsOf(op, a.rd, u % 8, u / 8 % 32, u / 256 % 32, u / 0x2000);
    ImmUOf(u, op, a.rd);
  }

  lemma AlignedUnsigned(imm: int)
    requires imm % 0x1000 == 0
    ensures Unsigned(imm, 0x1_0000_0000) % 0x1000 == 0
  {
  }

  lemma JalAssembled(a: Asm)
    requires Encodable(a) && a.AsmJal?
    ensures View(Decode(Assemble(a))) == Some(a)
  {
    hide Fields, ImmJ, Unsigned, Decode, View;
    SignBack(a.imm, 0x10_0000);
    var u := Unsigned(a.imm, 0x20_0000);
    assert u % 2 == 0 by { EvenUnsigned(a.imm); }
    JalFields(a.rd, u / 0x1000 % 8, u / 0x8000 % 32, u / 2 % 16 * 2 + u / 0x800 % 2, u / 0x10_0000 * 64 + u / 32 % 64);
    ImmJOf(u, a.rd);
  }

  lemma JalFields(rd: Reg, f3: int, rs1: Reg, rs2: Reg, f7: int)
    requires 0 <= f3 < 8 && 0 <= f7 < 128
    ensures var w := Fields(0x6f, rd, f3, rs1, rs2, f7); View(Decode(w)) == Some(AsmJal(rd, ImmJ(w)))
  {
    hide Fields, ImmJ;
    FieldsOf(0x6f, rd, f3, rs1, rs2, f7);
  }

  lemma BranchAssembled(a: Asm)
    requires Encodable(a) && a.AsmBranch?
    ensures View(Decode(Assemble(a))) == Some(a)
  {
    hide Fields, ImmB, Unsigned, Decode, BranchF3;
    SignBack(a.imm, 0x1000);
    var u := Unsigned(a.imm, 0x2000);
    assert u % 2 == 0 by { EvenUnsigned(a.imm); }
    BranchFields(a.kind, u / 2 % 16 * 2 + u / 0x800 % 2, a.rs1, a.rs2, u / 0x1000 * 64 + u / 32 % 64);
    ImmBOf(u, BranchF3(a.kind), a.rs1, a.rs2);
  }

  lemma BranchFields(k: BranchKind, rd: Reg, rs1: Reg, rs2: Reg, f7: int)
    requires 0 <= f7 < 128
    ensures 0 <= BranchF3(k) < 8
    ensures var w := Fields(0x63, rd, BranchF3(k), rs1, rs2, f7); View(Decode(w)) == Some(AsmBranch(k, rs1, rs2, ImmB(w)))
  {
    hide Fields, ImmB;
    FieldsOf(0x63, rd, BranchF3(k), rs1, rs2, f7);
  }

  lemma EvenUnsigned(imm: int)
    requires imm % 2 == 0
    ensures Unsigned(imm, 0x20_0000) % 2 == 0 && Unsigned(imm, 0x2000) % 2 == 0
  {
  }

  lemma ShortAssembled(a: Asm)
    requires Encodable(a) && (a.AsmJalr? || a.AsmLoad? || a.AsmStore? || a.AsmImm? || a.AsmAddiw?)
    ensures View(Decode(Assemble(a))) == Some(a)
  {
    hide Fields, Decode, ImmI, ImmS, Unsigned;
    SignBack(a.imm, 0x800);
    var u := Unsigned(a.imm, 0x1000);
    match a
    case AsmJalr(rd, rs1, imm) => ShortFields(0x67, rd, 0, rs1, u);
    case AsmLoad(width, rd, rs1, imm) => ShortFields(0x03, rd, width, rs1, u);
    case AsmStore(width, rs1, rs2, imm) => StoreFields(width, rs1, rs2, u);
    case AsmImm(op, rd, rs1, imm) => ShortFields(0x13, rd, RegF3(op), rs1, u); ImmOpBack(op);
    case AsmAddiw(rd, rs1, imm) => ShortFields(0x1b, rd, 0, rs1, u);
  }

  /** The operation an OP-IMM word with this funct3 names. */
  function ImmOp(f3: int): AluOp
  {
    if f3 == 0 then Add else if f3 == 2 then Slt else if f3 == 3 then Sltu else if f3 == 4 then Xor else if f3 == 6 then Or else And
  }

  lemma ImmOpBack(op: AluOp)
    requires op in {Add, Slt, Sltu, Xor, Or, And}
    ensures ImmOp(RegF3(op)) == op
  {
  }

  lemma ShortFields(op: int, rd: Reg, f3: int, rs1: Reg, u: int)
    requires op in {0x67, 0x03, 0x13, 0x1b} && 0 <= u < 0x1000
    requires op == 0x67 || op == 0x1b ==> f3 == 0
    requires op == 0x03 ==> 0 <= f3 <= 6
    requires op == 0x13 ==> f3 in {0, 2, 3, 4, 6, 7}
    ensures 0 <= f3 < 8
    ensures var w, imm := Fields(op, rd, f3, rs1, u % 32, u / 32), Sext(u, 0x800);
            View(Decode(w)) == Some(if op == 0x67 then AsmJalr(rd, rs1, imm) else if op == 0x03 then AsmLoad(f3, rd, rs1, imm)
                                    else if op == 0x13 then AsmImm(ImmOp(f3), rd, rs1, imm) else AsmAddiw(rd, rs1, imm))
  {
    hide Fields, ImmI, Sext;
    FieldsOf(op, rd, f3, rs1, u % 32, u / 32);
    ImmIOf(u, op, rd, f3, rs1);
  }

  lemma StoreFields(width: nat, rs1: Reg, rs2: Reg, u: int)
    requires width <= 3 && 0 <= u < 0x1000
    ensures View(Decode(Fields(0x23, u % 32, width, rs1, rs2, u / 32))) == Some(AsmStore(width, rs1, rs2, Sext(u, 0x800)))
  {
    hide Fields, ImmS, Sext;
    FieldsOf(0x23, u % 32, width, rs1, rs2, u / 32);
    ImmIOf(u, 0x23, rs2, width, rs1);
  }
}
