/** What one step of the verifier checks and does, said of the instruction's fields and the
    registers: the exact condition under which each class passes, and what it leaves. */
module Discipline {
  import opened Basics
  import opened Words
  import opened Decoder
  import opened Tnums
  import opened Domain
  import opened Transfer
  import opened ControlFlow
  import opened Verify
  import opened Inclusion
  import opened Soundness
  import Rv64

  // ----- which words are let in -----

  /** A word is of a permitted class exactly when it reads as an instruction other than
      ebreak and fence.i. */
  lemma PermittedIff(w: u32)
    ensures Permitted(Decode(w).cls) <==>
            View(Decode(w)).Some? && !View(Decode(w)).value.AsmEbreak? && !View(Decode(w)).value.AsmFenceI?
  {
    hide Decode;
  }

  /** rdcycle a0, mret, ebreak, fence.i, fadd.s and a compressed word: none is let in. */
  lemma ForbiddenWords(x: seq<RVal>, c: Config)
    requires |x| == 32
    ensures forall w :: w in {0xc000_2573, 0x3020_0073, 0x10_0073, 0x100f, 0x53, 0x1} ==> Rejects(Decode(w), x, c) == 1
  {
    CsrWord(); MretWord(); FloatWord(); ShortWord(); FixedWords();
  }

  lemma CsrWord() ensures Decode(0xc000_2573).cls.Csr? {}
  lemma MretWord() ensures Decode(0x3020_0073).cls.Priv? {}
  lemma FloatWord() ensures Decode(0x53).cls.Float? {}
  lemma ShortWord() ensures Decode(0x1).cls.Unsupported? {}

  // ----- accesses -----

  /** A load or store passes exactly when its base is a pointer, a stack-tracked base keeps
      all the bytes of the access inside the frame, and a load does not target sp. */
  lemma AccessDiscipline(i: Insn, x: seq<RVal>, c: Config)
    requires |x| == 32 && Ranged(i) && (i.cls.Load? || i.cls.Store?)
    ensures Rejects(i, x, c) == 0 <==>
            && (x[i.rs1].PtrCtx? || x[i.rs1].PtrStack? || x[i.rs1].PtrHelperRet?)
            && (x[i.rs1].PtrStack? ==>
                  x[i.rs1].lo + i.imm >= -(c.maxStack as int) && x[i.rs1].hi + i.imm + Rv64.AccessBytes(i.width) <= 0)
            && (i.cls.Load? ==> i.rd != 2)
  {
    hide LoadWidth, StoreWidth, Rv64.AccessBytes;
    WidthOf(i);
  }

  // ----- writes to sp, and pointer arithmetic -----

  /** An immediate operation passes exactly when it does not write sp, or moves sp by an
      immediate: within the frame, where sp is stack-tracked. */
  lemma ImmDiscipline(i: Insn, x: seq<RVal>, c: Config)
    requires |x| == 32 && i.cls.AluImm?
    ensures Rejects(i, x, c) == 0 <==>
            || i.rd != 2
            || (i.aluOp.Add? && i.rs1 == 2 &&
                match x[2]
                case PtrStack(lo, hi) => lo + i.imm >= -(c.maxStack as int) && hi + i.imm <= 0
                case PtrCtx(_, _) => true
                case _ => false)
  {
  }

  /** A register operation passes exactly when it does not write sp and not both operands
      are pointers. */
  lemma RegDiscipline(i: Insn, x: seq<RVal>, c: Config)
    requires |x| == 32 && i.cls.AluReg?
    ensures var p1, p2 := x[i.rs1], x[i.rs2];
            Rejects(i, x, c) == 0 <==>
              && i.rd != 2
              && !((p1.PtrCtx? || p1.PtrStack? || p1.PtrHelperRet?) && (p2.PtrCtx? || p2.PtrStack? || p2.PtrHelperRet?))
  {
  }

  /** lui, auipc and jal pass exactly when they do not write sp; branches, fences, shifts,
      multiplications, divisions and the word forms always pass. */
  lemma OtherDiscipline(i: Insn, x: seq<RVal>, c: Config)
    requires |x| == 32
    ensures i.cls.Lui? || i.cls.Auipc? || i.cls.Jal? ==> (Rejects(i, x, c) == 0 <==> i.rd != 2)
    ensures i.cls.Branch? || i.cls.Fence? || i.cls.ShiftImm? || i.cls.AluImmW? || i.cls.AluRegW? || i.cls.Mul? || i.cls.Div? ==> Rejects(i, x, c) == 0
  {
  }

  // ----- what a step leaves -----

  predicate OnlyAt(x: seq<RVal>, y: seq<RVal>, rd: Reg)
  {
    |x| == |y| == 32 && y[0] == x[0] && forall k :: 0 <= k < 32 && k != rd ==> y[k] == x[k]
  }

  /** Exactly the word v. */
  predicate IsWord(r: RVal, v: i64)
  {
    r.Num? && r.s.smin == r.s.smax == v && r.s.umin == r.s.umax == Wrap64(v) && r.s.tn == Tnum(Wrap64(v), 0)
  }

  ghost predicate Unknown(r: RVal) { r.Num? && SaysNothing(r.s) }

  lemma TopUnknown()
    ensures Unknown(NumTop())
  {
    TopWf();
    TopSaysNothing(ScalarTop());
  }

  /** addi: a constant from x0, the sum for a scalar, the offset moved for a context or
      stack pointer, unknown otherwise. */
  lemma AddiEffect(i: Insn, x: seq<RVal>, c: Config)
    requires |x| == 32 && i.cls.AluImm? && i.aluOp.Add? && Rejects(i, x, c) == 0
    ensures var y := Regs(i, x, c);
            && OnlyAt(x, y, i.rd)
            && (i.rd != 0 ==>
                  if i.rs1 == 0 then IsWord(y[i.rd], i.imm)
                  else match x[i.rs1]
                    case PtrStack(lo, hi) => y[i.rd] == PtrStack(lo + i.imm, hi + i.imm)
                    case PtrCtx(lo, hi) => y[i.rd] == PtrCtx(lo + i.imm, hi + i.imm)
                    case Num(s) => y[i.rd] == Num(ScalarAdd(s, ScalarConst(i.imm)))
                    case _ => Unknown(y[i.rd]))
  {
    hide SaysNothing, ScalarAdd;
    TopUnknown();
  }

  /** A register operation on a pointer keeps its kind and forgets the offset up to 2^30
      either way; on scalars the result is unknown. */
  lemma RegEffect(i: Insn, x: seq<RVal>, c: Config)
    requires |x| == 32 && i.cls.AluReg? && Rejects(i, x, c) == 0
    ensures var y := Regs(i, x, c);
            && OnlyAt(x, y, i.rd)
            && (i.rd != 0 ==>
                  && (x[i.rs1].PtrStack? || x[i.rs2].PtrStack? ==> y[i.rd] == PtrStack(-0x4000_0000, 0x4000_0000))
                  && (x[i.rs1].PtrCtx? || x[i.rs2].PtrCtx? ==> y[i.rd] == PtrCtx(-0x4000_0000, 0x4000_0000))
                  && (x[i.rs1].PtrHelperRet? ==> y[i.rd] == x[i.rs1]) && (x[i.rs2].PtrHelperRet? ==> y[i.rd] == x[i.rs2])
                  && (y[i.rd].Num? ==> Unknown(y[i.rd])) && !y[i.rd].Uninit? && !y[i.rd].PtrKfuncSlot?)
  {
    hide SaysNothing;
    TopUnknown();
  }

  /** lui gives its immediate; loads, auipc, links and every other operation something
      unknown; stores, branches and jalr leave all registers. */
  lemma OtherEffect(i: Insn, x: seq<RVal>, c: Config)
    requires |x| == 32 && Permitted(i.cls) && Rejects(i, x, c) == 0 && !i.cls.Ecall? && !i.cls.AluReg? && !(i.cls.AluImm? && i.aluOp.Add?)
    ensures var y := Regs(i, x, c);
            if i.cls.Store? || i.cls.Branch? || i.cls.Jalr? then y == x
            else
              && OnlyAt(x, y, i.rd)
              && (i.rd != 0 ==> if i.cls.Lui? then IsWord(y[i.rd], i.imm) else Unknown(y[i.rd]))
  {
    hide SaysNothing;
    TopUnknown();
  }

  /** A call empties the registers that calls do not preserve, keeps the others, and puts
      into a0 the resolved slot, the helper's result, or something unknown. */
  lemma CallEffect(i: Insn, x: seq<RVal>, c: Config)
    requires |x| == 32 && i.cls.Ecall? && Rejects(i, x, c) == 0
    ensures var y, id := Regs(i, x, c), x[17].s.tn.value % 0x1_0000_0000;
            && |y| == 32
            && (forall k :: 0 <= k < 32 && k != 10 ==> y[k] == if Rv64.LostInCall(k) then Uninit else x[k])
            && (if id == 0x143 then y[10] == PtrKfuncSlot(x[10].s.tn.value % 0x1_0000_0000)
                else if id == 0x144 then Unknown(y[10])
                else y[10] == PtrHelperRet(id))
  {
    hide SaysNothing, Allowed, ScalarIsConst;
    TopUnknown();
  }

  /** A call of the loop-bound helper leaves its trip count pending, or 2^32 - 1 if that is
      unknown; a loop over a callback its count; every other instruction what was pending. */
  lemma PendingEffect(i: Insn, x: seq<RVal>, c: Config, p: u32)
    requires |x| == 32 && (i.cls.Ecall? ==> Rejects(i, x, c) == 0)
    ensures Pending(i, x, c, p) ==
            if i.cls.Ecall? && x[17].s.tn.value % 0x1_0000_0000 == 0x142 then
              (if IsConstNum(x[10]) then x[10].s.tn.value % 0x1_0000_0000 else 0xffff_ffff)
            else if i.cls.Ecall? && x[17].s.tn.value % 0x1_0000_0000 == 0x144 then x[10].s.tn.value % 0x1_0000_0000
            else p
    ensures i.cls.Ecall? && x[17].s.tn.value % 0x1_0000_0000 == 0x142 && (!IsConstNum(x[10]) || x[10].s.tn.value % 0x1_0000_0000 != 0) ==>
              Pending(i, x, c, p) != 0
  {
    hide Allowed, ScalarIsConst;
  }

  /** A register is a known number exactly when its tnum has no unknown bit and its signed
      range is a point. */
  lemma ConstIff(v: RVal)
    ensures IsConstNum(v) <==> v.Num? && v.s.tn.mask == 0 && v.s.smin == v.s.smax
  {
  }

  // ----- configuration -----

  /** Id k of an allow list is bit k % 8, from the low end, of byte k / 8; ids from 4096 on
      are not on it. */
  lemma AllowedIff(m: AllowMap, id: u32)
    ensures Allowed(m, id) <==> id < 4096 && ShiftRight(m[id / 8], id % 8) % 2 == 1
  {
    if id < 4096 { BitShiftRight(m[id / 8], id % 8, ShiftRight(m[id / 8], id % 8), 0); }
  }

  /** The entry state: x0 = 0, sp at the top of the frame, the context in a0; in a callback
      body the context in a1 and a non-negative index in a0; nothing else written. */
  lemma EntryState(c: Config)
    ensures var x := InitRegs(c);
            && |x| == 32 && IsWord(x[0], 0) && x[2] == PtrStack(0, 0)
            && (!c.isCallback ==> x[10] == PtrCtx(0, 0) && x[11].Uninit?)
            && (c.isCallback ==> x[11] == PtrCtx(0, 0) && x[10].Num? && x[10].s.smin == 0 && x[10].s.smax == 0x7fff_ffff_ffff_ffff)
            && forall k :: 0 <= k < 32 && k !in {0, 2, 10, 11} ==> x[k].Uninit?
    ensures c.stepCap == 0 ==> StepCap(c) == 1048576
    ensures c.stepCap != 0 ==> StepCap(c) == c.stepCap
  {
    assert InitRegs(c)[0] == NumConst(0);
  }

  /** So a load through the context pointer passes at the entry. */
  lemma ContextLoadPasses(i: Insn, c: Config)
    requires i.cls.Load? && i.rd != 2 && Ranged(i) && i.rs1 == if c.isCallback then 11 else 10
    ensures |InitRegs(c)| == 32 && Rejects(i, InitRegs(c), c) == 0
  {
    hide InitRegs, Rejects;
    EntryState(c);
    AccessDiscipline(i, InitRegs(c), c);
  }
}
