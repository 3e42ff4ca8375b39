/** The per-instruction transfer function `step_insn` (tools/merlin-verifier/verify.c).

    Three declarative functions say what one instruction does to the registers, how
    many rejections it raises, and which loop bound it leaves pending; the method
    `StepInsn` interleaves all three in the order of the source. */
module Transfer {
  import opened Words
  import opened Decoder
  import opened Tnums
  import opened Domain

  const NR_IDS: int := 4096
  const HELPER_LOOP_BOUND: int := 0x142
  const HELPER_KFUNC_RESOLVE: int := 0x143
  const HELPER_LOOP_CB: int := 0x144
  const SPAN: int := 0x4000_0000

  /** A bitmap of 4096 ids, eight to the byte. */
  type AllowMap = m: seq<u8> | |m| == 512 witness seq(512, _ => 0)

  predicate Allowed(m: AllowMap, id: u32) { id < NR_IDS && Bit(m[id / 8], id % 8) }

  datatype Config = Config(helpers: AllowMap, kfuncs: AllowMap, callbacks: AllowMap,
                           maxStack: u32, isCallback: bool, stepCap: u32)

  predicate IsPtr(v: RVal) { v.PtrCtx? || v.PtrStack? || v.PtrHelperRet? }
  predicate IsConstNum(v: RVal) { v.Num? && ScalarIsConst(v.s) }

  /** The constant as the code reads it: the low 32 bits of the tnum's value. */
  function ConstId(v: RVal): u32
    requires v.Num?
  {
    v.s.tn.value % 0x1_0000_0000
  }

  function LoadWidth(k: nat): int { if k == 0 || k == 4 then 1 else if k == 1 || k == 5 then 2 else if k == 2 || k == 6 then 4 else if k == 3 then 8 else 0 }
  function StoreWidth(k: nat): int { if k == 0 then 1 else if k == 1 then 2 else if k == 2 then 4 else if k == 3 then 8 else 0 }

  function One(b: bool): nat { if b then 1 else 0 }

  // ----- rejections -----

  /** The access window of a stack pointer leaves [-maxStack, 0). */
  predicate OutOfFrame(v: RVal, imm: int, width: int, c: Config)
    requires v.PtrStack?
  {
    v.lo + imm + c.maxStack < 0 || v.hi + imm + width > 0
  }

  predicate BadAccess(v: RVal, imm: int, width: int, c: Config)
  {
    !IsPtr(v) || (v.PtrStack? && OutOfFrame(v, imm, width, c))
  }

  function AddiRejects(i: Insn, src: RVal, c: Config): nat
  {
    if i.rd != 2 then 0
    else if i.rs1 != 2 then 1
    else match src
      case PtrStack(lo, hi) => One(lo + i.imm + c.maxStack < 0) + One(hi + i.imm > 0)
      case PtrCtx(_, _) => 0
      case _ => 1
  }

  predicate GoodCallId(x: seq<RVal>, c: Config)
    requires |x| == 32
  {
    IsConstNum(x[17]) && Allowed(c.helpers, ConstId(x[17]))
  }

  predicate GoodKfunc(x: seq<RVal>, c: Config)
    requires |x| == 32
  {
    IsConstNum(x[10]) && Allowed(c.kfuncs, ConstId(x[10]))
  }

  predicate GoodLoopCb(x: seq<RVal>, c: Config)
    requires |x| == 32
  {
    IsConstNum(x[10]) && x[10].s.smin >= 1 && IsConstNum(x[11]) && Allowed(c.callbacks, ConstId(x[11]))
  }

  function EcallRejects(x: seq<RVal>, c: Config): nat
    requires |x| == 32
  {
    if !GoodCallId(x, c) then 1
    else if ConstId(x[17]) == HELPER_KFUNC_RESOLVE then One(!GoodKfunc(x, c))
    else if ConstId(x[17]) == HELPER_LOOP_CB then One(!GoodLoopCb(x, c))
    else 0
  }

  /** How many times instruction i is rejected in state x. */
  function Rejects(i: Insn, x: seq<RVal>, c: Config): nat
    requires |x| == 32
  {
    if !Permitted(i.cls) then 1
    else match i.cls
      case Ecall => EcallRejects(x, c)
      case Load => One(BadAccess(x[i.rs1], i.imm, LoadWidth(i.width), c)) + One(i.rd == 2)
      case Store => One(BadAccess(x[i.rs1], i.imm, StoreWidth(i.width), c))
      case AluImm => if i.aluOp.Add? then AddiRejects(i, x[i.rs1], c) else One(i.rd == 2)
      case AluReg => One(IsPtr(x[i.rs1]) && IsPtr(x[i.rs2])) + One(i.rd == 2)
      case Lui => One(i.rd == 2)
      case Auipc => One(i.rd == 2)
      case Jal => One(i.rd == 2)
      case Jalr => One(i.rs1 != 1 && !(x[i.rs1].PtrKfuncSlot? && Allowed(c.kfuncs, x[i.rs1].id)))
      case _ => 0
  }

  // ----- registers -----

  /** Writes to x0 are ignored. */
  function Write(x: seq<RVal>, rd: Reg, v: RVal): seq<RVal>
    requires |x| == 32
  {
    if rd == 0 then x else x[rd := v]
  }

  predicate CallerSaved(r: int) { 11 <= r <= 17 || 5 <= r <= 7 || 28 <= r <= 31 }

  function Clobber(x: seq<RVal>): (y: seq<RVal>)
    requires |x| == 32
    ensures |y| == 32
  {
    seq(32, r requires 0 <= r < 32 => if CallerSaved(r) then Uninit else x[r])
  }

  function EcallRegs(x: seq<RVal>, c: Config): (y: seq<RVal>)
    requires |x| == 32
  {
    if !GoodCallId(x, c) then x[10 := NumTop()]
    else if ConstId(x[17]) == HELPER_KFUNC_RESOLVE then
      Clobber(x)[10 := if GoodKfunc(x, c) then PtrKfuncSlot(ConstId(x[10])) else NumTop()]
    else if ConstId(x[17]) == HELPER_LOOP_CB then Clobber(x)[10 := NumTop()]
    else Clobber(x)[10 := PtrHelperRet(ConstId(x[17]))]
  }

  function Shift(v: RVal, imm: int): RVal
    requires v.PtrCtx? || v.PtrStack?
  {
    if v.PtrCtx? then PtrCtx(v.lo + imm, v.hi + imm) else PtrStack(v.lo + imm, v.hi + imm)
  }

  function AddiValue(i: Insn, src: RVal): RVal
  {
    if i.rd == 2 && i.rs1 != 2 then NumTop()
    else if i.rs1 == 0 then NumConst(i.imm)
    else match src
      case Num(s) => if i.rd == 2 then NumTop() else Num(ScalarAdd(s, ScalarConst(i.imm)))
      case PtrCtx(_, _) => Shift(src, i.imm)
      case PtrStack(_, _) => Shift(src, i.imm)
      case _ => NumTop()
  }

  /** Pointer arithmetic with an unknown scalar keeps the kind and forgets the offset. */
  function Spread(v: RVal): RVal
  {
    match v
    case PtrCtx(_, _) => PtrCtx(-SPAN, SPAN)
    case PtrStack(_, _) => PtrStack(-SPAN, SPAN)
    case _ => v
  }

  function RegValue(i: Insn, a: RVal, b: RVal): RVal
  {
    if i.rd == 2 then NumTop() else if IsPtr(a) then Spread(a) else if IsPtr(b) then Spread(b) else NumTop()
  }

  /** The registers after instruction i. */
  function Regs(i: Insn, x: seq<RVal>, c: Config): (y: seq<RVal>)
    requires |x| == 32
    ensures |y| == 32
  {
    if !Permitted(i.cls) then x
    else match i.cls
      case Ecall => EcallRegs(x, c)
      case AluImm => Write(x, i.rd, if i.aluOp.Add? then AddiValue(i, x[i.rs1]) else NumTop())
      case AluReg => Write(x, i.rd, RegValue(i, x[i.rs1], x[i.rs2]))
      case Lui => Write(x, i.rd, if i.rd == 2 then NumTop() else NumConst(i.imm))
      case Store => x
      case Branch => x
      case Jalr => x
      case _ => Write(x, i.rd, NumTop())
  }

  /** The pending loop bound after instruction i. */
  function Pending(i: Insn, x: seq<RVal>, c: Config, pending: u32): u32
    requires |x| == 32
  {
    if !i.cls.Ecall? || !GoodCallId(x, c) then pending
    else if ConstId(x[17]) == HELPER_LOOP_BOUND then (if IsConstNum(x[10]) then ConstId(x[10]) else 0xffff_ffff)
    else if ConstId(x[17]) == HELPER_LOOP_CB && GoodLoopCb(x, c) then ConstId(x[10])
    else pending
  }

  // ----- the imperative step -----

  method ClobberCallerSaved(st: array<RVal>)
    requires st.Length == 32
    modifies st
    ensures st[..] == Clobber(old(st[..]))
  {
    ghost var x := st[..];
    for r := 11 to 18
      invariant forall k :: 0 <= k < 32 ==> st[k] == if 11 <= k < r then Uninit else x[k]
    {
      st[r] := Uninit;
    }
    for r := 5 to 8
      invariant forall k :: 0 <= k < 32 ==> st[k] == if 11 <= k < 18 || 5 <= k < r then Uninit else x[k]
    {
      st[r] := Uninit;
    }
    for r := 28 to 32
      invariant forall k :: 0 <= k < 32 ==> st[k] == if 11 <= k < 18 || 5 <= k < 8 || 28 <= k < r then Uninit else x[k]
    {
      st[r] := Uninit;
    }
  }

  method StepEcall(st: array<RVal>, c: Config, pending: u32) returns (rejected: nat, pending': u32)
    requires st.Length == 32
    modifies st
    ensures st[..] == EcallRegs(old(st[..]), c)
    ensures rejected == EcallRejects(old(st[..]), c)
    ensures forall i: Insn :: i.cls.Ecall? ==> pending' == Pending(i, old(st[..]), c, pending)
  {
    hide Allowed, Clobber, ScalarIsConst;
    rejected, pending' := 0, pending;
    var a7 := st[17];
    if !IsConstNum(a7) {
      st[10] := NumTop();
      return 1, pending;
    }
    var hid := ConstId(a7);
    if !Allowed(c.helpers, hid) {
      st[10] := NumTop();
      return 1, pending;
    }
    var a0, a1 := st[10], st[11];
    if hid == HELPER_LOOP_BOUND {
      pending' := if IsConstNum(a0) then ConstId(a0) else 0xffff_ffff;
    }
    if hid == HELPER_KFUNC_RESOLVE {
      var v := NumTop();
      if !IsConstNum(a0) {
        rejected := 1;
      } else if !Allowed(c.kfuncs, ConstId(a0)) {
        rejected := 1;
      } else {
        v := PtrKfuncSlot(ConstId(a0));
      }
      ClobberCallerSaved(st);
      st[10] := v;
      return;
    }
    if hid == HELPER_LOOP_CB {
      if !IsConstNum(a0) || a0.s.smin < 1 {
        rejected := 1;
      } else if !IsConstNum(a1) {
        rejected := 1;
      } else if !Allowed(c.callbacks, ConstId(a1)) {
        rejected := 1;
      } else {
        pending' := ConstId(a0);
      }
      ClobberCallerSaved(st);
      st[10] := NumTop();
      return;
    }
    ClobberCallerSaved(st);
    st[10] := PtrHelperRet(hid);
  }

  method StepAddi(i: Insn, st: array<RVal>, c: Config) returns (rejected: nat)
    requires st.Length == 32
    modifies st
    ensures st[..] == Write(old(st[..]), i.rd, AddiValue(i, old(st[i.rs1])))
    ensures rejected == AddiRejects(i, old(st[i.rs1]), c)
  {
    rejected := 0;
    var src := st[i.rs1];
    if i.rs1 == 0 {
      if i.rd == 2 {
        st[2] := NumTop();
        return 1;
      }
      if i.rd != 0 { st[i.rd] := NumConst(i.imm); }
      return;
    }
    if i.rd == 2 && i.rs1 != 2 {
      st[2] := NumTop();
      return 1;
    }
    if src.Num? {
      if i.rd == 2 {
        st[2] := NumTop();
        return 1;
      }
      if i.rd != 0 { st[i.rd] := Num(ScalarAdd(src.s, ScalarConst(i.imm))); }
      return;
    }
    if src.PtrCtx? || src.PtrStack? {
      if i.rd != 0 {
        var r := Shift(src, i.imm);
        if i.rd == 2 && src.PtrStack? {
          if r.lo + c.maxStack < 0 { rejected := rejected + 1; }
          if r.hi > 0 { rejected := rejected + 1; }
        }
        st[i.rd] := r;
      }
      return;
    }
    if i.rd == 2 {
      st[2] := NumTop();
      return 1;
    }
    if i.rd != 0 { st[i.rd] := NumTop(); }
  }

  method StepInsn(i: Insn, st: array<RVal>, c: Config, pending: u32) returns (rejected: nat, pending': u32)
    requires st.Length == 32
    modifies st
    ensures st[..] == Regs(i, old(st[..]), c)
    ensures rejected == Rejects(i, old(st[..]), c) <= 2
    ensures pending' == Pending(i, old(st[..]), c, pending)
  {
    hide Allowed, Clobber, ScalarIsConst, ScalarAdd, EcallRegs;
    rejected, pending' := 0, pending;
    if !Permitted(i.cls) {
      return 1, pending;
    }
    if i.cls.Ecall? {
      rejected, pending' := StepEcall(st, c, pending);
      return;
    }
    if i.cls.Load? {
      if BadAccess(st[i.rs1], i.imm, LoadWidth(i.width), c) { rejected := 1; }
      if i.rd == 2 {
        st[2] := NumTop();
        rejected := rejected + 1;
        return;
      }
      if i.rd != 0 { st[i.rd] := NumTop(); }
      return;
    }
    if i.cls.Store? {
      if BadAccess(st[i.rs1], i.imm, StoreWidth(i.width), c) { rejected := 1; }
      return;
    }
    if i.cls.AluImm? && i.aluOp.Add? {
      rejected := StepAddi(i, st, c);
      return;
    }
    if i.cls.AluReg? {
      var p1, p2 := IsPtr(st[i.rs1]), IsPtr(st[i.rs2]);
      if p1 && p2 { rejected := 1; }
      if i.rd == 2 {
        st[2] := NumTop();
        rejected := rejected + 1;
        return;
      }
      if i.rd != 0 {
        if p1 || p2 {
          st[i.rd] := Spread(if p1 then st[i.rs1] else st[i.rs2]);
        } else {
          st[i.rd] := NumTop();
        }
      }
      return;
    }
    if i.cls.Branch? {
      return;
    }
    if i.cls.Jalr? {
      var tgt := st[i.rs1];
      var isReturn := i.rs1 == 1;
      var isKfunc := tgt.PtrKfuncSlot? && Allowed(c.kfuncs, tgt.id);
      if !isReturn && !isKfunc { rejected := 1; }
      return;
    }
    if i.rd == 2 && (i.cls.AluImm? || i.cls.Lui? || i.cls.Auipc? || i.cls.Jal?) {
      st[2] := NumTop();
      return 1, pending;
    }
    if i.rd != 0 {
      st[i.rd] := if i.cls.Lui? then NumConst(i.imm) else NumTop();
    }
  }
}
