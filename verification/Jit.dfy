/** The RV64 to x86-64 translator (tools/merlin-jit-x86_64/jit.c) and its correctness:
    running the emitted bytes gives what interpreting the RISC-V text gives. */
module Jit {
  import opened Basics
  import opened Words
  import opened Decoder
  import opened ControlFlow
  import Rv64
  import X86
  import Emit

  const REGS_BYTES: int := 256

  // ----- translation -----

  function StoreTo(rd: Reg): seq<Emit.Op> { if rd == 0 then [] else [Emit.StoreRax(8 * rd)] }
  function LoadPair(rs1: Reg, rs2: Reg): seq<Emit.Op> { [Emit.LoadRax(8 * rs1), Emit.LoadRcx(8 * rs2)] }

  /** The code for one instruction; None where the prototype does not support it. */
  function OpsFor(i: Insn, tramp: u64): Option<seq<Emit.Op>>
  {
    match i.cls
    case AluImm =>
      if i.aluOp.Add? then Some([Emit.LoadRax(8 * i.rs1), Emit.AddRax(i.imm)] + StoreTo(i.rd)) else None
    case Lui => Some([Emit.MovRax(Wrap64(i.imm))] + StoreTo(i.rd))
    case AluReg =>
      (match i.aluOp
       case Add => Some(LoadPair(i.rs1, i.rs2) + [Emit.AddRaxRcx] + StoreTo(i.rd))
       case Sub => Some(LoadPair(i.rs1, i.rs2) + [Emit.SubRaxRcx] + StoreTo(i.rd))
       case Or => Some(LoadPair(i.rs1, i.rs2) + [Emit.OrRaxRcx] + StoreTo(i.rd))
       case And => Some(LoadPair(i.rs1, i.rs2) + [Emit.AndRaxRcx] + StoreTo(i.rd))
       case Xor => Some(LoadPair(i.rs1, i.rs2) + [Emit.XorRaxRcx] + StoreTo(i.rd))
       case _ => None)
    case Mul =>
      if i.aluOp.MulLow? then Some(LoadPair(i.rs1, i.rs2) + [Emit.ImulRaxRcx] + StoreTo(i.rd)) else None
    case ShiftImm =>
      (match i.aluOp
       case Sll => Some([Emit.LoadRax(8 * i.rs1), Emit.ShlRax(i.imm % 256)] + StoreTo(i.rd))
       case Srl => Some([Emit.LoadRax(8 * i.rs1), Emit.ShrRax(i.imm % 256)] + StoreTo(i.rd))
       case Sra => Some([Emit.LoadRax(8 * i.rs1), Emit.SarRax(i.imm % 256)] + StoreTo(i.rd))
       case _ => None)
    case Ecall => Some([Emit.MovRdiRbx, Emit.MovRax(tramp), Emit.CallRax])
    case Jalr => Some(Epilogue())
    case Fence => Some([])
    case _ => None
  }

  function ZeroStores(n: nat): seq<Emit.Op>
  {
    if n == 0 then [] else ZeroStores(n - 1) + [Emit.StoreRax(8 * (n - 1))]
  }

  function Prologue(): seq<Emit.Op>
  {
    [Emit.PushReg(X86.RBX), Emit.SubRsp(REGS_BYTES), Emit.MovRbxRsp, Emit.XorRaxRax] + ZeroStores(32) + [Emit.StoreRdi(80)]
  }

  function Epilogue(): seq<Emit.Op>
  {
    [Emit.LoadRax(80), Emit.AddRsp(REGS_BYTES), Emit.PopReg(X86.RBX), Emit.Ret]
  }

  /** The code from instruction k on: up to the first jalr, or to the end of the text. */
  function Body(text: seq<u8>, k: nat, tramp: u64): Option<seq<Emit.Op>>
    requires Words4(text) && k <= Count(text)
    decreases Count(text) - k
  {
    if k == Count(text) then Some(Epilogue())
    else
      var i := Ins(text, k);
      match OpsFor(i, tramp)
      case None => None
      case Some(ops) =>
        if i.cls.Jalr? then Some(ops)
        else match Body(text, k + 1, tramp)
          case None => None
          case Some(rest) => Some(ops + rest)
  }

  /** The translator: a linear pass over the text, appending to a growing buffer. */
  method Translate(text: seq<u8>, tramp: u64) returns (r: Option<seq<u8>>)
    ensures |text| == 0 || |text| % 4 != 0 ==> r.None?
    ensures Words4(text) && |text| > 0 ==>
              match Body(text, 0, tramp)
              case None => r.None?
              case Some(ops) => r == Some(Emit.Flatten(Prologue() + ops))
    ensures r.Some? <==> Words4(text) && |text| > 0 && AllSupported(text)
  {
    hide Prologue, Epilogue, OpsFor, Ins, Body, Prefixed, Emit.Flatten, Emit.Bytes, AllSupported;
    if |text| == 0 || |text| % 4 != 0 {
      return None;
    }
    SupportedIff(text, tramp);
    var buf := new Emit.EmitBuf(4096);
    ghost var done: seq<Emit.Op> := [];
    assert Emit.Flatten([]) == [] by { FlattenNone(); }
    EmitMore(buf, [], Prologue());
    assert [] + Prologue() == Prologue() + done;
    var sawRet := false;
    var k := 0;
    PrefixNone(Body(text, 0, tramp));
    while k < Count(text)
      invariant 0 <= k <= Count(text) && !sawRet
      invariant buf.Valid() && 0 < buf.buf.Length && fresh(buf) && fresh(buf.buf)
      invariant buf.Code() == Emit.Flatten(Prologue() + done)
      invariant Body(text, 0, tramp) == Prefixed(done, Body(text, k, tramp))
    {
      var i := Ins(text, k);
      var ops := OpsFor(i, tramp);
      BodyUnfold(text, k, tramp);
      if ops.None? {
        PrefixedValue(done, None);
        return None;
      }
      EmitMore(buf, Prologue() + done, ops.value);
      assert Prologue() + done + ops.value == Prologue() + (done + ops.value);
      if i.cls.Jalr? {
        sawRet := true;
        PrefixedValue(done, ops);
        done := done + ops.value;
        break;
      }
      PrefixTwice(done, ops.value, Body(text, k + 1, tramp));
      done := done + ops.value;
      k := k + 1;
    }
    if !sawRet {
      EmitMore(buf, Prologue() + done, Epilogue());
      assert Prologue() + done + Epilogue() == Prologue() + (done + Epilogue());
      BodyEnd(text, tramp);
      PrefixedValue(done, Some(Epilogue()));
    }
    r := Some(buf.buf[..buf.len]);
  }

  // ----- what is supported -----

  /** addi, lui, add, sub, or, and, xor, mul and mulw, slli, srli, srai, ecall, fence. */
  predicate Supported(i: Insn)
  {
    || (i.cls.AluImm? && i.aluOp == Add)
    || i.cls.Lui? || i.cls.Ecall? || i.cls.Fence?
    || (i.cls.AluReg? && i.aluOp in {Add, Sub, Or, And, Xor})
    || (i.cls.Mul? && i.aluOp == MulLow)
    || (i.cls.ShiftImm? && i.aluOp in {Sll, Srl, Sra})
  }

  /** Every instruction before the first jalr is supported. */
  ghost predicate AllSupported(text: seq<u8>)
    requires Words4(text)
  {
    forall k :: 0 <= k < Count(text) && Before(text, k) && !Ins(text, k).cls.Jalr? ==> Supported(Ins(text, k))
  }

  /** No jalr stands before instruction k. */
  ghost predicate Before(text: seq<u8>, k: int)
    requires Words4(text)
  {
    forall j :: 0 <= j < k && j < Count(text) ==> !Ins(text, j).cls.Jalr?
  }

  lemma OpsIff(i: Insn, tramp: u64)
    ensures OpsFor(i, tramp).Some? <==> i.cls.Jalr? || Supported(i)
  {
    hide Epilogue;
  }

  lemma {:induction false} BodyIff(text: seq<u8>, k: nat, tramp: u64)
    requires Words4(text) && k <= Count(text) && Before(text, k)
    ensures Body(text, k, tramp).Some? <==>
            forall j :: k <= j < Count(text) && Before(text, j) && !Ins(text, j).cls.Jalr? ==> Supported(Ins(text, j))
    decreases Count(text) - k
  {
    hide OpsFor, Ins, Supported, Epilogue;
    if k < Count(text) {
      BodyUnfold(text, k, tramp);
      OpsIff(Ins(text, k), tramp);
      if Ins(text, k).cls.Jalr? {
        assert forall j :: k < j ==> !Before(text, j);
      } else {
        BodyIff(text, k + 1, tramp);
      }
    }
  }

  lemma SupportedIff(text: seq<u8>, tramp: u64)
    requires Words4(text)
    ensures Body(text, 0, tramp).Some? <==> AllSupported(text)
  {
    hide OpsFor, Ins, Supported, Body;
    BodyIff(text, 0, tramp);
  }

  /** Emits ops after the code of what was emitted before. */
  method EmitMore(buf: Emit.EmitBuf, ghost before: seq<Emit.Op>, ops: seq<Emit.Op>)
    requires buf.Valid() && 0 < buf.buf.Length && buf.Code() == Emit.Flatten(before)
    modifies buf, buf.buf
    ensures buf.Valid() && 0 < buf.buf.Length && buf.Code() == Emit.Flatten(before + ops)
    ensures buf.buf == old(buf.buf) || fresh(buf.buf)
  {
    hide Emit.Flatten;
    buf.EmitAll(ops);
    Emit.FlattenAppend(before, ops);
  }

  function Prefixed(pre: seq<Emit.Op>, rest: Option<seq<Emit.Op>>): Option<seq<Emit.Op>>
  {
    if rest.None? then None else Some(pre + rest.value)
  }

  lemma PrefixNone(rest: Option<seq<Emit.Op>>)
    ensures Prefixed([], rest) == rest
  {
    if rest.Some? { assert [] + rest.value == rest.value; }
  }

  lemma PrefixTwice(a: seq<Emit.Op>, b: seq<Emit.Op>, rest: Option<seq<Emit.Op>>)
    ensures Prefixed(a, Prefixed(b, rest)) == Prefixed(a + b, rest)
  {
    if rest.Some? { assert a + (b + rest.value) == a + b + rest.value; }
  }

  lemma FlattenNone()
    ensures Emit.Flatten([]) == []
  {
  }

  lemma PrefixedValue(pre: seq<Emit.Op>, rest: Option<seq<Emit.Op>>)
    ensures Prefixed(pre, rest) == if rest.None? then None else Some(pre + rest.value)
  {
  }

  lemma BodyEnd(text: seq<u8>, tramp: u64)
    requires Words4(text)
    ensures Body(text, Count(text), tramp) == Some(Epilogue())
  {
  }

  lemma BodyUnfold(text: seq<u8>, k: nat, tramp: u64)
    requires Words4(text) && k < Count(text)
    ensures var ops := OpsFor(Ins(text, k), tramp);
            Body(text, k, tramp) ==
            if ops.None? then None
            else if Ins(text, k).cls.Jalr? then ops
            else Prefixed(ops.value, Body(text, k + 1, tramp))
  {
    hide OpsFor, Ins;
  }

  // ----- interpretation of the RISC-V text -----

  /** The register file and the helper calls made so far. */
  datatype RvState = RvState(x: seq<u64>, calls: seq<seq<u64>>)

  function WriteX(s: RvState, rd: Reg, v: u64): RvState
    requires |s.x| == 32
  {
    if rd == 0 then s else s.(x := s.x[rd := v])
  }

  /** One instruction of the straight-line subset; None outside it. */
  function RvStep(i: Insn, s: RvState, host: X86.Host): Option<RvState>
    requires |s.x| == 32
  {
    match i.cls
    case AluImm => Some(WriteX(s, i.rd, Rv64.Result(i, s.x[i.rs1], s.x[i.rs2])))
    case ShiftImm => Some(WriteX(s, i.rd, Rv64.Result(i, s.x[i.rs1], s.x[i.rs2])))
    case Lui => Some(WriteX(s, i.rd, Rv64.Result(i, s.x[i.rs1], s.x[i.rs2])))
    case AluReg => Some(WriteX(s, i.rd, Rv64.Result(i, s.x[i.rs1], s.x[i.rs2])))
    case Mul => Some(WriteX(s, i.rd, Rv64.Result(i, s.x[i.rs1], s.x[i.rs2])))
    case Ecall => Some(RvState(s.x[10 := host.helper(s.calls, s.x)], s.calls + [s.x]))
    case Fence => Some(s)
    case _ => None
  }

  /** The instruction as the translator reads it: it does not look at the *W flag of a
      multiplication. */
  function Read(i: Insn, wide: bool): Insn { if wide && i.cls.Mul? then i.(wordOp := false) else i }

  /** From instruction k to the first jalr or the end of the text; with wide, every mulw
      is taken for a mul. */
  function Interp(text: seq<u8>, k: nat, s: RvState, host: X86.Host, wide: bool): Option<RvState>
    requires Words4(text) && k <= Count(text) && |s.x| == 32
    decreases Count(text) - k
  {
    if k == Count(text) || Ins(text, k).cls.Jalr? then Some(s)
    else match RvStep(Read(Ins(text, k), wide), s, host)
      case None => None
      case Some(s') => Interp(text, k + 1, s', host, wide)
  }

  /** Registers at entry: zero, with the context pointer in a0. */
  function StartX(ctx: u64): seq<u64> { seq(32, k => if k == 10 then ctx else 0) }

  // ----- running instruction sequences -----

  function ExecOp(op: Emit.Op, s: X86.State, host: X86.Host): (r: Option<X86.State>)
    requires |s.regs| == 8
    ensures r.Some? ==> |r.value.regs| == 8
  {
    X86.Exec(Emit.Meaning(op), s, host)
  }

  function ExecAll(ops: seq<Emit.Op>, s: X86.State, host: X86.Host): (r: Option<X86.State>)
    requires |s.regs| == 8
    ensures r.Some? ==> |r.value.regs| == 8
  {
    if ops == [] then Some(s)
    else match ExecOp(ops[0], s, host)
      case None => None
      case Some(s') => ExecAll(ops[1..], s', host)
  }

  function RunOps(ops: seq<Emit.Op>, s: X86.State, host: X86.Host): X86.Outcome
    requires |s.regs| == 8
  {
    if ops == [] then X86.Stuck
    else if ops[0].Ret? then X86.Return(s)
    else match ExecOp(ops[0], s, host)
      case None => X86.Stuck
      case Some(s') => RunOps(ops[1..], s', host)
  }

  lemma {:induction false} ExecThenRun(a: seq<Emit.Op>, b: seq<Emit.Op>, s: X86.State, host: X86.Host)
    requires |s.regs| == 8 && ExecAll(a, s, host).Some? && forall k :: 0 <= k < |a| ==> !a[k].Ret?
    ensures RunOps(a + b, s, host) == RunOps(b, ExecAll(a, s, host).value, host)
    decreases |a|
  {
    hide ExecOp;
    if a == [] {
      assert a + b == b;
    } else {
      assert (a + b)[1..] == a[1..] + b && (a + b)[0] == a[0];
      ExecThenRun(a[1..], b, ExecOp(a[0], s, host).value, host);
    }
  }

  lemma {:induction false} ExecThenExec(a: seq<Emit.Op>, b: seq<Emit.Op>, s: X86.State, host: X86.Host)
    requires |s.regs| == 8 && ExecAll(a, s, host).Some?
    ensures ExecAll(a + b, s, host) == ExecAll(b, ExecAll(a, s, host).value, host)
    decreases |a|
  {
    hide ExecOp;
    if a == [] {
      assert a + b == b;
    } else {
      assert (a + b)[1..] == a[1..] + b && (a + b)[0] == a[0];
      ExecThenExec(a[1..], b, ExecOp(a[0], s, host).value, host);
    }
  }

  lemma ExecOne(op: Emit.Op, s: X86.State, host: X86.Host)
    requires |s.regs| == 8
    ensures ExecAll([op], s, host) == ExecOp(op, s, host)
  {
    hide ExecOp;
  }

  ghost predicate AllFit(ops: seq<Emit.Op>) { forall k :: 0 <= k < |ops| ==> Emit.Fits(ops[k]) }

  /** Running the flattened bytes is running the instructions. */
  lemma {:induction false} RunBytes(pre: seq<u8>, ops: seq<Emit.Op>, s: X86.State, host: X86.Host)
    requires |s.regs| == 8 && AllFit(ops)
    ensures X86.Run(pre + Emit.Flatten(ops), |pre|, s, host) == RunOps(ops, s, host)
    decreases |ops|
  {
    hide Emit.Bytes, Emit.Meaning, X86.DecodeAt, X86.Exec, Emit.Fits;
    var code := pre + Emit.Flatten(ops);
    if ops == [] {
      assert code == pre;
      DecodeEnd(pre);
    } else {
      var post := Emit.Flatten(ops[1..]);
      var pre' := pre + Emit.Bytes(ops[0]);
      assert code == pre' + post;
      Emit.BytesDecode(pre, ops[0], post);
      MeaningRet(ops[0]);
      if !ops[0].Ret? && ExecOp(ops[0], s, host).Some? {
        RunBytes(pre', ops[1..], ExecOp(ops[0], s, host).value, host);
      }
    }
  }

  /** Executing instructions is executing their bytes, wherever they stand. */
  lemma {:induction false} ExecBytes(pre: seq<u8>, ops: seq<Emit.Op>, post: seq<u8>, s: X86.State, host: X86.Host)
    requires |s.regs| == 8 && AllFit(ops) && ExecAll(ops, s, host).Some? && forall k :: 0 <= k < |ops| ==> !ops[k].Ret?
    ensures X86.After(pre + Emit.Flatten(ops) + post, |pre|, s, host, |ops|) ==
            Some((|pre| + |Emit.Flatten(ops)|, ExecAll(ops, s, host).value))
    decreases |ops|
  {
    hide Emit.Bytes, Emit.Meaning, X86.DecodeAt, X86.Exec, Emit.Fits;
    if ops != [] {
      var rest := Emit.Flatten(ops[1..]);
      var pre' := pre + Emit.Bytes(ops[0]);
      assert pre + Emit.Flatten(ops) + post == pre' + rest + post == pre + Emit.Bytes(ops[0]) + (rest + post);
      Emit.BytesDecode(pre, ops[0], rest + post);
      MeaningRet(ops[0]);
      ExecBytes(pre', ops[1..], post, ExecOp(ops[0], s, host).value, host);
    }
  }

  lemma DecodeEnd(code: seq<u8>)
    ensures X86.DecodeAt(code, |code|) == None
  {
  }

  lemma MeaningRet(op: Emit.Op)
    ensures Emit.Meaning(op).Ret? <==> op.Ret?
    ensures |Emit.Bytes(op)| > 0
  {
  }

  lemma OpsFit(i: Insn, tramp: u64)
    requires OpsFor(i, tramp).Some?
    ensures AllFit(OpsFor(i, tramp).value)
    ensures !i.cls.Jalr? ==> forall k :: 0 <= k < |OpsFor(i, tramp).value| ==> !OpsFor(i, tramp).value[k].Ret?
  {
  }

  lemma {:induction false} BodyFits(text: seq<u8>, k: nat, tramp: u64)
    requires Words4(text) && k <= Count(text) && Body(text, k, tramp).Some?
    ensures AllFit(Body(text, k, tramp).value)
    decreases Count(text) - k
  {
    hide OpsFor, Ins, Emit.Fits;
    if k == Count(text) {
      assert AllFit(Epilogue()) by { EpilogueFits(); }
    } else {
      BodyUnfold(text, k, tramp);
      OpsFit(Ins(text, k), tramp);
      if !Ins(text, k).cls.Jalr? { BodyFits(text, k + 1, tramp); }
    }
  }

  lemma EpilogueFits()
    ensures AllFit(Epilogue())
  {
  }

  lemma {:induction false} ZeroStoresFit(n: nat)
    requires n <= 32
    ensures |ZeroStores(n)| == n && AllFit(ZeroStores(n)) && forall k :: 0 <= k < n ==> ZeroStores(n)[k] == Emit.StoreRax(8 * k)
  {
    if n != 0 { ZeroStoresFit(n - 1); }
  }

  lemma PrologueFits()
    ensures AllFit(Prologue()) && forall k :: 0 <= k < |Prologue()| ==> !Prologue()[k].Ret?
  {
    hide ZeroStores;
    ZeroStoresFit(32);
  }

  // ----- the simulation -----

  /** What the caller hands over: its stack pointer (at the return address, as the
      System V ABI has it on entry), its rbx, and its memory. */
  datatype Entry = Entry(rsp: u64, rbx: u64, mem: map<u64, u64>)

  predicate ValidEntry(e: Entry) { 264 <= e.rsp && e.rsp + 8 <= TWO64 && e.rsp % 16 == 8 }

  /** Base of the register file on the stack. */
  function Frame(e: Entry): u64
    requires ValidEntry(e)
  {
    e.rsp - 264
  }

  /** The x86 state holds the RISC-V register file in its frame, x0 = 0, the saved rbx
      above it, the caller's memory untouched, and has made the same helper calls. */
  ghost predicate Sim(s: X86.State, v: RvState, e: Entry)
  {
    && ValidEntry(e) && |s.regs| == 8 && |v.x| == 32 && v.x[0] == 0
    && s.regs[X86.RBX] == s.regs[X86.RSP] == Frame(e)
    && (forall k :: 0 <= k < 32 ==> X86.Cell(s.mem, Slot(e, k)) == v.x[k])
    && X86.Cell(s.mem, Frame(e) + 256) == e.rbx
    && (forall a: u64 :: e.rsp <= a ==> X86.Cell(s.mem, a) == X86.Cell(e.mem, a))
    && s.calls == v.calls && ZeroInCalls(s.calls)
  }

  /** Every helper call was passed a register file with x0 = 0. */
  ghost predicate ZeroInCalls(calls: seq<seq<u64>>) { forall j :: 0 <= j < |calls| ==> |calls[j]| == 32 && calls[j][0] == 0 }

  function Slot(e: Entry, k: int): u64
    requires ValidEntry(e) && 0 <= k < 32
  {
    Frame(e) + 8 * k
  }

  /** s' differs from s at most in scratch registers. */
  predicate ScratchOnly(s: X86.State, s': X86.State)
  {
    && |s.regs| == |s'.regs| == 8 && s'.mem == s.mem && s'.calls == s.calls
    && s'.regs[X86.RBX] == s.regs[X86.RBX] && s'.regs[X86.RSP] == s.regs[X86.RSP]
  }

  lemma SimScratch(s: X86.State, s': X86.State, v: RvState, e: Entry)
    requires Sim(s, v, e) && ScratchOnly(s, s')
    ensures Sim(s', v, e)
  {
  }

  /** The address of register k's slot, as the code forms it. */
  lemma SlotAddress(s: X86.State, v: RvState, e: Entry, k: int)
    requires Sim(s, v, e) && 0 <= k < 32
    ensures X86.At(s, X86.Mem(X86.RBX, 8 * k)) == Slot(e, k) && Slot(e, k) % 8 == 0
  {
    hide X86.Cell, Wrap64;
    SlotAligned(e, k);
    WrapSmall(Slot(e, k));
  }

  lemma SlotAligned(e: Entry, k: int)
    requires ValidEntry(e) && 0 <= k < 32
    ensures Slot(e, k) % 8 == 0
  {
    var q := e.rsp / 16;
    ModUnique(Slot(e, k), 8, 2 * q - 32 + k, 0);
  }

  lemma WrapSmall(x: int)
    requires 0 <= x < TWO64
    ensures Wrap64(x) == x
  {
  }

  lemma LoadRaxSim(s: X86.State, v: RvState, e: Entry, k: Reg, host: X86.Host)
    requires Sim(s, v, e)
    ensures ExecOp(Emit.LoadRax(8 * k), s, host) == Some(s.(regs := s.regs[X86.RAX := v.x[k]]))
    ensures ExecOp(Emit.LoadRcx(8 * k), s, host) == Some(s.(regs := s.regs[X86.RCX := v.x[k]]))
  {
    hide X86.At, X86.Cell;
    SlotAddress(s, v, e, k);
  }

  lemma StoreRaxSim(s: X86.State, v: RvState, e: Entry, k: Reg, host: X86.Host)
    requires Sim(s, v, e) && k != 0
    ensures ExecOp(Emit.StoreRax(8 * k), s, host).Some?
    ensures Sim(ExecOp(Emit.StoreRax(8 * k), s, host).value, WriteX(v, k, s.regs[X86.RAX]), e)
  {
    hide X86.At;
    SlotAddress(s, v, e, k);
    var s' := ExecOp(Emit.StoreRax(8 * k), s, host).value;
    assert s' == s.(mem := s.mem[Slot(e, k) := s.regs[X86.RAX]]);
    forall j | 0 <= j < 32
      ensures X86.Cell(s'.mem, Slot(e, j)) == WriteX(v, k, s.regs[X86.RAX]).x[j]
    {
      assert Slot(e, j) == Slot(e, k) <==> j == k;
    }
  }

  /** Once the result is in rax, storing it completes the instruction. */
  lemma FinishWrite(ops: seq<Emit.Op>, s: X86.State, v: RvState, e: Entry, rd: Reg, r: u64, host: X86.Host)
    requires Sim(s, v, e) && ExecAll(ops, s, host).Some?
    requires ScratchOnly(s, ExecAll(ops, s, host).value) && ExecAll(ops, s, host).value.regs[X86.RAX] == r
    ensures ExecAll(ops + StoreTo(rd), s, host).Some?
    ensures Sim(ExecAll(ops + StoreTo(rd), s, host).value, WriteX(v, rd, r), e)
  {
    hide ExecAll, ExecOp, Sim;
    var s1 := ExecAll(ops, s, host).value;
    SimScratch(s, s1, v, e);
    if rd == 0 {
      assert ops + StoreTo(rd) == ops;
    } else {
      ExecThenExec(ops, StoreTo(rd), s, host);
      ExecOne(Emit.StoreRax(8 * rd), s1, host);
      StoreRaxSim(s1, v, e, rd, host);
    }
  }

  /** Two operands loaded, one operation on rax and rcx. */
  lemma PairOp(op: Emit.Op, s: X86.State, v: RvState, e: Entry, rs1: Reg, rs2: Reg, r: u64, host: X86.Host)
    requires Sim(s, v, e)
    requires forall t: X86.State :: |t.regs| == 8 && t.regs[X86.RAX] == v.x[rs1] && t.regs[X86.RCX] == v.x[rs2] ==>
               ExecOp(op, t, host) == Some(t.(regs := t.regs[X86.RAX := r]))
    ensures var a := ExecAll(LoadPair(rs1, rs2) + [op], s, host);
            a.Some? && ScratchOnly(s, a.value) && a.value.regs[X86.RAX] == r
  {
    hide ExecAll, ExecOp, Sim;
    assert |s.regs| == 8 && |v.x| == 32 by { SimShape(s, v, e); }
    LoadRaxSim(s, v, e, rs1, host);
    var s1 := s.(regs := s.regs[X86.RAX := v.x[rs1]]);
    SimScratch(s, s1, v, e);
    LoadRaxSim(s1, v, e, rs2, host);
    var s2 := s1.(regs := s1.regs[X86.RCX := v.x[rs2]]);
    Exec3(Emit.LoadRax(8 * rs1), Emit.LoadRcx(8 * rs2), op, s, s1, s2, host);
    assert LoadPair(rs1, rs2) + [op] == [Emit.LoadRax(8 * rs1), Emit.LoadRcx(8 * rs2), op];
  }

  lemma SimShape(s: X86.State, v: RvState, e: Entry)
    requires Sim(s, v, e)
    ensures |s.regs| == 8 && |v.x| == 32
  {
  }

  lemma Exec3(a: Emit.Op, b: Emit.Op, d: Emit.Op, s: X86.State, s1: X86.State, s2: X86.State, host: X86.Host)
    requires |s.regs| == |s1.regs| == |s2.regs| == 8
    requires ExecOp(a, s, host) == Some(s1) && ExecOp(b, s1, host) == Some(s2)
    ensures ExecAll([a, b, d], s, host) == ExecOp(d, s2, host)
  {
    hide ExecOp;
    assert [a, b, d][1..] == [b, d] && [b, d][1..] == [d];
    ExecOne(d, s2, host);
  }

  /** One operand loaded, one operation on rax. */
  lemma SingleOp(op: Emit.Op, s: X86.State, v: RvState, e: Entry, rs1: Reg, r: u64, host: X86.Host)
    requires Sim(s, v, e)
    requires forall t: X86.State :: |t.regs| == 8 && t.regs[X86.RAX] == v.x[rs1] ==>
               ExecOp(op, t, host) == Some(t.(regs := t.regs[X86.RAX := r]))
    ensures var a := ExecAll([Emit.LoadRax(8 * rs1), op], s, host);
            a.Some? && ScratchOnly(s, a.value) && a.value.regs[X86.RAX] == r
  {
    hide ExecOp, Sim;
    assert |s.regs| == 8 && |v.x| == 32 by { SimShape(s, v, e); }
    LoadRaxSim(s, v, e, rs1, host);
    var s1 := s.(regs := s.regs[X86.RAX := v.x[rs1]]);
    assert [Emit.LoadRax(8 * rs1), op][1..] == [op];
    ExecOne(op, s1, host);
  }

  /** A helper call: the trampoline sees exactly the register file and sets a0. */
  lemma EcallSim(s: X86.State, v: RvState, e: Entry, host: X86.Host)
    requires Sim(s, v, e)
    ensures var a := ExecAll([Emit.MovRdiRbx, Emit.MovRax(host.tramp), Emit.CallRax], s, host);
            && a.Some?
            && Sim(a.value, RvState(v.x[10 := host.helper(v.calls, v.x)], v.calls + [v.x]), e)
  {
    var s1 := s.(regs := s.regs[X86.RDI := Frame(e)]);
    var s2 := s1.(regs := s1.regs[X86.RAX := host.tramp]);
    Exec3(Emit.MovRdiRbx, Emit.MovRax(host.tramp), Emit.CallRax, s, s1, s2, host);
    assert ExecOp(Emit.CallRax, s2, host) == X86.CallTramp(s2, host, host.tramp);
    CallSim(s2, v, e, host);
  }

  lemma CallSim(s: X86.State, v: RvState, e: Entry, host: X86.Host)
    requires Sim(s, v, e) && s.regs[X86.RDI] == Frame(e)
    ensures var a := X86.CallTramp(s, host, host.tramp);
            && a.Some?
            && Sim(a.value, RvState(v.x[10 := host.helper(v.calls, v.x)], v.calls + [v.x]), e)
  {
    hide X86.File, X86.Below, X86.Cell;
    FrameAligned(e);
    FileIs(s, v, e);
    var s' := X86.CallTramp(s, host, host.tramp).value;
    var v' := RvState(v.x[10 := host.helper(v.calls, v.x)], v.calls + [v.x]);
    var low := X86.Below(host.scratch(s.calls), Frame(e));
    assert s'.mem == (s.mem + low)[Slot(e, 10) := v'.x[10]];
    forall a: u64 | a >= Frame(e)
      ensures X86.Cell(s'.mem, a) == if a == Slot(e, 10) then v'.x[10] else X86.Cell(s.mem, a)
    {
      CallCell(s.mem, host.scratch(s.calls), Frame(e), Slot(e, 10), v'.x[10], a);
    }
    SlotsApart(e);
  }

  lemma FrameAligned(e: Entry)
    requires ValidEntry(e)
    ensures Frame(e) % 16 == 0 && Frame(e) % 8 == 0 && Frame(e) + 256 <= TWO64
  {
    var q := e.rsp / 16 - 16;
    assert Frame(e) == q * 16 + 0;
    ModUnique(Frame(e), 16, q, 0);
    ModUnique(Frame(e), 8, 2 * q, 0);
  }

  lemma SlotsApart(e: Entry)
    requires ValidEntry(e)
    ensures forall k :: 0 <= k < 32 ==> Slot(e, k) >= Frame(e) && (Slot(e, k) == Slot(e, 10) <==> k == 10)
  {
  }

  lemma FileIs(s: X86.State, v: RvState, e: Entry)
    requires Sim(s, v, e)
    ensures Frame(e) + 256 <= TWO64 && X86.File(s.mem, Frame(e)) == v.x
  {
    hide X86.Cell;
    FrameAligned(e);
    var file := X86.File(s.mem, Frame(e));
    forall k | 0 <= k < 32
      ensures file[k] == v.x[k]
    {
      assert Slot(e, k) == Frame(e) + 8 * k;
    }
  }

  /** A write below the frame and one to a slot leave the other cells of the frame alone. */
  lemma CallCell(mem: map<u64, u64>, junk: map<u64, u64>, sp: u64, at: u64, r: u64, a: u64)
    requires sp <= a
    ensures X86.Cell((mem + X86.Below(junk, sp))[at := r], a) == if a == at then r else X86.Cell(mem, a)
  {
    assert a !in X86.Below(junk, sp);
  }

  // ----- one translated instruction -----

  function RegOp(op: AluOp): Emit.Op
  {
    match op
    case Sub => Emit.SubRaxRcx
    case Or => Emit.OrRaxRcx
    case And => Emit.AndRaxRcx
    case Xor => Emit.XorRaxRcx
    case MulLow => Emit.ImulRaxRcx
    case _ => Emit.AddRaxRcx
  }

  lemma RegShape(i: Insn, tramp: u64)
    requires OpsFor(i, tramp).Some? && (i.cls.AluReg? || i.cls.Mul?)
    ensures i.aluOp in {Add, Sub, Or, And, Xor, MulLow}
    ensures OpsFor(i, tramp).value == LoadPair(i.rs1, i.rs2) + [RegOp(i.aluOp)] + StoreTo(i.rd)
  {
    hide StoreTo, LoadPair;
  }

  lemma RegExec(op: AluOp, t: X86.State, host: X86.Host)
    requires op in {Add, Sub, Or, And, Xor, MulLow} && |t.regs| == 8
    ensures ExecOp(RegOp(op), t, host) ==
            Some(t.(regs := t.regs[X86.RAX := Rv64.Alu(op, t.regs[X86.RAX], t.regs[X86.RCX])]))
  {
    hide Words.And, Words.Or, Words.Xor, Wrap64;
  }

  lemma AluRegSim(i: Insn, s: X86.State, v: RvState, e: Entry, tramp: u64, host: X86.Host)
    requires Sim(s, v, e) && OpsFor(i, tramp).Some? && (i.cls.AluReg? || i.cls.Mul?)
    ensures var a := ExecAll(OpsFor(i, tramp).value, s, host);
            a.Some? && Sim(a.value, WriteX(v, i.rd, Rv64.Alu(i.aluOp, v.x[i.rs1], v.x[i.rs2])), e)
  {
    hide Sim, ExecAll, ExecOp, StoreTo, LoadPair, OpsFor, RegOp, Rv64.Alu, WriteX;
    SimShape(s, v, e);
    RegShape(i, tramp);
    var r := Rv64.Alu(i.aluOp, v.x[i.rs1], v.x[i.rs2]);
    forall t: X86.State | |t.regs| == 8 && t.regs[X86.RAX] == v.x[i.rs1] && t.regs[X86.RCX] == v.x[i.rs2]
      ensures ExecOp(RegOp(i.aluOp), t, host) == Some(t.(regs := t.regs[X86.RAX := r]))
    {
      RegExec(i.aluOp, t, host);
    }
    PairOp(RegOp(i.aluOp), s, v, e, i.rs1, i.rs2, r, host);
    FinishWrite(LoadPair(i.rs1, i.rs2) + [RegOp(i.aluOp)], s, v, e, i.rd, r, host);
  }

  function ImmOpOf(i: Insn): Emit.Op
  {
    match i.aluOp
    case Sll => Emit.ShlRax(i.imm % 256)
    case Srl => Emit.ShrRax(i.imm % 256)
    case Sra => Emit.SarRax(i.imm % 256)
    case _ => Emit.AddRax(i.imm)
  }

  lemma ImmShape(i: Insn, tramp: u64)
    requires OpsFor(i, tramp).Some? && (i.cls.AluImm? || i.cls.ShiftImm?)
    ensures if i.cls.AluImm? then i.aluOp.Add? else i.aluOp in {Sll, Srl, Sra}
    ensures OpsFor(i, tramp).value == [Emit.LoadRax(8 * i.rs1), ImmOpOf(i)] + StoreTo(i.rd)
  {
    hide StoreTo;
  }

  lemma ImmExec(i: Insn, t: X86.State, host: X86.Host)
    requires |t.regs| == 8 && (if i.cls.AluImm? then i.aluOp.Add? else i.aluOp in {Sll, Srl, Sra} && 0 <= i.imm < 64)
    ensures ExecOp(ImmOpOf(i), t, host) ==
            Some(t.(regs := t.regs[X86.RAX := Rv64.Alu(i.aluOp, t.regs[X86.RAX], Wrap64(i.imm))]))
  {
    hide ShiftLeft, ShiftRight, ShiftRightArith, Wrap64;
    if !i.cls.AluImm? { ShiftAmount(i.imm); }
  }

  lemma ShiftAmount(imm: int)
    requires 0 <= imm < 64
    ensures imm % 256 % 64 == imm && Wrap64(imm) % 64 == imm
  {
  }

  lemma ImmSim(i: Insn, s: X86.State, v: RvState, e: Entry, tramp: u64, host: X86.Host)
    requires Sim(s, v, e) && OpsFor(i, tramp).Some?
    requires i.cls.AluImm? || (i.cls.ShiftImm? && 0 <= i.imm < 64)
    ensures var a := ExecAll(OpsFor(i, tramp).value, s, host);
            a.Some? && Sim(a.value, WriteX(v, i.rd, Rv64.Alu(i.aluOp, v.x[i.rs1], Wrap64(i.imm))), e)
  {
    hide Sim, ExecAll, ExecOp, StoreTo, OpsFor, ImmOpOf, Rv64.Alu, WriteX, Wrap64;
    SimShape(s, v, e);
    ImmShape(i, tramp);
    var r := Rv64.Alu(i.aluOp, v.x[i.rs1], Wrap64(i.imm));
    forall t: X86.State | |t.regs| == 8 && t.regs[X86.RAX] == v.x[i.rs1]
      ensures ExecOp(ImmOpOf(i), t, host) == Some(t.(regs := t.regs[X86.RAX := r]))
    {
      ImmExec(i, t, host);
    }
    SingleOp(ImmOpOf(i), s, v, e, i.rs1, r, host);
    FinishWrite([Emit.LoadRax(8 * i.rs1), ImmOpOf(i)], s, v, e, i.rd, r, host);
  }

  lemma LuiSim(i: Insn, s: X86.State, v: RvState, e: Entry, tramp: u64, host: X86.Host)
    requires Sim(s, v, e) && i.cls.Lui?
    ensures var a := ExecAll(OpsFor(i, tramp).value, s, host);
            a.Some? && Sim(a.value, WriteX(v, i.rd, Wrap64(i.imm)), e)
  {
    hide Sim, ExecAll, StoreTo, Wrap64;
    SimShape(s, v, e);
    ExecOne(Emit.MovRax(Wrap64(i.imm)), s, host);
    FinishWrite([Emit.MovRax(Wrap64(i.imm))], s, v, e, i.rd, Wrap64(i.imm), host);
  }

  /** Every translated instruction simulates its RISC-V step, under the translator's
      reading of it. */
  lemma StepSim(i: Insn, s: X86.State, v: RvState, e: Entry, host: X86.Host)
    requires Sim(s, v, e) && OpsFor(i, host.tramp).Some? && !i.cls.Jalr? && (i.cls.ShiftImm? ==> 0 <= i.imm < 64)
    ensures |v.x| == 32 && ExecAll(OpsFor(i, host.tramp).value, s, host).Some? && RvStep(Read(i, true), v, host).Some?
    ensures Sim(ExecAll(OpsFor(i, host.tramp).value, s, host).value, RvStep(Read(i, true), v, host).value, e)
  {
    hide Sim, ExecOp, Rv64.Alu, Rv64.AluW, Wrap64;
    SimShape(s, v, e);
    if i.cls.AluReg? || i.cls.Mul? { AluRegSim(i, s, v, e, host.tramp, host); }
    else if i.cls.AluImm? || i.cls.ShiftImm? { ImmSim(i, s, v, e, host.tramp, host); }
    else if i.cls.Lui? { LuiSim(i, s, v, e, host.tramp, host); }
    else if i.cls.Ecall? { EcallSim(s, v, e, host); }
  }

  // ----- prologue and epilogue -----

  /** After n zero stores the first n slots are zero and nothing else has changed. */
  lemma {:induction false} ZeroStoresExec(n: nat, s: X86.State, e: Entry, host: X86.Host)
    requires n <= 32 && ValidEntry(e) && |s.regs| == 8 && s.regs[X86.RBX] == Frame(e) && s.regs[X86.RAX] == 0
    ensures var a := ExecAll(ZeroStores(n), s, host);
            && a.Some? && a.value.regs == s.regs && a.value.calls == s.calls
            && (forall k :: 0 <= k < n ==> X86.Cell(a.value.mem, Slot(e, k)) == 0)
            && (forall b: u64 :: b >= Frame(e) + 256 ==> X86.Cell(a.value.mem, b) == X86.Cell(s.mem, b))
  {
    hide ExecAll, X86.At, Wrap64;
    if n == 0 {
      ExecNone(s, host);
    } else {
      ZeroStoresExec(n - 1, s, e, host);
      var t := ExecAll(ZeroStores(n - 1), s, host).value;
      ExecThenExec(ZeroStores(n - 1), [Emit.StoreRax(8 * (n - 1))], s, host);
      ExecOne(Emit.StoreRax(8 * (n - 1)), t, host);
      SlotOf(t, e, n - 1);
      assert forall k :: 0 <= k < n - 1 ==> Slot(e, k) != Slot(e, n - 1);
    }
  }

  lemma ExecNone(s: X86.State, host: X86.Host)
    requires |s.regs| == 8
    ensures ExecAll([], s, host) == Some(s)
  {
  }

  lemma SlotOf(s: X86.State, e: Entry, k: int)
    requires ValidEntry(e) && |s.regs| == 8 && s.regs[X86.RBX] == Frame(e) && 0 <= k < 32
    ensures X86.At(s, X86.Mem(X86.RBX, 8 * k)) == Slot(e, k) && Slot(e, k) % 8 == 0
  {
    hide Wrap64;
    SlotAligned(e, k);
    WrapSmall(Slot(e, k));
  }

  predicate Starts(s: X86.State, e: Entry)
  {
    ValidEntry(e) && |s.regs| == 8 && s.regs[X86.RSP] == e.rsp && s.regs[X86.RBX] == e.rbx && s.mem == e.mem && s.calls == []
  }

  /** push rbx; sub rsp, 256; mov rbx, rsp; xor rax, rax. */
  lemma FrameSetUp(s: X86.State, e: Entry, host: X86.Host)
    requires Starts(s, e)
    ensures var a := ExecAll([Emit.PushReg(X86.RBX), Emit.SubRsp(REGS_BYTES), Emit.MovRbxRsp, Emit.XorRaxRax], s, host);
            && a.Some?
            && a.value == s.(regs := s.regs[X86.RSP := Frame(e)][X86.RBX := Frame(e)][X86.RAX := 0], mem := s.mem[Frame(e) + 256 := e.rbx])
  {
    hide X86.Exec, Wrap64, Words.Xor;
    var s1 := s.(regs := s.regs[X86.RSP := e.rsp - 8], mem := s.mem[e.rsp - 8 := e.rbx]);
    var s2 := s1.(regs := s1.regs[X86.RSP := Frame(e)]);
    var s3 := s2.(regs := s2.regs[X86.RBX := Frame(e)]);
    var s4 := s3.(regs := s3.regs[X86.RAX := 0]);
    PushStep(s, e, host);
    SubStep(s1, e, host);
    MovXorStep(s2, host);
    var ops := [Emit.PushReg(X86.RBX), Emit.SubRsp(REGS_BYTES), Emit.MovRbxRsp, Emit.XorRaxRax];
    assert ops[1..] == [Emit.SubRsp(REGS_BYTES), Emit.MovRbxRsp, Emit.XorRaxRax];
    Exec3(Emit.SubRsp(REGS_BYTES), Emit.MovRbxRsp, Emit.XorRaxRax, s1, s2, s3, host);
    assert s4.regs == s.regs[X86.RSP := Frame(e)][X86.RBX := Frame(e)][X86.RAX := 0];
  }

  lemma RspAligned(e: Entry)
    requires ValidEntry(e)
    ensures (e.rsp - 8) % 8 == 0 && e.rsp % 8 == 0
  {
    var q := e.rsp / 16;
    ModUnique(e.rsp - 8, 8, 2 * q, 0);
    ModUnique(e.rsp, 8, 2 * q + 1, 0);
  }

  lemma PushStep(s: X86.State, e: Entry, host: X86.Host)
    requires Starts(s, e)
    ensures ExecOp(Emit.PushReg(X86.RBX), s, host) == Some(s.(regs := s.regs[X86.RSP := e.rsp - 8], mem := s.mem[e.rsp - 8 := e.rbx]))
  {
    hide Wrap64;
    WrapSmall(e.rsp - 8);
    RspAligned(e);
  }

  lemma SubStep(s: X86.State, e: Entry, host: X86.Host)
    requires ValidEntry(e) && |s.regs| == 8 && s.regs[X86.RSP] == e.rsp - 8
    ensures ExecOp(Emit.SubRsp(REGS_BYTES), s, host) == Some(s.(regs := s.regs[X86.RSP := Frame(e)]))
  {
    hide Wrap64;
    WrapSmall(256);
    WrapSmall(e.rsp - 8 - 256);
  }

  lemma MovXorStep(s: X86.State, host: X86.Host)
    requires |s.regs| == 8
    ensures var s3 := s.(regs := s.regs[X86.RBX := s.regs[X86.RSP]]);
            && ExecOp(Emit.MovRbxRsp, s, host) == Some(s3)
            && ExecOp(Emit.XorRaxRax, s3, host) == Some(s3.(regs := s3.regs[X86.RAX := 0]))
  {
    hide Words.Xor;
    XorSelf(s.regs[X86.RAX]);
  }

  lemma XorSelf(x: u64)
    ensures Words.Xor(x, x) == 0
  {
    hide Bit, Words.Xor;
    forall i: nat | i < 64
      ensures Bit(Words.Xor(x, x), i) == Bit(0, i)
    {
      BitXorAt(x, x, i);
      BitZero(i);
    }
    WordsEqual(Words.Xor(x, x), 0);
  }

  /** The zeroed file with the context pointer stored is the initial register file. */
  lemma PrologueEnds(s: X86.State, e: Entry, ctx: u64)
    requires ValidEntry(e) && |s.regs| == 8 && s.calls == [] && s.regs[X86.RBX] == s.regs[X86.RSP] == Frame(e)
    requires forall k :: 0 <= k < 32 ==> X86.Cell(s.mem, Slot(e, k)) == 0
    requires forall b: u64 :: b >= Frame(e) + 256 ==> X86.Cell(s.mem, b) == X86.Cell(e.mem[Frame(e) + 256 := e.rbx], b)
    ensures Sim(s.(mem := s.mem[Slot(e, 10) := ctx]), RvState(StartX(ctx), []), e)
  {
    var s', v := s.(mem := s.mem[Slot(e, 10) := ctx]), RvState(StartX(ctx), []);
    forall k | 0 <= k < 32
      ensures X86.Cell(s'.mem, Slot(e, k)) == v.x[k]
    {
      assert X86.Cell(s.mem, Slot(e, k)) == 0;
    }
    forall a: u64 | Frame(e) + 256 <= a
      ensures X86.Cell(s'.mem, a) == X86.Cell(e.mem[Frame(e) + 256 := e.rbx], a)
    {
      assert a != Slot(e, 10) && X86.Cell(s'.mem, a) == X86.Cell(s.mem, a);
    }
  }

  lemma PrologueSim(s: X86.State, e: Entry, host: X86.Host)
    requires Starts(s, e)
    ensures var a := ExecAll(Prologue(), s, host);
            a.Some? && Sim(a.value, RvState(StartX(s.regs[X86.RDI]), []), e)
  {
    hide ExecAll, ZeroStores, X86.At, Wrap64;
    var head := [Emit.PushReg(X86.RBX), Emit.SubRsp(REGS_BYTES), Emit.MovRbxRsp, Emit.XorRaxRax];
    FrameSetUp(s, e, host);
    var s1 := ExecAll(head, s, host).value;
    ZeroStoresExec(32, s1, e, host);
    var s2 := ExecAll(ZeroStores(32), s1, host).value;
    ExecThenExec(head, ZeroStores(32), s, host);
    ExecThenExec(head + ZeroStores(32), [Emit.StoreRdi(80)], s, host);
    ExecOne(Emit.StoreRdi(80), s2, host);
    SlotOf(s2, e, 10);
    var s3 := ExecOp(Emit.StoreRdi(80), s2, host).value;
    assert s3 == s2.(mem := s2.mem[Slot(e, 10) := s.regs[X86.RDI]]);
    PrologueEnds(s2, e, s.regs[X86.RDI]);
  }

  /** What the caller sees on return: a0, the helper calls made, rbx, rsp and the return
      address, its own memory; and what the frame still holds, the register file with
      regs[0] = 0. */
  ghost predicate ReturnsTo(o: X86.Outcome, e: Entry, v: RvState)
  {
    && ValidEntry(e) && o.Returned? && |o.s.regs| == 8 && |v.x| == 32
    && o.s.regs[X86.RAX] == v.x[10] && o.s.calls == v.calls && ZeroInCalls(o.s.calls)
    && o.s.regs[X86.RBX] == e.rbx && o.s.regs[X86.RSP] == Wrap64(e.rsp as int + 8) && o.to == X86.Cell(e.mem, e.rsp)
    && (forall a: u64 :: e.rsp <= a ==> X86.Cell(o.s.mem, a) == X86.Cell(e.mem, a))
    && (forall k :: 0 <= k < 32 ==> X86.Cell(o.s.mem, Slot(e, k)) == v.x[k])
    && X86.Cell(o.s.mem, Slot(e, 0)) == 0
  }

  lemma EpilogueSim(s: X86.State, v: RvState, e: Entry, host: X86.Host)
    requires Sim(s, v, e)
    ensures ReturnsTo(RunOps(Epilogue(), s, host), e, v)
  {
    hide Wrap64, X86.Cell, ExecOp, ExecAll, RunOps;
    var s1 := s.(regs := s.regs[X86.RAX := v.x[10]]);
    var s2 := s1.(regs := s1.regs[X86.RSP := Frame(e) + 256]);
    var s3 := s2.(regs := s2.regs[X86.RSP := e.rsp][X86.RBX := e.rbx]);
    LoadRaxSim(s, v, e, 10, host);
    AddStep(s1, e, host);
    PopStep(s2, e, host);
    Exec3(Emit.LoadRax(80), Emit.AddRsp(REGS_BYTES), Emit.PopReg(X86.RBX), s, s1, s2, host);
    var ops := [Emit.LoadRax(80), Emit.AddRsp(REGS_BYTES), Emit.PopReg(X86.RBX)];
    ExecThenRun(ops, [Emit.Ret], s, host);
    assert Epilogue() == ops + [Emit.Ret];
    RetStep(s3, e, host);
    assert X86.Cell(s.mem, Slot(e, 0)) == v.x[0];
  }

  lemma AddStep(s: X86.State, e: Entry, host: X86.Host)
    requires ValidEntry(e) && |s.regs| == 8 && s.regs[X86.RSP] == Frame(e)
    ensures ExecOp(Emit.AddRsp(REGS_BYTES), s, host) == Some(s.(regs := s.regs[X86.RSP := Frame(e) + 256]))
  {
    hide Wrap64;
    WrapSmall(256);
    WrapSmall(Frame(e) + 256);
  }

  lemma RetStep(s: X86.State, e: Entry, host: X86.Host)
    requires ValidEntry(e) && |s.regs| == 8 && s.regs[X86.RSP] == e.rsp
    ensures RunOps([Emit.Ret], s, host) ==
            X86.Returned(s.(regs := s.regs[X86.RSP := Wrap64(e.rsp as int + 8)]), X86.Cell(s.mem, e.rsp))
  {
    hide Wrap64, X86.Cell;
    RspAligned(e);
  }

  lemma PopStep(s: X86.State, e: Entry, host: X86.Host)
    requires ValidEntry(e) && |s.regs| == 8 && s.regs[X86.RSP] == Frame(e) + 256 && X86.Cell(s.mem, Frame(e) + 256) == e.rbx
    ensures ExecOp(Emit.PopReg(X86.RBX), s, host) == Some(s.(regs := s.regs[X86.RSP := e.rsp][X86.RBX := e.rbx]))
  {
    hide Wrap64, X86.Cell;
    WrapSmall(e.rsp);
    RspAligned(e);
  }

  // ----- whole programs -----

  /** The emitted code computes the wide reading of any text it was emitted for. */
  lemma {:induction false} BodySim(text: seq<u8>, k: nat, s: X86.State, v: RvState, e: Entry, host: X86.Host)
    requires Words4(text) && k <= Count(text)
    requires Sim(s, v, e) && |s.regs| == 8 && |v.x| == 32 && Body(text, k, host.tramp).Some?
    ensures Interp(text, k, v, host, true).Some?
    ensures ReturnsTo(RunOps(Body(text, k, host.tramp).value, s, host), e, Interp(text, k, v, host, true).value)
    decreases Count(text) - k
  {
    hide Sim, OpsFor, Ins, Read, RunOps, ExecAll, RvStep, ReturnsTo, Epilogue;
    if k == Count(text) {
      EpilogueSim(s, v, e, host);
    } else {
      var i := Ins(text, k);
      BodyUnfold(text, k, host.tramp);
      if i.cls.Jalr? {
        JalrOps(i, host.tramp);
        EpilogueSim(s, v, e, host);
      } else {
        var ops := OpsFor(i, host.tramp).value;
        ShiftRange(text, k);
        StepSim(i, s, v, e, host);
        var s', v' := ExecAll(ops, s, host).value, RvStep(Read(i, true), v, host).value;
        SimShape(s', v', e);
        BodySim(text, k + 1, s', v', e, host);
        OpsFit(i, host.tramp);
        ExecThenRun(ops, Body(text, k + 1, host.tramp).value, s, host);
      }
    }
  }

  lemma JalrOps(i: Insn, tramp: u64)
    requires i.cls.Jalr?
    ensures OpsFor(i, tramp) == Some(Epilogue())
  {
  }

  lemma ShiftRange(text: seq<u8>, k: int)
    requires Words4(text) && 0 <= k < Count(text)
    ensures Ins(text, k).cls.ShiftImm? ==> 0 <= Ins(text, k).imm < 64
  {
    hide Decode;
    ImmRanges(WordAt(text, 4 * k));
  }

  /** The emitted code returns what Interp returns under the wide reading: for every text
      the translator accepts. */
  lemma JitComputes(text: seq<u8>, code: seq<u8>, s: X86.State, e: Entry, host: X86.Host)
    requires Words4(text) && Starts(s, e)
    requires Body(text, 0, host.tramp).Some? && code == Emit.Flatten(Prologue() + Body(text, 0, host.tramp).value)
    ensures var r := Interp(text, 0, RvState(StartX(s.regs[X86.RDI]), []), host, true);
            r.Some? && ReturnsTo(X86.Run(code, 0, s, host), e, r.value)
  {
    hide Sim, Prologue, Body, X86.Run, RunOps, ExecAll, Interp, ReturnsTo, Emit.Flatten;
    var ops := Prologue() + Body(text, 0, host.tramp).value;
    PrologueFits();
    BodyFits(text, 0, host.tramp);
    RunBytes([], ops, s, host);
    assert [] + code == code;
    PrologueSim(s, e, host);
    var s' := ExecAll(Prologue(), s, host).value;
    var v := RvState(StartX(s.regs[X86.RDI]), []);
    SimShape(s', v, e);
    ExecThenRun(Prologue(), Body(text, 0, host.tramp).value, s, host);
    BodySim(text, 0, s', v, e, host);
  }

  /** Main theorem.  If the translator produces code for a text whose run keeps every mulw
      product within 32 bits (in particular a text without mulw), then running those bytes
      as a C function returns the a0 of interpreting the text, after the same helper
      calls with the same register files, each with x0 = 0; the frame ends holding the
      interpreter's register file; rbx, rsp, the return address and the caller's memory
      are what they were. */
  lemma JitCorrect(text: seq<u8>, code: seq<u8>, s: X86.State, e: Entry, host: X86.Host)
    requires Words4(text) && Starts(s, e) && MulwFits(text, 0, RvState(StartX(s.regs[X86.RDI]), []), host)
    requires Body(text, 0, host.tramp).Some? && code == Emit.Flatten(Prologue() + Body(text, 0, host.tramp).value)
    ensures var r := Interp(text, 0, RvState(StartX(s.regs[X86.RDI]), []), host, false);
            r.Some? && ReturnsTo(X86.Run(code, 0, s, host), e, r.value)
  {
    hide Body, Prologue, X86.Run, Interp, ReturnsTo, Emit.Flatten, MulwFits, History;
    var v := RvState(StartX(s.regs[X86.RDI]), []);
    JitComputes(text, code, s, e, host);
    MulwExact(text, 0, v, host);
  }

  // ----- mulw -----

  predicate IsMulw(i: Insn) { i.cls.Mul? && i.aluOp.MulLow? && i.wordOp }

  /** The low 64 bits of the product, read as signed, fit 32 bits. */
  predicate FitsWord(a: u64, b: u64) { -0x8000_0000 <= Signed(Wrap64(a * b)) < 0x8000_0000 }

  /** Up to the first jalr, every mulw executed with a destination other than x0 has a
      product that fits. */
  predicate MulwFits(text: seq<u8>, k: nat, s: RvState, host: X86.Host)
    requires Words4(text) && k <= Count(text) && |s.x| == 32
    decreases Count(text) - k
  {
    k == Count(text) || Ins(text, k).cls.Jalr? ||
    (var i := Ins(text, k);
     && (IsMulw(i) && i.rd != 0 ==> FitsWord(s.x[i.rs1], s.x[i.rs2]))
     && (RvStep(i, s, host).Some? ==> MulwFits(text, k + 1, RvStep(i, s, host).value, host)))
  }

  /** The states after each instruction, up to the first jalr, the end of the text or an
      instruction outside the subset. */
  function History(text: seq<u8>, k: nat, s: RvState, host: X86.Host, wide: bool): seq<RvState>
    requires Words4(text) && k <= Count(text) && |s.x| == 32
    decreases Count(text) - k
  {
    if k == Count(text) || Ins(text, k).cls.Jalr? then []
    else match RvStep(Read(Ins(text, k), wide), s, host)
      case None => []
      case Some(s') => [s'] + History(text, k + 1, s', host, wide)
  }

  /** The low half of a product depends on the low halves only. */
  lemma LowHalfOfProduct(a: u64, b: u64)
    ensures (a % 0x1_0000_0000) * (b % 0x1_0000_0000) % 0x1_0000_0000 == Wrap64(a * b) % 0x1_0000_0000
  {
    var m := 0x1_0000_0000;
    var p, a0, b0 := a * b, a % m, b % m;
    var qa, qb, w := a / m, b / m, Wrap64(p);
    var low := a0 * b0;
    assert p == qa * m * b + a0 * (qb * m) + low by { assert a * b == (qa * m + a0) * b && a0 * b == a0 * (qb * m + b0); }
    var q := qa * b + a0 * qb;
    assert p == q * m + low;
    var q64 := p / TWO64;
    assert p == q64 * TWO64 + w && TWO64 == m * m;
    var d := q64 * m - q;
    assert low == d * m + w;
    SameRemainder(low, w, d, m);
  }

  lemma SameRemainder(x: int, y: int, d: int, m: nat)
    requires m > 0 && x == d * m + y
    ensures x % m == y % m
  {
    var k := y / m;
    assert x == (d + k) * m + y % m;
    ModUnique(x, m, d + k, y % m);
  }

  /** A mulw and a mul of the same operands agree exactly when the product fits. */
  lemma MulwAgrees(a: u64, b: u64)
    ensures Rv64.Alu(MulLow, a, b) == Rv64.AluW(MulLow, a, b) <==> FitsWord(a, b)
  {
    hide Wrap64;
    LowHalfOfProduct(a, b);
    var w := Wrap64(a * b);
    var v := w % 0x1_0000_0000;
    assert Rv64.AluW(MulLow, a, b) == if v < 0x8000_0000 then v else v + 0xffff_ffff_0000_0000;
    if w >= 0xffff_ffff_0000_0000 { ModUnique(w, 0x1_0000_0000, 0xffff_ffff, w - 0xffff_ffff_0000_0000); }
  }

  lemma MulwDecoded(text: seq<u8>, k: int)
    requires Words4(text) && 0 <= k < Count(text) && Ins(text, k).cls.Mul? && Ins(text, k).wordOp
    ensures Ins(text, k).aluOp.MulLow?
  {
    hide WordAt;
  }

  /** The wide reading changes an instruction's effect exactly at a mulw into a register
      other than x0 whose product does not fit. */
  lemma ReadChanges(i: Insn, s: RvState, host: X86.Host)
    requires |s.x| == 32 && (i.cls.Mul? && i.wordOp ==> i.aluOp.MulLow?)
    ensures RvStep(Read(i, true), s, host).Some? <==> RvStep(i, s, host).Some?
    ensures RvStep(Read(i, true), s, host) == RvStep(i, s, host) <==>
            (IsMulw(i) && i.rd != 0 ==> FitsWord(s.x[i.rs1], s.x[i.rs2]))
  {
    hide Rv64.Alu, Rv64.AluW, FitsWord;
    if IsMulw(i) {
      var a, b := s.x[i.rs1], s.x[i.rs2];
      MulwAgrees(a, b);
      if i.rd != 0 {
        assert s.x[i.rd := Rv64.Alu(MulLow, a, b)][i.rd] == Rv64.Alu(MulLow, a, b);
        assert s.x[i.rd := Rv64.AluW(MulLow, a, b)][i.rd] == Rv64.AluW(MulLow, a, b);
      }
    }
  }

  /** The states the emitted code goes through are those of the text exactly when every
      executed mulw fits. */
  lemma {:induction false} MulwExact(text: seq<u8>, k: nat, s: RvState, host: X86.Host)
    requires Words4(text) && k <= Count(text) && |s.x| == 32
    ensures History(text, k, s, host, true) == History(text, k, s, host, false) <==> MulwFits(text, k, s, host)
    ensures MulwFits(text, k, s, host) ==> Interp(text, k, s, host, true) == Interp(text, k, s, host, false)
    decreases Count(text) - k
  {
    hide Ins, RvStep, FitsWord, Read;
    if k < Count(text) && !Ins(text, k).cls.Jalr? {
      var i := Ins(text, k);
      if i.cls.Mul? && i.wordOp { MulwDecoded(text, k); }
      ReadChanges(i, s, host);
      ReadNarrow(i);
      if RvStep(i, s, host).Some? {
        StepShape(i, s, host);
        var t, t' := RvStep(i, s, host).value, RvStep(Read(i, true), s, host).value;
        assert History(text, k, s, host, false)[0] == t;
        assert History(text, k, s, host, false)[1..] == History(text, k + 1, t, host, false);
        if t' == t {
          assert History(text, k, s, host, true)[1..] == History(text, k + 1, t, host, true);
          MulwExact(text, k + 1, t, host);
        } else {
          StepShape(Read(i, true), s, host);
          assert History(text, k, s, host, true)[0] == t';
        }
      }
    }
  }

  lemma ReadNarrow(i: Insn)
    ensures Read(i, false) == i
  {
  }

  lemma StepShape(i: Insn, s: RvState, host: X86.Host)
    requires |s.x| == 32 && RvStep(i, s, host).Some?
    ensures |RvStep(i, s, host).value.x| == 32
  {
    hide Rv64.Result;
  }

  /** How many bytes of code stand for the j instructions from k on. */
  function CodeSize(text: seq<u8>, k: nat, j: nat, tramp: u64): nat
    requires Words4(text) && k + j <= Count(text)
    decreases j
  {
    if j == 0 then 0
    else
      (match OpsFor(Ins(text, k), tramp) case None => 0 case Some(ops) => |Emit.Flatten(ops)|) + CodeSize(text, k + 1, j - 1, tramp)
  }

  lemma {:induction false} HistoryFits(text: seq<u8>, k: nat, v: RvState, host: X86.Host, wide: bool)
    requires Words4(text) && k <= Count(text) && |v.x| == 32
    ensures k + |History(text, k, v, host, wide)| <= Count(text)
    decreases Count(text) - k
  {
    hide Ins, RvStep, Read;
    if k < Count(text) && !Ins(text, k).cls.Jalr? && RvStep(Read(Ins(text, k), wide), v, host).Some? {
      StepShape(Read(Ins(text, k), wide), v, host);
      HistoryFits(text, k + 1, RvStep(Read(Ins(text, k), wide), v, host).value, host, wide);
    }
  }

  /** The states a run is in before each instruction and at the end. */
  function Trail(text: seq<u8>, k: nat, v: RvState, host: X86.Host, wide: bool): seq<RvState>
    requires Words4(text) && k <= Count(text) && |v.x| == 32
  {
    [v] + History(text, k, v, host, wide)
  }

  /** From a simulating state before the code of instruction k, the emitted code comes, at
      the byte where instruction k + j's code begins, to a state that simulates the j-th
      state of the wide interpretation. */
  lemma {:induction false} BodyFollows(text: seq<u8>, k: nat, j: nat, pre: seq<u8>, s: X86.State, v: RvState, e: Entry, host: X86.Host)
    returns (n: nat, s': X86.State)
    requires Words4(text) && k <= Count(text) && Body(text, k, host.tramp).Some?
    requires Sim(s, v, e) && |s.regs| == 8 && |v.x| == 32 && j <= |History(text, k, v, host, true)|
    ensures k + j <= Count(text)
    ensures X86.After(pre + Emit.Flatten(Body(text, k, host.tramp).value), |pre|, s, host, n) ==
            Some((|pre| + CodeSize(text, k, j, host.tramp), s'))
    ensures Sim(s', Trail(text, k, v, host, true)[j], e)
    decreases j
  {
    hide Sim, OpsFor, Ins, Read, ExecAll, RvStep, Emit.Flatten, X86.DecodeAt, X86.Exec;
    HistoryFits(text, k, v, host, true);
    if j == 0 {
      n, s' := 0, s;
    } else {
      var i := Ins(text, k);
      BodyUnfold(text, k, host.tramp);
      var ops, rest := OpsFor(i, host.tramp).value, Body(text, k + 1, host.tramp).value;
      ShiftRange(text, k);
      StepSim(i, s, v, e, host);
      OpsFit(i, host.tramp);
      var s1, v1 := ExecAll(ops, s, host).value, RvStep(Read(i, true), v, host).value;
      SimShape(s1, v1, e);
      Emit.FlattenAppend(ops, rest);
      ExecBytes(pre, ops, Emit.Flatten(rest), s, host);
      var pre' := pre + Emit.Flatten(ops);
      var m;
      m, s' := BodyFollows(text, k + 1, j - 1, pre', s1, v1, e, host);
      var code := pre + Emit.Flatten(ops + rest);
      assert code == pre + Emit.Flatten(ops) + Emit.Flatten(rest) == pre' + Emit.Flatten(rest);
      X86.AfterThen(code, |pre|, s, host, |ops|, m);
      n := |ops| + m;
      assert Trail(text, k, v, host, true)[j] == Trail(text, k + 1, v1, host, true)[j - 1];
    }
  }

  /** Running the emitted bytes goes through the states of the wide interpretation, each
      held in the frame at the byte where the next instruction's code begins.  With
      MulwExact: through the text's own states exactly when every executed mulw fits. */
  lemma JitFollows(text: seq<u8>, code: seq<u8>, s: X86.State, e: Entry, host: X86.Host, j: nat)
    returns (n: nat, s': X86.State)
    requires Words4(text) && Starts(s, e)
    requires Body(text, 0, host.tramp).Some? && code == Emit.Flatten(Prologue() + Body(text, 0, host.tramp).value)
    requires j <= |History(text, 0, RvState(StartX(s.regs[X86.RDI]), []), host, true)|
    ensures j <= Count(text)
    ensures X86.After(code, 0, s, host, n) == Some((|Emit.Flatten(Prologue())| + CodeSize(text, 0, j, host.tramp), s'))
    ensures Sim(s', Trail(text, 0, RvState(StartX(s.regs[X86.RDI]), []), host, true)[j], e)
  {
    hide Sim, Prologue, Body, ExecAll, Emit.Flatten, History, Trail, X86.After, CodeSize;
    var v := RvState(StartX(s.regs[X86.RDI]), []);
    var body := Body(text, 0, host.tramp).value;
    PrologueFits();
    PrologueSim(s, e, host);
    var s1 := ExecAll(Prologue(), s, host).value;
    SimShape(s1, v, e);
    Emit.FlattenAppend(Prologue(), body);
    ExecBytes([], Prologue(), Emit.Flatten(body), s, host);
    var pre := Emit.Flatten(Prologue());
    assert [] + pre + Emit.Flatten(body) == code;
    var m;
    m, s' := BodyFollows(text, 0, j, pre, s1, v, e, host);
    X86.AfterThen(code, 0, s, host, |Prologue()|, m);
    n := |Prologue()| + m;
  }

  /** mulw a0, a0, a0 on the context pointer 0x10000: the text returns 0, the emitted bytes
      return 2^32. */
  lemma MulwIsTranslatedAsMul(s: X86.State, e: Entry, host: X86.Host)
    requires Starts(s, e) && s.regs[X86.RDI] == 0x1_0000
    ensures var text := [0x3b, 0x05, 0xa5, 0x02];
            && Words4(text) && Body(text, 0, host.tramp).Some?
            && (var r := Interp(text, 0, RvState(StartX(0x1_0000), []), host, false);
                r.Some? && |r.value.x| == 32 && r.value.x[10] == 0)
            && (var o := X86.Run(Emit.Flatten(Prologue() + Body(text, 0, host.tramp).value), 0, s, host);
                o.Returned? && |o.s.regs| == 8 && o.s.regs[X86.RAX] == 0x1_0000_0000)
  {
    hide Emit.Flatten, Prologue, X86.Run, Starts, Ins, RvStep, Read, OpsFor;
    var text: seq<u8> := [0x3b, 0x05, 0xa5, 0x02];
    MulwWord(text);
    var i := Ins(text, 0);
    var start := RvState(StartX(0x1_0000), []);
    BodyUnfold(text, 0, host.tramp);
    MulwOps(i, host.tramp);
    MulwStates(i, start, host);
    ReadNarrow(i);
    JitComputes(text, Emit.Flatten(Prologue() + Body(text, 0, host.tramp).value), s, e, host);
  }

  lemma MulwOps(i: Insn, tramp: u64)
    requires i.cls.Mul? && i.aluOp.MulLow?
    ensures OpsFor(i, tramp).Some?
  {
  }

  lemma MulwWord(text: seq<u8>)
    requires text == [0x3b, 0x05, 0xa5, 0x02]
    ensures Words4(text) && Count(text) == 1
    ensures var i := Ins(text, 0); i.cls.Mul? && i.wordOp && i.aluOp.MulLow? && i.rd == i.rs1 == i.rs2 == 10
  {
    assert WordAt(text, 0) == 0x02a5_053b;
  }

  lemma MulwStates(i: Insn, s: RvState, host: X86.Host)
    requires i.cls.Mul? && i.wordOp && i.aluOp.MulLow? && i.rd == i.rs1 == i.rs2 == 10 && s.x == StartX(0x1_0000)
    ensures RvStep(i, s, host) == Some(s.(x := s.x[10 := 0]))
    ensures RvStep(Read(i, true), s, host) == Some(s.(x := s.x[10 := 0x1_0000_0000]))
  {
  }
}
