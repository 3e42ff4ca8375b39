/** Soundness of the verifier: along every run of an accepted program the registers lie
    in the concretisation of the computed states, and so the checks made on those
    states hold of the run.

    A run starts at offset 0 and ends at the first jalr, when it leaves the text, or at
    a misaligned target.  A register that was clobbered or never written holds Undef,
    and anything computed from Undef is Undef. */
module Soundness {
  import opened Words
  import opened Decoder
  import opened Tnums
  import opened Domain
  import opened Transfer
  import opened Graphs
  import opened ControlFlow
  import opened Verify
  import Rv64

  // ----- concrete machine -----

  datatype CVal = Undef | Word(w: u64)

  datatype CState = CState(off: int, regs: seq<CVal>)

  /** Where the text, the stack frame and the context are, whether this is a callback
      body, with the iteration index it is called with, and the address of each kfunc. */
  datatype Env = Env(base: u64, sp0: u64, ctx0: u64, isCallback: bool, index: u64, kfunc: u32 -> u64)

  function Set(r: seq<CVal>, rd: Reg, v: CVal): seq<CVal>
    requires |r| == 32
  {
    if rd == 0 then r else r[rd := v]
  }

  function Lift1(i: Insn, a: CVal): CVal { if a.Undef? then Undef else Word(Rv64.Result(i, a.w, 0)) }
  function Lift2(i: Insn, a: CVal, b: CVal): CVal { if a.Undef? || b.Undef? then Undef else Word(Rv64.Result(i, a.w, b.w)) }

  /** What a helper call may return in a0: the address of the kfunc named in a0, for the
      helper that resolves kfuncs; nothing defined, where the helper's id or that name is
      not; otherwise anything. */
  predicate Returns(env: Env, r: seq<CVal>, a: CVal)
    requires |r| == 32
  {
    if r[17].Undef? then a.Undef?
    else if r[17].w % 0x1_0000_0000 != HELPER_KFUNC_RESOLVE then true
    else a == if r[10].Undef? then Undef else Word(env.kfunc(r[10].w % 0x1_0000_0000))
  }

  /** Registers after one instruction.  A load may deliver anything; a helper call leaves
      the caller-saved registers undefined and keeps the rest. */
  predicate Exec(i: Insn, env: Env, pc: u64, r: seq<CVal>, r': seq<CVal>)
  {
    && |r| == |r'| == 32
    && match i.cls
       case Lui => r' == Set(r, i.rd, Word(Wrap64(i.imm)))
       case Auipc => r' == Set(r, i.rd, Word(Wrap64(pc + i.imm)))
       case Jal => r' == Set(r, i.rd, Word(Wrap64(pc + 4)))
       case Load => r'[0] == r[0] && forall k :: 0 <= k < 32 && k != i.rd ==> r'[k] == r[k]
       case Ecall => Returns(env, r, r'[10]) && forall k :: 0 <= k < 32 && k != 10 ==> r'[k] == if Rv64.LostInCall(k) then Undef else r[k]
       case AluImm => r' == Set(r, i.rd, Lift1(i, r[i.rs1]))
       case ShiftImm => r' == Set(r, i.rd, Lift1(i, r[i.rs1]))
       case AluImmW => r' == Set(r, i.rd, Lift1(i, r[i.rs1]))
       case AluReg => r' == Set(r, i.rd, Lift2(i, r[i.rs1], r[i.rs2]))
       case AluRegW => r' == Set(r, i.rd, Lift2(i, r[i.rs1], r[i.rs2]))
       case Mul => r' == Set(r, i.rd, Lift2(i, r[i.rs1], r[i.rs2]))
       case Div => r' == Set(r, i.rd, Lift2(i, r[i.rs1], r[i.rs2]))
       case Store => r' == r
       case Branch => r' == r
       case Fence => r' == r
       case _ => false
  }

  predicate Goes(i: Insn, off: int, r: seq<CVal>, off': int)
    requires |r| == 32
  {
    match i.cls
    case Branch =>
      if r[i.rs1].Undef? || r[i.rs2].Undef? then off' == off + 4 || off' == off + i.imm
      else off' == if Rv64.Taken(i.brKind, r[i.rs1].w, r[i.rs2].w) then off + i.imm else off + 4
    case Jal => off' == off + i.imm
    case _ => off' == off + 4
  }

  predicate Here(text: seq<u8>, off: int) { 0 <= off < |text| && off % 4 == 0 }

  /** One step from an instruction that is neither forbidden nor a jalr to an aligned
      offset inside the text. */
  predicate Step(text: seq<u8>, env: Env, s: CState, s': CState)
    requires Words4(text)
  {
    && Here(text, s.off) && Here(text, s'.off)
    && var i := Ins(text, s.off / 4);
       && Permitted(i.cls) && Exec(i, env, Wrap64(env.base + s.off), s.regs, s'.regs)
       && Goes(i, s.off, s.regs, s'.off)
  }

  function StartRegs(env: Env): seq<CVal>
  {
    seq(32, k requires 0 <= k < 32 =>
      if k == 0 then Word(0)
      else if k == 2 then Word(env.sp0)
      else if k == 10 then Word(if env.isCallback then env.index else env.ctx0)
      else if k == 11 && env.isCallback then Word(env.ctx0)
      else Undef)
  }

  predicate IsRun(text: seq<u8>, env: Env, run: seq<CState>)
    requires Words4(text)
  {
    && 0 < |run| && 0 < |text| && run[0] == CState(0, StartRegs(env))
    && forall t :: 0 < t < |run| ==> Step(text, env, run[t - 1], run[t])
  }

  // ----- concretisation -----

  /** An offset range of width 2^31 or more says nothing about the word. */
  ghost predicate InSpan(base: u64, lo: int, hi: int, w: u64)
  {
    hi - lo >= 2 * SPAN || exists off :: lo <= off <= hi && w == Addr(base, off)
  }

  function Addr(base: u64, off: int): u64 { Wrap64(base + off) }

  /** Undef is in every value.  The unsigned range of a scalar counts only outside
      callback bodies. */
  ghost predicate Gamma(env: Env, v: RVal, x: CVal)
  {
    match v
    case Uninit => x.Undef?
    case Num(s) => x.Word? ==> ScalarHas(s, x.w, !env.isCallback)
    case PtrCtx(lo, hi) => x.Word? ==> InSpan(env.ctx0, lo, hi, x.w)
    case PtrStack(lo, hi) => x.Word? ==> InSpan(env.sp0, lo, hi, x.w)
    case PtrKfuncSlot(id) => x.Word? ==> x.w == env.kfunc(id)
    case _ => true
  }

  ghost predicate GammaRegs(env: Env, x: seq<RVal>, r: seq<CVal>)
  {
    |x| == |r| == 32 && r[0] == Word(0) && forall k :: 0 <= k < 32 ==> Gamma(env, x[k], r[k])
  }

  lemma InSpanShift(base: u64, lo: int, hi: int, w: u64, imm: int)
    requires InSpan(base, lo, hi, w)
    ensures InSpan(base, lo + imm, hi + imm, Wrap64(w + Wrap64(imm)))
  {
    if hi - lo < 2 * SPAN {
      hide Wrap64;
      var off :| lo <= off <= hi && w == Addr(base, off);
      WrapOfSum(base + off, imm);
      assert (base + off) + imm == base + (off + imm);
      assert Wrap64(w + Wrap64(imm)) == Addr(base, off + imm);
    }
  }

  lemma GammaBelow(env: Env, a: RVal, b: RVal, x: CVal)
    requires WfVal(a) && WfVal(b) && Below(a, b) && Gamma(env, a, x)
    ensures Gamma(env, b, x)
  {
    hide ScalarJoin, ScalarHas, Wf;
    if x.Word? {
      ScalarTopHas(x.w, !env.isCallback);
      if a.Num? && b.Num? { ScalarJoinSound(a.s, b.s, x.w, !env.isCallback); }
    }
  }

  lemma GammaRegsBelow(env: Env, x: seq<RVal>, y: seq<RVal>, r: seq<CVal>)
    requires WfRegs(x) && WfRegs(y) && RegsBelow(x, y) && GammaRegs(env, x, r)
    ensures GammaRegs(env, y, r)
  {
    hide Gamma, Below, WfVal;
    forall k | 0 <= k < 32 ensures Gamma(env, y[k], r[k]) { GammaBelow(env, x[k], y[k], r[k]); }
  }

  /** Scalar top has every value. */
  lemma GammaTop(env: Env, x: CVal)
    ensures Gamma(env, NumTop(), x)
  {
    hide ScalarHas;
    if x.Word? { ScalarTopHas(x.w, !env.isCallback); }
  }

  lemma GammaSet(env: Env, x: seq<RVal>, r: seq<CVal>, rd: Reg, v: RVal, a: CVal)
    requires GammaRegs(env, x, r) && Gamma(env, v, a)
    ensures GammaRegs(env, Write(x, rd, v), Set(r, rd, a))
  {
    hide Gamma;
  }

  // ----- one instruction -----

  /** addi is the one instruction whose result is tracked exactly. */
  lemma AddiSound(env: Env, i: Insn, v: RVal, a: CVal)
    requires i.cls.AluImm? && i.aluOp.Add? && Gamma(env, v, a) && (i.rs1 == 0 ==> a == Word(0))
    ensures Gamma(env, AddiValue(i, v), Lift1(i, a))
  {
    hide ScalarHas, ScalarAdd, InSpan, Wrap64;
    GammaTop(env, Lift1(i, a));
    if a.Word? {
      assert Rv64.Result(i, a.w, 0) == Wrap64(a.w + Wrap64(i.imm));
      ScalarConstHas(i.imm, Wrap64(i.imm), !env.isCallback);
      if i.rs1 == 0 {
        AddZero(i.imm);
      } else {
        match v
        case Num(s) => ScalarAddSound(s, ScalarConst(i.imm), a.w, Wrap64(i.imm), !env.isCallback);
        case PtrCtx(lo, hi) => InSpanShift(env.ctx0, lo, hi, a.w, i.imm);
        case PtrStack(lo, hi) => InSpanShift(env.sp0, lo, hi, a.w, i.imm);
        case _ =>
      }
    }
  }

  lemma AddZero(imm: int)
    ensures Wrap64(0 + Wrap64(imm)) == Wrap64(imm)
  {
  }

  lemma RegValueSound(env: Env, i: Insn, a: RVal, b: RVal, x: CVal)
    ensures Gamma(env, RegValue(i, a, b), x)
  {
    hide ScalarHas;
    GammaTop(env, x);
  }

  lemma EcallSound(env: Env, x: seq<RVal>, c: Config, r: seq<CVal>, r': seq<CVal>)
    requires GammaRegs(env, x, r) && EcallRejects(x, c) == 0 && |r'| == 32
    requires Returns(env, r, r'[10]) && forall k :: 0 <= k < 32 && k != 10 ==> r'[k] == if Rv64.LostInCall(k) then Undef else r[k]
    ensures GammaRegs(env, EcallRegs(x, c), r')
  {
    hide Allowed, ScalarIsConst, ScalarHas;
    GammaTop(env, r'[10]);
    if r[17].Word? {
      ConstIdIs(env, x[17], r[17]);
      if IsConstNum(x[10]) && r[10].Word? { ConstIdIs(env, x[10], r[10]); }
    }
    var y := EcallRegs(x, c);
    forall k | 0 <= k < 32
      ensures Gamma(env, y[k], r'[k])
    {
    }
  }

  /** An instruction that is not rejected takes registers in the concretisation of a
      state to registers in the concretisation of its transfer. */
  lemma ExecSound(env: Env, i: Insn, pc: u64, x: seq<RVal>, c: Config, r: seq<CVal>, r': seq<CVal>)
    requires GammaRegs(env, x, r) && Rejects(i, x, c) == 0 && Permitted(i.cls) && Exec(i, env, pc, r, r')
    ensures GammaRegs(env, Regs(i, x, c), r')
  {
    hide Gamma, AddiValue, RegValue, EcallRegs, EcallRejects, AddiRejects, BadAccess, NumTop, NumConst;
    if i.cls.Ecall? {
      EcallSound(env, x, c, r, r');
    } else if i.cls.AluImm? && i.aluOp.Add? {
      AddiSound(env, i, x[i.rs1], r[i.rs1]);
      GammaSet(env, x, r, i.rd, AddiValue(i, x[i.rs1]), Lift1(i, r[i.rs1]));
    } else if i.cls.AluReg? {
      RegValueSound(env, i, x[i.rs1], x[i.rs2], Lift2(i, r[i.rs1], r[i.rs2]));
      GammaSet(env, x, r, i.rd, RegValue(i, x[i.rs1], x[i.rs2]), Lift2(i, r[i.rs1], r[i.rs2]));
    } else if i.cls.Lui? {
      GammaConst(env, i.imm);
      GammaSet(env, x, r, i.rd, NumConst(i.imm), Word(Wrap64(i.imm)));
    } else if !i.cls.Store? && !i.cls.Branch? {
      assert r' == Set(r, i.rd, r'[i.rd]);
      WriteTop(env, x, r, i.rd, r'[i.rd]);
    }
  }

  lemma GammaConst(env: Env, v: i64)
    ensures Gamma(env, NumConst(v), Word(Wrap64(v)))
  {
    hide ScalarHas;
    ScalarConstHas(v, Wrap64(v), !env.isCallback);
  }

  lemma WriteTop(env: Env, x: seq<RVal>, r: seq<CVal>, rd: Reg, a: CVal)
    requires GammaRegs(env, x, r)
    ensures GammaRegs(env, Write(x, rd, NumTop()), Set(r, rd, a))
  {
    hide Gamma, NumTop;
    GammaTop(env, a);
    GammaSet(env, x, r, rd, NumTop(), a);
  }

  // ----- whole runs -----

  predicate Matches(env: Env, c: Config) { env.isCallback == c.isCallback && env.index < TWO63 }

  lemma StartSound(env: Env, c: Config)
    requires Matches(env, c)
    ensures GammaRegs(env, InitRegs(c), StartRegs(env))
  {
    hide Has;
    var x, r := InitRegs(c), StartRegs(env);
    GammaConst(env, 0);
    TopHas(env.index);
    assert env.sp0 == Addr(env.sp0, 0) && env.ctx0 == Addr(env.ctx0, 0);
    forall k | 0 <= k < 32
      ensures Gamma(env, x[k], r[k])
    {
    }
  }

  /** The callback entry state gives a0 the unsigned range [0, 0]: of all iteration
      indices it describes only 0, which is why that range is ignored for callbacks. */
  lemma CallbackIndexRange(c: Config, index: u64)
    requires c.isCallback && index < TWO63
    ensures InitRegs(c)[10].Num?
    ensures ScalarHas(InitRegs(c)[10].s, index, true) <==> index == 0
    ensures ScalarHas(InitRegs(c)[10].s, index, false)
  {
    hide Has;
    TopHas(index);
  }

  /** Registers at offset s.off lie in the state computed there: the replay of the block
      that holds it, from that block's entry state. */
  ghost predicate CoveredIn(text: seq<u8>, c: Config, env: Env, blocks: seq<Block>, entry: seq<VState>, s: CState, b: int)
  {
    && 0 <= b < |blocks| == |entry| && InText(text, blocks[b]) && |entry[b].x| == 32 && entry[b].valid
    && blocks[b].start <= s.off <= blocks[b].end && s.off % 4 == 0
    && GammaRegs(env, RegsAt(text, c, entry[b].x, At(blocks[b]), (s.off - blocks[b].start) / 4), s.regs)
  }

  lemma StartCovered(text: seq<u8>, textOffset: u32, c: Config, env: Env, G: Cfg, entry: seq<VState>, marks: seq<bool>)
    requires Accepted(text, textOffset, c, G, entry, marks) && Matches(env, c)
    ensures CoveredIn(text, c, env, G.blocks, entry, CState(0, StartRegs(env)), 0)
  {
    hide Done, MarkedBy, RegsBelow, GammaRegs, InitRegs, WfRegs;
    StartSound(env, c);
    InitWf(c);
    assert WfState(entry[0]);
    WfLen(entry[0].x);
    GammaRegsBelow(env, InitRegs(c), entry[0].x, StartRegs(env));
    FirstBlock(text, textOffset, G.blocks);
  }

  lemma FirstBlock(text: seq<u8>, textOffset: u32, blocks: seq<Block>)
    requires BuiltFrom(text, textOffset, blocks)
    ensures 0 < |blocks| && blocks[0].start == 0
  {
    hide IsBlock, Wired, LinkedAt, TargetOk;
  }

  /** The instruction reached is not rejected, and executing it lands in its transfer. */
  lemma CoveredExec(text: seq<u8>, c: Config, env: Env, blocks: seq<Block>, entry: seq<VState>, s: CState, b: int)
    requires CoveredIn(text, c, env, blocks, entry, s, b) && Done(text, c, blocks, entry, b) && Here(text, s.off)
    ensures var k := (s.off - blocks[b].start) / 4;
            && 0 <= k < Len(blocks[b]) && At(blocks[b]) + k == s.off / 4 && At(blocks[b]) + Len(blocks[b]) <= Count(text)
            && Rejects(Ins(text, s.off / 4), RegsAt(text, c, entry[b].x, At(blocks[b]), k), c) == 0
  {
    hide RegsAt, RejectsOf, Rejects, EdgeDone, GammaRegs, Ins;
    RejectsZero(text, c, entry[b].x, At(blocks[b]), Len(blocks[b]), (s.off - blocks[b].start) / 4);
  }

  lemma StepInBlock(text: seq<u8>, textOffset: u32, c: Config, env: Env, blocks: seq<Block>, entry: seq<VState>, s: CState, s': CState, b: int)
    requires BuiltFrom(text, textOffset, blocks)
    requires CoveredIn(text, c, env, blocks, entry, s, b) && Done(text, c, blocks, entry, b) && Step(text, env, s, s')
    ensures var k := (s.off - blocks[b].start) / 4;
            && At(blocks[b]) + k + 1 <= Count(text)
            && GammaRegs(env, RegsAt(text, c, entry[b].x, At(blocks[b]), k + 1), s'.regs)
    ensures s.off < blocks[b].end ==> s'.off == s.off + 4
    ensures s.off == blocks[b].end ==> Flows(text, blocks[b].end, s'.off)
  {
    hide Done, Rejects, GammaRegs, Ins, Exec, Permitted, Regs, Tiles, LinkedAt, TargetOk;
    CoveredExec(text, c, env, blocks, entry, s, b);
    var k := (s.off - blocks[b].start) / 4;
    var i := Ins(text, s.off / 4);
    ExecSound(env, i, Wrap64(env.base + s.off), RegsAt(text, c, entry[b].x, At(blocks[b]), k), c, s.regs, s'.regs);
    if s.off < blocks[b].end { InnerIsPlain(text, textOffset, blocks, b, s.off / 4); }
    ExecNotJalr(i, env, Wrap64(env.base + s.off), s.regs, s'.regs);
  }

  lemma InnerIsPlain(text: seq<u8>, textOffset: u32, blocks: seq<Block>, b: int, k: int)
    requires BuiltFrom(text, textOffset, blocks) && 0 <= b < |blocks| && blocks[b].start / 4 <= k < blocks[b].end / 4
    ensures 0 <= k < Count(text) && !IsControl(Ins(text, k).cls)
  {
    hide Ins, IsLeader, Wired, LinkedAt, TargetOk;
    assert IsBlock(text, blocks[b], |text|);
  }

  lemma ExecNotJalr(i: Insn, env: Env, pc: u64, r: seq<CVal>, r': seq<CVal>)
    requires Exec(i, env, pc, r, r')
    ensures !i.cls.Jalr?
  {
  }

  /** A step stays covered: inside the block, or through an edge of the graph into a
      block whose entry state is above the exit state. */
  lemma StepCovered(text: seq<u8>, textOffset: u32, c: Config, env: Env, G: Cfg, entry: seq<VState>, marks: seq<bool>,
                    s: CState, s': CState, b: int)
    returns (b': int)
    requires Accepted(text, textOffset, c, G, entry, marks) && Words4(text) && AvoidsZero(text, textOffset)
    requires CoveredIn(text, c, env, G.blocks, entry, s, b) && Step(text, env, s, s')
    ensures CoveredIn(text, c, env, G.blocks, entry, s', b')
    ensures (b' == b && s'.off == s.off + 4) || (HasSucc(G.blocks, b, b') && s.off == G.blocks[b].end && s'.off == G.blocks[b'].start)
  {
    hide CoveredIn, Ins, Step, RejectsOf, Accepted, BuiltFrom, WfRegs, Flows, AvoidsZero, Done, Sane, RegsAt, GammaRegs;
    var blocks := G.blocks;
    CoveredShape(text, c, env, blocks, entry, s, b);
    AcceptedAt(text, textOffset, c, G, entry, marks, b);
    StepInBlock(text, textOffset, c, env, blocks, entry, s, s', b);
    if s.off < blocks[b].end {
      b' := b;
      StaysCovered(text, c, env, blocks, entry, s, s', b);
    } else {
      FlowsNotToZero(text, textOffset, blocks[b], s'.off);
      b' := EdgesComplete(text, textOffset, blocks, b, s'.off);
      AcceptedAt(text, textOffset, c, G, entry, marks, b');
      CrossesCovered(text, c, env, blocks, entry, s'.off, s'.regs, b, b');
      assert s' == CState(s'.off, s'.regs);
    }
  }

  lemma FlowsNotToZero(text: seq<u8>, textOffset: u32, b: Block, t: int)
    requires Words4(text) && AvoidsZero(text, textOffset) && 0 <= b.end < |text| && b.end % 4 == 0 && Flows(text, b.end, t)
    ensures IsControl(Last(text, b).cls) ==> Pc(textOffset, t) != 0
  {
    hide Flows, Ins, Pc;
  }

  lemma StaysCovered(text: seq<u8>, c: Config, env: Env, blocks: seq<Block>, entry: seq<VState>, s: CState, s': CState, b: int)
    requires CoveredIn(text, c, env, blocks, entry, s, b) && s.off < blocks[b].end && s'.off == s.off + 4
    requires At(blocks[b]) + (s.off - blocks[b].start) / 4 + 1 <= Count(text)
    requires GammaRegs(env, RegsAt(text, c, entry[b].x, At(blocks[b]), (s.off - blocks[b].start) / 4 + 1), s'.regs)
    ensures CoveredIn(text, c, env, blocks, entry, s', b)
  {
    hide GammaRegs, RegsAt, Count, At, WfState;
    NextWord(s.off, blocks[b].start, blocks[b].end);
  }

  lemma NextWord(off: int, start: int, end: int)
    requires start <= off < end && off % 4 == start % 4 == end % 4 == 0
    ensures (off + 4 - start) / 4 == (off - start) / 4 + 1 && (off + 4) % 4 == 0 && off + 4 <= end
  {
  }

  /** Along an edge: the exit state of b is below the entry state of b'. */
  lemma CrossesCovered(text: seq<u8>, c: Config, env: Env, blocks: seq<Block>, entry: seq<VState>, off: int, r: seq<CVal>, b: int, b': int)
    requires HasSucc(blocks, b, b') && |entry| == |blocks| && InText(text, blocks[b]) && InText(text, blocks[b'])
    requires entry[b].valid && WfState(entry[b]) && WfState(entry[b']) && |entry[b].x| == |entry[b'].x| == 32
    requires Done(text, c, blocks, entry, b) && off == blocks[b'].start
    requires GammaRegs(env, OutOf(text, c, blocks[b], entry[b].x), r)
    ensures CoveredIn(text, c, env, blocks, entry, CState(off, r), b')
  {
    hide GammaRegs, RegsAt, RejectsOf, RegsBelow, WfRegs;
    var out := OutOf(text, c, blocks[b], entry[b].x);
    RegsAtWf(text, c, entry[b].x, At(blocks[b]), Len(blocks[b]));
    assert StateBelow(VState(out, true), entry[b']);
    GammaRegsBelow(env, out, entry[b'].x, r);
    RegsAtNone(text, c, entry[b'].x, At(blocks[b']));
  }

  lemma AcceptedAt(text: seq<u8>, textOffset: u32, c: Config, G: Cfg, entry: seq<VState>, marks: seq<bool>, b: int)
    requires Accepted(text, textOffset, c, G, entry, marks) && 0 <= b < |G.blocks|
    ensures BuiltFrom(text, textOffset, G.blocks) && |G.blocks| == |entry| == |marks|
    ensures WfState(entry[b]) && InText(text, G.blocks[b]) && |entry[b].x| == 32
    ensures Done(text, c, G.blocks, entry, b)
    ensures entry[b].valid ==> Sane(entry[b].x, c, StepCap(c), true)
  {
    hide Done, MarkedBy, BuiltFrom, StateBelow, Sane, IsRpo, IsBackEdge;
  }

  lemma RegsAtNone(text: seq<u8>, c: Config, x: seq<RVal>, at: int)
    requires Words4(text) && |x| == 32 && 0 <= at <= Count(text)
    ensures RegsAt(text, c, x, at, 0) == x
  {
  }

  /** Every state of every run of an accepted program is covered. */
  lemma {:induction false} RunCovered(text: seq<u8>, textOffset: u32, c: Config, env: Env, G: Cfg, entry: seq<VState>, marks: seq<bool>,
                                      run: seq<CState>, t: nat)
    returns (b: int)
    requires Accepted(text, textOffset, c, G, entry, marks) && Matches(env, c)
    requires Words4(text) && AvoidsZero(text, textOffset) && IsRun(text, env, run) && t < |run|
    ensures CoveredIn(text, c, env, G.blocks, entry, run[t], b)
    ensures Reachable(GraphOf(G.blocks), b)
    decreases t
  {
    hide Accepted, CoveredIn, Step, StartRegs, Reachable, GraphOf, AvoidsZero;
    if t == 0 {
      StartCovered(text, textOffset, c, env, G, entry, marks);
      b := 0;
      ReachableEntry(GraphOf(G.blocks));
    } else {
      var a := RunCovered(text, textOffset, c, env, G, entry, marks, run, t - 1);
      b := StepCovered(text, textOffset, c, env, G, entry, marks, run[t - 1], run[t], a);
      if b != a { SuccReachable(G.blocks, a, b); }
    }
  }

  lemma SuccReachable(blocks: seq<Block>, a: int, b: int)
    requires HasSucc(blocks, a, b) && Reachable(GraphOf(blocks), a)
    ensures Reachable(GraphOf(blocks), b) && GraphOf(blocks).Edge(a, b)
  {
    hide Reachable;
    ReachableStep(GraphOf(blocks), a, b);
  }

  // ----- what acceptance guarantees -----

  /** The window [addr, addr + width) lies in [sp0 - maxStack, sp0). */
  ghost predicate InFrame(c: Config, env: Env, addr: u64, width: int)
  {
    exists off :: 0 <= off + c.maxStack && off + width <= 0 && addr == Addr(env.sp0, off)
  }

  /** A stack-tracked value whose offset means something: a range of less than 2^31 bytes.
      With a budget of at most 2^31 the frame check lets no other through. */
  predicate Tracked(v: RVal, c: Config) { v.PtrStack? && (c.maxStack <= 2 * SPAN || v.hi - v.lo < 2 * SPAN) }

  /** The base is a pointer; a defined stack-tracked base keeps the access in the frame. */
  ghost predicate AccessSafe(c: Config, env: Env, v: RVal, a: CVal, imm: int, width: int)
  {
    IsPtr(v) && (Tracked(v, c) && a.Word? ==> InFrame(c, env, Wrap64(a.w + Wrap64(imm)), width))
  }

  /** Ids passed in defined registers are on the allow lists; a loop callback runs at
      least once. */
  predicate CallSafe(c: Config, r: seq<CVal>)
    requires |r| == 32
  {
    r[17].Word? ==>
      var id := r[17].w % 0x1_0000_0000;
      && Allowed(c.helpers, id)
      && (id == HELPER_KFUNC_RESOLVE && r[10].Word? ==> Allowed(c.kfuncs, r[10].w % 0x1_0000_0000))
      && (id == HELPER_LOOP_CB && r[10].Word? ==> Signed(r[10].w) >= 1)
      && (id == HELPER_LOOP_CB && r[11].Word? ==> Allowed(c.callbacks, r[11].w % 0x1_0000_0000))
  }

  /** A jump other than a return goes through the address of an allowed kfunc. */
  predicate JumpSafe(c: Config, env: Env, v: RVal, a: CVal)
  {
    v.PtrKfuncSlot? && Allowed(c.kfuncs, v.id) && (a.Word? ==> a.w == env.kfunc(v.id))
  }

  ghost predicate Safe(text: seq<u8>, c: Config, env: Env, x: seq<RVal>, s: CState)
    requires Words4(text) && Here(text, s.off) && |x| == |s.regs| == 32
  {
    var i, r := Ins(text, s.off / 4), s.regs;
    && Permitted(i.cls)
    && (i.cls.Load? ==> AccessSafe(c, env, x[i.rs1], r[i.rs1], i.imm, Rv64.AccessBytes(i.width)))
    && (i.cls.Store? ==> AccessSafe(c, env, x[i.rs1], r[i.rs1], i.imm, Rv64.AccessBytes(i.width)))
    && (i.cls.Ecall? ==> CallSafe(c, r))
    && (i.cls.Jalr? ==> i.rs1 == 1 || JumpSafe(c, env, x[i.rs1], r[i.rs1]))
  }

  lemma AccessFromCheck(c: Config, env: Env, v: RVal, a: CVal, imm: Imm, width: int)
    requires Gamma(env, v, a) && !BadAccess(v, imm, width, c) && width > 0
    ensures AccessSafe(c, env, v, a, imm, width)
  {
    if Tracked(v, c) && a.Word? {
      hide Wrap64;
      InSpanShift(env.sp0, v.lo, v.hi, a.w, imm);
      var off :| v.lo + imm <= off <= v.hi + imm && Wrap64(a.w + Wrap64(imm)) == Addr(env.sp0, off);
    }
  }

  lemma ConstIdIs(env: Env, v: RVal, a: CVal)
    requires Gamma(env, v, a) && IsConstNum(v) && a.Word?
    ensures ConstId(v) == a.w % 0x1_0000_0000 && v.s.smin == Signed(a.w)
  {
    ConstHas(v.s.tn.value, a.w);
    assert v.s.tn == Const(v.s.tn.value);
  }

  lemma CallFromCheck(c: Config, env: Env, x: seq<RVal>, r: seq<CVal>)
    requires GammaRegs(env, x, r) && EcallRejects(x, c) == 0
    ensures CallSafe(c, r)
  {
    hide Allowed, ScalarIsConst, ScalarHas;
    if r[17].Word? {
      ConstIdIs(env, x[17], r[17]);
      if IsConstNum(x[10]) && r[10].Word? { ConstIdIs(env, x[10], r[10]); }
      if IsConstNum(x[11]) && r[11].Word? { ConstIdIs(env, x[11], r[11]); }
    }
  }

  lemma SafeFromCheck(text: seq<u8>, c: Config, env: Env, x: seq<RVal>, s: CState)
    requires Words4(text) && Here(text, s.off) && GammaRegs(env, x, s.regs)
    requires Rejects(Ins(text, s.off / 4), x, c) == 0
    ensures Safe(text, c, env, x, s)
  {
    hide Gamma, BadAccess, AccessSafe, CallSafe, EcallRejects, AddiRejects, Ins, Allowed;
    var i := Ins(text, s.off / 4);
    WidthIs(text, s.off / 4);
    if i.cls.Load? || i.cls.Store? { AccessFromCheck(c, env, x[i.rs1], s.regs[i.rs1], i.imm, Rv64.AccessBytes(i.width)); }
    if i.cls.Ecall? { CallFromCheck(c, env, x, s.regs); }
    if i.cls.Jalr? { JumpFromCheck(c, env, i, x, s.regs); }
  }

  lemma JumpFromCheck(c: Config, env: Env, i: Insn, x: seq<RVal>, r: seq<CVal>)
    requires GammaRegs(env, x, r) && i.cls.Jalr? && Rejects(i, x, c) == 0
    ensures i.rs1 == 1 || JumpSafe(c, env, x[i.rs1], r[i.rs1])
  {
    hide Allowed;
    assert Gamma(env, x[i.rs1], r[i.rs1]);
  }

  /** The widths the code checks are those the instructions have. */
  lemma WidthIs(text: seq<u8>, k: int)
    requires Words4(text) && 0 <= k < Count(text)
    ensures Ins(text, k).cls.Load? ==> LoadWidth(Ins(text, k).width) == Rv64.AccessBytes(Ins(text, k).width)
    ensures Ins(text, k).cls.Store? ==> StoreWidth(Ins(text, k).width) == Rv64.AccessBytes(Ins(text, k).width)
  {
    hide Decode, LoadWidth, StoreWidth, Rv64.AccessBytes;
    ImmRanges(WordAt(text, 4 * k));
    WidthOf(Ins(text, k));
  }

  lemma WidthOf(i: Insn)
    requires Ranged(i)
    ensures i.cls.Load? ==> LoadWidth(i.width) == Rv64.AccessBytes(i.width)
    ensures i.cls.Store? ==> StoreWidth(i.width) == Rv64.AccessBytes(i.width)
  {
    assert Pow2(0) == 1 && Pow2(1) == 2 && Pow2(2) == 4 && Pow2(3) == 8;
    if i.cls.Load? || i.cls.Store? { assert i.width in {0, 1, 2, 3, 4, 5, 6}; }
  }

  /** The run stands in block b; its registers lie in the state x that the verifier
      computed for that place, the replay of b from its entry state; sp, where tracked,
      is in the frame; and the instruction about to execute is safe, judged by x. */
  ghost predicate SafeAt(text: seq<u8>, c: Config, env: Env, blocks: seq<Block>, entry: seq<VState>, s: CState, b: int, x: seq<RVal>)
  {
    && CoveredIn(text, c, env, blocks, entry, s, b) && Here(text, s.off)
    && x == RegsAt(text, c, entry[b].x, At(blocks[b]), (s.off - blocks[b].start) / 4)
    && GammaRegs(env, x, s.regs) && SpInFrame(x, c) && Safe(text, c, env, x, s)
  }

  /** Main theorem.  At any moment of any run of any accepted text, the run is where the
      verifier's states say, and safe. */
  lemma AcceptedIsSafe(text: seq<u8>, textOffset: u32, c: Config, env: Env, G: Cfg, entry: seq<VState>, marks: seq<bool>,
                       run: seq<CState>, t: nat)
    returns (b: int, x: seq<RVal>)
    requires Accepted(text, textOffset, c, G, entry, marks) && Matches(env, c)
    requires Words4(text) && AvoidsZero(text, textOffset) && IsRun(text, env, run) && t < |run|
    ensures SafeAt(text, c, env, G.blocks, entry, run[t], b, x) && Reachable(GraphOf(G.blocks), b)
  {
    hide Accepted, CoveredIn, SafeAt, Done, Sane, Reachable, GraphOf, AvoidsZero, IsRun, Matches;
    b := RunCovered(text, textOffset, c, env, G, entry, marks, run, t);
    CoveredShape(text, c, env, G.blocks, entry, run[t], b);
    AcceptedAt(text, textOffset, c, G, entry, marks, b);
    x := SafeWhereCovered(text, c, env, G.blocks, entry, run[t], b);
  }

  lemma CoveredShape(text: seq<u8>, c: Config, env: Env, blocks: seq<Block>, entry: seq<VState>, s: CState, b: int)
    requires CoveredIn(text, c, env, blocks, entry, s, b)
    ensures 0 <= b < |blocks| == |entry| && InText(text, blocks[b]) && |entry[b].x| == 32 && entry[b].valid
    ensures blocks[b].start <= s.off <= blocks[b].end && Here(text, s.off) && |s.regs| == 32
    ensures s.off == blocks[b].end ==> (s.off - blocks[b].start) / 4 + 1 == Len(blocks[b])
  {
    hide RegsAt, Gamma;
  }

  lemma SafeWhereCovered(text: seq<u8>, c: Config, env: Env, blocks: seq<Block>, entry: seq<VState>, s: CState, b: int)
    returns (x: seq<RVal>)
    requires CoveredIn(text, c, env, blocks, entry, s, b) && Here(text, s.off)
    requires Done(text, c, blocks, entry, b) && Sane(entry[b].x, c, StepCap(c), true)
    ensures SafeAt(text, c, env, blocks, entry, s, b, x)
  {
    hide GammaRegs, Rejects, Ins, Safe, RegsAt, RejectsOf, Done, Sane, SpInFrame;
    var blk, k := blocks[b], (s.off - blocks[b].start) / 4;
    x := RegsAt(text, c, entry[b].x, At(blk), k);
    CoveredExec(text, c, env, blocks, entry, s, b);
    SafeFromCheck(text, c, env, x, s);
    DoneRejects(text, c, blocks, entry, b, k);
    RegsAtSane(text, c, entry[b].x, At(blk), k, StepCap(c), true);
    SaneSp(x, c, StepCap(c) + k);
  }

  lemma DoneRejects(text: seq<u8>, c: Config, blocks: seq<Block>, entry: seq<VState>, b: int, k: nat)
    requires 0 <= b < |blocks| == |entry| && InText(text, blocks[b]) && |entry[b].x| == 32 && entry[b].valid
    requires Done(text, c, blocks, entry, b) && k < Len(blocks[b])
    ensures At(blocks[b]) + Len(blocks[b]) <= Count(text) && RejectsOf(text, c, entry[b].x, At(blocks[b]), k) == 0
  {
    hide RejectsOf, EdgeDone, RegsAt, Rejects, Ins;
    RejectsZero(text, c, entry[b].x, At(blocks[b]), Len(blocks[b]), k);
  }

  lemma SaneSp(x: seq<RVal>, c: Config, steps: int)
    requires Sane(x, c, steps, true)
    ensures SpInFrame(x, c)
  {
  }

  /** In concrete terms only: whenever a load or store of an accepted program uses sp as
      its base and sp is defined, the access is inside the frame. */
  lemma SpAccessInFrame(text: seq<u8>, textOffset: u32, c: Config, env: Env, G: Cfg, entry: seq<VState>, marks: seq<bool>,
                        run: seq<CState>, t: nat)
    requires Accepted(text, textOffset, c, G, entry, marks) && Matches(env, c)
    requires Words4(text) && AvoidsZero(text, textOffset) && IsRun(text, env, run) && t < |run| && c.maxStack <= 2 * SPAN
    ensures Here(text, run[t].off) && |run[t].regs| == 32
    ensures var i, r := Ins(text, run[t].off / 4), run[t].regs;
            (i.cls.Load? || i.cls.Store?) && i.rs1 == 2 && r[2].Word? ==>
              InFrame(c, env, Wrap64(r[2].w + Wrap64(i.imm)), Rv64.AccessBytes(i.width))
  {
    hide Accepted, Ins, InFrame, Gamma, Rv64.AccessBytes, Permitted, CallSafe, IsRun, AvoidsZero, CoveredIn, Reachable, GraphOf, RegsAt;
    var b, x := AcceptedIsSafe(text, textOffset, c, env, G, entry, marks, run, t);
  }

  // ----- the stack-pointer discipline -----

  /** The discipline the code states is that sp changes only by addi sp, sp, K.  An
      instruction that is not rejected keeps sp stack-tracked unless it is one of the
      six classes whose destination goes unchecked. */
  lemma SpDiscipline(i: Insn, x: seq<RVal>, c: Config)
    requires |x| == 32 && x[2].PtrStack? && Rejects(i, x, c) == 0
    ensures Regs(i, x, c)[2].PtrStack? <==>
            !(i.rd == 2 && (i.cls.ShiftImm? || i.cls.AluImmW? || i.cls.AluRegW? || i.cls.Mul? || i.cls.Div? || i.cls.Fence?))
    ensures Regs(i, x, c)[2].PtrStack? && Regs(i, x, c)[2] != x[2] ==> i.cls.AluImm? && i.aluOp.Add? && i.rd == i.rs1 == 2
  {
    hide Allowed, ScalarIsConst, ScalarAdd;
  }

  /** slli sp, sp, 1 is accepted in the entry state and loses track of sp. */
  lemma ShiftOfSpIsAccepted(c: Config)
    ensures var i := Decode(0x0011_1113);
            && i.cls.ShiftImm? && i.rd == i.rs1 == 2
            && Rejects(i, InitRegs(c), c) == 0 && InitRegs(c)[2].PtrStack? && Regs(i, InitRegs(c), c)[2] == NumTop()
  {
  }

  // ----- calls and indirect jumps -----

  /** What an ecall needs: a constant, allow-listed id in a7, and allowed constants where
      the helper takes an id or a count. */
  lemma EcallDiscipline(i: Insn, x: seq<RVal>, c: Config)
    requires |x| == 32 && i.cls.Ecall?
    ensures Rejects(i, x, c) == 0 <==>
            && IsConstNum(x[17]) && Allowed(c.helpers, ConstId(x[17]))
            && (ConstId(x[17]) == HELPER_KFUNC_RESOLVE ==> IsConstNum(x[10]) && Allowed(c.kfuncs, ConstId(x[10])))
            && (ConstId(x[17]) == HELPER_LOOP_CB ==>
                  IsConstNum(x[10]) && x[10].s.smin >= 1 && IsConstNum(x[11]) && Allowed(c.callbacks, ConstId(x[11])))
  {
    hide Allowed, ScalarIsConst;
  }

  /** Where a jalr goes: the low bit of the sum is cleared. */
  function JumpTarget(i: Insn, w: u64): u64 { var t := Wrap64(w + i.imm); t - t % 2 }

  /** A jump through a resolved kfunc reaches that kfunc, which has an even address, exactly
      when its immediate is 0 or 1. */
  lemma JumpReachesIff(i: Insn, w: u64)
    requires w % 2 == 0 && Ranged(i) && i.cls.Jalr?
    ensures JumpTarget(i, w) == w <==> i.imm == 0 || i.imm == 1
  {
    if 0 <= w + i.imm < TWO64 {
      ModUnique(w + i.imm, TWO64, 0, w + i.imm);
    } else if w + i.imm < 0 {
      ModUnique(w + i.imm, TWO64, -1, w + i.imm + TWO64);
    } else {
      ModUnique(w + i.imm, TWO64, 1, w + i.imm - TWO64);
    }
  }

  /** The two forms the code names: a plain return, and a call through a kfunc slot that
      links to nothing or to ra. */
  predicate NamedForm(i: Insn, v: RVal, c: Config)
  {
    i.imm == 0 && ((i.rd == 0 && i.rs1 == 1) || ((i.rd == 0 || i.rd == 1) && v.PtrKfuncSlot? && Allowed(c.kfuncs, v.id)))
  }

  /** What passes is wider: of the jumps through ra or an allowed slot, a named form is one
      exactly when its immediate is 0 and it links as that form does. */
  lemma JalrDiscipline(i: Insn, x: seq<RVal>, c: Config)
    requires |x| == 32 && i.cls.Jalr?
    ensures Rejects(i, x, c) == 0 <==> i.rs1 == 1 || (x[i.rs1].PtrKfuncSlot? && Allowed(c.kfuncs, x[i.rs1].id))
    ensures Rejects(i, x, c) == 0 ==>
              (NamedForm(i, x[i.rs1], c) <==>
                 i.imm == 0 && (i.rd == 0 || (i.rd == 1 && x[i.rs1].PtrKfuncSlot? && Allowed(c.kfuncs, x[i.rs1].id))))
  {
    hide Allowed;
  }

  /** jalr sp, 8(ra) passes in every state and is neither form. */
  lemma OtherJalrIsAccepted(x: seq<RVal>, c: Config)
    requires |x| == 32
    ensures var i := Decode(0x80_8167);
            && i.cls.Jalr? && i.rd == 2 && i.rs1 == 1 && i.imm == 8
            && Rejects(i, x, c) == 0 && !NamedForm(i, x[1], c)
  {
    hide Allowed;
  }
}
