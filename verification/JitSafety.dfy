/** The verifier and the JIT together: what the verifier establishes about a text holds of
    the helper calls its translation makes. */
module JitSafety {
  import opened Basics
  import opened Words
  import opened Decoder
  import opened Domain
  import opened Transfer
  import opened ControlFlow
  import opened Verify
  import opened Soundness
  import opened Jit
  import Rv64
  import X86
  import Emit

  /** The JIT's register file, which is always defined, agrees with the verifier's machine
      wherever that one is. */
  predicate Refines(r: seq<CVal>, x: seq<u64>)
  {
    |r| == |x| == 32 && forall k :: 0 <= k < 32 && r[k].Word? ==> r[k].w == x[k]
  }

  /** The host's kfunc resolver gives the addresses the environment speaks of. */
  ghost predicate HostResolves(host: X86.Host, env: Env)
  {
    forall calls: seq<seq<u64>>, x: seq<u64> :: |x| == 32 && x[17] % 0x1_0000_0000 == HELPER_KFUNC_RESOLVE ==>
      host.helper(calls, x) == env.kfunc(x[10] % 0x1_0000_0000)
  }

  /** What a helper call leaves in the verifier's machine when the helper returns a. */
  function AfterCall(env: Env, r: seq<CVal>, a: u64): seq<CVal>
    requires |r| == 32
  {
    seq(32, k requires 0 <= k < 32 =>
      if k == 10 then
        (if r[17].Undef? then Undef
         else if r[17].w % 0x1_0000_0000 == HELPER_KFUNC_RESOLVE && r[10].Undef? then Undef else Word(a))
      else if Rv64.LostInCall(k) then Undef else r[k])
  }

  /** One instruction of the straight-line subset, in both machines. */
  lemma StepRefines(i: Insn, env: Env, pc: u64, r: seq<CVal>, v: RvState, host: X86.Host) returns (r': seq<CVal>)
    requires Refines(r, v.x) && RvStep(i, v, host).Some? && HostResolves(host, env)
    ensures Exec(i, env, pc, r, r') && Permitted(i.cls) && |RvStep(i, v, host).value.x| == 32
    ensures Refines(r', RvStep(i, v, host).value.x)
  {
    hide Rv64.Alu, Rv64.AluW;
    if i.cls.Ecall? {
      r' := AfterCall(env, r, host.helper(v.calls, v.x));
    } else if i.cls.Fence? {
      r' := r;
    } else if i.cls.Lui? {
      r' := Set(r, i.rd, Word(Wrap64(i.imm)));
    } else if i.cls.AluImm? || i.cls.ShiftImm? {
      r' := Set(r, i.rd, Lift1(i, r[i.rs1]));
    } else {
      r' := Set(r, i.rd, Lift2(i, r[i.rs1], r[i.rs2]));
    }
  }

  /** The call was made at a moment of a run whose registers agree with those passed, with
      an allow-listed id where the id is defined. */
  ghost predicate Justified(text: seq<u8>, c: Config, env: Env, call: seq<u64>)
  {
    exists run, t :: JustifiedAt(text, c, env, call, run, t)
  }

  ghost predicate JustifiedAt(text: seq<u8>, c: Config, env: Env, call: seq<u64>, run: seq<CState>, t: nat)
  {
    && Words4(text) && IsRun(text, env, run) && t < |run| && Here(text, run[t].off)
    && Ins(text, run[t].off / 4).cls.Ecall? && Refines(run[t].regs, call)
    && (run[t].regs[17].Word? ==> Allowed(c.helpers, call[17] % 0x1_0000_0000))
  }

  ghost predicate AllJustified(text: seq<u8>, c: Config, env: Env, calls: seq<seq<u64>>)
  {
    forall j :: 0 <= j < |calls| ==> Justified(text, c, env, calls[j])
  }

  /** A run at an ecall justifies the call. */
  lemma CallJustified(text: seq<u8>, textOffset: u32, c: Config, env: Env, G: Cfg, entry: seq<VState>, marks: seq<bool>,
                      run: seq<CState>, x: seq<u64>)
    requires Accepted(text, textOffset, c, G, entry, marks) && Matches(env, c)
    requires Words4(text) && AvoidsZero(text, textOffset) && IsRun(text, env, run) && |run| > 0
    requires Refines(run[|run| - 1].regs, x) && Here(text, run[|run| - 1].off) && Ins(text, run[|run| - 1].off / 4).cls.Ecall?
    ensures Justified(text, c, env, x)
  {
    hide Accepted, AvoidsZero, IsRun, Matches, Allowed, Ins, GammaRegs, CoveredIn, RegsAt, SpInFrame;
    var t := |run| - 1;
    var b, y := AcceptedIsSafe(text, textOffset, c, env, G, entry, marks, run, t);
    assert CallSafe(c, run[t].regs);
    assert JustifiedAt(text, c, env, x, run, t);
  }

  /** From a run that has come to instruction k, every call the interpreter goes on to make
      is justified. */
  lemma {:induction false} InterpJustified(text: seq<u8>, textOffset: u32, c: Config, env: Env, G: Cfg, entry: seq<VState>, marks: seq<bool>,
                                           run: seq<CState>, k: nat, v: RvState, host: X86.Host)
    requires Accepted(text, textOffset, c, G, entry, marks) && Matches(env, c) && HostResolves(host, env)
    requires Words4(text) && AvoidsZero(text, textOffset) && IsRun(text, env, run) && |run| > 0 && k < Count(text)
    requires run[|run| - 1].off == 4 * k && Refines(run[|run| - 1].regs, v.x) && AllJustified(text, c, env, v.calls)
    requires Interp(text, k, v, host, false).Some?
    ensures AllJustified(text, c, env, Interp(text, k, v, host, false).value.calls)
    decreases Count(text) - k
  {
    hide Accepted, AvoidsZero, Matches, Ins, RvStep, Exec, Refines, Justified, IsRun, HostResolves, Interp, AllJustified;
    var i, s := Ins(text, k), run[|run| - 1];
    RefinesLen(s.regs, v.x);
    InterpUnfold(text, k, v, host);
    if !i.cls.Jalr? {
      var r' := StepRefines(i, env, Wrap64(env.base + s.off), s.regs, v, host);
      var v' := RvStep(i, v, host).value;
      if i.cls.Ecall? { CallJustified(text, textOffset, c, env, G, entry, marks, run, v.x); }
      StepJustified(text, c, env, i, v, host);
      if k + 1 < Count(text) {
        StepGoes(i, v, host, s.off, s.regs);
        RunGrows(text, env, run, k, r');
        InterpJustified(text, textOffset, c, env, G, entry, marks, run + [CState(4 * (k + 1), r')], k + 1, v', host);
      } else {
        InterpEnd(text, v', host);
      }
    }
  }

  lemma InterpUnfold(text: seq<u8>, k: nat, v: RvState, host: X86.Host)
    requires Words4(text) && k < Count(text) && |v.x| == 32 && Interp(text, k, v, host, false).Some?
    ensures var i := Ins(text, k);
            if i.cls.Jalr? then Interp(text, k, v, host, false) == Some(v)
            else
              && RvStep(i, v, host).Some? && |RvStep(i, v, host).value.x| == 32
              && Interp(text, k, v, host, false) == Interp(text, k + 1, RvStep(i, v, host).value, host, false)
  {
    hide Ins, RvStep, Read;
    ReadNarrow(Ins(text, k));
    if RvStep(Ins(text, k), v, host).Some? { StepShape(Ins(text, k), v, host); }
  }

  lemma InterpEnd(text: seq<u8>, v: RvState, host: X86.Host)
    requires Words4(text) && |v.x| == 32
    ensures Interp(text, Count(text), v, host, false) == Some(v)
  {
  }

  lemma StepJustified(text: seq<u8>, c: Config, env: Env, i: Insn, v: RvState, host: X86.Host)
    requires |v.x| == 32 && RvStep(i, v, host).Some? && AllJustified(text, c, env, v.calls) && (i.cls.Ecall? ==> Justified(text, c, env, v.x))
    ensures AllJustified(text, c, env, RvStep(i, v, host).value.calls)
  {
    hide RvStep, Justified;
    StepCalls(i, v, host);
  }

  lemma RunGrows(text: seq<u8>, env: Env, run: seq<CState>, k: nat, r': seq<CVal>)
    requires Words4(text) && IsRun(text, env, run) && |run| > 0 && k + 1 < Count(text) && run[|run| - 1].off == 4 * k
    requires var i, s := Ins(text, k), run[|run| - 1];
             Permitted(i.cls) && Exec(i, env, Wrap64(env.base + s.off), s.regs, r') && |s.regs| == 32 && Goes(i, s.off, s.regs, s.off + 4)
    ensures IsRun(text, env, run + [CState(4 * (k + 1), r')])
  {
    hide Ins, Exec, Goes, StartRegs, Permitted;
    var run' := run + [CState(4 * (k + 1), r')];
    assert Step(text, env, run[|run| - 1], run'[|run|]);
    hide Step;
    forall t | 0 < t < |run'|
      ensures Step(text, env, run'[t - 1], run'[t])
    {
      if t < |run| { assert Step(text, env, run[t - 1], run[t]); }
    }
  }

  lemma RefinesLen(r: seq<CVal>, x: seq<u64>)
    requires Refines(r, x)
    ensures |r| == |x| == 32
  {
  }

  lemma StepCalls(i: Insn, v: RvState, host: X86.Host)
    requires |v.x| == 32 && RvStep(i, v, host).Some?
    ensures RvStep(i, v, host).value.calls == if i.cls.Ecall? then v.calls + [v.x] else v.calls
  {
    hide Rv64.Result;
  }

  lemma StepGoes(i: Insn, v: RvState, host: X86.Host, off: int, r: seq<CVal>)
    requires |v.x| == |r| == 32 && RvStep(i, v, host).Some?
    ensures Goes(i, off, r, off + 4)
  {
    hide Rv64.Result;
  }

  /** Every helper call that the translation of an accepted text makes, run as the JIT runs
      it, was made at an ecall the verifier checked, and its id, where the verifier's
      machine has it defined, is on the allow list. */
  lemma JitCallsAllowed(text: seq<u8>, textOffset: u32, c: Config, env: Env, G: Cfg, entry: seq<VState>, marks: seq<bool>,
                        code: seq<u8>, s: X86.State, e: Jit.Entry, host: X86.Host)
    requires Accepted(text, textOffset, c, G, entry, marks) && Words4(text) && 0 < |text| && AvoidsZero(text, textOffset)
    requires !c.isCallback && Matches(env, c) && HostResolves(host, env)
    requires Starts(s, e) && env.sp0 == 0 && env.ctx0 == s.regs[X86.RDI]
    requires MulwFits(text, 0, RvState(StartX(s.regs[X86.RDI]), []), host)
    requires Body(text, 0, host.tramp).Some? && code == Emit.Flatten(Prologue() + Body(text, 0, host.tramp).value)
    ensures var o := X86.Run(code, 0, s, host); o.Returned? && AllJustified(text, c, env, o.s.calls)
  {
    hide Accepted, AvoidsZero, Body, Prologue, X86.Run, Interp, Emit.Flatten, MulwFits, HostResolves, Ins;
    var v := RvState(StartX(s.regs[X86.RDI]), []);
    JitCorrect(text, code, s, e, host);
    var run := [CState(0, StartRegs(env))];
    StartRefines(env, s.regs[X86.RDI]);
    InterpJustified(text, textOffset, c, env, G, entry, marks, run, 0, v, host);
  }

  lemma StartRefines(env: Env, ctx: u64)
    requires !env.isCallback && env.sp0 == 0 && env.ctx0 == ctx
    ensures Refines(StartRegs(env), StartX(ctx))
  {
  }

  /** The translator takes every jalr for a plain return; jalr sp, 8(ra), which the verifier
      lets pass, is none. */
  lemma EveryJalrReturns(i: Insn, tramp: u64)
    requires i.cls.Jalr?
    ensures OpsFor(i, tramp) == Some(Epilogue())
    ensures OpsFor(Decode(0x80_8167), tramp) == Some(Epilogue()) && Decode(0x80_8167).rd == 2 && Decode(0x80_8167).imm == 8
  {
    hide Epilogue;
    JalrOps(i, tramp);
    SpLinkWord();
    JalrOps(Decode(0x80_8167), tramp);
  }

  lemma SpLinkWord()
    ensures var i := Decode(0x80_8167); i.cls.Jalr? && i.rd == 2 && i.rs1 == 1 && i.imm == 8
  {
  }
}
