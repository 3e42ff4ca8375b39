/** When a register tracked as a stack pointer is sure to be defined.  The join takes an
    uninitialised register for bottom, so a register written on one path only is tracked
    on both; where no such join happens, tracked registers are defined on every run. */
module Defined {
  import opened Words
  import opened Decoder
  import opened Domain
  import opened Transfer
  import opened Graphs
  import opened ControlFlow
  import opened Verify
  import opened Soundness
  import Rv64

  /** Tracked to less than 2^31 bytes. */
  predicate Narrow(v: RVal) { v.PtrStack? && v.hi - v.lo < 2 * SPAN }

  predicate DefinedIn(x: seq<RVal>, r: seq<CVal>)
  {
    |x| == |r| == 32 && forall k :: 0 <= k < 32 && Narrow(x[k]) ==> r[k].Word?
  }

  /** The join into y lets no uninitialised register of x pass for a stack pointer. */
  predicate NoneHidden(x: seq<RVal>, y: seq<RVal>)
  {
    |x| == |y| == 32 && forall k :: 0 <= k < 32 && x[k].Uninit? ==> !Narrow(y[k])
  }

  /** Neither the entry state nor any edge hides an uninitialised register. */
  ghost predicate NoneHalfDefined(text: seq<u8>, c: Config, blocks: seq<Block>, entry: seq<VState>)
  {
    && 0 < |entry| == |blocks| && NoneHidden(InitRegs(c), entry[0].x)
    && forall b, s :: HasSucc(blocks, b, s) && InText(text, blocks[b]) && |entry[b].x| == 32 && entry[b].valid ==>
         NoneHidden(OutOf(text, c, blocks[b], entry[b].x), entry[s].x)
  }

  lemma NarrowBelow(a: RVal, b: RVal)
    requires Below(a, b) && Narrow(b) && !a.Uninit?
    ensures Narrow(a)
  {
    hide Tnums.ScalarJoin;
  }

  lemma DefinedBelow(x: seq<RVal>, y: seq<RVal>, r: seq<CVal>)
    requires DefinedIn(x, r) && RegsBelow(x, y) && NoneHidden(x, y)
    ensures DefinedIn(y, r)
  {
    hide Below, Narrow;
    forall k | 0 <= k < 32 && Narrow(y[k])
      ensures r[k].Word?
    {
      assert Below(x[k], y[k]);
      NarrowBelow(x[k], y[k]);
    }
  }

  /** An instruction that is not rejected defines what it makes a narrow stack pointer. */
  lemma ExecDefined(i: Insn, env: Env, pc: u64, x: seq<RVal>, c: Config, r: seq<CVal>, r': seq<CVal>)
    requires DefinedIn(x, r) && Rejects(i, x, c) == 0 && Permitted(i.cls) && Exec(i, env, pc, r, r')
    ensures DefinedIn(Regs(i, x, c), r')
  {
    hide Allowed, Tnums.ScalarIsConst, Tnums.ScalarAdd, BadAccess, AddiRejects;
    if i.cls.Ecall? {
      EcallDefined(env, x, c, r, r');
    }
  }

  lemma EcallDefined(env: Env, x: seq<RVal>, c: Config, r: seq<CVal>, r': seq<CVal>)
    requires DefinedIn(x, r) && EcallRejects(x, c) == 0 && |r'| == 32
    requires forall k :: 0 <= k < 32 && k != 10 ==> r'[k] == if Rv64.LostInCall(k) then Undef else r[k]
    ensures DefinedIn(EcallRegs(x, c), r')
  {
    hide Allowed, Tnums.ScalarIsConst;
  }

  /** Narrow stack pointers are defined at every moment of every run. */
  lemma {:induction false} RunDefined(text: seq<u8>, textOffset: u32, c: Config, env: Env, G: Cfg, entry: seq<VState>, marks: seq<bool>,
                                      run: seq<CState>, t: nat)
    returns (b: int)
    requires Accepted(text, textOffset, c, G, entry, marks) && Matches(env, c)
    requires Words4(text) && AvoidsZero(text, textOffset) && IsRun(text, env, run) && t < |run|
    requires NoneHalfDefined(text, c, G.blocks, entry)
    ensures CoveredIn(text, c, env, G.blocks, entry, run[t], b) && Reachable(GraphOf(G.blocks), b)
    ensures DefinedHere(text, c, G.blocks, entry, run[t], b)
    decreases t
  {
    hide Accepted, CoveredIn, DefinedHere, Step, StartRegs, Reachable, GraphOf, AvoidsZero, NoneHalfDefined;
    if t == 0 {
      b := 0;
      StartCovered(text, textOffset, c, env, G, entry, marks);
      ReachableEntry(GraphOf(G.blocks));
      StartDefined(text, textOffset, c, env, G, entry, marks);
    } else {
      var a := RunDefined(text, textOffset, c, env, G, entry, marks, run, t - 1);
      b := StepCovered(text, textOffset, c, env, G, entry, marks, run[t - 1], run[t], a);
      if b != a { SuccReachable(G.blocks, a, b); }
      StepDefined(text, textOffset, c, env, G, entry, marks, run[t - 1], run[t], a, b);
    }
  }

  ghost predicate DefinedHere(text: seq<u8>, c: Config, blocks: seq<Block>, entry: seq<VState>, s: CState, b: int)
  {
    && 0 <= b < |blocks| == |entry| && InText(text, blocks[b]) && |entry[b].x| == 32
    && blocks[b].start <= s.off <= blocks[b].end && s.off % 4 == 0
    && DefinedIn(RegsAt(text, c, entry[b].x, At(blocks[b]), (s.off - blocks[b].start) / 4), s.regs)
  }

  lemma StartDefined(text: seq<u8>, textOffset: u32, c: Config, env: Env, G: Cfg, entry: seq<VState>, marks: seq<bool>)
    requires Accepted(text, textOffset, c, G, entry, marks) && NoneHalfDefined(text, c, G.blocks, entry)
    requires CoveredIn(text, c, env, G.blocks, entry, CState(0, StartRegs(env)), 0)
    ensures DefinedHere(text, c, G.blocks, entry, CState(0, StartRegs(env)), 0)
  {
    hide Done, MarkedBy, RegsBelow, GammaRegs, InitRegs, WfRegs, ValidCfg, Sane, StartRegs, DefinedIn, NoneHidden;
    assert StateBelow(InitState(c), entry[0]);
    InitDefined(c, env);
    DefinedBelow(InitRegs(c), entry[0].x, StartRegs(env));
    RegsAtNone(text, c, entry[0].x, 0);
  }

  lemma InitDefined(c: Config, env: Env)
    ensures DefinedIn(InitRegs(c), StartRegs(env))
  {
  }

  lemma StepDefined(text: seq<u8>, textOffset: u32, c: Config, env: Env, G: Cfg, entry: seq<VState>, marks: seq<bool>,
                    s: CState, s': CState, a: int, b: int)
    requires Accepted(text, textOffset, c, G, entry, marks) && NoneHalfDefined(text, c, G.blocks, entry)
    requires CoveredIn(text, c, env, G.blocks, entry, s, a) && DefinedHere(text, c, G.blocks, entry, s, a)
    requires Words4(text) && Step(text, env, s, s') && CoveredIn(text, c, env, G.blocks, entry, s', b)
    requires (b == a && s'.off == s.off + 4) || (HasSucc(G.blocks, a, b) && s.off == G.blocks[a].end && s'.off == G.blocks[b].start)
    ensures DefinedHere(text, c, G.blocks, entry, s', b)
  {
    hide Accepted, CoveredIn, Step, DefinedHere, NoneHalfDefined, Done, WfRegs, Sane, BuiltFrom;
    CoveredPlace(text, c, env, G.blocks, entry, s, a);
    CoveredPlace(text, c, env, G.blocks, entry, s', b);
    AcceptedAt(text, textOffset, c, G, entry, marks, a);
    if b == a && s'.off == s.off + 4 {
      InsideDefined(text, c, env, G.blocks, entry, s, s', a);
    } else {
      EdgeDefined(text, c, env, G.blocks, entry, s, s', a, b);
    }
  }

  lemma InsideDefined(text: seq<u8>, c: Config, env: Env, blocks: seq<Block>, entry: seq<VState>, s: CState, s': CState, a: int)
    requires CoveredIn(text, c, env, blocks, entry, s, a) && DefinedHere(text, c, blocks, entry, s, a)
    requires Words4(text) && Step(text, env, s, s') && Done(text, c, blocks, entry, a)
    requires CoveredIn(text, c, env, blocks, entry, s', a) && s'.off == s.off + 4
    ensures DefinedHere(text, c, blocks, entry, s', a)
  {
    hide CoveredIn, Step, DefinedIn, Done, RegsAt;
    CoveredPlace(text, c, env, blocks, entry, s, a);
    CoveredPlace(text, c, env, blocks, entry, s', a);
    StepInside(text, c, env, blocks, entry, s, s', a);
    assert (s'.off - blocks[a].start) / 4 == (s.off - blocks[a].start) / 4 + 1;
  }

  lemma CoveredPlace(text: seq<u8>, c: Config, env: Env, blocks: seq<Block>, entry: seq<VState>, s: CState, b: int)
    requires CoveredIn(text, c, env, blocks, entry, s, b)
    ensures 0 <= b < |blocks| == |entry| && InText(text, blocks[b]) && |entry[b].x| == 32 && entry[b].valid
    ensures blocks[b].start <= s.off <= blocks[b].end && Here(text, s.off)
  {
    hide GammaRegs, RegsAt;
  }

  /** The registers after the instruction, in the replay of the block. */
  lemma StepInside(text: seq<u8>, c: Config, env: Env, blocks: seq<Block>, entry: seq<VState>, s: CState, s': CState, a: int)
    requires CoveredIn(text, c, env, blocks, entry, s, a) && DefinedHere(text, c, blocks, entry, s, a)
    requires Words4(text) && Step(text, env, s, s') && Done(text, c, blocks, entry, a)
    ensures var k := (s.off - blocks[a].start) / 4;
            k + 1 <= Len(blocks[a]) && At(blocks[a]) + k + 1 <= Count(text)
            && DefinedIn(RegsAt(text, c, entry[a].x, At(blocks[a]), k + 1), s'.regs)
  {
    hide GammaRegs, Ins, Exec, Goes, Permitted, Regs, Rejects, DefinedIn, Done;
    CoveredExec(text, c, env, blocks, entry, s, a);
    var k := (s.off - blocks[a].start) / 4;
    var x := RegsAt(text, c, entry[a].x, At(blocks[a]), k);
    ExecDefined(Ins(text, s.off / 4), env, Wrap64(env.base + s.off), x, c, s.regs, s'.regs);
  }

  /** Along an edge that hides nothing, defined registers stay so. */
  lemma EdgeDefined(text: seq<u8>, c: Config, env: Env, blocks: seq<Block>, entry: seq<VState>, s: CState, s': CState, a: int, b: int)
    requires CoveredIn(text, c, env, blocks, entry, s, a) && DefinedHere(text, c, blocks, entry, s, a)
    requires Words4(text) && Step(text, env, s, s') && Done(text, c, blocks, entry, a) && CoveredIn(text, c, env, blocks, entry, s', b)
    requires HasSucc(blocks, a, b) && s.off == blocks[a].end && s'.off == blocks[b].start
    requires NoneHalfDefined(text, c, blocks, entry)
    ensures DefinedHere(text, c, blocks, entry, s', b)
  {
    hide CoveredIn, Step, DefinedIn, Done, RegsAt, NoneHidden, RegsBelow, NoneHalfDefined;
    CoveredPlace(text, c, env, blocks, entry, s, a);
    CoveredPlace(text, c, env, blocks, entry, s', b);
    StepInside(text, c, env, blocks, entry, s, s', a);
    assert Len(blocks[a]) == (s.off - blocks[a].start) / 4 + 1;
    EdgeBelow(text, c, blocks, entry, a, b);
    DefinedBelow(OutOf(text, c, blocks[a], entry[a].x), entry[b].x, s'.regs);
    RegsAtNone(text, c, entry[b].x, At(blocks[b]));
  }

  lemma EdgeBelow(text: seq<u8>, c: Config, blocks: seq<Block>, entry: seq<VState>, a: int, b: int)
    requires HasSucc(blocks, a, b) && |entry| == |blocks| && NoneHalfDefined(text, c, blocks, entry)
    requires InText(text, blocks[a]) && |entry[a].x| == 32 && entry[a].valid && Done(text, c, blocks, entry, a)
    ensures var out := OutOf(text, c, blocks[a], entry[a].x); RegsBelow(out, entry[b].x) && NoneHidden(out, entry[b].x)
  {
    hide RegsBelow, NoneHidden, RejectsOf, RegsAt;
    assert StateBelow(VState(OutOf(text, c, blocks[a], entry[a].x), true), entry[b]);
  }

  /** If no uninitialised register is hidden by a join, the frame theorem holds without its
      proviso: at every moment of every run of an accepted text, narrow stack pointers are
      defined, and every access through a tracked base is in the frame. */
  lemma DefinedIsSafe(text: seq<u8>, textOffset: u32, c: Config, env: Env, G: Cfg, entry: seq<VState>, marks: seq<bool>,
                      run: seq<CState>, t: nat)
    returns (b: int, x: seq<RVal>)
    requires Accepted(text, textOffset, c, G, entry, marks) && Matches(env, c)
    requires Words4(text) && AvoidsZero(text, textOffset) && IsRun(text, env, run) && t < |run|
    requires NoneHalfDefined(text, c, G.blocks, entry)
    ensures SafeAt(text, c, env, G.blocks, entry, run[t], b, x) && Reachable(GraphOf(G.blocks), b)
    ensures DefinedIn(x, run[t].regs) && FrameHeld(text, c, env, x, run[t])
  {
    hide Accepted, CoveredIn, SafeAt, Done, Sane, Reachable, GraphOf, AvoidsZero, IsRun, Matches, DefinedHere, DefinedIn, FrameHeld, NoneHalfDefined;
    b := RunDefined(text, textOffset, c, env, G, entry, marks, run, t);
    CoveredShape(text, c, env, G.blocks, entry, run[t], b);
    AcceptedAt(text, textOffset, c, G, entry, marks, b);
    x := SafeWhereCovered(text, c, env, G.blocks, entry, run[t], b);
    FrameIsHeld(text, c, env, G.blocks, entry, run[t], b, x);
  }

  /** Every access through a tracked base is in the frame, and its base is defined. */
  ghost predicate FrameHeld(text: seq<u8>, c: Config, env: Env, x: seq<RVal>, s: CState)
  {
    && Words4(text) && Here(text, s.off) && |x| == |s.regs| == 32
    && var i, r := Ins(text, s.off / 4), s.regs;
       (i.cls.Load? || i.cls.Store?) && Tracked(x[i.rs1], c) ==>
         r[i.rs1].Word? && InFrame(c, env, Wrap64(r[i.rs1].w + Wrap64(i.imm)), Rv64.AccessBytes(i.width))
  }

  lemma FrameIsHeld(text: seq<u8>, c: Config, env: Env, blocks: seq<Block>, entry: seq<VState>, s: CState, b: int, x: seq<RVal>)
    requires SafeAt(text, c, env, blocks, entry, s, b, x) && DefinedHere(text, c, blocks, entry, s, b) && Done(text, c, blocks, entry, b)
    ensures DefinedIn(x, s.regs) && FrameHeld(text, c, env, x, s)
  {
    hide Ins, InFrame, GammaRegs, CallSafe, RegsAt, Wrap64, Done, RejectsOf, EdgeDone, Rv64.AccessBytes, Allowed;
    var i := Ins(text, s.off / 4);
    CoveredExec(text, c, env, blocks, entry, s, b);
    WidthIs(text, s.off / 4);
    if (i.cls.Load? || i.cls.Store?) && Tracked(x[i.rs1], c) {
      assert Narrow(x[i.rs1]);
    }
  }
}
