/** A text whose loop header is marked although a run can reach it around the call that
    announces the bound. */
module SkippedBound {
  import opened Basics
  import opened Words
  import opened Decoder
  import opened Tnums
  import opened Domain
  import opened Transfer
  import opened Graphs
  import opened ControlFlow
  import opened Verify
  import opened VisitLog
  import opened Soundness
  import opened Announced
  import opened Witnesses
  import Dominators

  /** beq x0, x0, +16; addi a7, x0, 0x142; addi a0, x0, 4; ecall; jal x0, 0. */
  const SKIP: seq<u8> := [0x63, 0x08, 0x00, 0x00, 0x93, 0x08, 0x20, 0x14, 0x13, 0x05, 0x40, 0x00,
                          0x73, 0x00, 0x00, 0x00, 0x6f, 0x00, 0x00, 0x00]

  function SkipCfg(textOffset: u32): Cfg
  {
    Cfg([Block(0, 0, 1, Pc(textOffset, 4), Pc(textOffset, 16), false, 1, 2),
         Block(4, 12, 3, 0, 0, false, 2, -1),
         Block(16, 16, 1, Pc(textOffset, 16), 0, false, 2, -1)],
        [0, 1, 2], [0, 0, 0], [(2, 2)])
  }

  lemma SkipDecodes()
    ensures Words4(SKIP) && Count(SKIP) == 5
    ensures var i := Ins(SKIP, 0); i.cls.Branch? && i.brKind.Beq? && i.rs1 == i.rs2 == 0 && i.imm == 16
    ensures var i := Ins(SKIP, 1); i.cls.AluImm? && i.aluOp.Add? && i.rd == 17 && i.rs1 == 0 && i.imm == 0x142
    ensures var i := Ins(SKIP, 2); i.cls.AluImm? && i.aluOp.Add? && i.rd == 10 && i.rs1 == 0 && i.imm == 4
    ensures Ins(SKIP, 3).cls.Ecall?
    ensures var i := Ins(SKIP, 4); i.cls.Jal? && i.rd == 0 && i.imm == 0
  {
    hide Decode;
    assert WordAt(SKIP, 0) == 0x863 && WordAt(SKIP, 4) == 0x1420_0893 && WordAt(SKIP, 8) == 0x40_0513;
    assert WordAt(SKIP, 12) == 0x73 && WordAt(SKIP, 16) == 0x6f;
    BeqWord(); IdWord(); BoundWord(); FixedWords(); SpinWord();
  }

  lemma BeqWord()
    ensures var i := Decode(0x863); i.cls.Branch? && i.brKind.Beq? && i.rs1 == i.rs2 == 0 && i.imm == 16
  {
  }

  lemma IdWord()
    ensures var i := Decode(0x1420_0893); i.cls.AluImm? && i.aluOp.Add? && i.rd == 17 && i.rs1 == 0 && i.imm == 0x142
  {
  }

  lemma BoundWord()
    ensures var i := Decode(0x40_0513); i.cls.AluImm? && i.aluOp.Add? && i.rd == 10 && i.rs1 == 0 && i.imm == 4
  {
  }

  lemma SpinWord()
    ensures var i := Decode(0x6f); i.cls.Jal? && i.rd == 0 && i.imm == 0
  {
  }

  // ----- the graph -----

  lemma SkipBuilt(textOffset: u32)
    requires textOffset + 20 <= TWO32
    ensures BuiltFrom(SKIP, textOffset, SkipCfg(textOffset).blocks) && Buildable(SKIP)
  {
    hide Ins, Tiles, LinkedAt, TargetOk, Buildable, Pc;
    SkipTargets();
    SmallBuildable(SKIP);
    SkipTiles(textOffset);
    var blocks := SkipCfg(textOffset).blocks;
    forall i | 0 <= i < 3
      ensures LinkedAt(SKIP, textOffset, blocks, i)
    {
      SkipLinked(textOffset, i);
    }
  }

  lemma SkipTargets()
    ensures Words4(SKIP) && Count(SKIP) == 5 && forall k :: 0 <= k < 5 ==> TargetOk(SKIP, k)
  {
    hide Ins;
    SkipDecodes();
  }

  lemma SkipTiles(textOffset: u32)
    ensures Words4(SKIP) && Tiles(SKIP, textOffset, SkipCfg(textOffset).blocks, |SKIP|)
  {
    hide Ins, IsLeader, Pc;
    SkipDecodes();
    SkipLeaders();
  }

  lemma SkipLeaders()
    ensures Words4(SKIP) && IsLeader(SKIP, 0) && IsLeader(SKIP, 1) && !IsLeader(SKIP, 2) && !IsLeader(SKIP, 3) && IsLeader(SKIP, 4)
  {
    hide Ins;
    SkipDecodes();
    assert MarksLeader(SKIP, 0, 1) && MarksLeader(SKIP, 0, 4);
  }

  lemma SkipLinked(textOffset: u32, i: int)
    requires textOffset + 20 <= TWO32 && 0 <= i < 3
    ensures Words4(SKIP) && LinkedAt(SKIP, textOffset, SkipCfg(textOffset).blocks, i)
  {
    hide Ins;
    SkipDecodes();
  }

  lemma SkipOrder(g: Graph)
    requires g == Graph([1, 2, 2], [2, -1, -1])
    ensures g.Valid() && Reverse(Postorder(g)) == [0, 1, 2]
  {
    hide Graphs.Visit, Range;
    SkipInner(g);
    var s0 := Dfs({}, []);
    assert s0.(seen := s0.seen + {0}) == Dfs({0}, []);
    VisitUnfold(g, 0, s0);
    VisitUnfold(g, 2, Dfs({0, 1, 2}, [2, 1]));
    assert Postorder(g) == [2, 1, 0];
  }

  lemma SkipInner(g: Graph)
    requires g == Graph([1, 2, 2], [2, -1, -1])
    ensures g.Valid() && Dfs({0}, []).seen <= g.Nodes() && Graphs.Visit(g, 1, Dfs({0}, [])) == Dfs({0, 1, 2}, [2, 1])
  {
    hide Graphs.Visit, Range;
    SkipInmost(g);
    var s1 := Dfs({0}, []);
    assert s1.(seen := s1.seen + {1}) == Dfs({0, 1}, []);
    VisitUnfold(g, 1, s1);
    VisitUnfold(g, -1, Dfs({0, 1, 2}, [2]));
  }

  lemma SkipInmost(g: Graph)
    requires g == Graph([1, 2, 2], [2, -1, -1])
    ensures g.Valid() && Dfs({0, 1}, []).seen <= g.Nodes() && Graphs.Visit(g, 2, Dfs({0, 1}, [])) == Dfs({0, 1, 2}, [2])
  {
    hide Graphs.Visit, Range;
    var s2 := Dfs({0, 1}, []);
    assert s2.(seen := s2.seen + {2}) == Dfs({0, 1, 2}, []);
    VisitUnfold(g, 2, s2);
    VisitUnfold(g, 2, Dfs({0, 1, 2}, []));
    VisitUnfold(g, -1, Dfs({0, 1, 2}, []));
  }

  lemma SkipValid(textOffset: u32)
    requires textOffset + 20 <= TWO32
    ensures ValidCfg(SKIP, textOffset, SkipCfg(textOffset)) && Buildable(SKIP)
  {
    hide BuiltFrom, Postorder, Reverse, Pc, Buildable;
    var G := SkipCfg(textOffset);
    assert GraphOf(G.blocks) == Graph([1, 2, 2], [2, -1, -1]);
    SkipBuilt(textOffset);
    SkipOrder(GraphOf(G.blocks));
    FanCfg(SKIP, textOffset, G);
  }

  // ----- the analysis -----

  /** The registers after the call. */
  function Called(c: Config): seq<RVal>
    requires |InitRegs(c)| == 32
  {
    Clobber(InitRegs(c)[17 := NumConst(0x142)][10 := NumConst(4)])[10 := PtrHelperRet(0x142)]
  }

  predicate MayBound(c: Config) { Allowed(c.helpers, 0x142) }

  lemma ConstFacts(k: int)
    requires 0 <= k < 0x1000
    ensures IsConstNum(NumConst(k)) && ConstId(NumConst(k)) == k
  {
  }

  lemma SkipSteps(c: Config, z: seq<RVal>)
    requires MayBound(c) && |z| == 32
    ensures Words4(SKIP) && Count(SKIP) == 5 && |InitRegs(c)| == 32
    ensures RejectsOf(SKIP, c, InitRegs(c), 0, 1) == 0 && RegsAt(SKIP, c, InitRegs(c), 0, 1) == InitRegs(c)
    ensures RejectsOf(SKIP, c, z, 4, 1) == 0 && RegsAt(SKIP, c, z, 4, 1) == z
    ensures RejectsOf(SKIP, c, InitRegs(c), 1, 3) == 0 && RegsAt(SKIP, c, InitRegs(c), 1, 3) == Called(c)
    ensures PendingOf(SKIP, c, InitRegs(c), 1, 3) == 4
    ensures LoopCall(Ins(SKIP, 3), RegsAt(SKIP, c, InitRegs(c), 1, 2))
  {
    hide Ins, NumTop, NumConst, RejectsOf, RegsAt, Allowed, ScalarIsConst, IsConstNum, ConstId, Clobber;
    SkipDecodes();
    InitLen(c);
    OneInsn(SKIP, c, InitRegs(c), 0);
    OneInsn(SKIP, c, z, 4);
    CallSteps(c);
  }

  lemma CallSteps(c: Config)
    requires MayBound(c) && |InitRegs(c)| == 32 && Words4(SKIP) && Count(SKIP) == 5
    ensures RejectsOf(SKIP, c, InitRegs(c), 1, 3) == 0 && RegsAt(SKIP, c, InitRegs(c), 1, 3) == Called(c)
    ensures PendingOf(SKIP, c, InitRegs(c), 1, 3) == 4
    ensures LoopCall(Ins(SKIP, 3), RegsAt(SKIP, c, InitRegs(c), 1, 2))
  {
    hide Ins, NumTop, NumConst, Allowed, ScalarIsConst, IsConstNum, ConstId, Clobber, InitRegs, RejectsOf, RegsAt, Pending, Regs, Rejects;
    SkipDecodes();
    var x := InitRegs(c);
    var y := x[17 := NumConst(0x142)][10 := NumConst(4)];
    TwoInsns(SKIP, c, x, 1);
    AddiConst(Ins(SKIP, 1), x, c);
    AddiConst(Ins(SKIP, 2), x[17 := NumConst(0x142)], c);
    CallStep(Ins(SKIP, 3), y, c);
    ThirdInsn(c, x, y);
  }

  lemma AddiConst(i: Insn, x: seq<RVal>, c: Config)
    requires |x| == 32 && i.cls.AluImm? && i.aluOp.Add? && i.rs1 == 0 && i.rd != 0 && i.rd != 2
    ensures Rejects(i, x, c) == 0 && Regs(i, x, c) == x[i.rd := NumConst(i.imm)]
  {
  }

  lemma CallStep(i: Insn, y: seq<RVal>, c: Config)
    requires MayBound(c) && |y| == 32 && y[17] == NumConst(0x142) && y[10] == NumConst(4) && i.cls.Ecall?
    ensures Rejects(i, y, c) == 0 && Regs(i, y, c) == Clobber(y)[10 := PtrHelperRet(0x142)] && LoopCall(i, y)
    ensures forall p: u32 :: Pending(i, y, c, p) == 4
  {
    hide Allowed, NumConst, IsConstNum, ConstId, Clobber;
    ConstFacts(0x142);
    ConstFacts(4);
  }

  lemma ThirdInsn(c: Config, x: seq<RVal>, y: seq<RVal>)
    requires |x| == |y| == 32 && Words4(SKIP) && Count(SKIP) == 5
    requires RegsAt(SKIP, c, x, 1, 2) == y && RejectsOf(SKIP, c, x, 1, 2) == 0
    requires forall p: u32 :: Pending(Ins(SKIP, 3), y, c, p) == 4
    ensures RejectsOf(SKIP, c, x, 1, 3) == Rejects(Ins(SKIP, 3), y, c) && RegsAt(SKIP, c, x, 1, 3) == Regs(Ins(SKIP, 3), y, c)
    ensures PendingOf(SKIP, c, x, 1, 3) == 4
  {
    hide Ins, Rejects, Regs, Pending;
  }

  lemma CalledJoins(c: Config)
    requires |InitRegs(c)| == 32
    ensures |Called(c)| == 32 && WfState(JoinState(InitState(c), VState(Called(c), true)))
    ensures JoinState(InitState(c), VState(Called(c), true)) != InitState(c)
  {
    hide WfVal, Clobber, NumConst, InitRegs, JoinVal;
    InitWf(c);
    CalledWf(c);
    var I, Q := InitState(c), VState(Called(c), true);
    forall k | 0 <= k < 32 ensures WfVal(JoinVal(I.x[k], Q.x[k])) { JoinValWf(I.x[k], Q.x[k]); }
    RetJoins(c);
    assert JoinState(I, Q).x[10] == JoinVal(I.x[10], Q.x[10]);
  }

  lemma RetJoins(c: Config)
    requires |InitRegs(c)| == 32
    ensures JoinVal(InitRegs(c)[10], PtrHelperRet(0x142)) != InitRegs(c)[10]
  {
    hide ScalarJoin;
  }

  lemma CalledWf(c: Config)
    requires |InitRegs(c)| == 32
    ensures WfRegs(Called(c))
  {
    hide WfVal, NumConst, InitRegs;
    InitWf(c);
    var y := InitRegs(c)[17 := NumConst(0x142)][10 := NumConst(4)];
    ConstsWf();
    forall k | 0 <= k < 32 ensures WfVal(Called(c)[k]) { assert WfVal(y[k]); }
  }

  lemma ConstsWf()
    ensures WfVal(NumConst(0x142)) && WfVal(NumConst(4)) && WfVal(Uninit) && WfVal(PtrHelperRet(0x142))
  {
    ConstWf(Wrap64(0x142));
    ConstWf(Wrap64(4));
  }

  /** The analysis: blocks 0, 2 and 1, and block 2 again after the call's state came in. */
  lemma SkipLog(textOffset: u32, c: Config) returns (log: seq<Visit>)
    requires MayBound(c) && StepCap(c) >= 6 && |InitRegs(c)| == 32
    ensures IsFullLog(SKIP, c, SkipCfg(textOffset).blocks, log) && Clean(SKIP, c, SkipCfg(textOffset), log)
    ensures VisitsOk(SKIP, SkipCfg(textOffset).blocks, log) && MarkedIn(SKIP, c, SkipCfg(textOffset).blocks, log, 2)
    ensures var w := WorkAfter(SKIP, c, SkipCfg(textOffset).blocks, log); |w.entry| == 3 && w.entry[1] == InitState(c)
  {
    hide RejectsOf, RegsAt, PendingOf, InitRegs, RunsTo, Offer, Ins, Pc, IsFullLog, Clean, Regs, Rejects, JoinState, Called, LoopCall, MarkedIn, WfRegs;
    var G, I, x := SkipCfg(textOffset), InitState(c), InitRegs(c);
    InitWf(c);
    CalledJoins(c);
    var Q := VState(Called(c), true);
    var Z := JoinState(I, Q);
    WfLen(Z.x);
    SkipSteps(c, x);
    SkipSteps(c, Z.x);
    FanStart(SKIP, c, G.blocks);
    var w1, w2, w3, w4 := Work([I, I, I], [1, 2]), Work([I, I, I], [1]), Work([I, I, Z], [2]), Work([I, I, Z], []);
    assert [1, 2][..1] == [1] && Popped(w1) == w2;
    OfferKnown(w2, 2, I);
    OfferNone(w2, I);
    RunsOn(SKIP, c, G.blocks, [Visit(0, x)], w1, 1, 0, Visit(2, x), w2);
    log := [Visit(0, x)] + [Visit(2, x)];
    OfferCalled(c, Z);
    OfferNone(w3, Q);
    RunsOn(SKIP, c, G.blocks, log, w2, 2, 0, Visit(1, x), w3);
    log := log + [Visit(1, x)];
    assert Popped(w3) == w4 && Z == VState(Z.x, true) by { CalledValid(c); }
    OfferKnown(w4, 2, Z);
    OfferNone(w4, Z);
    RunsOn(SKIP, c, G.blocks, log, w3, 5, 0, Visit(2, Z.x), w4);
    log := log + [Visit(2, Z.x)];
    RunsOk(SKIP, c, G.blocks, log, w4, 6, 0);
    assert log[2] == Visit(1, x);
    SkipMarks(textOffset, c, log);
    RunsEnd(SKIP, c, G, log, w4, 6);
  }

  lemma CalledValid(c: Config)
    requires |InitRegs(c)| == 32
    ensures |Called(c)| == 32 && JoinState(InitState(c), VState(Called(c), true)).valid
  {
    hide InitRegs, JoinRegs;
  }

  lemma OfferCalled(c: Config, Z: VState)
    requires |InitRegs(c)| == 32 && |Called(c)| == 32 && Z == JoinState(InitState(c), VState(Called(c), true)) && Z != InitState(c)
    ensures var I := InitState(c);
            Popped(Work([I, I, I], [1])) == Work([I, I, I], [])
            && Offer(Work([I, I, I], []), 2, VState(Called(c), true)) == Work([I, I, Z], [2])
  {
    hide InitRegs, JoinState, Called;
    var I := InitState(c);
    assert [I, I, I][2 := Z] == [I, I, Z];
  }

  lemma SkipMarks(textOffset: u32, c: Config, log: seq<Visit>)
    requires MayBound(c) && |InitRegs(c)| == 32 && |log| == 4 && log[2] == Visit(1, InitRegs(c))
    requires VisitsOk(SKIP, SkipCfg(textOffset).blocks, log)
    ensures MarkedIn(SKIP, c, SkipCfg(textOffset).blocks, log, 2)
  {
    hide PendingOf, InitRegs, Pc, RejectsOf, RegsAt, LoopCall, Called, Ins;
    SkipSteps(c, InitRegs(c));
    assert MarksAt(SKIP, c, SkipCfg(textOffset).blocks, log[2], 2);
  }

  // ----- what is shown -----

  /** The text is accepted: block 1 announces the header, block 2, but does not dominate
      it, so that the header is not guarded ... */
  lemma SkippedBoundIsAccepted(textOffset: u32, c: Config, ok: bool, G: Option<Cfg>, entry: seq<VState>, marks: seq<bool>, steps: int, log: seq<Visit>)
    requires textOffset + 20 <= TWO32 && MayBound(c) && 6 <= StepCap(c) < 0x7fff_f000
    requires Outcome(SKIP, textOffset, c, ok, G, entry, marks, steps, log)
    ensures ok && G.Some? && Accepted(SKIP, textOffset, c, G.value, entry, marks) && G.value.blocks == SkipCfg(textOffset).blocks
    ensures |marks| == 3 && marks[2] && Announces(SKIP, c, G.value.blocks, entry, 1, 2)
    ensures !Guarded(SKIP, c, G.value.blocks, entry, 2)
  {
    hide ValidCfg, Outcome, IsFullLog, Clean, Ins, Pc, InitRegs, Buildable, WorkAfter, Announces, Guarded, Accepted, MarkedIn;
    SkipValid(textOffset);
    InitLen(c);
    var full := SkipLog(textOffset, c);
    CleanIsAccepted(SKIP, textOffset, c, SkipCfg(textOffset), full, ok, G, entry, marks, steps, log);
    OutcomeValid(SKIP, textOffset, c, ok, G, entry, marks, steps, log);
    SkipMarked(textOffset, c, G.value, entry, marks);
    SkipAnnounced(textOffset, c, entry);
    SkipUnguarded(textOffset, c, entry);
  }

  lemma SkipMarked(textOffset: u32, c: Config, G: Cfg, entry: seq<VState>, marks: seq<bool>)
    requires textOffset + 20 <= TWO32 && Accepted(SKIP, textOffset, c, G, entry, marks) && G.blocks == SkipCfg(textOffset).blocks
    ensures |marks| == 3 && marks[2]
  {
    hide Done, MarkedBy, StateBelow, Sane, BuiltFrom, Dominators.Exact, IsRpo, Postorder, Reverse, Pc, IsBackEdge;
    var g := GraphOf(G.blocks);
    assert g == Graph([1, 2, 2], [2, -1, -1]);
    FanPaths(g);
    assert IsBackEdge(g, 2, 2);
    assert (2, 2) in G.backEdges;
  }

  lemma SkipAnnounced(textOffset: u32, c: Config, entry: seq<VState>)
    requires MayBound(c) && |InitRegs(c)| == 32 && |entry| == 3 && entry[1] == InitState(c)
    ensures Announces(SKIP, c, SkipCfg(textOffset).blocks, entry, 1, 2)
  {
    hide InitRegs, Pc, RejectsOf, RegsAt, LoopCall, Called, Ins, PendingOf;
    SkipSteps(c, InitRegs(c));
    assert AnnouncesAt(SKIP, c, SkipCfg(textOffset).blocks, entry, 1, 2, 2);
  }

  /** The entry leads to the header directly, and does not announce it. */
  lemma SkipUnguarded(textOffset: u32, c: Config, entry: seq<VState>)
    ensures !Guarded(SKIP, c, SkipCfg(textOffset).blocks, entry, 2)
  {
    hide Pc, AnnouncesAt;
    var blocks := SkipCfg(textOffset).blocks;
    assert GraphOf(blocks) == Graph([1, 2, 2], [2, -1, -1]);
    FanPaths(GraphOf(blocks));
    assert !Announces(SKIP, c, blocks, entry, 0, 2) by { EntrySilent(textOffset, c, entry); }
    assert !PassesAnnouncer(SKIP, c, blocks, entry, [0, 2], 2);
  }

  lemma EntrySilent(textOffset: u32, c: Config, entry: seq<VState>)
    ensures !Announces(SKIP, c, SkipCfg(textOffset).blocks, entry, 0, 2)
  {
    hide Pc, LoopCall, RegsAt, Ins;
  }

  /** ... and it has runs of every length that stay at the branch and the header and never
      make the call. */
  lemma SkippedBoundRuns(env: Env, n: nat) returns (run: seq<CState>)
    ensures Words4(SKIP) && |run| == n + 1 && IsRun(SKIP, env, run)
    ensures forall t :: 0 <= t <= n ==> run[t].off == (if t == 0 then 0 else 16) && !Ins(SKIP, run[t].off / 4).cls.Ecall?
  {
    hide Ins, StartRegs, Step;
    SkipDecodes();
    run := seq(n + 1, t requires 0 <= t <= n => CState(if t == 0 then 0 else 16, StartRegs(env)));
    forall t | 0 < t < |run|
      ensures Step(SKIP, env, run[t - 1], run[t])
    {
      SkipStep(env, t - 1);
    }
  }

  lemma SkipStep(env: Env, t: nat)
    ensures Words4(SKIP)
    ensures Step(SKIP, env, CState(if t == 0 then 0 else 16, StartRegs(env)), CState(16, StartRegs(env)))
  {
    hide Ins;
    SkipDecodes();
  }

  /** The call of this text passes, with an instruction between it and the one that sets
      a7. */
  lemma CallIsNotAdjacent(c: Config)
    requires MayBound(c)
    ensures Words4(SKIP) && Count(SKIP) == 5 && |InitRegs(c)| == 32 && Ins(SKIP, 3).cls.Ecall? && Ins(SKIP, 2).rd == 10
    ensures Rejects(Ins(SKIP, 3), RegsAt(SKIP, c, InitRegs(c), 1, 2), c) == 0
  {
    hide InitRegs, RejectsOf, RegsAt, LoopCall, Called, Ins, PendingOf, Rejects;
    SkipDecodes();
    InitLen(c);
    SkipSteps(c, InitRegs(c));
    RejectsZero(SKIP, c, InitRegs(c), 1, 3, 2);
  }
}
