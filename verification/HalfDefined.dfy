/** A text whose store goes through an undefined register: the register is a stack pointer
    on one path and uninitialised on the other, and the join keeps the pointer. */
module HalfDefined {
  import opened Basics
  import opened Words
  import opened Decoder
  import opened Domain
  import opened Transfer
  import opened Graphs
  import opened ControlFlow
  import opened Verify
  import opened VisitLog
  import opened Soundness
  import opened Defined
  import opened Witnesses

  /** bne x0, x0, +12; sd x0, 0(s0); jalr x0, ra, 0; addi s0, sp, -16; jal x0, -12. */
  const HALF: seq<u8> := [0x63, 0x16, 0x00, 0x00, 0x23, 0x30, 0x04, 0x00, 0x67, 0x80, 0x00, 0x00,
                          0x13, 0x04, 0x01, 0xff, 0x6f, 0xf0, 0x5f, 0xff]

  function HalfCfg(textOffset: u32): Cfg
  {
    Cfg([Block(0, 0, 1, Pc(textOffset, 4), Pc(textOffset, 12), false, 1, 2),
         Block(4, 8, 2, 0, 0, true, -1, -1),
         Block(12, 16, 2, Pc(textOffset, 4), 0, false, 1, -1)],
        [0, 2, 1], [0, 0, 0], [])
  }

  lemma HalfDecodes()
    ensures Words4(HALF) && Count(HALF) == 5
    ensures var i := Ins(HALF, 0); i.cls.Branch? && i.brKind.Bne? && i.rs1 == i.rs2 == 0 && i.imm == 12
    ensures var i := Ins(HALF, 1); i.cls.Store? && i.rs1 == 8 && i.imm == 0 && i.width == 3
    ensures var i := Ins(HALF, 2); i.cls.Jalr? && i.rs1 == 1
    ensures var i := Ins(HALF, 3); i.cls.AluImm? && i.aluOp.Add? && i.rd == 8 && i.rs1 == 2 && i.imm == -16
    ensures var i := Ins(HALF, 4); i.cls.Jal? && i.rd == 0 && i.imm == -12
  {
    hide Decode;
    assert WordAt(HALF, 0) == 0x1663 && WordAt(HALF, 4) == 0x4_3023 && WordAt(HALF, 8) == 0x8067;
    assert WordAt(HALF, 12) == 0xff01_0413 && WordAt(HALF, 16) == 0xff5f_f06f;
    BneWord(); StoreWord(); RetWord(); AddWord(); JumpWord();
  }

  lemma BneWord()
    ensures var i := Decode(0x1663); i.cls.Branch? && i.brKind.Bne? && i.rs1 == i.rs2 == 0 && i.imm == 12
  {
  }

  lemma StoreWord()
    ensures var i := Decode(0x4_3023); i.cls.Store? && i.rs1 == 8 && i.imm == 0 && i.width == 3
  {
  }

  lemma RetWord()
    ensures var i := Decode(0x8067); i.cls.Jalr? && i.rs1 == 1
  {
  }

  lemma AddWord()
    ensures var i := Decode(0xff01_0413); i.cls.AluImm? && i.aluOp.Add? && i.rd == 8 && i.rs1 == 2 && i.imm == -16
  {
  }

  lemma JumpWord()
    ensures var i := Decode(0xff5f_f06f); i.cls.Jal? && i.rd == 0 && i.imm == -12
  {
  }

  // ----- the graph -----

  lemma HalfBuilt(textOffset: u32)
    requires textOffset + 20 <= TWO32
    ensures BuiltFrom(HALF, textOffset, HalfCfg(textOffset).blocks) && Buildable(HALF)
  {
    hide Ins, Tiles, LinkedAt, TargetOk, Buildable, Pc;
    HalfTargets();
    SmallBuildable(HALF);
    HalfTiles(textOffset);
    var blocks := HalfCfg(textOffset).blocks;
    forall i | 0 <= i < 3
      ensures LinkedAt(HALF, textOffset, blocks, i)
    {
      HalfLinked(textOffset, i);
    }
  }

  lemma HalfTargets()
    ensures Words4(HALF) && Count(HALF) == 5 && forall k :: 0 <= k < 5 ==> TargetOk(HALF, k)
  {
    hide Ins;
    HalfDecodes();
  }

  lemma HalfTiles(textOffset: u32)
    ensures Words4(HALF) && Tiles(HALF, textOffset, HalfCfg(textOffset).blocks, |HALF|)
  {
    hide Ins, IsLeader, Pc;
    HalfDecodes();
    HalfLeaders();
  }

  lemma HalfLeaders()
    ensures Words4(HALF) && IsLeader(HALF, 0) && IsLeader(HALF, 1) && !IsLeader(HALF, 2) && IsLeader(HALF, 3) && !IsLeader(HALF, 4)
  {
    hide Ins;
    HalfDecodes();
    assert MarksLeader(HALF, 0, 1) && MarksLeader(HALF, 2, 3);
  }

  lemma HalfLinked(textOffset: u32, i: int)
    requires textOffset + 20 <= TWO32 && 0 <= i < 3
    ensures Words4(HALF) && LinkedAt(HALF, textOffset, HalfCfg(textOffset).blocks, i)
  {
    hide Ins;
    HalfDecodes();
  }

  lemma HalfOrder(g: Graph)
    requires g == Graph([1, -1, 1], [2, -1, -1])
    ensures g.Valid() && Reverse(Postorder(g)) == [0, 2, 1]
  {
    hide Graphs.Visit, Range;
    var s0, s1 := Dfs({}, []), Dfs({0}, []);
    var s2, s3 := Dfs({0, 1}, []), Dfs({0, 1}, [1]);
    assert s0.(seen := s0.seen + {0}) == s1 && s1.(seen := s1.seen + {1}) == s2;
    VisitUnfold(g, 0, s0);
    VisitUnfold(g, 1, s1);
    VisitUnfold(g, -1, s2);
    HalfSecond(g);
    assert Graphs.Visit(g, 1, s1) == s3;
    assert Postorder(g) == [1, 2, 0];
  }

  lemma HalfSecond(g: Graph)
    requires g == Graph([1, -1, 1], [2, -1, -1])
    ensures g.Valid() && Dfs({0, 1}, [1]).seen <= g.Nodes() && Graphs.Visit(g, 2, Dfs({0, 1}, [1])) == Dfs({0, 1, 2}, [1, 2])
  {
    hide Graphs.Visit, Range;
    var s3, s4 := Dfs({0, 1}, [1]), Dfs({0, 1, 2}, [1]);
    assert s3.(seen := s3.seen + {2}) == s4;
    VisitUnfold(g, 2, s3);
    VisitUnfold(g, 1, s4);
    VisitUnfold(g, -1, s4);
  }

  lemma HalfValid(textOffset: u32)
    requires textOffset + 20 <= TWO32
    ensures ValidCfg(HALF, textOffset, HalfCfg(textOffset)) && Buildable(HALF)
  {
    hide BuiltFrom, Postorder, Reverse, Pc, Buildable;
    var G := HalfCfg(textOffset);
    assert GraphOf(G.blocks) == Graph([1, -1, 1], [2, -1, -1]);
    HalfBuilt(textOffset);
    HalfOrder(GraphOf(G.blocks));
    FanCfg(HALF, textOffset, G);
  }

  // ----- the analysis -----

  /** The entry state with s0 = sp - 16. */
  function Pushed(c: Config): VState
    requires |InitRegs(c)| == 32
  {
    VState(InitRegs(c)[8 := PtrStack(-16, -16)], true)
  }

  lemma HalfSteps(c: Config)
    requires c.maxStack >= 16
    ensures Words4(HALF) && Count(HALF) == 5 && |InitRegs(c)| == 32
    ensures RejectsOf(HALF, c, InitRegs(c), 0, 1) == 0 && RegsAt(HALF, c, InitRegs(c), 0, 1) == InitRegs(c)
    ensures RejectsOf(HALF, c, InitRegs(c), 3, 2) == 0 && RegsAt(HALF, c, InitRegs(c), 3, 2) == Pushed(c).x
    ensures RejectsOf(HALF, c, Pushed(c).x, 1, 2) == 0
  {
    hide Ins, NumTop, NumConst, RejectsOf, RegsAt;
    HalfDecodes();
    InitLen(c);
    OneInsn(HALF, c, InitRegs(c), 0);
    TwoInsns(HALF, c, InitRegs(c), 3);
    TwoInsns(HALF, c, Pushed(c).x, 1);
  }

  /** Joining the state that has the pointer into the one that has not keeps it. */
  lemma PushedJoins(c: Config)
    requires |InitRegs(c)| == 32
    ensures JoinState(InitState(c), Pushed(c)) == Pushed(c) && Pushed(c) != InitState(c)
  {
    hide JoinVal, WfVal;
    InitWf(c);
    var x := InitRegs(c);
    assert x[8] == Uninit && Pushed(c).x[8] == PtrStack(-16, -16);
    forall k | 0 <= k < 32
      ensures JoinVal(x[k], Pushed(c).x[k]) == Pushed(c).x[k]
    {
      if k == 8 { UninitJoins(PtrStack(-16, -16)); } else { JoinValIdempotent(x[k]); }
    }
  }

  lemma UninitJoins(v: RVal)
    ensures JoinVal(Uninit, v) == v
  {
  }

  /** The analysis: blocks 0, 2 and 1. */
  lemma HalfLog(textOffset: u32, c: Config) returns (log: seq<Visit>)
    requires c.maxStack >= 16 && StepCap(c) >= 5 && |InitRegs(c)| == 32
    ensures IsFullLog(HALF, c, HalfCfg(textOffset).blocks, log) && Clean(HALF, c, HalfCfg(textOffset), log)
    ensures VisitsOk(HALF, HalfCfg(textOffset).blocks, log)
    ensures WorkAfter(HALF, c, HalfCfg(textOffset).blocks, log).entry == [InitState(c), Pushed(c), InitState(c)]
  {
    hide RejectsOf, RegsAt, InitRegs, RunsTo, Offer, Ins, Pc, IsFullLog, Clean, Regs, Rejects, JoinState;
    var G, I, P, x := HalfCfg(textOffset), InitState(c), Pushed(c), InitRegs(c);
    HalfSteps(c);
    InitWf(c);
    FanStart(HALF, c, G.blocks);
    var w1, w2, w3 := Work([I, I, I], [1, 2]), Work([I, P, I], [1]), Work([I, P, I], []);
    OfferPushed(c);
    OfferNone(w2, P);
    RunsOn(HALF, c, G.blocks, [Visit(0, x)], w1, 1, 0, Visit(2, x), w2);
    log := [Visit(0, x)] + [Visit(2, x)];
    LoneVisit(c, G.blocks, w2, w3, P);
    RunsOn(HALF, c, G.blocks, log, w2, 3, 0, Visit(1, P.x), w3);
    log := log + [Visit(1, P.x)];
    RunsEnd(HALF, c, G, log, w3, 5);
    RunsOk(HALF, c, G.blocks, log, w3, 5, 0);
  }

  lemma OfferPushed(c: Config)
    requires |InitRegs(c)| == 32
    ensures var I := InitState(c); Popped(Work([I, I, I], [1, 2])) == Work([I, I, I], [1])
    ensures var I := InitState(c); Offer(Work([I, I, I], [1]), 1, Pushed(c)) == Work([I, Pushed(c), I], [1])
  {
    hide InitRegs, JoinState;
    PushedJoins(c);
    var I := InitState(c);
    assert [1, 2][..1] == [1] && [I, I, I][1 := Pushed(c)] == [I, Pushed(c), I];
  }

  lemma LoneVisit(c: Config, blocks: seq<Block>, w: Work, w': Work, P: VState)
    requires |blocks| == 3 && blocks[1].succ0 == blocks[1].succ1 == -1 && InText(HALF, blocks[1])
    requires |w.entry| == 3 && Whole(w.entry) && w.queue == [1] && w.entry[1] == P && P.valid && w' == w.(queue := [])
    ensures AfterBlock(HALF, c, blocks, Popped(w), 1) == w' && NextVisit(w, Visit(1, P.x))
  {
    hide RegsAt;
  }

  /** The text is accepted with s0 tracked as a stack pointer at the store ... */
  lemma HalfDefinedIsAccepted(textOffset: u32, c: Config, ok: bool, G: Option<Cfg>, entry: seq<VState>, marks: seq<bool>, steps: int, log: seq<Visit>)
    requires textOffset + 20 <= TWO32 && c.maxStack >= 16 && 5 <= StepCap(c) < 0x7fff_f000
    requires Outcome(HALF, textOffset, c, ok, G, entry, marks, steps, log)
    ensures ok && G.Some? && Accepted(HALF, textOffset, c, G.value, entry, marks) && G.value.blocks == HalfCfg(textOffset).blocks
    ensures |entry| == 3 && |entry[1].x| == 32 && entry[1].x[8] == PtrStack(-16, -16)
    ensures !NoneHalfDefined(HALF, c, G.value.blocks, entry)
  {
    hide ValidCfg, Accepted, Outcome, IsFullLog, Clean, Ins, Pc, InitRegs, Buildable, NoneHalfDefined, WorkAfter;
    HalfValid(textOffset);
    InitLen(c);
    var full := HalfLog(textOffset, c);
    CleanIsAccepted(HALF, textOffset, c, HalfCfg(textOffset), full, ok, G, entry, marks, steps, log);
    HalfHides(textOffset, c, entry);
  }

  lemma HalfHides(textOffset: u32, c: Config, entry: seq<VState>)
    requires |InitRegs(c)| == 32 && entry == [InitState(c), Pushed(c), InitState(c)]
    ensures !NoneHalfDefined(HALF, c, HalfCfg(textOffset).blocks, entry)
  {
    hide Ins, Pc, NumTop, NumConst, RegsAt;
    HalfDecodes();
    var blocks, x := HalfCfg(textOffset).blocks, InitRegs(c);
    assert HasSucc(blocks, 0, 1) && InText(HALF, blocks[0]);
    OneInsn(HALF, c, x, 0);
    assert OutOf(HALF, c, blocks[0], x) == x && x[8].Uninit? && Narrow(entry[1].x[8]);
  }

  /** ... and has a run that makes the store with s0 undefined. */
  lemma HalfDefinedRuns(env: Env) returns (run: seq<CState>)
    ensures Words4(HALF) && IsRun(HALF, env, run) && |run| == 2 && run[1].off == 4 && |run[1].regs| == 32
    ensures Ins(HALF, 1).cls.Store? && Ins(HALF, 1).rs1 == 8 && run[1].regs[8].Undef?
  {
    hide Ins;
    HalfDecodes();
    run := [CState(0, StartRegs(env)), CState(4, StartRegs(env))];
  }
}
