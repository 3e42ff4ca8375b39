/** Concrete texts: one that shows acceptance is attainable, and two that show what the
    verifier lets through, an irreducible loop and a jump to pc 0.  Each is followed
    through the worklist machine to the verdict. */
module Witnesses {
  import opened Basics
  import opened Words
  import opened Decoder
  import opened Tnums
  import opened Domain
  import opened Transfer
  import opened Graphs
  import opened ControlFlow
  import opened Verify
  import opened VisitLog
  import opened Soundness
  import opened LoopGate
  import CfgUnique
  import Dominators
  import Rv64

  // ----- small texts and graphs -----

  lemma {:induction false} LeadersAtMost(text: seq<u8>, k: nat)
    requires Words4(text)
    ensures Leaders(text, k) <= k
  {
    hide IsLeader;
    if k > 0 { LeadersAtMost(text, k - 1); }
  }

  lemma SmallBuildable(text: seq<u8>)
    requires Words4(text) && Count(text) <= MAX_BLOCKS && forall k :: 0 <= k < Count(text) ==> TargetOk(text, k)
    ensures Buildable(text)
  {
    hide TargetOk, Leaders;
    LeadersAtMost(text, Count(text));
  }

  lemma InitLen(c: Config)
    ensures |InitRegs(c)| == 32
  {
  }

  lemma OneInsn(text: seq<u8>, c: Config, x: seq<RVal>, k: int)
    requires Words4(text) && 0 <= k < Count(text) && |x| == 32
    ensures RejectsOf(text, c, x, k, 1) == Rejects(Ins(text, k), x, c) && RegsAt(text, c, x, k, 1) == Regs(Ins(text, k), x, c)
  {
    hide Rejects, Regs, Ins;
    assert RegsAt(text, c, x, k, 0) == x && RejectsOf(text, c, x, k, 0) == 0;
  }

  lemma TwoInsns(text: seq<u8>, c: Config, x: seq<RVal>, k: int)
    requires Words4(text) && 0 <= k && k + 2 <= Count(text) && |x| == 32
    ensures var y := Regs(Ins(text, k), x, c);
            && RejectsOf(text, c, x, k, 2) == Rejects(Ins(text, k), x, c) + Rejects(Ins(text, k + 1), y, c)
            && RegsAt(text, c, x, k, 2) == Regs(Ins(text, k + 1), y, c)
  {
    hide Rejects, Regs, Ins;
    OneInsn(text, c, x, k);
    assert RegsAt(text, c, x, k, 2) == Regs(Ins(text, k + 1), RegsAt(text, c, x, k, 1), c);
  }

  /** A state that is already there changes nothing; a first state is taken over. */
  lemma OfferKnown(w: Work, n: int, out: VState)
    requires Whole(w.entry) && 0 <= n < |w.entry| && w.entry[n] == out && WfState(out)
    ensures |out.x| == 32 && Offer(w, n, out) == w
  {
    hide JoinState;
    WfLen(out.x);
    JoinSelf(out);
  }

  lemma OfferFirst(w: Work, n: int, out: VState)
    requires Whole(w.entry) && 0 <= n < |w.entry| && !w.entry[n].valid && out.valid && |out.x| == 32
    ensures Offer(w, n, out) == Work(w.entry[n := out], Enqueue(w.queue, n))
  {
  }

  lemma OfferNone(w: Work, out: VState)
    requires Whole(w.entry) && |out.x| == 32
    ensures Offer(w, -1, out) == w
  {
  }

  /** A text of one block that leads nowhere is analysed in one visit. */
  lemma LoneBlock(text: seq<u8>, c: Config, G: Cfg) returns (log: seq<Visit>)
    requires |G.blocks| == 1 && G.blocks[0].succ0 == G.blocks[0].succ1 == -1 && G.backEdges == []
    requires InText(text, G.blocks[0]) && |InitRegs(c)| == 32 && Len(G.blocks[0]) <= StepCap(c)
    requires RejectsOf(text, c, InitRegs(c), At(G.blocks[0]), Len(G.blocks[0])) == 0
    ensures IsFullLog(text, c, G.blocks, log) && Clean(text, c, G, log)
  {
    hide RejectsOf, RegsAt, InitRegs, RunsTo, StepsIn, IsFullLog, Clean, Verify.Blank;
    var w, v := StartWork(c, 1), Visit(0, InitRegs(c));
    RunsStart(text, c, G.blocks);
    assert w.entry[0] == InitState(c);
    RunsOn(text, c, G.blocks, [], w, 0, 0, v, Popped(w));
    log := [v];
    assert [] + [v] == log;
    RunsEnd(text, c, G, log, Popped(w), Len(G.blocks[0]));
  }

  // ----- a bare return -----

  /** jalr x0, ra, 0. */
  const RET: seq<u8> := [0x67, 0x80, 0x00, 0x00]
  const RET_CFG: Cfg := Cfg([Block(0, 0, 1, 0, 0, true, -1, -1)], [0], [0], [])

  /** A bare return is accepted, under every configuration and wherever it is loaded. */
  lemma RetIsAccepted(textOffset: u32, c: Config, ok: bool, G: Option<Cfg>, entry: seq<VState>, marks: seq<bool>, steps: int, log: seq<Visit>)
    requires StepCap(c) < 0x7fff_f000 && Outcome(RET, textOffset, c, ok, G, entry, marks, steps, log)
    ensures ok && G.Some? && Accepted(RET, textOffset, c, G.value, entry, marks)
  {
    hide ValidCfg, Accepted, Outcome, BuiltFrom, Ins, InitRegs, RejectsOf, RegsAt, IsFullLog, Clean;
    RetDecodes();
    SmallBuildable(RET);
    RetBuilt(textOffset);
    PointCfg(RET, textOffset, RET_CFG);
    InitLen(c);
    OneInsn(RET, c, InitRegs(c), 0);
    var full := LoneBlock(RET, c, RET_CFG);
    CleanIsAccepted(RET, textOffset, c, RET_CFG, full, ok, G, entry, marks, steps, log);
  }

  lemma RetDecodes()
    ensures Words4(RET) && Count(RET) == 1
    ensures var i := Ins(RET, 0); i.cls.Jalr? && i.rd == 0 && i.rs1 == 1
  {
    assert WordAt(RET, 0) == 0x8067;
  }

  lemma RetBuilt(textOffset: u32)
    ensures BuiltFrom(RET, textOffset, RET_CFG.blocks)
  {
    hide Ins;
    RetDecodes();
  }

  /** One block without edges. */
  lemma PointCfg(text: seq<u8>, textOffset: u32, G: Cfg)
    requires BuiltFrom(text, textOffset, G.blocks) && |G.blocks| == 1 && G.blocks[0].succ0 == G.blocks[0].succ1 == -1
    requires G.rpo == [0] && G.idom == [0] && G.backEdges == []
    ensures ValidCfg(text, textOffset, G)
  {
    hide BuiltFrom, IsRpo, Dominators.Exact, Postorder, IsBackEdge;
    var g := GraphOf(G.blocks);
    assert g == Graph([-1], [-1]);
    PointGraph(g);
    assert Dominators.Ctx(g, [0], [0]).g == g;
  }

  lemma PointGraph(g: Graph)
    requires g == Graph([-1], [-1])
    ensures g.Valid() && Reverse(Postorder(g)) == [0] && IsRpo(g, [0])
    ensures Dominators.Exact(Dominators.Ctx(g, [0], [0]), [0])
    ensures forall a, b :: !IsBackEdge(g, a, b)
  {
    hide Postorder, Reverse;
    PointOrder(g);
    assert PathTo(g, [0], 0);
    forall p, x | PathTo(g, p, x)
      ensures x == 0 && p == [0]
    {
      assert |p| > 1 ==> !g.Edge(p[0], p[1]);
    }
    var t := Dominators.Ctx(g, [0], [0]);
    assert Dominators.Tree(t, [0]);
  }

  lemma PointOrder(g: Graph)
    requires g == Graph([-1], [-1])
    ensures Reverse(Postorder(g)) == [0]
  {
    assert Graphs.Visit(g, 0, Dfs({}, [])).post == [0];
  }

  // ----- graphs whose entry leads to both other blocks -----

  predicate IsFan(g: Graph) { g.Valid() && |g.succ0| == 3 && g.Edge(0, 1) && g.Edge(0, 2) }

  /** Neither of the two dominates the other, whatever the edges between them. */
  lemma FanPaths(g: Graph)
    requires IsFan(g)
    ensures PathTo(g, [0], 0) && PathTo(g, [0, 1], 1) && PathTo(g, [0, 2], 2)
    ensures forall x :: Reachable(g, x) <==> 0 <= x < 3
    ensures forall a, b :: IsBackEdge(g, a, b) <==> g.Edge(a, b) && (b == a || b == 0)
  {
    assert PathTo(g, [0], 0) && PathTo(g, [0, 1], 1) && PathTo(g, [0, 2], 2);
    forall x
      ensures Reachable(g, x) <==> 0 <= x < 3
    {
      FanReach(g, x);
    }
    forall a, b
      ensures IsBackEdge(g, a, b) <==> g.Edge(a, b) && (b == a || b == 0)
    {
      if g.Edge(a, b) { FanDominates(g, b, a); }
    }
  }

  lemma FanReach(g: Graph, x: int)
    requires IsFan(g)
    ensures Reachable(g, x) <==> 0 <= x < 3
  {
    assert PathTo(g, [0], 0) && PathTo(g, [0, 1], 1) && PathTo(g, [0, 2], 2);
    if Reachable(g, x) {
      var p :| PathTo(g, p, x);
      assert |p| > 1 ==> g.Edge(p[|p| - 2], p[|p| - 1]);
    }
  }

  lemma FanDominates(g: Graph, d: int, x: int)
    requires IsFan(g) && 0 <= x < 3
    ensures Dominates(g, d, x) <==> d == x || d == 0
  {
    var p := if x == 0 then [0] else [0, x];
    assert PathTo(g, p, x);
  }

  lemma FanDominators(g: Graph, rpo: seq<int>, rank: seq<int>)
    requires IsFan(g) && IsRpo(g, rpo) && (rpo == rank == [0, 1, 2] || rpo == rank == [0, 2, 1])
    ensures Dominators.Exact(Dominators.Ctx(g, rpo, rank), [0, 0, 0])
  {
    hide IsRpo, Reachable, Dominates;
    var t, idom := Dominators.Ctx(g, rpo, rank), [0, 0, 0];
    assert Dominators.Tree(t, idom);
    forall x
      ensures Dominators.Def(idom, x) <==> Reachable(g, x)
    {
      FanReach(g, x);
    }
    forall d, x | 0 <= x < 3
      ensures Dominators.Anc(t, idom, d, x) <==> Dominates(g, d, x)
    {
      FanDominates(g, d, x);
      assert Dominators.Anc(t, idom, d, x) <==> d == x || d == 0;
    }
  }

  lemma FanCfg(text: seq<u8>, textOffset: u32, G: Cfg)
    requires BuiltFrom(text, textOffset, G.blocks) && IsFan(GraphOf(G.blocks)) && G.idom == [0, 0, 0]
    requires G.rpo == Reverse(Postorder(GraphOf(G.blocks))) && (G.rpo == [0, 1, 2] || G.rpo == [0, 2, 1])
    requires |G.backEdges| <= MAX_EDGES
    requires forall e :: e in G.backEdges <==> GraphOf(G.blocks).Edge(e.0, e.1) && (e.1 == e.0 || e.1 == 0)
    ensures ValidCfg(text, textOffset, G)
  {
    hide BuiltFrom, IsRpo, Dominators.Exact, Postorder, IsBackEdge, Reverse, GraphOf;
    var g := GraphOf(G.blocks);
    RpoCorrect(g);
    FanDominators(g, G.rpo, G.rpo);
    FanPaths(g);
    assert Dominators.Ctx(g, G.rpo, G.rpo).g == g;
  }

  /** The first visit of such a graph hands the entry state to both blocks. */
  lemma FanStart(text: seq<u8>, c: Config, blocks: seq<Block>)
    requires |blocks| == 3 && blocks[0].succ0 == 1 && blocks[0].succ1 == 2 && InText(text, blocks[0]) && |InitRegs(c)| == 32
    requires OutOf(text, c, blocks[0], InitRegs(c)) == InitRegs(c)
    requires RejectsOf(text, c, InitRegs(c), At(blocks[0]), Len(blocks[0])) == 0
    ensures RunsTo(text, c, blocks, [Visit(0, InitRegs(c))], Work([InitState(c), InitState(c), InitState(c)], [1, 2]), Len(blocks[0]), 0)
  {
    hide RejectsOf, RegsAt, InitRegs, RunsTo, Offer, JoinState;
    var w, v, I := StartWork(c, 3), Visit(0, InitRegs(c)), InitState(c);
    RunsStart(text, c, blocks);
    assert w.entry == [I, Verify.Blank(), Verify.Blank()];
    var w0, w1 := Work(w.entry, []), Work([I, I, Verify.Blank()], [1]);
    assert Popped(w) == w0 && w0.entry[0].x == InitRegs(c);
    OfferFirst(w0, 1, I);
    assert w0.entry[1 := I] == w1.entry;
    OfferFirst(w1, 2, I);
    assert w1.entry[2 := I] == [I, I, I] && Enqueue([1], 2) == [1, 2];
    var out := VState(OutOf(text, c, blocks[0], w0.entry[0].x), true);
    assert out == I && Offer(w0, 1, out) == w1 && Offer(w1, 2, out) == Work([I, I, I], [1, 2]);
    RunsOn(text, c, blocks, [], w, 0, 0, v, Work([I, I, I], [1, 2]));
    assert [] + [v] == [v];
  }

  // ----- an irreducible loop -----

  /** beq x0, x0, +8; jal x0, +4; jal x0, -4: the entry branches into a loop of two blocks
      that can be entered at either. */
  const TWO_ENTRY: seq<u8> := [0x63, 0x04, 0x00, 0x00, 0x6f, 0x00, 0x40, 0x00, 0x6f, 0xf0, 0xdf, 0xff]

  function TwoEntryCfg(textOffset: u32): Cfg
  {
    Cfg([Block(0, 0, 1, Pc(textOffset, 4), Pc(textOffset, 8), false, 1, 2),
         Block(4, 4, 1, Pc(textOffset, 8), 0, false, 2, -1),
         Block(8, 8, 1, Pc(textOffset, 4), 0, false, 1, -1)],
        [0, 1, 2], [0, 0, 0], [])
  }

  lemma TwoEntryDecodes()
    ensures Words4(TWO_ENTRY) && Count(TWO_ENTRY) == 3
    ensures var i := Ins(TWO_ENTRY, 0); i.cls.Branch? && i.brKind.Beq? && i.rs1 == i.rs2 == 0 && i.imm == 8
    ensures var i := Ins(TWO_ENTRY, 1); i.cls.Jal? && i.rd == 0 && i.imm == 4
    ensures var i := Ins(TWO_ENTRY, 2); i.cls.Jal? && i.rd == 0 && i.imm == -4
  {
    assert WordAt(TWO_ENTRY, 0) == 0x463;
    assert WordAt(TWO_ENTRY, 4) == 0x40_006f;
    assert WordAt(TWO_ENTRY, 8) == 0xffdf_f06f;
  }

  /** The loop is accepted, wherever the text does not wrap, although it has no back edge
      and no marked header: its graph is not reducible. */
  lemma IrreducibleIsAccepted(textOffset: u32, c: Config, ok: bool, G: Option<Cfg>, entry: seq<VState>, marks: seq<bool>, steps: int, log: seq<Visit>)
    requires textOffset + 12 <= TWO32 && 3 <= StepCap(c) < 0x7fff_f000
    requires Outcome(TWO_ENTRY, textOffset, c, ok, G, entry, marks, steps, log)
    ensures ok && G.Some? && Accepted(TWO_ENTRY, textOffset, c, G.value, entry, marks)
    ensures G.value.blocks == TwoEntryCfg(textOffset).blocks && G.value.backEdges == []
    ensures !Reducible(G.value) && IsCycle(G.value, [1, 2, 1]) && !UsesBackEdge(G.value, [1, 2, 1])
  {
    hide ValidCfg, Accepted, Outcome, IsFullLog, Clean, Ins, Pc, TargetOk, TwoEntryCfg, Buildable, IsCycle, Reducible, UsesBackEdge;
    TwoEntryValid(textOffset);
    TwoEntryBuildable();
    var full := TwoEntryLog(textOffset, c);
    CleanIsAccepted(TWO_ENTRY, textOffset, c, TwoEntryCfg(textOffset), full, ok, G, entry, marks, steps, log);
    OutcomeValid(TWO_ENTRY, textOffset, c, ok, G, entry, marks, steps, log);
    TwoEntryUngated(textOffset, G.value);
  }

  lemma TwoEntryUngated(textOffset: u32, G: Cfg)
    requires textOffset + 12 <= TWO32 && ValidCfg(TWO_ENTRY, textOffset, G)
    ensures G.backEdges == [] && !Reducible(G) && IsCycle(G, [1, 2, 1]) && !UsesBackEdge(G, [1, 2, 1])
  {
    hide ValidCfg, Reachable, Pc;
    var H := TwoEntryCfg(textOffset);
    TwoEntryValid(textOffset);
    CfgUnique.CfgUnique(TWO_ENTRY, textOffset, H, G);
    assert GraphOf(G.blocks) == Graph([1, 2, 1], [2, -1, -1]);
    FanPaths(GraphOf(G.blocks));
    NoMembers(G.backEdges);
    assert GraphOf(G.blocks).Edge(G.rpo[2], G.rpo[1]) && (G.rpo[2], G.rpo[1]) !in G.backEdges;
  }

  lemma NoMembers(s: seq<(int, int)>)
    ensures (forall e :: e !in s) ==> s == []
  {
    if s != [] { assert s[0] in s; }
  }

  lemma OutcomeValid(text: seq<u8>, textOffset: u32, c: Config, ok: bool, G: Option<Cfg>, entry: seq<VState>, marks: seq<bool>, steps: int, log: seq<Visit>)
    requires Outcome(text, textOffset, c, ok, G, entry, marks, steps, log) && G.Some?
    ensures ValidCfg(text, textOffset, G.value)
  {
    hide ValidCfg, Judged;
  }

  lemma TwoEntryBuildable()
    ensures Buildable(TWO_ENTRY)
  {
    hide Ins;
    TwoEntryDecodes();
    SmallBuildable(TWO_ENTRY);
  }

  /** The analysis: blocks 0, 2 and 1, all in the entry state. */
  lemma TwoEntryLog(textOffset: u32, c: Config) returns (log: seq<Visit>)
    requires StepCap(c) >= 3
    ensures IsFullLog(TWO_ENTRY, c, TwoEntryCfg(textOffset).blocks, log) && Clean(TWO_ENTRY, c, TwoEntryCfg(textOffset), log)
  {
    hide RejectsOf, RegsAt, InitRegs, RunsTo, Offer, Ins, Pc, IsFullLog, Clean, Regs, Rejects;
    var text, G, I, x := TWO_ENTRY, TwoEntryCfg(textOffset), InitState(c), InitRegs(c);
    TwoEntryDecodes();
    InitLen(c);
    InitWf(c);
    TwoEntryIdle(c, x);
    FanStart(text, c, G.blocks);
    var all := [I, I, I];
    var w1, w2, w3 := Work(all, [1, 2]), Work(all, [1]), Work(all, []);
    assert [1, 2][..1] == [1] && Popped(w1) == w2 && Popped(w2) == w3;
    OfferKnown(w2, 1, I);
    OfferNone(w2, I);
    assert OutOf(text, c, G.blocks[2], all[2].x) == x && OutOf(text, c, G.blocks[1], all[1].x) == x;
    RunsOn(text, c, G.blocks, [Visit(0, x)], w1, 1, 0, Visit(2, x), w2);
    OfferKnown(w3, 2, I);
    OfferNone(w3, I);
    log := [Visit(0, x)] + [Visit(2, x)];
    RunsOn(text, c, G.blocks, log, w2, 2, 0, Visit(1, x), w3);
    log := log + [Visit(1, x)];
    RunsEnd(text, c, G, log, w3, 3);
  }

  lemma TwoEntryIdle(c: Config, x: seq<RVal>)
    requires |x| == 32
    ensures Words4(TWO_ENTRY) && Count(TWO_ENTRY) == 3
    ensures forall k :: 0 <= k < 3 ==> RejectsOf(TWO_ENTRY, c, x, k, 1) == 0 && RegsAt(TWO_ENTRY, c, x, k, 1) == x
  {
    hide Ins, RejectsOf, RegsAt;
    TwoEntryDecodes();
    forall k | 0 <= k < 3
      ensures RejectsOf(TWO_ENTRY, c, x, k, 1) == 0 && RegsAt(TWO_ENTRY, c, x, k, 1) == x
    {
      OneInsn(TWO_ENTRY, c, x, k);
    }
  }

  lemma TwoEntryValid(textOffset: u32)
    requires textOffset + 12 <= TWO32
    ensures ValidCfg(TWO_ENTRY, textOffset, TwoEntryCfg(textOffset))
  {
    hide BuiltFrom, Postorder, Reverse, Pc;
    var G := TwoEntryCfg(textOffset);
    assert GraphOf(G.blocks) == Graph([1, 2, 1], [2, -1, -1]);
    TwoEntryBuilt(textOffset);
    TwoEntryOrder(GraphOf(G.blocks));
    FanCfg(TWO_ENTRY, textOffset, G);
  }

  lemma TwoEntryBuilt(textOffset: u32)
    requires textOffset + 12 <= TWO32
    ensures BuiltFrom(TWO_ENTRY, textOffset, TwoEntryCfg(textOffset).blocks)
  {
    hide Ins, Linked;
    TwoEntryDecodes();
    var text, blocks := TWO_ENTRY, TwoEntryCfg(textOffset).blocks;
    assert MarksLeader(text, 0, 1) && MarksLeader(text, 1, 2);
    forall i | 0 <= i < 3
      ensures LinkedAt(text, textOffset, blocks, i)
    {
      TwoEntryLinked(textOffset, i);
    }
  }

  lemma TwoEntryLinked(textOffset: u32, i: int)
    requires textOffset + 12 <= TWO32 && 0 <= i < 3
    ensures Words4(TWO_ENTRY) && LinkedAt(TWO_ENTRY, textOffset, TwoEntryCfg(textOffset).blocks, i)
  {
    hide Ins;
    TwoEntryDecodes();
  }

  lemma TwoEntryOrder(g: Graph)
    requires g == Graph([1, 2, 1], [2, -1, -1])
    ensures g.Valid() && Reverse(Postorder(g)) == [0, 1, 2]
  {
    hide Graphs.Visit, Range;
    TwoEntryInner(g);
    var s0 := Dfs({}, []);
    assert s0.(seen := s0.seen + {0}) == Dfs({0}, []);
    VisitUnfold(g, 0, s0);
    VisitUnfold(g, 2, Dfs({0, 1, 2}, [2, 1]));
    assert Postorder(g) == [2, 1, 0];
  }

  lemma TwoEntryInner(g: Graph)
    requires g == Graph([1, 2, 1], [2, -1, -1])
    ensures g.Valid() && Dfs({0}, []).seen <= g.Nodes() && Graphs.Visit(g, 1, Dfs({0}, [])) == Dfs({0, 1, 2}, [2, 1])
  {
    hide Graphs.Visit, Range;
    TwoEntryInmost(g);
    var s1 := Dfs({0}, []);
    assert s1.(seen := s1.seen + {1}) == Dfs({0, 1}, []);
    VisitUnfold(g, 1, s1);
    VisitUnfold(g, -1, Dfs({0, 1, 2}, [2]));
  }

  lemma TwoEntryInmost(g: Graph)
    requires g == Graph([1, 2, 1], [2, -1, -1])
    ensures g.Valid() && Dfs({0, 1}, []).seen <= g.Nodes() && Graphs.Visit(g, 2, Dfs({0, 1}, [])) == Dfs({0, 1, 2}, [2])
  {
    hide Graphs.Visit, Range;
    var s2 := Dfs({0, 1}, []);
    assert s2.(seen := s2.seen + {2}) == Dfs({0, 1, 2}, []);
    VisitUnfold(g, 2, s2);
    VisitUnfold(g, 1, Dfs({0, 1, 2}, []));
    VisitUnfold(g, -1, Dfs({0, 1, 2}, []));
  }

  /** 0, 8, 4, 8, 4, ... */
  function LoopOffset(t: nat): int { if t == 0 then 0 else if t % 2 == 1 then 8 else 4 }

  /** It has a run of every length, which meets no marked header. */
  lemma IrreducibleRuns(textOffset: u32, env: Env, n: nat) returns (run: seq<CState>)
    ensures Words4(TWO_ENTRY) && |run| == n + 1 && IsRun(TWO_ENTRY, env, run)
    ensures forall t :: 0 <= t <= n ==> !AtMarkedHeader(TwoEntryCfg(textOffset), [false, false, false], run[t].off)
  {
    hide Ins, StartRegs, Pc, Step;
    TwoEntryDecodes();
    run := seq(n + 1, t requires 0 <= t <= n => CState(LoopOffset(t), StartRegs(env)));
    forall t | 0 < t < |run|
      ensures Step(TWO_ENTRY, env, run[t - 1], run[t])
    {
      LoopStep(env, t - 1);
    }
  }

  lemma LoopStep(env: Env, t: nat)
    ensures Words4(TWO_ENTRY)
    ensures Step(TWO_ENTRY, env, CState(LoopOffset(t), StartRegs(env)), CState(LoopOffset(t + 1), StartRegs(env)))
  {
    hide Ins;
    TwoEntryDecodes();
  }

  // ----- a jump to pc 0 -----

  /** addi sp, sp, -16; sd x0, 0(sp); jal x0, -8: each round pushes a word. */
  const PUSH_LOOP: seq<u8> := [0x13, 0x01, 0x01, 0xff, 0x23, 0x30, 0x01, 0x00, 0x6f, 0xf0, 0x9f, 0xff]
  const PUSH_CFG: Cfg := Cfg([Block(0, 8, 3, 0, 0, false, -1, -1)], [0], [0], [])

  lemma PushDecodes()
    ensures Words4(PUSH_LOOP) && Count(PUSH_LOOP) == 3
    ensures var i := Ins(PUSH_LOOP, 0); i.cls.AluImm? && i.aluOp.Add? && i.rd == i.rs1 == 2 && i.imm == -16
    ensures var i := Ins(PUSH_LOOP, 1); i.cls.Store? && i.rs1 == 2 && i.imm == 0 && i.width == 3
    ensures var i := Ins(PUSH_LOOP, 2); i.cls.Jal? && i.rd == 0 && i.imm == -8
  {
    hide Decode;
    assert WordAt(PUSH_LOOP, 0) == 0xff01_0113;
    assert WordAt(PUSH_LOOP, 4) == 0x1_3023;
    assert WordAt(PUSH_LOOP, 8) == 0xff9f_f06f;
    AddiWord();
    SdWord();
    JalBackWord();
  }

  lemma AddiWord()
    ensures var i := Decode(0xff01_0113); i.cls.AluImm? && i.aluOp.Add? && i.rd == i.rs1 == 2 && i.imm == -16
  {
  }

  lemma SdWord()
    ensures var i := Decode(0x1_3023); i.cls.Store? && i.rs1 == 2 && i.imm == 0 && i.width == 3
  {
  }

  lemma JalBackWord()
    ensures var i := Decode(0xff9f_f06f); i.cls.Jal? && i.rd == 0 && i.imm == -8
  {
  }

  /** At text offset 0 the jump back is taken for none, and the loop for straight-line
      code: it is accepted in any frame that holds one round ... */
  lemma PushLoopIsAccepted(c: Config, ok: bool, G: Option<Cfg>, entry: seq<VState>, marks: seq<bool>, steps: int, log: seq<Visit>)
    requires c.maxStack >= 16 && 3 <= StepCap(c) < 0x7fff_f000
    requires Outcome(PUSH_LOOP, 0, c, ok, G, entry, marks, steps, log)
    ensures ok && G.Some? && Accepted(PUSH_LOOP, 0, c, G.value, entry, marks)
    ensures Words4(PUSH_LOOP) && !AvoidsZero(PUSH_LOOP, 0)
  {
    hide ValidCfg, Accepted, Outcome, BuiltFrom, Ins, InitRegs, RejectsOf, RegsAt, AvoidsZero, IsFullLog, Clean;
    PushDecodes();
    SmallBuildable(PUSH_LOOP);
    PushBuilt();
    PointCfg(PUSH_LOOP, 0, PUSH_CFG);
    InitLen(c);
    PushRejects(c);
    var full := LoneBlock(PUSH_LOOP, c, PUSH_CFG);
    CleanIsAccepted(PUSH_LOOP, 0, c, PUSH_CFG, full, ok, G, entry, marks, steps, log);
    PushHitsZero();
  }

  lemma PushHitsZero()
    ensures Words4(PUSH_LOOP) && !AvoidsZero(PUSH_LOOP, 0)
  {
    hide Ins, Flows, AvoidsZero;
    PushDecodes();
    WhenZeroIsAvoided(PUSH_LOOP, 0);
    PushFlows();
  }

  lemma PushFlows()
    ensures Words4(PUSH_LOOP) && IsControl(Ins(PUSH_LOOP, 8 / 4).cls) && Flows(PUSH_LOOP, 8, 0)
  {
    hide Ins;
    PushDecodes();
  }

  lemma PushBuilt()
    ensures BuiltFrom(PUSH_LOOP, 0, PUSH_CFG.blocks)
  {
    hide Ins;
    PushDecodes();
  }

  lemma PushRejects(c: Config)
    requires c.maxStack >= 16
    ensures Words4(PUSH_LOOP) && Count(PUSH_LOOP) == 3 && |InitRegs(c)| == 32 && RejectsOf(PUSH_LOOP, c, InitRegs(c), 0, 3) == 0
  {
    hide Ins, NumTop, NumConst;
    PushDecodes();
    var x := InitRegs(c);
    var y := x[2 := PtrStack(-16, -16)];
    assert RegsAt(PUSH_LOOP, c, x, 0, 0) == x;
    assert RegsAt(PUSH_LOOP, c, x, 0, 1) == y;
    assert RegsAt(PUSH_LOOP, c, x, 0, 2) == y;
    assert RejectsOf(PUSH_LOOP, c, x, 0, 1) == 0;
    assert RejectsOf(PUSH_LOOP, c, x, 0, 2) == 0;
  }

  /** sp after t steps, and the state it is part of. */
  function PushState(env: Env, t: nat): CState
  {
    CState(4 * (t % 3), StartRegs(env)[2 := Word(Addr(env.sp0, -16 * ((t + 2) / 3)))])
  }

  lemma PushStep(env: Env, t: nat)
    ensures Words4(PUSH_LOOP) && Step(PUSH_LOOP, env, PushState(env, t), PushState(env, t + 1))
  {
    hide Ins, Wrap64;
    PushDecodes();
    var k := (t + 2) / 3;
    var r := PushState(env, t).regs;
    if t % 3 == 0 {
      assert (t + 3) / 3 == k + 1;
      WrapOfSum(env.sp0 - 16 * k, -16);
      assert Rv64.Result(Ins(PUSH_LOOP, 0), r[2].w, 0) == Addr(env.sp0, -16 * (k + 1));
      assert r[2 := Word(Addr(env.sp0, -16 * (k + 1)))] == PushState(env, t + 1).regs;
    } else {
      assert (t + 3) / 3 == k;
    }
  }

  /** ... but runs for ever, and in every frame some round stores outside: acceptance at
      offset 0 is not sound for texts that jump to their start. */
  lemma PushLoopLeavesFrame(c: Config, env: Env, n: nat) returns (run: seq<CState>, t: nat)
    requires c.maxStack >= 16
    ensures Words4(PUSH_LOOP) && IsRun(PUSH_LOOP, env, run) && n < |run|
    ensures t < |run| && run[t].off == 4 && |run[t].regs| == 32 && run[t].regs[2].Word?
    ensures var i := Ins(PUSH_LOOP, 1);
            i.cls.Store? && i.rs1 == 2 && !InFrame(c, env, Wrap64(run[t].regs[2].w + Wrap64(i.imm)), Rv64.AccessBytes(i.width))
  {
    hide Ins, StartRegs, Step, InFrame, Wrap64;
    PushDecodes();
    var q := c.maxStack / 16;
    t := 3 * q + 1;
    var len := n + t + 1;
    run := seq(len, k requires 0 <= k < len => PushState(env, k));
    assert run[0] == CState(0, StartRegs(env)) by { StartSp(env); }
    forall k | 0 < k < len
      ensures Step(PUSH_LOOP, env, run[k - 1], run[k])
    {
      PushStep(env, k - 1);
    }
    assert (t + 2) / 3 == q + 1 && t % 3 == 1;
    PushShape(env, t);
    assert Pow2(3) == 8;
    OutsideFrame(c, env, 16 * (q + 1));
  }

  lemma PushShape(env: Env, t: nat)
    ensures var s := PushState(env, t);
            s.off == 4 * (t % 3) && |s.regs| == 32 && s.regs[2] == Word(Addr(env.sp0, -16 * ((t + 2) / 3)))
  {
  }

  lemma StartSp(env: Env)
    ensures PushState(env, 0) == CState(0, StartRegs(env))
  {
  }

  lemma OutsideFrame(c: Config, env: Env, d: int)
    requires c.maxStack < d < 0x2_0000_0000
    ensures !InFrame(c, env, Wrap64(Addr(env.sp0, -d) + Wrap64(0)), 8)
  {
    WrapOfSum(env.sp0 - d, 0);
    forall off | 0 <= off + c.maxStack && off + 8 <= 0
      ensures Addr(env.sp0, -d) != Addr(env.sp0, off)
    {
      SameWrap(env.sp0 - d, env.sp0 + off);
    }
  }

  /** Two integers less than 2^64 apart do not wrap to the same word. */
  lemma SameWrap(a: int, b: int)
    requires a < b < a + TWO64
    ensures Wrap64(a) != Wrap64(b)
  {
    var d := b / TWO64 - a / TWO64;
    assert b - a == d * TWO64 + (Wrap64(b) - Wrap64(a));
    assert d * TWO64 <= 0 || d * TWO64 >= TWO64;
  }
}
