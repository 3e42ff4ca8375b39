/** What a marked loop header means for runs.  A mark says that some block leads into the
    header after a call of a loop helper; a run into the header has made such a call exactly
    where no path leads there around those blocks. */
module Announced {
  import opened Words
  import opened Decoder
  import opened Tnums
  import opened Domain
  import opened Transfer
  import opened Graphs
  import opened ControlFlow
  import opened Verify
  import opened Soundness
  import CfgUnique
  import Dominators

  // ----- constants agree between a state and one above it -----

  predicate ConstTn(v: RVal) { v.Num? && IsConst(v.s.tn) }

  /** Where both states know a register's value, they know the same. */
  predicate Agree(x: seq<RVal>, y: seq<RVal>)
  {
    |x| == |y| == 32 && forall r :: 0 <= r < 32 && ConstTn(x[r]) && ConstTn(y[r]) ==> x[r].s.tn == y[r].s.tn
  }

  lemma BelowAgree(x: seq<RVal>, y: seq<RVal>)
    requires RegsBelow(x, y) && WfRegs(x) && WfRegs(y)
    ensures Agree(x, y)
  {
    hide Below, WfVal;
    forall r | 0 <= r < 32 && ConstTn(x[r]) && ConstTn(y[r])
      ensures x[r].s.tn == y[r].s.tn
    {
      assert Below(x[r], y[r]) && WfVal(x[r]) && WfVal(y[r]);
      ConstBelow(x[r], y[r]);
    }
  }

  lemma ConstBelow(a: RVal, b: RVal)
    requires Below(a, b) && ConstTn(a) && ConstTn(b) && WfVal(a) && WfVal(b)
    ensures a.s.tn == b.s.tn
  {
    hide Has, Join, Wf;
    assert Join(a.s.tn, b.s.tn) == b.s.tn;
    HasWf(a.s.tn);
    JoinLeast(a.s.tn, b.s.tn, a.s.tn.value);
    ConstHas(b.s.tn.value, a.s.tn.value);
    assert a.s.tn == Const(a.s.tn.value) && b.s.tn == Const(b.s.tn.value);
  }

  /** A sum with a constant is constant only if the other operand is. */
  lemma ConstSum(a: Tnum, k: u64)
    requires IsConst(Tnums.Add(a, Const(k)))
    ensures IsConst(a)
  {
    hide Bit, Tnums.Add;
    forall i: nat | i < 64
      ensures Bit(a.mask, i) == Bit(0, i)
    {
      AddAt(a, Const(k), i);
      BitZero(i);
    }
    WordsEqual(a.mask, 0);
  }

  lemma TopNotConst()
    ensures !ConstTn(NumTop())
  {
  }

  lemma AddiAgree(i: Insn, a: RVal, b: RVal)
    requires ConstTn(a) && ConstTn(b) ==> a.s.tn == b.s.tn
    requires ConstTn(AddiValue(i, a)) && ConstTn(AddiValue(i, b))
    ensures AddiValue(i, a).s.tn == AddiValue(i, b).s.tn
  {
    hide Tnums.Add, IsConst, NumTop;
    TopNotConst();
    if i.rs1 != 0 && a.Num? && b.Num? {
      ConstSum(a.s.tn, Wrap64(i.imm));
      ConstSum(b.s.tn, Wrap64(i.imm));
    }
  }

  lemma RegsAgree(i: Insn, x: seq<RVal>, y: seq<RVal>, c: Config)
    requires Agree(x, y)
    ensures Agree(Regs(i, x, c), Regs(i, y, c))
  {
    hide ConstTn, AddiValue, NumTop, NumConst, Allowed, ScalarIsConst;
    TopNotConst();
    if i.cls.Ecall? {
      EcallAgree(x, y, c);
    } else if i.cls.AluImm? && i.aluOp.Add? && ConstTn(AddiValue(i, x[i.rs1])) && ConstTn(AddiValue(i, y[i.rs1])) {
      AddiAgree(i, x[i.rs1], y[i.rs1]);
    } else if i.cls.AluReg? {
      RegValueNotConst(i, x[i.rs1], x[i.rs2]);
    }
  }

  lemma RegValueNotConst(i: Insn, a: RVal, b: RVal)
    ensures !ConstTn(RegValue(i, a, b))
  {
    hide NumTop;
    TopNotConst();
  }

  lemma EcallAgree(x: seq<RVal>, y: seq<RVal>, c: Config)
    requires Agree(x, y)
    ensures Agree(EcallRegs(x, c), EcallRegs(y, c))
  {
    hide IsConst, NumTop, Allowed, ScalarIsConst;
    TopNotConst();
    var x', y' := EcallRegs(x, c), EcallRegs(y, c);
    forall r | 0 <= r < 32 && ConstTn(x'[r]) && ConstTn(y'[r])
      ensures x'[r].s.tn == y'[r].s.tn
    {
      assert r != 10 && x'[r] == x[r] && y'[r] == y[r];
    }
  }

  lemma {:induction false} RegsAtAgree(text: seq<u8>, c: Config, x: seq<RVal>, y: seq<RVal>, at: int, k: nat)
    requires Words4(text) && 0 <= at && at + k <= Count(text) && Agree(x, y)
    ensures Agree(RegsAt(text, c, x, at, k), RegsAt(text, c, y, at, k))
  {
    hide Agree, Regs, Ins;
    AgreeLen(x, y);
    if k > 0 {
      RegsAtAgree(text, c, x, y, at, k - 1);
      RegsAgree(Ins(text, at + k - 1), RegsAt(text, c, x, at, k - 1), RegsAt(text, c, y, at, k - 1), c);
    }
  }

  lemma AgreeLen(x: seq<RVal>, y: seq<RVal>)
    requires Agree(x, y)
    ensures |x| == |y| == 32
  {
  }

  // ----- a mark comes from a call -----

  predicate LoopId(id: u32) { id == HELPER_LOOP_BOUND || id == HELPER_LOOP_CB }

  /** In state x, instruction i is a call of a loop helper. */
  predicate LoopCall(i: Insn, x: seq<RVal>)
    requires |x| == 32
  {
    i.cls.Ecall? && IsConstNum(x[17]) && LoopId(ConstId(x[17]))
  }

  lemma {:induction false} PendingComesFromCall(text: seq<u8>, c: Config, x: seq<RVal>, at: int, n: nat) returns (k: nat)
    requires Words4(text) && |x| == 32 && 0 <= at && at + n <= Count(text) && PendingOf(text, c, x, at, n) != 0
    ensures k < n && LoopCall(Ins(text, at + k), RegsAt(text, c, x, at, k))
  {
    hide Ins, RegsAt, Allowed, ScalarIsConst;
    var i, y := Ins(text, at + n - 1), RegsAt(text, c, x, at, n - 1);
    if LoopCall(i, y) {
      k := n - 1;
    } else {
      k := PendingComesFromCall(text, c, x, at, n - 1);
    }
  }

  /** Instruction k of block m calls a loop helper, in the state computed there, and n is
      the block that follows m. */
  ghost predicate AnnouncesAt(text: seq<u8>, c: Config, blocks: seq<Block>, entry: seq<VState>, m: int, n: int, k: nat)
  {
    && 0 <= m < |blocks| == |entry| && InText(text, blocks[m]) && |entry[m].x| == 32 && entry[m].valid
    && blocks[m].succ0 == n && k < Len(blocks[m])
    && LoopCall(Ins(text, At(blocks[m]) + k), RegsAt(text, c, entry[m].x, At(blocks[m]), k))
  }

  ghost predicate Announces(text: seq<u8>, c: Config, blocks: seq<Block>, entry: seq<VState>, m: int, n: int)
  {
    exists k :: AnnouncesAt(text, c, blocks, entry, m, n, k)
  }

  /** A marked header is announced by some block. */
  lemma MarkedIsAnnounced(text: seq<u8>, textOffset: u32, c: Config, G: Cfg, entry: seq<VState>, marks: seq<bool>, n: int)
    returns (m: int)
    requires Accepted(text, textOffset, c, G, entry, marks) && 0 <= n < |marks| && marks[n]
    ensures Announces(text, c, G.blocks, entry, m, n)
  {
    hide ValidCfg, Done, StateBelow, Sane, WfRegs, InText, MarkWitness, InitState;
    assert MarkedBy(text, c, G.blocks, entry, n);
    var b, x :| MarkWitness(text, c, G.blocks, entry, n, b, x);
    m := b;
    WitnessAnnounces(text, textOffset, c, G, entry, marks, n, m, x);
  }

  lemma WitnessAnnounces(text: seq<u8>, textOffset: u32, c: Config, G: Cfg, entry: seq<VState>, marks: seq<bool>, n: int, m: int, x: seq<RVal>)
    requires Accepted(text, textOffset, c, G, entry, marks) && MarkWitness(text, c, G.blocks, entry, n, m, x)
    ensures Announces(text, c, G.blocks, entry, m, n)
  {
    hide Accepted, Agree, LoopCall, WfRegs, RegsBelow, PendingOf, RegsAt, Ins, Done, Sane, RejectsOf, BuiltFrom;
    AcceptedAt(text, textOffset, c, G, entry, marks, m);
    WfLen(x);
    var y, at := entry[m].x, At(G.blocks[m]);
    BelowAgree(x, y);
    var k := PendingComesFromCall(text, c, x, at, Len(G.blocks[m]));
    RegsAtAgree(text, c, x, y, at, k);
    DoneRejects(text, c, G.blocks, entry, m, k);
    AtCall(text, c, G.blocks, entry, m, k);
    CallAgrees(Ins(text, at + k), RegsAt(text, c, x, at, k), RegsAt(text, c, y, at, k), c);
    assert AnnouncesAt(text, c, G.blocks, entry, m, n, k);
  }

  lemma AtCall(text: seq<u8>, c: Config, blocks: seq<Block>, entry: seq<VState>, m: int, k: nat)
    requires 0 <= m < |blocks| == |entry| && InText(text, blocks[m]) && |entry[m].x| == 32 && entry[m].valid
    requires Done(text, c, blocks, entry, m) && k < Len(blocks[m])
    ensures At(blocks[m]) + k < Count(text)
    ensures Rejects(Ins(text, At(blocks[m]) + k), RegsAt(text, c, entry[m].x, At(blocks[m]), k), c) == 0
  {
    hide RejectsOf, EdgeDone, RegsAt, Rejects, Ins;
    RejectsZero(text, c, entry[m].x, At(blocks[m]), Len(blocks[m]), k);
  }

  /** A loop call in one state, not rejected in an agreeing one, is a loop call there. */
  lemma CallAgrees(i: Insn, x: seq<RVal>, y: seq<RVal>, c: Config)
    requires Agree(x, y) && LoopCall(i, x) && Rejects(i, y, c) == 0
    ensures LoopCall(i, y)
  {
    hide Allowed;
    assert ConstTn(x[17]) && ConstTn(y[17]);
  }

  // ----- paths -----

  /** Every path to n passes, before its end, a block that announces n. */
  ghost predicate Guarded(text: seq<u8>, c: Config, blocks: seq<Block>, entry: seq<VState>, n: int)
  {
    forall p :: PathTo(GraphOf(blocks), p, n) ==> PassesAnnouncer(text, c, blocks, entry, p, n)
  }

  ghost predicate PassesAnnouncer(text: seq<u8>, c: Config, blocks: seq<Block>, entry: seq<VState>, p: seq<int>, n: int)
  {
    exists j :: 0 <= j < |p| - 1 && Announces(text, c, blocks, entry, p[j], n)
  }

  /** The graph without the edges that leave blocks announcing n. */
  ghost function Cut(text: seq<u8>, c: Config, blocks: seq<Block>, entry: seq<VState>, n: int): Graph
  {
    Graph(seq(|blocks|, b requires 0 <= b < |blocks| => if Announces(text, c, blocks, entry, b, n) then -1 else blocks[b].succ0),
          seq(|blocks|, b requires 0 <= b < |blocks| => if Announces(text, c, blocks, entry, b, n) then -1 else blocks[b].succ1))
  }

  /** So it is exactly when n cannot be reached once those edges are cut. */
  lemma GuardedIff(text: seq<u8>, c: Config, blocks: seq<Block>, entry: seq<VState>, n: int)
    ensures Guarded(text, c, blocks, entry, n) <==> !Reachable(Cut(text, c, blocks, entry, n), n)
  {
    hide Announces;
    var g, h := GraphOf(blocks), Cut(text, c, blocks, entry, n);
    forall p
      ensures PathTo(h, p, n) <==> PathTo(g, p, n) && !PassesAnnouncer(text, c, blocks, entry, p, n)
    {
      CutPath(text, c, blocks, entry, n, p);
    }
  }

  lemma CutPath(text: seq<u8>, c: Config, blocks: seq<Block>, entry: seq<VState>, n: int, p: seq<int>)
    ensures PathTo(Cut(text, c, blocks, entry, n), p, n) <==>
            PathTo(GraphOf(blocks), p, n) && !PassesAnnouncer(text, c, blocks, entry, p, n)
  {
    hide Announces;
    var g, h := GraphOf(blocks), Cut(text, c, blocks, entry, n);
    assert forall a, b :: h.Edge(a, b) <==> g.Edge(a, b) && !Announces(text, c, blocks, entry, a, n);
    if PathTo(h, p, n) {
      forall j | 0 <= j < |p| - 1
        ensures !Announces(text, c, blocks, entry, p[j], n)
      {
        assert h.Edge(p[j + 1 - 1], p[j + 1]);
      }
    }
    if PathTo(g, p, n) && !PassesAnnouncer(text, c, blocks, entry, p, n) {
      forall j | 0 < j < |p|
        ensures h.Edge(p[j - 1], p[j])
      {
      }
    }
  }

  /** With a single announcing block, exactly when that block is another one and dominates
      the header. */
  lemma GuardedByOneIff(text: seq<u8>, c: Config, blocks: seq<Block>, entry: seq<VState>, n: int, m: int)
    requires Reachable(GraphOf(blocks), n) && forall b :: Announces(text, c, blocks, entry, b, n) <==> b == m
    ensures Guarded(text, c, blocks, entry, n) <==> m != n && Dominates(GraphOf(blocks), m, n)
  {
    hide Announces;
    var g := GraphOf(blocks);
    if Guarded(text, c, blocks, entry, n) {
      forall p | PathTo(g, p, n)
        ensures m in p
      {
        assert PassesAnnouncer(text, c, blocks, entry, p, n);
      }
      var p := FirstVisit(g, n);
      assert PassesAnnouncer(text, c, blocks, entry, p, n);
    }
    if m != n && Dominates(g, m, n) {
      forall p | PathTo(g, p, n)
        ensures PassesAnnouncer(text, c, blocks, entry, p, n)
      {
        var j :| 0 <= j < |p| && p[j] == m;
        assert j != |p| - 1;
      }
    }
  }

  /** A path that meets its end only there. */
  lemma FirstVisit(g: Graph, n: int) returns (p: seq<int>)
    requires Reachable(g, n)
    ensures PathTo(g, p, n) && forall j :: 0 <= j < |p| - 1 ==> p[j] != n
  {
    var q :| PathTo(g, q, n);
    p := Shorten(g, q, n);
  }

  lemma {:induction false} Shorten(g: Graph, q: seq<int>, n: int) returns (p: seq<int>)
    requires PathTo(g, q, n)
    ensures PathTo(g, p, n) && forall j :: 0 <= j < |p| - 1 ==> p[j] != n
    decreases |q|
  {
    if j :| 0 <= j < |q| - 1 && q[j] == n {
      p := Shorten(g, q[..j + 1], n);
    } else {
      p := q;
    }
  }

  // ----- runs -----

  /** The run has gone through the blocks p, entering p[j] at time enter[j], each but the
      last from its first instruction to its last; it is in the last one at time t. */
  ghost predicate Traces(text: seq<u8>, c: Config, env: Env, blocks: seq<Block>, entry: seq<VState>,
                         run: seq<CState>, t: nat, p: seq<int>, enter: seq<nat>)
  {
    && |p| == |enter| > 0 && t < |run| && PathTo(GraphOf(blocks), p, p[|p| - 1])
    && (forall j :: 0 <= j < |p| ==> 0 <= p[j] < |blocks|)
    && (forall j :: 0 <= j < |p| - 1 ==> enter[j] + Len(blocks[p[j]]) <= t)
    && enter[|p| - 1] <= t
    && (forall j, u :: 0 <= j < |p| && enter[j] <= u <= t && (j < |p| - 1 ==> u < enter[j] + Len(blocks[p[j]])) ==>
          InPlace(text, c, env, blocks, entry, run, p[j], enter[j], u))
  }

  /** At time u the run is at the instruction of block b that it reaches u - from steps
      after entering, and covered there. */
  ghost predicate InPlace(text: seq<u8>, c: Config, env: Env, blocks: seq<Block>, entry: seq<VState>,
                          run: seq<CState>, b: int, from: nat, u: nat)
  {
    0 <= b < |blocks| && from <= u < |run| && CoveredIn(text, c, env, blocks, entry, run[u], b) && run[u].off == blocks[b].start + 4 * (u - from)
  }

  lemma {:induction false} RunTraces(text: seq<u8>, textOffset: u32, c: Config, env: Env, G: Cfg, entry: seq<VState>, marks: seq<bool>,
                                     run: seq<CState>, t: nat)
    returns (p: seq<int>, enter: seq<nat>)
    requires Accepted(text, textOffset, c, G, entry, marks) && Matches(env, c)
    requires Words4(text) && AvoidsZero(text, textOffset) && IsRun(text, env, run) && t < |run|
    ensures Traces(text, c, env, G.blocks, entry, run, t, p, enter)
    decreases t
  {
    hide Accepted, CoveredIn, Step, StartRegs, GraphOf, AvoidsZero, Traces;
    if t == 0 {
      StartCovered(text, textOffset, c, env, G, entry, marks);
      p, enter := [0], [0];
      TraceStarts(text, textOffset, c, env, G, entry, marks, run);
    } else {
      p, enter := RunTraces(text, textOffset, c, env, G, entry, marks, run, t - 1);
      TraceEnd(text, c, env, G.blocks, entry, run, t - 1, p, enter);
      var a := p[|p| - 1];
      var b := StepCovered(text, textOffset, c, env, G, entry, marks, run[t - 1], run[t], a);
      CoveredInBlock(text, c, env, G.blocks, entry, run[t], b);
      if b == a && run[t].off == run[t - 1].off + 4 {
        TraceStays(text, c, env, G.blocks, entry, run, t - 1, p, enter);
      } else {
        TraceLeaves(text, c, env, G.blocks, entry, run, t - 1, p, enter, b);
        p, enter := p + [b], enter + [t];
      }
    }
  }

  lemma CoveredInBlock(text: seq<u8>, c: Config, env: Env, blocks: seq<Block>, entry: seq<VState>, s: CState, b: int)
    requires CoveredIn(text, c, env, blocks, entry, s, b)
    ensures 0 <= b < |blocks| == |entry| && InText(text, blocks[b]) && blocks[b].start <= s.off <= blocks[b].end && s.off % 4 == 0
    ensures |entry[b].x| == 32 && entry[b].valid && At(blocks[b]) + (s.off - blocks[b].start) / 4 <= Count(text)
    ensures GammaRegs(env, RegsAt(text, c, entry[b].x, At(blocks[b]), (s.off - blocks[b].start) / 4), s.regs)
  {
    hide GammaRegs, RegsAt;
  }

  lemma TraceStarts(text: seq<u8>, textOffset: u32, c: Config, env: Env, G: Cfg, entry: seq<VState>, marks: seq<bool>, run: seq<CState>)
    requires Accepted(text, textOffset, c, G, entry, marks) && 0 < |run| && run[0] == CState(0, StartRegs(env))
    requires CoveredIn(text, c, env, G.blocks, entry, run[0], 0)
    ensures Traces(text, c, env, G.blocks, entry, run, 0, [0], [0])
  {
    hide GammaRegs, RegsAt, StartRegs, Done, MarkedBy, Sane, StateBelow, BuiltFrom, Dominators.Exact, IsRpo, IsBackEdge;
    FirstBlock(text, textOffset, G.blocks);
    assert PathTo(GraphOf(G.blocks), [0], 0);
  }

  lemma TraceEnd(text: seq<u8>, c: Config, env: Env, blocks: seq<Block>, entry: seq<VState>, run: seq<CState>, t: nat, p: seq<int>, enter: seq<nat>)
    requires Traces(text, c, env, blocks, entry, run, t, p, enter)
    ensures |p| == |enter| > 0 && InPlace(text, c, env, blocks, entry, run, p[|p| - 1], enter[|p| - 1], t)
  {
    hide InPlace, Graph.Edge, GraphOf;
  }

  lemma TraceStays(text: seq<u8>, c: Config, env: Env, blocks: seq<Block>, entry: seq<VState>, run: seq<CState>, t: nat, p: seq<int>, enter: seq<nat>)
    requires Traces(text, c, env, blocks, entry, run, t, p, enter) && t + 1 < |run|
    requires CoveredIn(text, c, env, blocks, entry, run[t + 1], p[|p| - 1]) && run[t + 1].off == run[t].off + 4
    ensures Traces(text, c, env, blocks, entry, run, t + 1, p, enter)
  {
    hide CoveredIn, GraphOf, PathTo;
    TraceEnd(text, c, env, blocks, entry, run, t, p, enter);
    assert InPlace(text, c, env, blocks, entry, run, p[|p| - 1], enter[|p| - 1], t + 1);
    hide InPlace;
    forall j, u | 0 <= j < |p| && enter[j] <= u <= t + 1 && (j < |p| - 1 ==> u < enter[j] + Len(blocks[p[j]]))
      ensures InPlace(text, c, env, blocks, entry, run, p[j], enter[j], u)
    {
    }
  }

  lemma TraceLeaves(text: seq<u8>, c: Config, env: Env, blocks: seq<Block>, entry: seq<VState>, run: seq<CState>, t: nat,
                    p: seq<int>, enter: seq<nat>, b: int)
    requires Traces(text, c, env, blocks, entry, run, t, p, enter) && t + 1 < |run|
    requires CoveredIn(text, c, env, blocks, entry, run[t + 1], b) && HasSucc(blocks, p[|p| - 1], b)
    requires run[t].off == blocks[p[|p| - 1]].end && run[t + 1].off == blocks[b].start
    ensures Traces(text, c, env, blocks, entry, run, t + 1, p + [b], enter + [t + 1])
  {
    hide CoveredIn, GraphOf, PathTo;
    TraceEnd(text, c, env, blocks, entry, run, t, p, enter);
    var a, from := p[|p| - 1], enter[|p| - 1];
    CoveredInBlock(text, c, env, blocks, entry, run[t], a);
    assert from + Len(blocks[a]) == t + 1;
    PathLonger(blocks, p, b);
    var p', enter' := p + [b], enter + [t + 1];
    assert InPlace(text, c, env, blocks, entry, run, b, t + 1, t + 1);
    hide InPlace;
    forall j, u | 0 <= j < |p'| && enter'[j] <= u <= t + 1 && (j < |p'| - 1 ==> u < enter'[j] + Len(blocks[p'[j]]))
      ensures InPlace(text, c, env, blocks, entry, run, p'[j], enter'[j], u)
    {
      if j < |p| { assert InPlace(text, c, env, blocks, entry, run, p[j], enter[j], u); }
    }
  }

  lemma PathLonger(blocks: seq<Block>, p: seq<int>, b: int)
    requires |p| > 0 && PathTo(GraphOf(blocks), p, p[|p| - 1]) && HasSucc(blocks, p[|p| - 1], b)
    ensures PathTo(GraphOf(blocks), p + [b], b)
  {
    PathExtend(GraphOf(blocks), p, p[|p| - 1], b);
  }

  /** At time u the run makes a call whose id, where defined, names a loop helper. */
  predicate CallsLoopHelper(text: seq<u8>, s: CState)
    requires Words4(text)
  {
    && Here(text, s.off) && |s.regs| == 32 && Ins(text, s.off / 4).cls.Ecall?
    && (s.regs[17].Word? ==> LoopId(s.regs[17].w % 0x1_0000_0000))
  }

  lemma CallOfRun(text: seq<u8>, c: Config, env: Env, blocks: seq<Block>, entry: seq<VState>, run: seq<CState>,
                  m: int, n: int, from: nat, k: nat)
    requires AnnouncesAt(text, c, blocks, entry, m, n, k) && InPlace(text, c, env, blocks, entry, run, m, from, from + k)
    ensures Words4(text) && CallsLoopHelper(text, run[from + k])
  {
    hide Ins, RegsAt, ScalarIsConst, ScalarHas;
    var s := run[from + k];
    CoveredInBlock(text, c, env, blocks, entry, s, m);
    assert (s.off - blocks[m].start) / 4 == k && s.off / 4 == At(blocks[m]) + k;
    var x := RegsAt(text, c, entry[m].x, At(blocks[m]), k);
    if s.regs[17].Word? { ConstIdIs(env, x[17], s.regs[17]); }
  }

  /** Every run that enters a guarded header has called a loop helper before. */
  lemma HeaderIsPreceded(text: seq<u8>, textOffset: u32, c: Config, env: Env, G: Cfg, entry: seq<VState>, marks: seq<bool>,
                         run: seq<CState>, t: nat, n: int)
    returns (u: nat)
    requires Accepted(text, textOffset, c, G, entry, marks) && Matches(env, c)
    requires Words4(text) && AvoidsZero(text, textOffset) && IsRun(text, env, run) && t < |run|
    requires 0 <= n < |G.blocks| && run[t].off == G.blocks[n].start && Guarded(text, c, G.blocks, entry, n)
    ensures u < t && CallsLoopHelper(text, run[u])
  {
    hide Accepted, AvoidsZero, IsRun, InPlace, GraphOf, AnnouncesAt, CallsLoopHelper, Matches;
    var p, enter := RunTraces(text, textOffset, c, env, G, entry, marks, run, t);
    TraceEnd(text, c, env, G.blocks, entry, run, t, p, enter);
    EntersHeader(text, textOffset, c, env, G, entry, marks, run, p[|p| - 1], enter[|p| - 1], t, n);
    assert PassesAnnouncer(text, c, G.blocks, entry, p, n);
    var j :| 0 <= j < |p| - 1 && Announces(text, c, G.blocks, entry, p[j], n);
    var k: nat :| AnnouncesAt(text, c, G.blocks, entry, p[j], n, k);
    u := enter[j] + k;
    assert k < Len(G.blocks[p[j]]) by { AnnouncedWithin(text, c, G.blocks, entry, p[j], n, k); }
    assert InPlace(text, c, env, G.blocks, entry, run, p[j], enter[j], u);
    CallOfRun(text, c, env, G.blocks, entry, run, p[j], n, enter[j], k);
  }

  lemma AnnouncedWithin(text: seq<u8>, c: Config, blocks: seq<Block>, entry: seq<VState>, m: int, n: int, k: nat)
    requires AnnouncesAt(text, c, blocks, entry, m, n, k)
    ensures 0 <= m < |blocks| && k < Len(blocks[m])
  {
    hide LoopCall, RegsAt, Ins;
  }

  /** Blocks do not overlap, so being at n's start is being in n. */
  lemma EntersHeader(text: seq<u8>, textOffset: u32, c: Config, env: Env, G: Cfg, entry: seq<VState>, marks: seq<bool>,
                     run: seq<CState>, b: int, from: nat, t: nat, n: int)
    requires Accepted(text, textOffset, c, G, entry, marks) && InPlace(text, c, env, G.blocks, entry, run, b, from, t)
    requires 0 <= n < |G.blocks| && run[t].off == G.blocks[n].start
    ensures b == n
  {
    hide Done, MarkedBy, Sane, StateBelow, Dominators.Exact, IsRpo, IsBackEdge, Shaped, CoveredIn, Tiles, LinkedAt, TargetOk;
    CoveredInBlock(text, c, env, G.blocks, entry, run[t], b);
    if b < n {
      CfgUnique.EndsBefore(text, textOffset, G.blocks, b, n);
    } else if n < b {
      CfgUnique.StartsAscend(text, textOffset, G.blocks, n, b);
    }
  }
}
