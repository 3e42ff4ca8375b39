/** What the gating of back edges achieves: in an accepted program whose retreating
    edges are all recorded back edges, no run can avoid the marked loop headers. */
module LoopGate {
  import opened Words
  import opened Domain
  import opened Transfer
  import opened Graphs
  import opened ControlFlow
  import opened Verify
  import opened Soundness
  import Dominators
  import DfsTree

  /** Every edge that goes back in the reverse postorder was recorded as a back edge. */
  ghost predicate Reducible(G: Cfg)
  {
    forall i, j :: 0 <= j <= i < |G.rpo| && GraphOf(G.blocks).Edge(G.rpo[i], G.rpo[j]) ==> (G.rpo[i], G.rpo[j]) in G.backEdges
  }

  /** Position of a reachable block in the reverse postorder. */
  ghost predicate IsRank(G: Cfg, rank: seq<int>)
  {
    && |rank| == |G.blocks|
    && (forall b :: Reachable(GraphOf(G.blocks), b) ==> RankAt(G, rank, b))
  }

  ghost predicate RankAt(G: Cfg, rank: seq<int>, b: int)
  {
    0 <= b < |rank| && 0 <= rank[b] < |G.rpo| && G.rpo[rank[b]] == b
  }

  lemma RankExists(text: seq<u8>, textOffset: u32, G: Cfg) returns (rank: seq<int>)
    requires ValidCfg(text, textOffset, G)
    ensures IsRank(G, rank)
  {
    hide Dominators.Exact, Dominators.Tree, BuiltFrom, Reachable, IsBackEdge;
    var g := GraphOf(G.blocks);
    var c: Dominators.Ctx :| c.g == g && c.rpo == G.rpo && Dominators.Exact(c, G.idom);
    ExactValid(c, G.idom);
    rank := c.rank;
    forall b | Reachable(g, b)
      ensures RankAt(G, rank, b)
    {
      var i :| 0 <= i < |G.rpo| && G.rpo[i] == b;
      assert c.rank[c.rpo[i]] == i;
    }
  }

  lemma ExactValid(c: Dominators.Ctx, idom: seq<int>)
    requires Dominators.Exact(c, idom)
    ensures c.Valid()
  {
  }

  // ----- back edges and cycles -----

  ghost predicate IsCycle(G: Cfg, cycle: seq<int>)
  {
    && |cycle| > 1 && cycle[0] == cycle[|cycle| - 1] && Reachable(GraphOf(G.blocks), cycle[0])
    && forall k :: 0 < k < |cycle| ==> GraphOf(G.blocks).Edge(cycle[k - 1], cycle[k])
  }

  ghost predicate UsesBackEdge(G: Cfg, cycle: seq<int>)
  {
    exists k :: 0 < k < |cycle| && (cycle[k - 1], cycle[k]) in G.backEdges
  }

  /** A back edge never goes forward in the order: a dominator ranks no later than what
      it dominates. */
  lemma BackEdgesRetreat(text: seq<u8>, textOffset: u32, G: Cfg, i: int, j: int)
    requires ValidCfg(text, textOffset, G) && 0 <= i < |G.rpo| && 0 <= j < |G.rpo| && (G.rpo[i], G.rpo[j]) in G.backEdges
    ensures j <= i
  {
    hide BuiltFrom, Reachable, Dominates, Dominators.Tree, Dominators.Anc, Reverse, Postorder;
    var g := GraphOf(G.blocks);
    var c: Dominators.Ctx :| c.g == g && c.rpo == G.rpo && Dominators.Exact(c, G.idom);
    var a, b := G.rpo[i], G.rpo[j];
    assert a in G.rpo;
    assert IsBackEdge(g, a, b) && Reachable(g, a);
    assert Dominators.Anc(c, G.idom, b, a);
    Dominators.TreeBasics(c, G.idom);
    Dominators.AncFacts(c, G.idom, b, a);
  }

  /** An edge of reachable blocks that is no back edge goes forward, if the graph is
      reducible. */
  lemma OtherEdgesAdvance(text: seq<u8>, textOffset: u32, G: Cfg, rank: seq<int>, a: int, b: int)
    requires ValidCfg(text, textOffset, G) && Reducible(G) && IsRank(G, rank)
    requires Reachable(GraphOf(G.blocks), a) && GraphOf(G.blocks).Edge(a, b) && (a, b) !in G.backEdges
    ensures Reachable(GraphOf(G.blocks), b) && RankAt(G, rank, a) && RankAt(G, rank, b) && rank[a] < rank[b]
  {
    hide ValidCfg, Reachable, GraphOf;
    ReachableStep(GraphOf(G.blocks), a, b);
    assert RankAt(G, rank, a) && RankAt(G, rank, b);
    assert G.rpo[rank[a]] == a && G.rpo[rank[b]] == b;
  }

  lemma {:induction false} PathClimbs(text: seq<u8>, textOffset: u32, G: Cfg, rank: seq<int>, p: seq<int>)
    requires ValidCfg(text, textOffset, G) && Reducible(G) && IsRank(G, rank)
    requires 0 < |p| && Reachable(GraphOf(G.blocks), p[0]) && !UsesBackEdge(G, p)
    requires forall k :: 0 < k < |p| ==> GraphOf(G.blocks).Edge(p[k - 1], p[k])
    ensures Reachable(GraphOf(G.blocks), p[|p| - 1])
    ensures RankAt(G, rank, p[0]) && RankAt(G, rank, p[|p| - 1]) && rank[p[|p| - 1]] >= rank[p[0]] + |p| - 1
    decreases |p|
  {
    hide ValidCfg, Reducible, Reachable, GraphOf;
    if |p| == 1 {
      assert RankAt(G, rank, p[0]);
    } else {
      var q := p[..|p| - 1];
      assert !UsesBackEdge(G, q) by {
        forall k | 0 < k < |q| ensures (q[k - 1], q[k]) !in G.backEdges { assert (p[k - 1], p[k]) !in G.backEdges; }
      }
      PathClimbs(text, textOffset, G, rank, q);
      assert (p[|p| - 2], p[|p| - 1]) !in G.backEdges;
      OtherEdgesAdvance(text, textOffset, G, rank, q[|q| - 1], p[|p| - 1]);
    }
  }

  /** A retreating edge closes a cycle whose other edges all go forward. */
  lemma RetreatingCycle(text: seq<u8>, textOffset: u32, G: Cfg, i: int, j: int) returns (cycle: seq<int>)
    requires ValidCfg(text, textOffset, G) && 0 <= j <= i < |G.rpo| && GraphOf(G.blocks).Edge(G.rpo[i], G.rpo[j])
    ensures IsCycle(G, cycle)
    ensures cycle[|cycle| - 2] == G.rpo[i] && cycle[|cycle| - 1] == G.rpo[j]
    ensures forall k :: 0 < k < |cycle| - 1 ==> (cycle[k - 1], cycle[k]) !in G.backEdges
  {
    hide BuiltFrom, Reachable, Dominators.Exact, IsBackEdge, Postorder, GraphOf;
    var g, n := GraphOf(G.blocks), |G.rpo|;
    var s := Postorder(g);
    assert forall k :: 0 <= k < n ==> G.rpo[k] == s[n - 1 - k];
    var q := DfsTree.RetreatingCloses(g, n - 1 - i, n - 1 - j);
    cycle := seq(|q|, k requires 0 <= k < |q| => s[q[k]]) + [G.rpo[j]];
    assert G.rpo[j] in G.rpo;
    forall k | 0 < k < |cycle| - 1
      ensures (cycle[k - 1], cycle[k]) !in G.backEdges
    {
      var a, b := n - 1 - q[k - 1], n - 1 - q[k];
      assert cycle[k - 1] == G.rpo[a] && cycle[k] == G.rpo[b] && a < b;
      if (cycle[k - 1], cycle[k]) in G.backEdges { BackEdgesRetreat(text, textOffset, G, a, b); }
    }
  }

  /** The exact condition under which the gate sees every loop: all retreating edges are
      recorded back edges exactly when every cycle of reachable blocks uses one. */
  lemma ReducibleIff(text: seq<u8>, textOffset: u32, G: Cfg)
    requires ValidCfg(text, textOffset, G)
    ensures Reducible(G) <==> forall cycle :: IsCycle(G, cycle) ==> UsesBackEdge(G, cycle)
  {
    hide ValidCfg, Reachable, GraphOf, IsRank;
    if Reducible(G) {
      var rank := RankExists(text, textOffset, G);
      forall cycle | IsCycle(G, cycle)
        ensures UsesBackEdge(G, cycle)
      {
        if !UsesBackEdge(G, cycle) { PathClimbs(text, textOffset, G, rank, cycle); }
      }
    }
    if forall cycle :: IsCycle(G, cycle) ==> UsesBackEdge(G, cycle) {
      forall i, j | 0 <= j <= i < |G.rpo| && GraphOf(G.blocks).Edge(G.rpo[i], G.rpo[j])
        ensures (G.rpo[i], G.rpo[j]) in G.backEdges
      {
        var cycle := RetreatingCycle(text, textOffset, G, i, j);
        var k :| 0 < k < |cycle| && (cycle[k - 1], cycle[k]) in G.backEdges;
      }
    }
  }

  // ----- acceptance -----

  /** An edge into an unmarked block goes forward. */
  lemma UnmarkedGoesForward(text: seq<u8>, textOffset: u32, c: Config, G: Cfg, entry: seq<VState>, marks: seq<bool>,
                            rank: seq<int>, a: int, b: int)
    requires Accepted(text, textOffset, c, G, entry, marks) && Reducible(G) && IsRank(G, rank)
    requires Reachable(GraphOf(G.blocks), a) && GraphOf(G.blocks).Edge(a, b)
    ensures RankAt(G, rank, a) && RankAt(G, rank, b) && 0 <= b < |marks| == |G.blocks|
    ensures !marks[b] ==> rank[a] < rank[b]
  {
    hide Reachable, ValidCfg, Done, MarkedBy, StateBelow, Sane, GraphOf, WfState, InText;
    ReachableStep(GraphOf(G.blocks), a, b);
    assert RankAt(G, rank, a) && RankAt(G, rank, b);
    if rank[b] <= rank[a] { assert (G.rpo[rank[a]], G.rpo[rank[b]]) in G.backEdges; }
  }

  /** In an accepted program that is reducible, every cycle of reachable blocks contains a
      marked header. */
  lemma CyclesAreGated(text: seq<u8>, textOffset: u32, c: Config, G: Cfg, entry: seq<VState>, marks: seq<bool>, cycle: seq<int>)
    requires Accepted(text, textOffset, c, G, entry, marks) && Reducible(G) && IsCycle(G, cycle)
    ensures exists k :: 0 < k < |cycle| && 0 <= cycle[k] < |marks| && marks[cycle[k]]
  {
    hide Reducible, IsCycle, Done, MarkedBy, StateBelow, Sane, ValidCfg;
    ReducibleIff(text, textOffset, G);
    var k :| 0 < k < |cycle| && (cycle[k - 1], cycle[k]) in G.backEdges;
    assert marks[cycle[k]];
  }

  // ----- runs -----

  ghost predicate AtMarkedHeader(G: Cfg, marks: seq<bool>, off: int)
  {
    exists b :: 0 <= b < |marks| == |G.blocks| && marks[b] && G.blocks[b].start == off
  }

  /** Progress of a run that stays off the marked headers: through the order of blocks
      and, within a block, through its instructions. */
  function Progress(text: seq<u8>, rank: int, off: int): int { rank * Count(text) + off / 4 }

  lemma ProgressStep(text: seq<u8>, r: int, off: int, r': int, off': int)
    requires Words4(text) && 0 <= off < |text| && 0 <= off' < |text|
    requires (r' == r && off' == off + 4) || r < r'
    ensures Progress(text, r', off') >= Progress(text, r, off) + 1
  {
    var n := Count(text);
    assert |text| == 4 * n;
    if r < r' {
      MulLe(r + 1, r', n);
      assert (r + 1) * n == r * n + n;
      assert 0 <= off / 4 < n && 0 <= off' / 4;
    }
  }

  lemma ProgressBound(text: seq<u8>, r: int, n: int, off: int)
    requires Words4(text) && 0 <= r < n && 0 <= off < |text|
    ensures 0 <= Progress(text, r, off) < n * Count(text)
  {
    MulLe(0, r, Count(text));
    MulLe(r + 1, n, Count(text));
    assert (r + 1) * Count(text) == r * Count(text) + Count(text);
  }

  lemma MulLe(a: int, b: int, n: nat)
    requires a <= b
    ensures a * n <= b * n
  {
    MulSign(b - a, n);
    assert (b - a) * n == b * n - a * n;
  }

  lemma {:induction false} RunProgress(text: seq<u8>, textOffset: u32, c: Config, env: Env, G: Cfg, entry: seq<VState>, marks: seq<bool>,
                                       rank: seq<int>, run: seq<CState>, t: nat, n: nat)
    returns (b: int, b': int)
    requires Accepted(text, textOffset, c, G, entry, marks) && Matches(env, c)
    requires Words4(text) && AvoidsZero(text, textOffset) && IsRun(text, env, run) && t + n < |run| && Reducible(G) && IsRank(G, rank)
    requires forall k :: t < k <= t + n ==> !AtMarkedHeader(G, marks, run[k].off)
    ensures CoveredIn(text, c, env, G.blocks, entry, run[t + n], b') && Reachable(GraphOf(G.blocks), b')
    ensures RankAt(G, rank, b) && RankAt(G, rank, b') && 0 <= run[t].off < |text| && 0 <= run[t + n].off < |text|
    ensures Progress(text, rank[b'], run[t + n].off) >= Progress(text, rank[b], run[t].off) + n
    decreases n
  {
    hide Accepted, Reducible, Reachable, GraphOf, Progress, Step, CoveredIn, AtMarkedHeader, AvoidsZero;
    if n == 0 {
      b := RunCovered(text, textOffset, c, env, G, entry, marks, run, t);
      b' := b;
      CoveredRange(text, c, env, G.blocks, entry, run[t], b);
      assert RankAt(G, rank, b);
    } else {
      var a;
      b, a := RunProgress(text, textOffset, c, env, G, entry, marks, rank, run, t, n - 1);
      b' := StepCovered(text, textOffset, c, env, G, entry, marks, run[t + n - 1], run[t + n], a);
      CoveredRange(text, c, env, G.blocks, entry, run[t + n], b');
      if !(b' == a && run[t + n].off == run[t + n - 1].off + 4) {
        SuccReachable(G.blocks, a, b');
        UnmarkedGoesForward(text, textOffset, c, G, entry, marks, rank, a, b');
        NotMarked(G, marks, b', run[t + n].off);
      }
      ProgressStep(text, rank[a], run[t + n - 1].off, rank[b'], run[t + n].off);
    }
  }

  lemma NotMarked(G: Cfg, marks: seq<bool>, b: int, off: int)
    requires !AtMarkedHeader(G, marks, off) && 0 <= b < |marks| == |G.blocks| && G.blocks[b].start == off
    ensures !marks[b]
  {
  }

  lemma CoveredRange(text: seq<u8>, c: Config, env: Env, blocks: seq<Block>, entry: seq<VState>, s: CState, b: int)
    requires CoveredIn(text, c, env, blocks, entry, s, b)
    ensures 0 <= s.off < |text| && 0 <= b < |blocks|
  {
    hide GammaRegs, RegsAt;
  }

  /** Among any |rpo| * Count(text) consecutive steps of a run, one enters a marked
      header: a run that never ends meets marked headers again and again. */
  lemma RunsMeetMarkedHeaders(text: seq<u8>, textOffset: u32, c: Config, env: Env, G: Cfg, entry: seq<VState>, marks: seq<bool>,
                              run: seq<CState>, t: nat)
    requires Accepted(text, textOffset, c, G, entry, marks) && Matches(env, c)
    requires Words4(text) && AvoidsZero(text, textOffset) && IsRun(text, env, run) && Reducible(G)
    requires t + |G.rpo| * Count(text) < |run|
    ensures exists k :: t < k <= t + |G.rpo| * Count(text) && AtMarkedHeader(G, marks, run[k].off)
  {
    hide Reducible, Reachable, GraphOf, Done, MarkedBy, StateBelow, Sane, ValidCfg, IsRank, CoveredIn, Step, AtMarkedHeader, IsRun, Shaped, Progress, AvoidsZero;
    var n := |G.rpo| * Count(text);
    if forall k :: t < k <= t + n ==> !AtMarkedHeader(G, marks, run[k].off) {
      var rank := RankExists(text, textOffset, G);
      var b, b' := RunProgress(text, textOffset, c, env, G, entry, marks, rank, run, t, n);
      ProgressBound(text, rank[b], |G.rpo|, run[t].off);
      ProgressBound(text, rank[b'], |G.rpo|, run[t + n].off);
    }
  }
}
