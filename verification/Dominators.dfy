/** The iterative dominator computation of Cooper, Harvey and Kennedy as written in
    tools/merlin-verifier/cfg.c: it terminates on every graph, and it is exact.

    Throughout, `idom` maps a block to its current candidate (-1 while undefined) and
    the chain of x is x, idom[x], idom[idom[x]], ... up to the entry. */
module Dominators {
  import opened Graphs

  /** A graph with a reverse postorder and the position of each block in it. */
  datatype Ctx = Ctx(g: Graph, rpo: seq<int>, rank: seq<int>) {
    ghost predicate Valid() {
      && g.Valid() && IsRpo(g, rpo) && |rank| == |g.succ0|
      && forall i :: 0 <= i < |rpo| ==> 0 <= rpo[i] < |rank| && rank[rpo[i]] == i
    }
  }

  predicate Def(idom: seq<int>, x: int) { 0 <= x < |idom| && 0 <= idom[x] }

  /** Every defined block points to a defined block earlier in the order; the entry to itself. */
  ghost predicate Tree(c: Ctx, idom: seq<int>)
  {
    && c.Valid() && |idom| == |c.rank| && idom[0] == 0
    && forall x {:trigger TreeAt(c, idom, x)} :: Def(idom, x) ==> TreeAt(c, idom, x)
  }

  ghost predicate TreeAt(c: Ctx, idom: seq<int>, x: int)
    requires |idom| == |c.rank| && Def(idom, x)
  {
    && x in c.rpo && Def(idom, idom[x])
    && 0 <= c.rank[x] < |c.rpo| && c.rpo[c.rank[x]] == x
    && (x != 0 ==> 0 <= c.rank[idom[x]] < c.rank[x])
  }

  /** d is on the chain of x. */
  ghost predicate Anc(c: Ctx, idom: seq<int>, d: int, x: int)
    requires Tree(c, idom) && Def(idom, x)
    decreases c.rank[x]
  {
    assert TreeAt(c, idom, x);
    assert x != 0 ==> TreeAt(c, idom, idom[x]);
    d == x || (x != 0 && Anc(c, idom, d, idom[x]))
  }

  lemma TreeFacts(c: Ctx, idom: seq<int>, x: int)
    requires Tree(c, idom) && Def(idom, x)
    ensures x in c.rpo && Def(idom, idom[x]) && 0 <= x < |c.rank| == |idom|
    ensures 0 <= c.rank[x] < |c.rpo| && c.rpo[c.rank[x]] == x
    ensures x != 0 ==> 0 <= c.rank[idom[x]] < c.rank[x]
    ensures Def(idom, 0) && 0 < |c.rpo| && c.rpo[0] == 0 && c.rank[0] == 0
    ensures c.rank[x] == 0 ==> x == 0
  {
    assert TreeAt(c, idom, x);
    assert c.rank[c.rpo[0]] == 0;
  }

  lemma {:induction false} AncFacts(c: Ctx, idom: seq<int>, d: int, x: int)
    requires Tree(c, idom) && Def(idom, x) && Anc(c, idom, d, x)
    ensures Def(idom, d) && c.rank[d] <= c.rank[x]
    ensures c.rank[d] == c.rank[x] ==> d == x
    decreases c.rank[x]
  {
    hide Tree;
    TreeFacts(c, idom, x);
    if d != x { AncFacts(c, idom, d, idom[x]); }
  }

  lemma {:induction false} AncTrans(c: Ctx, idom: seq<int>, a: int, b: int, x: int)
    requires Tree(c, idom) && Def(idom, x) && Def(idom, b)
    requires Anc(c, idom, a, b) && Anc(c, idom, b, x)
    ensures Anc(c, idom, a, x)
    decreases c.rank[x]
  {
    hide Tree;
    TreeFacts(c, idom, x);
    if b != x { AncTrans(c, idom, a, b, idom[x]); }
  }

  // ----- nearest common ancestors -----

  ghost predicate IsNca(c: Ctx, idom: seq<int>, r: int, b1: int, b2: int)
    requires Tree(c, idom) && Def(idom, b1) && Def(idom, b2)
  {
    && Def(idom, r) && Anc(c, idom, r, b1) && Anc(c, idom, r, b2)
    && forall d :: Anc(c, idom, d, b1) && Anc(c, idom, d, b2) ==> Anc(c, idom, d, r)
  }

  /** While x ranks above y, the common ancestors of x and y are those of idom[x] and y. */
  lemma StepUp(c: Ctx, idom: seq<int>, x: int, y: int, d: int)
    requires Tree(c, idom) && Def(idom, x) && Def(idom, y) && c.rank[x] > c.rank[y]
    ensures x != 0 && Def(idom, idom[x]) && 0 <= c.rank[idom[x]] < c.rank[x]
    ensures Anc(c, idom, d, x) && Anc(c, idom, d, y) ==> Anc(c, idom, d, idom[x])
  {
    hide Tree;
    TreeFacts(c, idom, x);
    TreeFacts(c, idom, y);
    if Anc(c, idom, d, x) && Anc(c, idom, d, y) { AncFacts(c, idom, d, y); }
  }

  /** Climbing from the deeper of two blocks until they meet finds the nearest common ancestor. */
  method Intersect(ghost c: Ctx, rankOf: array<int>, idom: array<int>, b1: int, b2: int) returns (r: int)
    requires rankOf[..] == c.rank && Tree(c, idom[..]) && Def(idom[..], b1) && Def(idom[..], b2)
    ensures IsNca(c, idom[..], r, b1, b2)
  {
    hide Tree, Anc, TreeAt;
    ghost var t := idom[..];
    var x, y := b1, b2;
    AncSelf(c, t, x); AncSelf(c, t, y);
    TreeFacts(c, t, x); TreeFacts(c, t, y);
    while x != y
      invariant Climb(c, t, x, y, b1, b2)
      decreases c.rank[x] + c.rank[y]
    {
      ghost var m := c.rank[x] + c.rank[y];
      TreeFacts(c, t, x); TreeFacts(c, t, y);
      while rankOf[x] > rankOf[y]
        invariant Climb(c, t, x, y, b1, b2) && c.rank[x] + c.rank[y] <= m
        invariant c.rank[x] + c.rank[y] == m ==> c.rank[x] != c.rank[y]
        decreases c.rank[x]
      {
        ClimbStep(c, t, x, y, b1, b2);
        x := idom[x];
      }
      while rankOf[y] > rankOf[x]
        invariant Climb(c, t, x, y, b1, b2) && c.rank[x] + c.rank[y] <= m
        invariant c.rank[x] + c.rank[y] == m ==> c.rank[x] < c.rank[y]
        decreases c.rank[y]
      {
        ClimbSwap(c, t, x, y, b1, b2);
        ClimbStep(c, t, y, x, b2, b1);
        y := idom[y];
        ClimbSwap(c, t, y, x, b2, b1);
      }
    }
    ClimbDone(c, t, x, b1, b2);
    r := x;
  }

  lemma AncSelf(c: Ctx, idom: seq<int>, x: int)
    requires Tree(c, idom) && Def(idom, x)
    ensures Anc(c, idom, x, x)
  {
  }

  /** x and y are on the chains of b1 and b2, below every common ancestor of b1 and b2. */
  ghost predicate Climb(c: Ctx, idom: seq<int>, x: int, y: int, b1: int, b2: int)
    requires Tree(c, idom) && Def(idom, b1) && Def(idom, b2)
  {
    && Def(idom, x) && Def(idom, y) && |c.rank| == |idom| && 0 <= c.rank[x] && 0 <= c.rank[y]
    && Anc(c, idom, x, b1) && Anc(c, idom, y, b2)
    && forall d :: Anc(c, idom, d, b1) && Anc(c, idom, d, b2) ==> Anc(c, idom, d, x) && Anc(c, idom, d, y)
  }

  lemma ClimbStep(c: Ctx, idom: seq<int>, x: int, y: int, b1: int, b2: int)
    requires Tree(c, idom) && Def(idom, b1) && Def(idom, b2)
    requires Climb(c, idom, x, y, b1, b2) && c.rank[x] > c.rank[y]
    ensures Def(idom, idom[x]) && 0 <= c.rank[idom[x]] < c.rank[x]
    ensures Climb(c, idom, idom[x], y, b1, b2)
  {
    hide Tree, TreeAt;
    TreeFacts(c, idom, x);
    StepUp(c, idom, x, y, x);
    assert Anc(c, idom, idom[x], x) by { AncSelf(c, idom, idom[x]); }
    AncTrans(c, idom, idom[x], x, b1);
    forall d | Anc(c, idom, d, b1) && Anc(c, idom, d, b2)
      ensures Anc(c, idom, d, idom[x])
    {
      StepUp(c, idom, x, y, d);
    }
  }

  lemma ClimbSwap(c: Ctx, idom: seq<int>, x: int, y: int, b1: int, b2: int)
    requires Tree(c, idom) && Def(idom, b1) && Def(idom, b2)
    requires Climb(c, idom, x, y, b1, b2)
    ensures Climb(c, idom, y, x, b2, b1)
  {
    hide Tree, TreeAt, Anc;
  }

  lemma ClimbDone(c: Ctx, idom: seq<int>, x: int, b1: int, b2: int)
    requires Tree(c, idom) && Def(idom, b1) && Def(idom, b2)
    requires Climb(c, idom, x, x, b1, b2)
    ensures IsNca(c, idom, x, b1, b2)
  {
    hide Tree, TreeAt, Anc;
  }

  // ----- one evaluation of a block: the meet of its defined predecessors -----

  predicate DefPred(c: Ctx, idom: seq<int>, j: int, b: int) { Def(idom, j) && c.g.Edge(j, b) }

  /** m is the nearest common ancestor of all predecessors of b that are defined,
      of which there is at least one. */
  ghost predicate Meet(c: Ctx, idom: seq<int>, b: int, m: int)
    requires Tree(c, idom)
  {
    && Def(idom, m)
    && (exists j :: DefPred(c, idom, j, b))
    && (forall j :: DefPred(c, idom, j, b) ==> Anc(c, idom, m, j))
    && (forall d :: CommonAnc(c, idom, b, d) ==> Anc(c, idom, d, m))
  }

  /** d is on the chain of every defined predecessor of b. */
  ghost predicate CommonAnc(c: Ctx, idom: seq<int>, b: int, d: int)
    requires Tree(c, idom)
  {
    forall j :: DefPred(c, idom, j, b) ==> Anc(c, idom, d, j)
  }

  /** The fold over the predecessors met so far. */
  ghost predicate Folded(c: Ctx, idom: seq<int>, met: set<int>, m: int)
    requires Tree(c, idom) && forall j :: j in met ==> Def(idom, j)
  {
    && (met == {} <==> m == -1)
    && (met != {} ==>
          && Def(idom, m)
          && (forall j :: j in met ==> Anc(c, idom, m, j))
          && (forall d :: (forall j :: j in met ==> Anc(c, idom, d, j)) ==> Anc(c, idom, d, m)))
  }

  lemma FoldOne(c: Ctx, idom: seq<int>, met: set<int>, m: int, j: int, r: int)
    requires Tree(c, idom) && (forall k :: k in met ==> Def(idom, k)) && Def(idom, j)
    requires Folded(c, idom, met, m)
    requires m == -1 ==> r == j
    requires m != -1 ==> Def(idom, m) && IsNca(c, idom, r, j, m)
    ensures Folded(c, idom, met + {j}, r)
  {
    hide Tree, TreeAt, Anc;
    if m == -1 {
      AncSelf(c, idom, j);
    } else {
      forall k | k in met + {j}
        ensures Anc(c, idom, r, k)
      {
        if k != j { AncTrans(c, idom, r, m, k); }
      }
    }
  }

  lemma FoldedMeet(c: Ctx, idom: seq<int>, met: set<int>, b: int, m: int)
    requires Tree(c, idom) && (forall j :: j in met ==> Def(idom, j))
    requires forall j :: j in met <==> DefPred(c, idom, j, b)
    requires Folded(c, idom, met, m)
    ensures m == -1 <==> !exists j :: DefPred(c, idom, j, b)
    ensures m != -1 ==> Meet(c, idom, b, m)
  {
    hide Tree, TreeAt, Anc;
    if !exists j :: DefPred(c, idom, j, b) {
      assert forall j :: j !in met;
      assert met == {};
    }
  }

  method NewIdom(g: Graph, ghost c: Ctx, rankOf: array<int>, idom: array<int>, b: int) returns (m: int)
    requires c.g == g && rankOf[..] == c.rank && Tree(c, idom[..]) && 0 <= b < idom.Length
    ensures m == -1 <==> !exists j :: DefPred(c, idom[..], j, b)
    ensures m != -1 ==> Meet(c, idom[..], b, m)
  {
    hide Tree, TreeAt, Anc, IsNca, Folded;
    ghost var t := idom[..];
    TreeBasics(c, t);
    m := -1;
    ghost var met: set<int> := {};
    FoldNone(c, t);
    for j := 0 to idom.Length
      invariant forall k :: k in met <==> DefPred(c, t, k, b) && k < j
      invariant Folded(c, t, met, m)
    {
      m, met := MeetSlot(c, rankOf, idom, g.succ0[j], j, b, met, m);
      m, met := MeetSlot(c, rankOf, idom, g.succ1[j], j, b, met, m);
    }
    FoldedMeet(c, t, met, b, m);
  }

  /** One successor slot n of block j: folds j in if the slot leads to b and j is defined. */
  method MeetSlot(ghost c: Ctx, rankOf: array<int>, idom: array<int>, n: int, j: int, b: int, ghost met: set<int>, m: int)
    returns (m': int, ghost met': set<int>)
    requires rankOf[..] == c.rank && Tree(c, idom[..]) && 0 <= j < idom.Length
    requires (forall k :: k in met ==> Def(idom[..], k)) && Folded(c, idom[..], met, m)
    ensures met' == if n == b && Def(idom[..], j) then met + {j} else met
    ensures (forall k :: k in met' ==> Def(idom[..], k)) && Folded(c, idom[..], met', m')
  {
    hide Tree, TreeAt, Anc, IsNca, Folded;
    ghost var t := idom[..];
    m', met' := m, met;
    if n == b && idom[j] >= 0 {
      m' := j;
      FoldedDef(c, t, met, m);
      if m >= 0 { m' := Intersect(c, rankOf, idom, j, m); }
      FoldOne(c, t, met, m, j, m');
      met' := met + {j};
    }
  }

  lemma FoldedDef(c: Ctx, idom: seq<int>, met: set<int>, m: int)
    requires Tree(c, idom) && (forall j :: j in met ==> Def(idom, j)) && Folded(c, idom, met, m)
    ensures m == -1 || Def(idom, m)
  {
    hide Tree, Anc;
  }

  lemma TreeBasics(c: Ctx, idom: seq<int>)
    requires Tree(c, idom)
    ensures c.g.Valid() && |idom| == |c.rank| == |c.g.succ0| && 0 < |idom| && idom[0] == 0
    ensures 0 < |c.rpo| && c.rpo[0] == 0 && c.rank[0] == 0
    ensures forall i :: 0 <= i < |c.rpo| ==> 0 <= c.rpo[i] < |c.rank| && c.rank[c.rpo[i]] == i
    ensures forall i :: 0 < i < |c.rpo| ==> HasEarlierPred(c.g, c.rpo, i)
    ensures forall x :: x in c.rpo <==> Reachable(c.g, x)
  {
  }

  lemma FoldNone(c: Ctx, idom: seq<int>)
    requires Tree(c, idom)
    ensures Folded(c, idom, {}, -1)
  {
  }

  // ----- what an update does to the chains -----

  ghost predicate IsUpdate(c: Ctx, idom: seq<int>, b: int, m: int)
  {
    && Tree(c, idom) && b in c.rpo && 0 < b < |idom| && Def(idom, m)
    && c.rank[m] < c.rank[b]
  }

  lemma UpdateTree(c: Ctx, idom: seq<int>, b: int, m: int)
    requires IsUpdate(c, idom, b, m)
    ensures Tree(c, idom[b := m])
  {
    var idom' := idom[b := m];
    var i :| 0 <= i < |c.rpo| && c.rpo[i] == b;
    assert c.rank[c.rpo[i]] == i;
    forall x | Def(idom', x)
      ensures TreeAt(c, idom', x)
    {
      assert TreeAt(c, idom, m);
      if x != b { assert TreeAt(c, idom, x); }
    }
  }

  /** Below b nothing changes; from b on, the chain continues with m's. */
  lemma {:induction false} UpdateAnc(c: Ctx, idom: seq<int>, b: int, m: int, d: int, x: int)
    requires IsUpdate(c, idom, b, m) && Tree(c, idom[b := m]) && Def(idom, x)
    ensures Def(idom[b := m], x)
    ensures !Anc(c, idom, b, x) ==> (Anc(c, idom[b := m], d, x) <==> Anc(c, idom, d, x))
    ensures Anc(c, idom, b, x) && 0 <= d < |c.rank| ==>
              (Anc(c, idom[b := m], d, x) <==> (Anc(c, idom, d, x) && c.rank[d] >= c.rank[b]) || Anc(c, idom, d, m))
    decreases c.rank[x]
  {
    hide Tree, TreeAt;
    var idom' := idom[b := m];
    TreeFacts(c, idom, x);
    TreeFacts(c, idom', x);
    TreeFacts(c, idom, m);
    if x == b {
      AncSelf(c, idom, b);
      BelowUnchanged(c, idom, b, m, d, m);
      if Anc(c, idom, d, b) && d != b { AncFacts(c, idom, d, idom[b]); }
    } else if x != 0 {
      UpdateAnc(c, idom, b, m, d, idom[x]);
      if Anc(c, idom, b, x) {
        AncFacts(c, idom, b, idom[x]);
      }
    }
  }

  /** Chains that start before b do not meet b. */
  lemma {:induction false} BelowUnchanged(c: Ctx, idom: seq<int>, b: int, m: int, d: int, x: int)
    requires IsUpdate(c, idom, b, m) && Tree(c, idom[b := m]) && Def(idom, x) && c.rank[x] < c.rank[b]
    ensures Def(idom[b := m], x)
    ensures Anc(c, idom[b := m], d, x) <==> Anc(c, idom, d, x)
    decreases c.rank[x]
  {
    hide Tree, TreeAt;
    var idom' := idom[b := m];
    TreeFacts(c, idom, x);
    TreeFacts(c, idom', x);
    if x != 0 { BelowUnchanged(c, idom, b, m, d, idom[x]); }
  }

  /** The new chain of b itself. */
  lemma UpdateSelf(c: Ctx, idom: seq<int>, b: int, m: int, d: int)
    requires IsUpdate(c, idom, b, m) && Tree(c, idom[b := m])
    ensures Def(idom[b := m], b)
    ensures Anc(c, idom[b := m], d, b) <==> d == b || Anc(c, idom, d, m)
  {
    hide Tree, TreeAt;
    TreeFacts(c, idom[b := m], b);
    BelowUnchanged(c, idom, b, m, d, m);
  }

  // ----- soundness of the chains: they never lose a dominator -----

  /** Every dominator of a defined block is on its chain. */
  ghost predicate Covers(c: Ctx, idom: seq<int>)
    requires Tree(c, idom)
  {
    forall v, x :: Def(idom, x) && Dominates(c.g, v, x) ==> Anc(c, idom, v, x)
  }

  /** A dominator of x that ranks before idom[x] dominates idom[x]: no path can
      bypass it between the two. */
  ghost predicate NoBypass(c: Ctx, idom: seq<int>)
    requires Tree(c, idom)
  {
    forall v, x :: NoBypassAt(c, idom, v, x)
  }

  ghost predicate NoBypassAt(c: Ctx, idom: seq<int>, v: int, x: int)
    requires Tree(c, idom)
  {
    (&& Def(idom, x) && 0 <= v < |c.rank| && idom[x] < |c.rank| && c.rank[v] < c.rank[idom[x]]
     && Dominates(c.g, v, x))
    ==> Dominates(c.g, v, idom[x])
  }

  lemma {:induction false} DominatorClimbs(c: Ctx, idom: seq<int>, v: int, b: int, x: int)
    requires Tree(c, idom) && NoBypass(c, idom) && Def(idom, x) && Def(idom, b) && Anc(c, idom, b, x)
    requires 0 <= v < |c.rank| && c.rank[v] < c.rank[b] && Dominates(c.g, v, x)
    ensures Dominates(c.g, v, b)
    decreases c.rank[x]
  {
    hide Tree, TreeAt, Dominates;
    TreeFacts(c, idom, x);
    if x != b {
      AncFacts(c, idom, b, idom[x]);
      assert NoBypassAt(c, idom, v, x);
      DominatorClimbs(c, idom, v, b, idom[x]);
    }
  }

  /** A dominator of b other than b is on the chain of the meet of b's predecessors. */
  lemma MeetCovers(c: Ctx, idom: seq<int>, b: int, m: int, v: int)
    requires Tree(c, idom) && Covers(c, idom) && Meet(c, idom, b, m)
    requires Dominates(c.g, v, b) && v != b
    ensures Anc(c, idom, v, m)
  {
    hide Tree, TreeAt, Anc, Dominates;
    forall j | DefPred(c, idom, j, b)
      ensures Anc(c, idom, v, j)
    {
      DominatesPred(c.g, v, j, b);
    }
    assert CommonAnc(c, idom, b, v);
  }

  lemma UpdateCovers(c: Ctx, idom: seq<int>, b: int, m: int)
    requires IsUpdate(c, idom, b, m) && Tree(c, idom[b := m])
    requires Covers(c, idom) && NoBypass(c, idom) && Meet(c, idom, b, m)
    ensures Covers(c, idom[b := m])
  {
    hide Tree, TreeAt, Anc, Dominates, Meet, NoBypass;
    var idom' := idom[b := m];
    TreeBasics(c, idom);
    forall v, x | Def(idom', x) && Dominates(c.g, v, x)
      ensures Anc(c, idom', v, x)
    {
      if x == b {
        UpdateSelf(c, idom, b, m, v);
        if v != b { MeetCovers(c, idom, b, m, v); }
      } else {
        assert Anc(c, idom, v, x);
        AncFacts(c, idom, v, x);
        UpdateAnc(c, idom, b, m, v, x);
        if Anc(c, idom, b, x) && c.rank[v] < c.rank[b] {
          AncFacts(c, idom, b, x);
          DominatorClimbs(c, idom, v, b, x);
          MeetCovers(c, idom, b, m, v);
        }
      }
    }
  }

  lemma UpdateNoBypass(c: Ctx, idom: seq<int>, b: int, m: int)
    requires IsUpdate(c, idom, b, m) && Tree(c, idom[b := m])
    requires NoBypass(c, idom) && Meet(c, idom, b, m)
    ensures NoBypass(c, idom[b := m])
  {
    hide Tree, TreeAt, Anc, Dominates;
    var idom' := idom[b := m];
    TreeBasics(c, idom);
    var j :| DefPred(c, idom, j, b);
    forall v, x
      ensures NoBypassAt(c, idom', v, x)
    {
      assert NoBypassAt(c, idom, v, x);
      if x == b && 0 <= v < |c.rank| && c.rank[v] < c.rank[m] && Dominates(c.g, v, b) {
        DominatesPred(c.g, v, j, b);
        DominatorClimbs(c, idom, v, m, j);
      }
    }
  }

  // ----- one pass over the order -----

  /** idom[x] is on the chain of every predecessor that comes before x in the order. */
  ghost predicate Forward(c: Ctx, idom: seq<int>, x: int)
    requires Tree(c, idom) && Def(idom, x)
  {
    forall j :: DefPred(c, idom, j, x) && c.rank[j] < c.rank[x] ==> Anc(c, idom, idom[x], j)
  }

  /** Whatever the predecessors of x share is on the chain of idom[x]. */
  ghost predicate Keeps(c: Ctx, idom: seq<int>, x: int)
    requires Tree(c, idom) && Def(idom, x)
  {
    assert TreeAt(c, idom, x);
    forall d :: CommonAnc(c, idom, x, d) ==> Anc(c, idom, d, idom[x])
  }

  ghost predicate Good(c: Ctx, idom: seq<int>)
  {
    Tree(c, idom) && Covers(c, idom) && NoBypass(c, idom)
  }

  /** Between passes: either only the entry is defined or every reachable block is, and
      every defined block is consistent with its predecessors. */
  ghost predicate PassStart(c: Ctx, idom: seq<int>)
  {
    && Good(c, idom)
    && (forall x :: x != 0 && Def(idom, x) ==> Forward(c, idom, x) && Keeps(c, idom, x))
    && ((forall x :: x in c.rpo ==> Def(idom, x)) || (forall x :: Def(idom, x) ==> x == 0))
  }

  /** Within a pass that began with idom0, before evaluating rpo[i]: no chain has grown. */
  ghost predicate During(c: Ctx, idom0: seq<int>, idom: seq<int>, i: int)
  {
    && PassStart(c, idom0) && Good(c, idom) && 0 < i <= |c.rpo| && |idom| == |idom0|
    && (forall k :: 0 <= k < i ==> Def(idom, c.rpo[k]))
    && (forall k :: 0 < k < i ==> Forward(c, idom, c.rpo[k]) && Keeps(c, idom, c.rpo[k]))
    && (forall k :: i <= k < |c.rpo| ==> 0 <= c.rpo[k] < |idom| && idom[c.rpo[k]] == idom0[c.rpo[k]])
    && Shrunk(c, idom0, idom)
  }

  ghost predicate Shrunk(c: Ctx, idom0: seq<int>, idom: seq<int>)
    requires Tree(c, idom0) && Tree(c, idom)
  {
    && (forall x :: Def(idom0, x) ==> Def(idom, x))
    && (forall x, d :: Def(idom0, x) && Anc(c, idom, d, x) ==> Anc(c, idom0, d, x))
  }

  /** The heart of termination.  Suppose d lies above q on the chains the pass began
      with, but a block on q's chain has since been moved past d.  Then every block
      already evaluated in this pass whose old chain went through q has lost d too. */
  lemma {:induction false} LossSpreads(c: Ctx, idom0: seq<int>, idom: seq<int>, i: int, q: int, d: int, y: int)
    requires During(c, idom0, idom, i)
    requires Def(idom0, q) && Anc(c, idom0, d, q) && Def(idom, q) && !Anc(c, idom, d, q)
    requires Def(idom0, y) && Def(idom, y) && c.rank[y] < i && Anc(c, idom0, q, y)
    ensures !Anc(c, idom, d, y)
    decreases c.rank[y]
  {
    hide Tree, TreeAt, Covers, NoBypass, Shrunk, Keeps, Reachable;
    TreeFacts(c, idom0, y);
    TreeFacts(c, idom, y);
    TreeBasics(c, idom);
    if y != q {
      var k := c.rank[y];
      assert HasEarlierPred(c.g, c.rpo, k);
      var h :| 0 <= h < k && c.g.Edge(c.rpo[h], c.rpo[k]);
      var j := c.rpo[h];
      assert Def(idom, j) && Def(idom0, j);
      assert DefPred(c, idom0, j, y) && DefPred(c, idom, j, y);
      assert Forward(c, idom0, y) && Forward(c, idom, c.rpo[k]);
      AncTrans(c, idom0, q, idom0[y], j);
      LossSpreads(c, idom0, idom, i, q, d, j);
      AncFacts(c, idom0, d, q);
      AncFacts(c, idom0, q, y);
      if Anc(c, idom, d, y) { AncTrans(c, idom, d, idom[y], j); }
    }
  }

  /** So a re-evaluated block only ever moves up its own current chain. */
  lemma MovesUp(c: Ctx, idom0: seq<int>, idom: seq<int>, i: int, m: int)
    requires During(c, idom0, idom, i) && i < |c.rpo|
    requires Meet(c, idom, c.rpo[i], m) && Def(idom, c.rpo[i])
    ensures var q := idom[c.rpo[i]]; Def(idom, q) && Anc(c, idom, m, q)
  {
    hide Tree, TreeAt, Anc, Covers, NoBypass, Reachable;
    var b := c.rpo[i];
    var q := idom[b];
    TreeBasics(c, idom);
    TreeFacts(c, idom, b);
    TreeFacts(c, idom0, b);
    forall j | DefPred(c, idom0, j, b)
      ensures Anc(c, idom0, m, j)
    {
      assert DefPred(c, idom, j, b);
    }
    assert CommonAnc(c, idom0, b, m);
    assert Keeps(c, idom0, b) && Forward(c, idom0, b);
    if !Anc(c, idom, m, q) {
      assert HasEarlierPred(c.g, c.rpo, i);
      var h :| 0 <= h < i && c.g.Edge(c.rpo[h], c.rpo[i]);
      var j := c.rpo[h];
      assert DefPred(c, idom, j, b) && DefPred(c, idom0, j, b);
      LossSpreads(c, idom0, idom, i, q, m, j);
      assert false;
    }
  }

  /** The meet ranks before the block it is for. */
  lemma MeetRank(c: Ctx, idom0: seq<int>, idom: seq<int>, i: int, m: int)
    requires During(c, idom0, idom, i) && i < |c.rpo| && Meet(c, idom, c.rpo[i], m)
    ensures IsUpdate(c, idom, c.rpo[i], m)
  {
    hide TreeAt, Anc, Covers, NoBypass, Reachable;
    TreeBasics(c, idom);
    assert HasEarlierPred(c.g, c.rpo, i);
    var h :| 0 <= h < i && c.g.Edge(c.rpo[h], c.rpo[i]);
    assert DefPred(c, idom, c.rpo[h], c.rpo[i]);
    AncFacts(c, idom, m, c.rpo[h]);
    assert c.rank[c.rpo[h]] == h && c.rank[c.rpo[i]] == i;
    assert c.rpo[i] != 0;
  }

  lemma MeetExists(c: Ctx, idom0: seq<int>, idom: seq<int>, i: int)
    requires During(c, idom0, idom, i) && i < |c.rpo|
    ensures exists j :: DefPred(c, idom, j, c.rpo[i])
  {
    hide Tree, TreeAt, Anc, Covers, NoBypass, Reachable;
    TreeBasics(c, idom);
    assert HasEarlierPred(c.g, c.rpo, i);
    var h :| 0 <= h < i && c.g.Edge(c.rpo[h], c.rpo[i]);
    assert DefPred(c, idom, c.rpo[h], c.rpo[i]);
  }

  /** An update never lengthens a chain. */
  lemma UpdateShrinks(c: Ctx, idom0: seq<int>, idom: seq<int>, i: int, m: int, d: int, x: int)
    requires During(c, idom0, idom, i) && i < |c.rpo|
    requires Meet(c, idom, c.rpo[i], m) && IsUpdate(c, idom, c.rpo[i], m) && Tree(c, idom[c.rpo[i] := m])
    requires Def(idom, x) && Def(idom[c.rpo[i] := m], x) && Anc(c, idom[c.rpo[i] := m], d, x)
    ensures Anc(c, idom, d, x)
  {
    hide Tree, TreeAt, Anc, Covers, NoBypass, Meet, PassStart, Shrunk;
    var b := c.rpo[i];
    TreeBasics(c, idom);
    AncFacts(c, idom[b := m], d, x);
    UpdateAnc(c, idom, b, m, d, x);
    if Anc(c, idom, b, x) && !Anc(c, idom, d, x) {
      AncFacts(c, idom, b, x);
      MovesUp(c, idom0, idom, i, m);
      AncTrans(c, idom, d, m, idom[b]);
      ParentAnc(c, idom, d, b);
      AncTrans(c, idom, d, b, x);
      assert false;
    }
  }

  lemma ParentAnc(c: Ctx, idom: seq<int>, d: int, b: int)
    requires Tree(c, idom) && Def(idom, b) && Def(idom, idom[b]) && Anc(c, idom, d, idom[b])
    ensures Anc(c, idom, d, b)
  {
    hide Tree, TreeAt;
    TreeBasics(c, idom);
    TreeFacts(c, idom, b);
  }

  /** A block evaluated earlier in the pass stays consistent: its own side of the
      comparison is untouched and the other side can only shrink. */
  lemma UpdateEarlier(c: Ctx, idom0: seq<int>, idom: seq<int>, i: int, m: int, k: int)
    requires During(c, idom0, idom, i) && 0 < k < i < |c.rpo|
    requires Meet(c, idom, c.rpo[i], m) && IsUpdate(c, idom, c.rpo[i], m) && Tree(c, idom[c.rpo[i] := m])
    ensures var idom' := idom[c.rpo[i] := m];
            Def(idom', c.rpo[k]) && Forward(c, idom', c.rpo[k]) && Keeps(c, idom', c.rpo[k])
  {
    hide Tree, TreeAt, Anc, Covers, NoBypass, Meet, PassStart, Shrunk;
    var b, x := c.rpo[i], c.rpo[k];
    var idom' := idom[b := m];
    TreeBasics(c, idom);
    TreeFacts(c, idom, x);
    assert Forward(c, idom, x) && Keeps(c, idom, x);
    forall j | DefPred(c, idom', j, x) && c.rank[j] < c.rank[x]
      ensures Anc(c, idom', idom'[x], j)
    {
      assert DefPred(c, idom, j, x);
      BelowUnchanged(c, idom, b, m, idom[x], j);
    }
    forall d | CommonAnc(c, idom', x, d)
      ensures Anc(c, idom', d, idom'[x])
    {
      CommonShrinks(c, idom0, idom, i, m, d, x);
      BelowUnchanged(c, idom, b, m, d, idom[x]);
    }
  }

  lemma CommonShrinks(c: Ctx, idom0: seq<int>, idom: seq<int>, i: int, m: int, d: int, x: int)
    requires During(c, idom0, idom, i) && i < |c.rpo|
    requires Meet(c, idom, c.rpo[i], m) && IsUpdate(c, idom, c.rpo[i], m) && Tree(c, idom[c.rpo[i] := m])
    requires CommonAnc(c, idom[c.rpo[i] := m], x, d)
    ensures CommonAnc(c, idom, x, d)
  {
    hide Tree, TreeAt, Anc, Covers, NoBypass, Meet, PassStart, Shrunk;
    var idom' := idom[c.rpo[i] := m];
    forall j | DefPred(c, idom, j, x)
      ensures Anc(c, idom, d, j)
    {
      assert DefPred(c, idom', j, x);
      UpdateShrinks(c, idom0, idom, i, m, d, j);
    }
  }

  /** The block just evaluated is consistent with its predecessors. */
  lemma UpdateHere(c: Ctx, idom0: seq<int>, idom: seq<int>, i: int, m: int)
    requires During(c, idom0, idom, i) && i < |c.rpo|
    requires Meet(c, idom, c.rpo[i], m) && IsUpdate(c, idom, c.rpo[i], m) && Tree(c, idom[c.rpo[i] := m])
    ensures var idom' := idom[c.rpo[i] := m];
            Def(idom', c.rpo[i]) && Forward(c, idom', c.rpo[i]) && Keeps(c, idom', c.rpo[i])
  {
    hide Tree, TreeAt, Anc, Covers, NoBypass, PassStart, Shrunk;
    var b := c.rpo[i];
    var idom' := idom[b := m];
    TreeBasics(c, idom);
    forall j | DefPred(c, idom', j, b) && c.rank[j] < c.rank[b]
      ensures Anc(c, idom', m, j)
    {
      assert DefPred(c, idom, j, b);
      BelowUnchanged(c, idom, b, m, m, j);
    }
    forall d | CommonAnc(c, idom', b, d)
      ensures Def(idom', m) && Anc(c, idom', d, m)
    {
      CommonShrinks(c, idom0, idom, i, m, d, b);
      BelowUnchanged(c, idom, b, m, d, m);
    }
  }

  lemma DuringStep(c: Ctx, idom0: seq<int>, idom: seq<int>, i: int, m: int)
    requires During(c, idom0, idom, i) && i < |c.rpo| && Meet(c, idom, c.rpo[i], m)
    ensures 0 <= c.rpo[i] < |idom| && During(c, idom0, idom[c.rpo[i] := m], i + 1)
  {
    hide TreeAt, Anc, Covers, NoBypass, Meet, Forward, Keeps, Tree;
    var b := c.rpo[i];
    var idom' := idom[b := m];
    TreeBasics(c, idom);
    MeetRank(c, idom0, idom, i, m);
    UpdateTree(c, idom, b, m);
    UpdateCovers(c, idom, b, m);
    UpdateNoBypass(c, idom, b, m);
    UpdateHere(c, idom0, idom, i, m);
    forall k | 0 < k < i
      ensures Forward(c, idom', c.rpo[k]) && Keeps(c, idom', c.rpo[k])
    {
      UpdateEarlier(c, idom0, idom, i, m, k);
    }
    forall x, d | Def(idom0, x) && Anc(c, idom', d, x)
      ensures Anc(c, idom0, d, x)
    {
      UpdateShrinks(c, idom0, idom, i, m, d, x);
    }
    assert forall k :: i < k < |c.rpo| ==> c.rpo[k] != b;
  }

  lemma PassBegin(c: Ctx, idom: seq<int>)
    requires PassStart(c, idom)
    ensures During(c, idom, idom, 1)
  {
    hide TreeAt, Anc, Covers, NoBypass, Forward, Keeps, Tree;
    TreeBasics(c, idom);
  }

  lemma PassEnd(c: Ctx, idom0: seq<int>, idom: seq<int>)
    requires During(c, idom0, idom, |c.rpo|)
    ensures PassStart(c, idom)
    ensures forall x :: x in c.rpo ==> Def(idom, x)
  {
    hide TreeAt, Anc, Covers, NoBypass, Forward, Keeps, Tree, Shrunk;
    TreeBasics(c, idom);
    forall x | x != 0 && Def(idom, x)
      ensures Forward(c, idom, x) && Keeps(c, idom, x)
    {
      TreeFacts(c, idom, x);
      var k := c.rank[x];
      assert Forward(c, idom, c.rpo[k]);
    }
  }

  lemma InitialPass(c: Ctx, idom: seq<int>)
    requires c.Valid() && |idom| == |c.rank| && idom[0] == 0
    requires forall x :: 0 < x < |idom| ==> idom[x] == -1
    ensures PassStart(c, idom)
  {
    assert c.rank[c.rpo[0]] == 0;
    assert TreeAt(c, idom, 0);
    forall v, x | Def(idom, x) && Dominates(c.g, v, x)
      ensures Anc(c, idom, v, x)
    {
      assert PathTo(c.g, [0], 0);
    }
    assert forall v, x :: NoBypassAt(c, idom, v, x);
  }

  // ----- exactness at the fixpoint -----

  ghost predicate AllMeet(c: Ctx, idom: seq<int>)
    requires Tree(c, idom)
  {
    && (forall x :: x in c.rpo ==> Def(idom, x))
    && forall k :: 0 < k < |c.rpo| ==> 0 <= c.rpo[k] < |idom| && Meet(c, idom, c.rpo[k], idom[c.rpo[k]])
  }

  /** At a fixpoint every block on the chain of x is on every path to x. */
  lemma {:induction false} ChainOnPath(c: Ctx, idom: seq<int>, d: int, x: int, p: seq<int>)
    requires Tree(c, idom) && AllMeet(c, idom) && Def(idom, x) && Anc(c, idom, d, x)
    requires PathTo(c.g, p, x)
    ensures d in p
    decreases |p|
  {
    hide Tree, TreeAt, Reachable, Meet;
    TreeBasics(c, idom);
    TreeFacts(c, idom, x);
    if d != x {
      assert x == p[|p| - 1] && |p| > 1;
      var q := p[..|p| - 1];
      var j := q[|q| - 1];
      assert c.g.Edge(j, x);
      assert PathTo(c.g, q, j);
      InOrder(c, q, j);
      assert Meet(c, idom, c.rpo[c.rank[x]], idom[c.rpo[c.rank[x]]]);
      MeetAbove(c, idom, x, j, d);
      ChainOnPath(c, idom, d, j, q);
    }
  }

  lemma InOrder(c: Ctx, p: seq<int>, x: int)
    requires c.Valid() && PathTo(c.g, p, x)
    ensures x in c.rpo
  {
    assert Reachable(c.g, x);
  }

  lemma MeetAbove(c: Ctx, idom: seq<int>, x: int, j: int, d: int)
    requires Tree(c, idom) && Def(idom, x) && Def(idom, j) && c.g.Edge(j, x)
    requires Meet(c, idom, x, idom[x]) && d != x && Anc(c, idom, d, x)
    ensures Anc(c, idom, d, j)
  {
    hide Tree, TreeAt;
    TreeFacts(c, idom, x);
    assert DefPred(c, idom, j, x);
    AncTrans(c, idom, d, idom[x], j);
  }

  /** The final array: exactly the reachable blocks are defined, and the chain of each
      consists of exactly its dominators. */
  ghost predicate Exact(c: Ctx, idom: seq<int>)
  {
    && Tree(c, idom)
    && (forall x :: Def(idom, x) <==> Reachable(c.g, x))
    && (forall d, x :: Def(idom, x) ==> (Anc(c, idom, d, x) <==> Dominates(c.g, d, x)))
  }

  lemma FixpointExact(c: Ctx, idom: seq<int>)
    requires Good(c, idom) && AllMeet(c, idom)
    ensures Exact(c, idom)
  {
    hide Tree, TreeAt, Anc, NoBypass, Meet, Reachable;
    TreeBasics(c, idom);
    forall x | Def(idom, x)
      ensures Reachable(c.g, x)
    {
      TreeFacts(c, idom, x);
    }
    forall d, x | Def(idom, x) && Anc(c, idom, d, x)
      ensures Dominates(c.g, d, x)
    {
      forall p | PathTo(c.g, p, x)
        ensures d in p
      {
        ChainOnPath(c, idom, d, x, p);
      }
    }
  }

  // ----- termination -----

  /** How far the candidates still are from the entry; undefined counts as farthest. */
  function Weight(rank: seq<int>, idom: seq<int>, x: int): (w: nat)
    requires 0 <= x < |idom|
  {
    if 0 <= idom[x] < |rank| && 0 <= rank[idom[x]] < |rank| then rank[idom[x]] else |rank|
  }

  function Potential(rank: seq<int>, idom: seq<int>, k: nat): nat
    requires k <= |idom|
  {
    if k == 0 then 0 else Potential(rank, idom, k - 1) + Weight(rank, idom, k - 1)
  }

  lemma {:induction false} PotentialDrops(rank: seq<int>, idom: seq<int>, idom': seq<int>, b: int, k: nat)
    requires 0 <= b < |idom| == |idom'| && k <= |idom|
    requires idom' == idom[b := idom'[b]] && Weight(rank, idom', b) < Weight(rank, idom, b)
    ensures Potential(rank, idom', k) <= Potential(rank, idom, k)
    ensures b < k ==> Potential(rank, idom', k) < Potential(rank, idom, k)
  {
    if k != 0 { PotentialDrops(rank, idom, idom', b, k - 1); }
  }

  /** A change either defines a candidate or strictly lowers its rank. */
  lemma ChangeLowers(c: Ctx, idom0: seq<int>, idom: seq<int>, i: int, m: int)
    requires During(c, idom0, idom, i) && i < |c.rpo| && Meet(c, idom, c.rpo[i], m)
    requires 0 <= c.rpo[i] < |idom| && idom[c.rpo[i]] != m
    ensures Potential(c.rank, idom[c.rpo[i] := m], |idom|) < Potential(c.rank, idom, |idom|)
  {
    hide TreeAt, Anc, Covers, NoBypass, Meet, PassStart, Forward, Keeps, Tree, Shrunk;
    var b := c.rpo[i];
    TreeBasics(c, idom);
    MeetRank(c, idom0, idom, i, m);
    TreeFacts(c, idom, m);
    OrderCount(c);
    if Def(idom, b) {
      MovesUp(c, idom0, idom, i, m);
      AncFacts(c, idom, m, idom[b]);
      TreeFacts(c, idom, idom[b]);
    }
    PotentialDrops(c.rank, idom, idom[b := m], b, |idom|);
  }

  lemma OrderCount(c: Ctx)
    requires c.Valid()
    ensures |c.rpo| <= |c.rank|
  {
    DistinctCount(c.rpo, |c.rank|);
  }

  lemma {:induction false} DistinctCount(s: seq<int>, n: nat)
    requires forall i :: 0 <= i < |s| ==> 0 <= s[i] < n
    requires forall i, j :: 0 <= i < j < |s| ==> s[i] != s[j]
    ensures |s| <= n
  {
    ElementsCount(s);
    var rest := Range(n) - Elements(s);
    assert Elements(s) + rest == Range(n);
  }

  function Elements(s: seq<int>): set<int> { set x | x in s }

  lemma {:induction false} ElementsCount(s: seq<int>)
    requires forall i, j :: 0 <= i < j < |s| ==> s[i] != s[j]
    ensures |Elements(s)| == |s|
  {
    if s != [] {
      var rest := s[1..];
      assert forall i :: 0 <= i < |rest| ==> rest[i] == s[i + 1];
      ElementsCount(rest);
      assert s[0] !in rest;
      assert Elements(s) == {s[0]} + Elements(rest) by { assert s == [s[0]] + rest; }
    }
  }

  // ----- the algorithm -----

  method ComputeDominators(g: Graph, rpo: array<int>) returns (idom: array<int>, ghost c: Ctx)
    requires g.Valid() && IsRpo(g, rpo[..])
    ensures fresh(idom) && idom.Length == |g.succ0| && c.g == g && c.rpo == rpo[..]
    ensures Exact(c, idom[..])
  {
    hide IsRpo, Tree, TreeAt, Anc, Meet, Good, AllMeet, PassStart, During, Exact, Potential, Reachable;
    var n := |g.succ0|;
    idom := new int[n](_ => -1);
    var rankOf := Ranks(g, rpo);
    c := Ctx(g, rpo[..], rankOf[..]);
    idom[0] := 0;
    InitialPass(c, idom[..]);
    PassTree(c, idom[..]);
    var changed := true;
    while changed
      invariant rankOf[..] == c.rank && rpo[..] == c.rpo
      invariant PassStart(c, idom[..]) && Tree(c, idom[..])
      invariant !changed ==> AllMeet(c, idom[..])
      decreases Potential(c.rank, idom[..], n), if changed then 1 else 0
    {
      changed := Pass(g, c, rpo, rankOf, idom);
    }
    PassGood(c, idom[..]);
    FixpointExact(c, idom[..]);
  }

  method Ranks(g: Graph, rpo: array<int>) returns (rankOf: array<int>)
    requires g.Valid() && IsRpo(g, rpo[..])
    ensures fresh(rankOf) && Ctx(g, rpo[..], rankOf[..]).Valid()
  {
    hide Reachable;
    var n := |g.succ0|;
    rankOf := new int[n](_ => 0);
    forall k | 0 <= k < rpo.Length ensures 0 <= rpo[k] < n { RpoInRange(g, rpo[..], k); }
    for i := 0 to rpo.Length
      invariant forall k :: 0 <= k < i ==> rankOf[rpo[k]] == k
    {
      assert forall k :: 0 <= k < i ==> rpo[..][k] != rpo[..][i];
      rankOf[rpo[i]] := i;
    }
  }

  lemma RpoInRange(g: Graph, rpo: seq<int>, k: int)
    requires g.Valid() && IsRpo(g, rpo) && 0 <= k < |rpo|
    ensures 0 <= rpo[k] < |g.succ0|
  {
    if k > 0 { assert HasEarlierPred(g, rpo, k); }
  }

  lemma PassTree(c: Ctx, idom: seq<int>)
    requires PassStart(c, idom)
    ensures Tree(c, idom)
  {
  }

  lemma PassGood(c: Ctx, idom: seq<int>)
    requires PassStart(c, idom)
    ensures Good(c, idom)
  {
  }

  lemma DuringTree(c: Ctx, idom0: seq<int>, idom: seq<int>, i: int)
    requires During(c, idom0, idom, i)
    ensures Tree(c, idom)
  {
  }

  /** One pass of the `changed` loop. */
  method Pass(g: Graph, ghost c: Ctx, rpo: array<int>, rankOf: array<int>, idom: array<int>) returns (changed: bool)
    requires c.g == g && rankOf[..] == c.rank && rpo[..] == c.rpo && PassStart(c, idom[..])
    requires idom != rankOf && idom != rpo
    modifies idom
    ensures PassStart(c, idom[..]) && Tree(c, idom[..])
    ensures !changed ==> idom[..] == old(idom[..]) && AllMeet(c, idom[..])
    ensures changed ==> Potential(c.rank, idom[..], idom.Length) < Potential(c.rank, old(idom[..]), idom.Length)
  {
    hide IsRpo, Tree, TreeAt, Anc, Meet, Good, PassStart, During, Potential;
    changed := false;
    ghost var idom0 := idom[..];
    PassBegin(c, idom0);
    PassTree(c, idom0);
    TreeBasics(c, idom0);
    var i := 1;
    while i < rpo.Length
      invariant 1 <= i <= rpo.Length
      invariant During(c, idom0, idom[..], i) && Tree(c, idom[..])
      invariant !changed ==> idom[..] == idom0 && forall k :: 0 < k < i ==> Meet(c, idom0, c.rpo[k], idom0[c.rpo[k]])
      invariant changed ==> Potential(c.rank, idom[..], idom.Length) < Potential(c.rank, idom0, idom.Length)
    {
      var b := rpo[i];
      assert b == c.rpo[i];
      var m := NewIdom(g, c, rankOf, idom, b);
      MeetExists(c, idom0, idom[..], i);
      DuringStep(c, idom0, idom[..], i, m);
      if m >= 0 && m != idom[b] {
        ChangeLowers(c, idom0, idom[..], i, m);
        idom[b] := m;
        changed := true;
      } else {
        MeetDef(c, idom[..], b, m);
        assert idom[..][b := m] == idom[..];
      }
      DuringTree(c, idom0, idom[..], i + 1);
      i := i + 1;
    }
    PassEnd(c, idom0, idom[..]);
  }

  lemma MeetDef(c: Ctx, idom: seq<int>, b: int, m: int)
    requires Tree(c, idom) && Meet(c, idom, b, m)
    ensures Def(idom, m)
  {
  }

  /** The query used for back edges.  A reachable block is dominated by exactly its
      dominators; an unreachable one only answers yes to itself. */
  method IsDominator(ghost c: Ctx, idom: array<int>, dom: int, b: int) returns (r: bool)
    requires Exact(c, idom[..]) && 0 <= b < idom.Length
    ensures Reachable(c.g, b) ==> (r <==> Dominates(c.g, dom, b))
    ensures !Reachable(c.g, b) ==> (r <==> dom == b)
  {
    hide Tree, TreeAt, Reachable, Dominates;
    ghost var t := idom[..];
    ExactAt(c, t, dom, b);
    TreeBasics(c, t);
    if Def(t, b) { TreeFacts(c, t, b); }
    var x := b;
    while x >= 0
      invariant !Def(t, b) ==> x == b || (x < 0 && dom != b)
      invariant Def(t, b) ==> Def(t, x) && c.rank[x] >= 0 && (Anc(c, t, dom, b) <==> Anc(c, t, dom, x))
      decreases if x < 0 then 0 else if Def(t, x) then 1 + c.rank[x] else 1
    {
      if Def(t, x) { TreeFacts(c, t, x); }
      if x == dom {
        return true;
      }
      if idom[x] == x {
        return false;
      }
      x := idom[x];
      if Def(t, x) { TreeFacts(c, t, x); }
    }
    return false;
  }

  lemma ExactAt(c: Ctx, idom: seq<int>, d: int, x: int)
    requires Exact(c, idom)
    ensures Tree(c, idom) && (Def(idom, x) <==> Reachable(c.g, x))
    ensures Def(idom, x) ==> (Anc(c, idom, d, x) <==> Dominates(c.g, d, x))
  {
  }
}
