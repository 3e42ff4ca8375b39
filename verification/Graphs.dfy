/** Control-flow graphs with at most two successors per block, their paths and
    dominance, and the reverse postorder of tools/merlin-verifier/cfg.c. */
module Graphs {

  /** Block i's successors are succ0[i] and succ1[i]; -1 means none. */
  datatype Graph = Graph(succ0: seq<int>, succ1: seq<int>) {
    predicate Valid() {
      && 0 < |succ0| == |succ1|
      && (forall i :: 0 <= i < |succ0| ==> -1 <= succ0[i] < |succ0|)
      && (forall i :: 0 <= i < |succ0| ==> -1 <= succ1[i] < |succ0|)
    }

    predicate Edge(a: int, b: int) {
      0 <= a < |succ0| && 0 <= b < |succ0| && (succ0[a] == b || (a < |succ1| && succ1[a] == b))
    }

    function Nodes(): set<int> { Range(|succ0|) }
  }

  function Range(n: nat): (r: set<int>)
    ensures forall i :: i in r <==> 0 <= i < n
    ensures |r| == n
  {
    if n == 0 then {} else Range(n - 1) + {n - 1}
  }

  // ----- paths, reachability and dominance -----

  /** p is a path from the entry block 0 to x. */
  predicate PathTo(g: Graph, p: seq<int>, x: int)
  {
    && 0 < |p| && p[0] == 0 && p[|p| - 1] == x
    && forall i :: 0 < i < |p| ==> g.Edge(p[i - 1], p[i])
  }

  ghost predicate Reachable(g: Graph, x: int) { exists p :: PathTo(g, p, x) }

  /** Every path from the entry to x passes through d. */
  ghost predicate Dominates(g: Graph, d: int, x: int) { forall p :: PathTo(g, p, x) ==> d in p }

  lemma PathExtend(g: Graph, p: seq<int>, x: int, y: int)
    requires PathTo(g, p, x) && g.Edge(x, y)
    ensures PathTo(g, p + [y], y)
  {
  }

  lemma ReachableStep(g: Graph, x: int, y: int)
    requires Reachable(g, x) && g.Edge(x, y)
    ensures Reachable(g, y)
  {
    var p :| PathTo(g, p, x);
    PathExtend(g, p, x, y);
  }

  lemma ReachableEntry(g: Graph)
    ensures Reachable(g, 0)
  {
    assert PathTo(g, [0], 0);
  }

  /** A dominator of y other than y itself dominates every predecessor of y. */
  lemma DominatesPred(g: Graph, d: int, x: int, y: int)
    requires Dominates(g, d, y) && d != y && g.Edge(x, y)
    ensures Dominates(g, d, x)
  {
    forall p | PathTo(g, p, x)
      ensures d in p
    {
      PathExtend(g, p, x, y);
      assert d in p + [y];
    }
  }

  /** Every reachable block is in any set that has the entry and is closed under edges. */
  lemma {:induction false} ClosedHasPath(g: Graph, closed: set<int>, p: seq<int>, x: int)
    requires 0 in closed && PathTo(g, p, x)
    requires forall a, b :: a in closed && g.Edge(a, b) ==> b in closed
    ensures x in closed
    decreases |p|
  {
    if |p| > 1 {
      var q := p[..|p| - 1];
      assert PathTo(g, q, q[|q| - 1]);
      ClosedHasPath(g, closed, q, q[|q| - 1]);
      assert g.Edge(p[|p| - 2], p[|p| - 1]);
    }
  }

  // ----- depth-first postorder -----

  datatype Dfs = Dfs(seen: set<int>, post: seq<int>)

  /** The recursive visit, as a function on the visited set and the postorder so far. */
  function Visit(g: Graph, b: int, st: Dfs): (r: Dfs)
    requires g.Valid() && -1 <= b < |g.succ0| && st.seen <= g.Nodes()
    ensures st.seen <= r.seen <= g.Nodes()
    decreases g.Nodes() - st.seen
  {
    if b < 0 || b in st.seen then st
    else
      var st1 := Visit(g, g.succ0[b], st.(seen := st.seen + {b}));
      var st2 := Visit(g, g.succ1[b], st1);
      st2.(post := st2.post + [b])
  }

  lemma VisitUnfold(g: Graph, b: int, st: Dfs)
    requires g.Valid() && -1 <= b < |g.succ0| && st.seen <= g.Nodes()
    ensures b < 0 || b in st.seen ==> Visit(g, b, st) == st
    ensures 0 <= b && b !in st.seen ==>
              var st1 := Visit(g, g.succ0[b], st.(seen := st.seen + {b}));
              var st2 := Visit(g, g.succ1[b], st1);
              Visit(g, b, st) == st2.(post := st2.post + [b])
  {
  }

  /** What one visit adds: `added` lists exactly the newly seen blocks, once each, the
      root last, every other one before a predecessor; and the new blocks are closed. */
  ghost predicate Adds(g: Graph, b: int, st: Dfs, r: Dfs, added: seq<int>)
  {
    && r.post == st.post + added
    && (forall x :: x in added <==> x in r.seen && x !in st.seen)
    && (forall i, j :: 0 <= i < j < |added| ==> added[i] != added[j])
    && (0 <= b ==> b in r.seen)
    && (added != [] ==> added[|added| - 1] == b >= 0)
    && (forall i :: 0 <= i < |added| - 1 ==> HasLaterPred(g, added, i))
  }

  ghost predicate HasLaterPred(g: Graph, s: seq<int>, i: int)
    requires 0 <= i < |s|
  {
    exists j :: i < j < |s| && g.Edge(s[j], s[i])
  }

  ghost predicate ClosedIn(g: Graph, x: int, seen: set<int>)
    requires g.Valid() && 0 <= x < |g.succ0|
  {
    (0 <= g.succ0[x] ==> g.succ0[x] in seen) && (0 <= g.succ1[x] ==> g.succ1[x] in seen)
  }

  lemma {:induction false} VisitAdds(g: Graph, b: int, st: Dfs) returns (added: seq<int>)
    requires g.Valid() && -1 <= b < |g.succ0| && st.seen <= g.Nodes()
    ensures Adds(g, b, st, Visit(g, b, st), added)
    ensures forall x :: x in added ==> 0 <= x < |g.succ0| && ClosedIn(g, x, Visit(g, b, st).seen)
    decreases g.Nodes() - st.seen
  {
    if b < 0 || b in st.seen {
      added := [];
    } else {
      var st0 := st.(seen := st.seen + {b});
      var st1 := Visit(g, g.succ0[b], st0);
      var a1 := VisitAdds(g, g.succ0[b], st0);
      var a2 := VisitAdds(g, g.succ1[b], st1);
      added := a1 + a2 + [b];
      AddsCompose(g, b, st, st1, Visit(g, g.succ1[b], st1), a1, a2);
    }
  }

  lemma AddsCompose(g: Graph, b: int, st: Dfs, st1: Dfs, st2: Dfs, a1: seq<int>, a2: seq<int>)
    requires g.Valid() && 0 <= b < |g.succ0| && b !in st.seen
    requires Adds(g, g.succ0[b], st.(seen := st.seen + {b}), st1, a1)
    requires Adds(g, g.succ1[b], st1, st2, a2)
    requires st.seen + {b} <= st1.seen <= st2.seen
    ensures Adds(g, b, st, st2.(post := st2.post + [b]), a1 + a2 + [b])
  {
    hide HasLaterPred;
    var added := a1 + a2 + [b];
    assert forall x :: x in added <==> x in a1 || x in a2 || x == b;
    assert b !in a1 && b !in a2;
    assert forall x :: x in a1 ==> x !in a2;
    DistinctConcat(a1, a2);
    DistinctConcat(a1 + a2, [b]);
    forall i | 0 <= i < |added| - 1
      ensures HasLaterPred(g, added, i)
    {
      LaterPredCompose(g, b, a1, a2, i);
    }
  }

  lemma DistinctConcat(a: seq<int>, b: seq<int>)
    requires forall i, j :: 0 <= i < j < |a| ==> a[i] != a[j]
    requires forall i, j :: 0 <= i < j < |b| ==> b[i] != b[j]
    requires forall x :: x in a ==> x !in b
    ensures forall i, j :: 0 <= i < j < |a + b| ==> (a + b)[i] != (a + b)[j]
  {
    assert forall i :: 0 <= i < |b| ==> (a + b)[|a| + i] == b[i] && b[i] in b;
    assert forall i :: 0 <= i < |a| ==> (a + b)[i] == a[i] && a[i] in a;
  }

  lemma LaterPredCompose(g: Graph, b: int, a1: seq<int>, a2: seq<int>, i: int)
    requires g.Valid() && 0 <= b < |g.succ0| && 0 <= i < |a1| + |a2|
    requires a1 != [] ==> a1[|a1| - 1] == g.succ0[b] >= 0
    requires a2 != [] ==> a2[|a2| - 1] == g.succ1[b] >= 0
    requires forall k :: 0 <= k < |a1| - 1 ==> HasLaterPred(g, a1, k)
    requires forall k :: 0 <= k < |a2| - 1 ==> HasLaterPred(g, a2, k)
    ensures HasLaterPred(g, a1 + a2 + [b], i)
  {
    var added := a1 + a2 + [b];
    var n := |added|;
    if i == |a1| - 1 || i == n - 2 {
      assert g.Edge(added[n - 1], added[i]);
    } else if i < |a1| {
      assert HasLaterPred(g, a1, i);
      var j :| i < j < |a1| && g.Edge(a1[j], a1[i]);
      assert g.Edge(added[j], added[i]);
    } else {
      assert HasLaterPred(g, a2, i - |a1|);
      var j :| i - |a1| < j < |a2| && g.Edge(a2[j], a2[i - |a1|]);
      assert g.Edge(added[|a1| + j], added[i]);
    }
  }

  /** A visit leaves room in the postorder for every block still unseen. */
  lemma {:induction false} VisitRoom(g: Graph, b: int, st: Dfs)
    requires g.Valid() && -1 <= b < |g.succ0| && st.seen <= g.Nodes()
    ensures |Visit(g, b, st).post| + |g.Nodes() - Visit(g, b, st).seen| <= |st.post| + |g.Nodes() - st.seen|
    decreases g.Nodes() - st.seen
  {
    if 0 <= b && b !in st.seen {
      var st0 := st.(seen := st.seen + {b});
      VisitRoom(g, g.succ0[b], st0);
      VisitRoom(g, g.succ1[b], Visit(g, g.succ0[b], st0));
      UnseenShrinks(g, st.seen, b);
    }
  }

  lemma UnseenShrinks(g: Graph, seen: set<int>, b: int)
    requires b in g.Nodes() && b !in seen
    ensures |g.Nodes() - seen| == |g.Nodes() - (seen + {b})| + 1
  {
    assert g.Nodes() - (seen + {b}) == (g.Nodes() - seen) - {b};
  }

  // ----- reverse postorder -----

  function Reverse(s: seq<int>): (r: seq<int>)
    ensures |r| == |s|
    ensures forall i :: 0 <= i < |s| ==> r[i] == s[|s| - 1 - i]
  {
    if s == [] then [] else [s[|s| - 1]] + Reverse(s[..|s| - 1])
  }

  function Postorder(g: Graph): seq<int>
    requires g.Valid()
  {
    Visit(g, 0, Dfs({}, [])).post
  }

  /** An order of exactly the reachable blocks, without repeats, entry first, in
      which every other block comes after one of its predecessors. */
  ghost predicate IsRpo(g: Graph, rpo: seq<int>)
  {
    && 0 < |rpo| && rpo[0] == 0
    && (forall x :: x in rpo <==> Reachable(g, x))
    && (forall i, j :: 0 <= i < j < |rpo| ==> rpo[i] != rpo[j])
    && (forall i :: 0 < i < |rpo| ==> HasEarlierPred(g, rpo, i))
  }

  ghost predicate HasEarlierPred(g: Graph, rpo: seq<int>, i: int)
    requires 0 <= i < |rpo|
  {
    exists j :: 0 <= j < i && g.Edge(rpo[j], rpo[i])
  }

  /** Walking up the postorder, every listed block is reachable. */
  lemma {:induction false} AddedReachable(g: Graph, added: seq<int>, i: nat)
    requires i < |added| && added[|added| - 1] == 0
    requires forall k :: 0 <= k < |added| - 1 ==> HasLaterPred(g, added, k)
    ensures Reachable(g, added[i])
    decreases |added| - i
  {
    if i == |added| - 1 {
      ReachableEntry(g);
    } else {
      assert HasLaterPred(g, added, i);
      var j :| i < j < |added| && g.Edge(added[j], added[i]);
      AddedReachable(g, added, j);
      ReachableStep(g, added[j], added[i]);
    }
  }

  /** The postorder lists exactly the reachable blocks. */
  lemma PostReachable(g: Graph, post: seq<int>, x: int)
    requires g.Valid()
    requires Adds(g, 0, Dfs({}, []), Visit(g, 0, Dfs({}, [])), post)
    requires forall x :: x in post ==> 0 <= x < |g.succ0| && ClosedIn(g, x, Visit(g, 0, Dfs({}, [])).seen)
    ensures x in post <==> Reachable(g, x)
  {
    hide Visit, HasLaterPred;
    if x in post {
      var i :| 0 <= i < |post| && post[i] == x;
      AddedReachable(g, post, i);
    }
    if Reachable(g, x) {
      var p :| PathTo(g, p, x);
      var seen := Visit(g, 0, Dfs({}, [])).seen;
      forall a, b | a in seen && g.Edge(a, b)
        ensures b in seen
      {
        assert a in post;
        assert ClosedIn(g, a, seen);
      }
      ClosedHasPath(g, seen, p, x);
    }
  }

  lemma ReverseOrder(g: Graph, post: seq<int>)
    requires forall i, j :: 0 <= i < j < |post| ==> post[i] != post[j]
    requires forall i :: 0 <= i < |post| - 1 ==> HasLaterPred(g, post, i)
    ensures var rpo := Reverse(post);
            && (forall x :: x in rpo <==> x in post)
            && (forall i, j :: 0 <= i < j < |rpo| ==> rpo[i] != rpo[j])
            && (forall i :: 0 < i < |rpo| ==> HasEarlierPred(g, rpo, i))
  {
    var rpo, n := Reverse(post), |post|;
    forall x
      ensures x in rpo <==> x in post
    {
      if x in post {
        var i :| 0 <= i < n && post[i] == x;
        assert rpo[n - 1 - i] == x;
      }
    }
    forall i | 0 < i < n
      ensures HasEarlierPred(g, rpo, i)
    {
      assert HasLaterPred(g, post, n - 1 - i);
      var j :| n - 1 - i < j < n && g.Edge(post[j], post[n - 1 - i]);
      assert g.Edge(rpo[n - 1 - j], rpo[i]);
    }
  }

  /** The postorder has the reachable blocks, once each, the entry last. */
  lemma PostIs(g: Graph, post: seq<int>)
    requires g.Valid() && post == Postorder(g)
    ensures post != [] && post[|post| - 1] == 0
    ensures forall x :: x in post <==> Reachable(g, x)
    ensures forall x :: x in Visit(g, 0, Dfs({}, [])).seen <==> x in post
    ensures forall i, j :: 0 <= i < j < |post| ==> post[i] != post[j]
    ensures forall i :: 0 <= i < |post| - 1 ==> HasLaterPred(g, post, i)
  {
    hide HasLaterPred, Reachable, ClosedIn, Visit, Range;
    var added := VisitAdds(g, 0, Dfs({}, []));
    assert post == added;
    forall x
      ensures x in post <==> Reachable(g, x)
    {
      PostReachable(g, post, x);
    }
  }

  /** The reversed postorder is a reverse postorder, and the visited set is reachability. */
  lemma RpoCorrect(g: Graph)
    requires g.Valid()
    ensures IsRpo(g, Reverse(Postorder(g)))
    ensures forall x :: x in Visit(g, 0, Dfs({}, [])).seen <==> Reachable(g, x)
  {
    hide HasLaterPred, HasEarlierPred, Reachable, Visit, Postorder;
    var post := Postorder(g);
    PostIs(g, post);
    ReverseOrder(g, post);
    assert Reverse(post)[0] == post[|post| - 1];
  }

  // ----- which successor goes first -----

  /** p is a path from a to b that does not pass the entry. */
  predicate Bypass(g: Graph, p: seq<int>, a: int, b: int)
  {
    && 0 < |p| && p[0] == a && p[|p| - 1] == b && 0 !in p
    && forall i :: 0 < i < |p| ==> g.Edge(p[i - 1], p[i])
  }

  ghost predicate Leads(g: Graph, a: int, b: int) { exists p :: Bypass(g, p, a, b) }

  predicate Precedes(s: seq<int>, a: int, b: int) { exists i, j :: 0 <= i < j < |s| && s[i] == a && s[j] == b }

  /** Each block a visit adds is led to by its root. */
  lemma {:induction false} AddedLeads(g: Graph, added: seq<int>, i: nat)
    requires i < |added| && 0 !in added
    requires forall k :: 0 <= k < |added| - 1 ==> HasLaterPred(g, added, k)
    ensures Leads(g, added[|added| - 1], added[i])
    decreases |added| - i
  {
    var a := added[|added| - 1];
    if i == |added| - 1 {
      assert Bypass(g, [a], a, a);
    } else {
      assert HasLaterPred(g, added, i);
      var j :| i < j < |added| && g.Edge(added[j], added[i]);
      AddedLeads(g, added, j);
      var p :| Bypass(g, p, a, added[j]);
      assert Bypass(g, p + [added[i]], a, added[i]);
    }
  }

  /** What a block of a closed set leads to is in the set. */
  lemma {:induction false} LeadsInside(g: Graph, closed: set<int>, p: seq<int>, a: int, b: int)
    requires Bypass(g, p, a, b) && a in closed
    requires forall x, y :: x in closed && g.Edge(x, y) && y != 0 ==> y in closed
    ensures b in closed
    decreases |p|
  {
    if |p| > 1 {
      var q := p[..|p| - 1];
      assert Bypass(g, q, a, q[|q| - 1]);
      LeadsInside(g, closed, q, a, q[|q| - 1]);
      assert g.Edge(p[|p| - 2], p[|p| - 1]);
    }
  }

  /** The entry's first successor is searched before its second: it also finishes first,
      unless it leads to the second without passing the entry. */
  lemma FirstSlotFirst(g: Graph)
    requires g.Valid() && 0 < g.succ0[0] && 0 < g.succ1[0] && g.succ0[0] != g.succ1[0]
    ensures Precedes(Postorder(g), g.succ0[0], g.succ1[0]) <==> !Leads(g, g.succ0[0], g.succ1[0])
    ensures Precedes(Postorder(g), g.succ1[0], g.succ0[0]) <==> Leads(g, g.succ0[0], g.succ1[0])
  {
    hide Visit, HasLaterPred, Leads, Precedes;
    var a, b, st0 := g.succ0[0], g.succ1[0], Dfs({0}, []);
    VisitUnfold(g, 0, Dfs({}, []));
    assert Dfs({}, []).(seen := {} + {0}) == st0;
    var st1 := Visit(g, a, st0);
    var a1 := VisitAdds(g, a, st0);
    var a2 := VisitAdds(g, b, st1);
    assert Postorder(g) == a1 + a2 + [0];
    FirstAdds(g, st1, a1);
    DistinctConcat(a1, a2);
    DistinctConcat(a1 + a2, [0]);
    Placed(a1, a2, a, b, b in a1);
  }

  /** The first visit adds the second successor exactly when the first leads to it. */
  lemma FirstAdds(g: Graph, st1: Dfs, a1: seq<int>)
    requires g.Valid() && 0 < g.succ0[0] && 0 < g.succ1[0]
    requires Adds(g, g.succ0[0], Dfs({0}, []), st1, a1)
    requires forall x :: x in a1 ==> 0 <= x < |g.succ0| && ClosedIn(g, x, st1.seen)
    ensures g.succ1[0] in a1 <==> Leads(g, g.succ0[0], g.succ1[0])
  {
    hide HasLaterPred;
    var a, b := g.succ0[0], g.succ1[0];
    assert a in a1;
    if b in a1 {
      var i :| 0 <= i < |a1| && a1[i] == b;
      AddedLeads(g, a1, i);
    }
    if Leads(g, a, b) {
      var p :| Bypass(g, p, a, b);
      var closed := set x | x in a1;
      forall x, y | x in closed && g.Edge(x, y) && y != 0
        ensures y in closed
      {
        assert ClosedIn(g, x, st1.seen);
      }
      LeadsInside(g, closed, p, a, b);
    }
  }

  lemma Placed(a1: seq<int>, a2: seq<int>, a: int, b: int, inFirst: bool)
    requires a1 != [] && a1[|a1| - 1] == a && a != b && a != 0 && b != 0
    requires forall i, j :: 0 <= i < j < |a1 + a2 + [0]| ==> (a1 + a2 + [0])[i] != (a1 + a2 + [0])[j]
    requires inFirst == (b in a1) && (b in a1 || b in a2)
    ensures Precedes(a1 + a2 + [0], a, b) <==> !inFirst
    ensures Precedes(a1 + a2 + [0], b, a) <==> inFirst
  {
    var post, at := a1 + a2 + [0], |a1| - 1;
    var j: int;
    if inFirst {
      j :| 0 <= j < |a1| && a1[j] == b;
    } else {
      var k :| 0 <= k < |a2| && a2[k] == b;
      j := |a1| + k;
    }
    assert post[at] == a && post[j] == b;
    assert forall i :: 0 <= i < |post| && post[i] == a ==> i == at;
    assert forall i :: 0 <= i < |post| && post[i] == b ==> i == j;
  }

  // ----- the recursive visit in place -----

  ghost predicate Marks(visited: array<bool>, n: nat, seen: set<int>)
    reads visited
  {
    visited.Length == n && forall i :: 0 <= i < n ==> (visited[i] <==> i in seen)
  }

  /** Marks b and everything newly reachable from it, appending to `post` in postorder. */
  method RpoVisit(g: Graph, b: int, visited: array<bool>, reachable: array<bool>, post: array<int>, postCount: nat, ghost st: Dfs)
    returns (count: nat)
    requires g.Valid() && -1 <= b < |g.succ0|
    requires visited != reachable && st.seen <= g.Nodes()
    requires Marks(visited, |g.succ0|, st.seen) && Marks(reachable, |g.succ0|, st.seen)
    requires postCount + |g.Nodes() - st.seen| <= post.Length && post[..postCount] == st.post
    modifies visited, reachable, post
    ensures count <= post.Length && post[..count] == Visit(g, b, st).post
    ensures Marks(visited, |g.succ0|, Visit(g, b, st).seen) && Marks(reachable, |g.succ0|, Visit(g, b, st).seen)
    decreases g.Nodes() - st.seen
  {
    hide Visit, Range;
    VisitUnfold(g, b, st);
    if b < 0 || visited[b] {
      return postCount;
    }
    visited[b] := true;
    reachable[b] := true;
    ghost var st0 := st.(seen := st.seen + {b});
    UnseenShrinks(g, st.seen, b);
    VisitRoom(g, g.succ0[b], st0);
    count := RpoVisit(g, g.succ0[b], visited, reachable, post, postCount, st0);
    ghost var st1 := Visit(g, g.succ0[b], st0);
    VisitRoom(g, g.succ1[b], st1);
    count := RpoVisit(g, g.succ1[b], visited, reachable, post, count, st1);
    count := Append(post, count, b);
  }

  method Append(post: array<int>, count: nat, b: int) returns (count': nat)
    requires count < post.Length
    modifies post
    ensures count' == count + 1 && post[..count'] == old(post[..count]) + [b]
  {
    post[count] := b;
    count' := count + 1;
  }

  /** The reverse postorder and the reachable flags of a graph. */
  method ComputeRpo(g: Graph) returns (rpo: array<int>, reachable: array<bool>)
    requires g.Valid()
    ensures fresh(rpo) && fresh(reachable)
    ensures rpo[..] == Reverse(Postorder(g))
    ensures IsRpo(g, rpo[..])
    ensures reachable.Length == |g.succ0|
    ensures forall i :: 0 <= i < |g.succ0| ==> (reachable[i] <==> Reachable(g, i))
  {
    hide IsRpo, Visit, Reverse, Reachable;
    var n := |g.succ0|;
    var visited := new bool[n](_ => false);
    reachable := new bool[n](_ => false);
    var post := new int[n](_ => 0);
    assert g.Nodes() - {} == g.Nodes();
    var count := RpoVisit(g, 0, visited, reachable, post, 0, Dfs({}, []));
    rpo := Reversed(post, count);
    RpoCorrect(g);
  }

  method Reversed(post: array<int>, count: nat) returns (rpo: array<int>)
    requires count <= post.Length
    ensures fresh(rpo) && rpo[..] == Reverse(post[..count])
  {
    rpo := new int[count](_ => 0);
    var i := 0;
    while i < count
      invariant 0 <= i <= count
      invariant forall k :: 0 <= k < i ==> rpo[k] == post[count - 1 - k]
    {
      rpo[i] := post[count - 1 - i];
      i := i + 1;
    }
  }
}
