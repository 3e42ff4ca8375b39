/** The shape of the depth-first postorder: the blocks visited from a block stand right
    before it, and an edge that goes back in the reverse postorder comes from among them. */
module DfsTree {
  import opened Graphs

  /** From lo on, up to j, every block is reached from a later one up to j; no block
      before lo has an edge to the one at j. */
  ghost predicate Segment(g: Graph, s: seq<int>, lo: int, j: int)
  {
    && 0 <= lo <= j < |s|
    && (forall i :: lo <= i < j ==> ReachedIn(g, s, i, j))
    && (forall i :: 0 <= i < lo ==> !g.Edge(s[i], s[j]))
  }

  ghost predicate ReachedIn(g: Graph, s: seq<int>, i: int, j: int)
    requires 0 <= i < j < |s|
  {
    exists k :: i < k <= j && g.Edge(s[k], s[i])
  }

  ghost predicate Segmented(g: Graph, s: seq<int>) { forall j :: 0 <= j < |s| ==> HasSegment(g, s, j) }

  ghost predicate HasSegment(g: Graph, s: seq<int>, j: int) { exists lo :: Segment(g, s, lo, j) }

  /** What a visit appends is segmented. */
  lemma {:induction false} VisitSegmented(g: Graph, b: int, st: Dfs) returns (added: seq<int>)
    requires g.Valid() && -1 <= b < |g.succ0| && st.seen <= g.Nodes()
    ensures Adds(g, b, st, Visit(g, b, st), added) && Segmented(g, added)
    ensures forall x :: x in added ==> 0 <= x < |g.succ0| && ClosedIn(g, x, Visit(g, b, st).seen)
    decreases g.Nodes() - st.seen
  {
    hide Visit, Range, Segmented, HasLaterPred;
    VisitUnfold(g, b, st);
    if b < 0 || b in st.seen {
      added := [];
      EmptySegmented(g);
    } else {
      var st0 := st.(seen := st.seen + {b});
      var st1 := Visit(g, g.succ0[b], st0);
      var st2 := Visit(g, g.succ1[b], st1);
      var a1 := VisitSegmented(g, g.succ0[b], st0);
      var a2 := VisitSegmented(g, g.succ1[b], st1);
      added := a1 + a2 + [b];
      AddsCompose(g, b, st, st1, st2, a1, a2);
      SegmentsCompose(g, a1, a2, b, st1.seen);
    }
  }

  lemma EmptySegmented(g: Graph)
    ensures Segmented(g, [])
  {
  }

  lemma SegmentsCompose(g: Graph, a1: seq<int>, a2: seq<int>, b: int, seen1: set<int>)
    requires g.Valid() && Segmented(g, a1) && Segmented(g, a2)
    requires forall x :: x in a1 ==> 0 <= x < |g.succ0| && ClosedIn(g, x, seen1)
    requires forall x :: x in a2 ==> x !in seen1
    requires var s := a1 + a2 + [b]; forall i :: 0 <= i < |s| - 1 ==> HasLaterPred(g, s, i)
    ensures Segmented(g, a1 + a2 + [b])
  {
    hide HasLaterPred, ReachedIn;
    var s := a1 + a2 + [b];
    forall j | 0 <= j < |s|
      ensures HasSegment(g, s, j)
    {
      if j < |a1| {
        assert HasSegment(g, a1, j);
        var lo :| Segment(g, a1, lo, j);
        SegmentMoves(g, a1, [], s, lo, j);
      } else if j < |a1| + |a2| {
        var j' := j - |a1|;
        assert HasSegment(g, a2, j');
        var lo :| Segment(g, a2, lo, j');
        forall i | 0 <= i < |a1|
          ensures !g.Edge(a1[i], a2[j'])
        {
          assert a1[i] in a1 && a2[j'] in a2;
        }
        SegmentMoves(g, a2, a1, s, lo, j');
      } else {
        WholeSegment(g, s);
      }
    }
  }

  /** A segment stays one where its sequence stands after blocks without an edge to it. */
  lemma SegmentMoves(g: Graph, a: seq<int>, pre: seq<int>, s: seq<int>, lo: int, j: int)
    requires Segment(g, a, lo, j) && |pre| + |a| <= |s| && s[..|pre|] == pre && s[|pre|..|pre| + |a|] == a
    requires forall i :: 0 <= i < |pre| ==> !g.Edge(pre[i], a[j])
    ensures HasSegment(g, s, |pre| + j)
  {
    hide ReachedIn;
    var n, at := |pre|, |pre| + j;
    assert forall i :: 0 <= i < |a| ==> s[n + i] == a[i];
    assert forall i :: 0 <= i < n ==> s[i] == pre[i];
    forall i | n + lo <= i < at
      ensures ReachedIn(g, s, i, at)
    {
      assert ReachedIn(g, a, i - n, j);
      ReachedMoves(g, a, n, s, i - n, j);
    }
    forall i | 0 <= i < n + lo
      ensures !g.Edge(s[i], s[at])
    {
      if i >= n { assert !g.Edge(a[i - n], a[j]); }
    }
    assert Segment(g, s, n + lo, at);
  }

  lemma ReachedMoves(g: Graph, a: seq<int>, n: nat, s: seq<int>, i: int, j: int)
    requires 0 <= i < j < |a| && n + |a| <= |s| && (forall k :: 0 <= k < |a| ==> s[n + k] == a[k]) && ReachedIn(g, a, i, j)
    ensures ReachedIn(g, s, n + i, n + j)
  {
    var k :| i < k <= j && g.Edge(a[k], a[i]);
    assert g.Edge(s[n + k], s[n + i]);
  }

  lemma WholeSegment(g: Graph, s: seq<int>)
    requires s != [] && forall i :: 0 <= i < |s| - 1 ==> HasLaterPred(g, s, i)
    ensures HasSegment(g, s, |s| - 1)
  {
    hide ReachedIn, HasLaterPred;
    var last := |s| - 1;
    forall i | 0 <= i < last
      ensures ReachedIn(g, s, i, last)
    {
      assert HasLaterPred(g, s, i);
      LaterIsReached(g, s, i);
    }
    assert Segment(g, s, 0, last);
  }

  lemma LaterIsReached(g: Graph, s: seq<int>, i: int)
    requires 0 <= i < |s| - 1 && HasLaterPred(g, s, i)
    ensures ReachedIn(g, s, i, |s| - 1)
  {
  }

  /** Positions of a path that goes down the postorder, from j to i. */
  ghost predicate Descends(g: Graph, s: seq<int>, q: seq<int>, j: int, i: int)
  {
    && 0 < |q| && q[0] == j && q[|q| - 1] == i
    && (forall t :: 0 <= t < |q| ==> 0 <= q[t] < |s|)
    && (forall t :: 0 < t < |q| ==> q[t] < q[t - 1] && g.Edge(s[q[t - 1]], s[q[t]]))
  }

  lemma {:induction false} SegmentPath(g: Graph, s: seq<int>, lo: int, j: int, i: int) returns (q: seq<int>)
    requires Segment(g, s, lo, j) && lo <= i <= j
    ensures Descends(g, s, q, j, i)
    decreases j - i
  {
    if i == j {
      q := [j];
    } else {
      assert ReachedIn(g, s, i, j);
      var k :| i < k <= j && g.Edge(s[k], s[i]);
      q := SegmentPath(g, s, lo, j, k);
      q := q + [i];
    }
  }

  /** An edge from position i to a position j no earlier closes a path that leads down the
      postorder from j to i. */
  lemma RetreatingCloses(g: Graph, i: int, j: int) returns (q: seq<int>)
    requires g.Valid()
    requires var s := Postorder(g); 0 <= i <= j < |s| && g.Edge(s[i], s[j])
    ensures Descends(g, Postorder(g), q, j, i)
  {
    hide Visit, Range;
    var s := Postorder(g);
    var added := VisitSegmented(g, 0, Dfs({}, []));
    assert added == s;
    assert HasSegment(g, s, j);
    var lo :| Segment(g, s, lo, j);
    q := SegmentPath(g, s, lo, j, i);
  }
}
