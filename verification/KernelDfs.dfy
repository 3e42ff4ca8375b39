/** The kernel's reverse postorder (kernel/merlin/cfg.c), which replaces the
    recursive visit by an explicit stack, and its equality with the recursive one. */
module KernelDfs {
  import opened Basics
  import opened Graphs

  predicate InRange(g: Graph, s: seq<int>) { forall i :: 0 <= i < |s| ==> 0 <= s[i] < |g.succ0| }

  /** What is left to do when `stack` holds blocks whose visit has begun: finish the
      top one by visiting its remaining successors, then the one below, and so on. */
  function Resume(g: Graph, stack: seq<int>, st: Dfs): Dfs
    requires g.Valid() && InRange(g, stack) && st.seen <= g.Nodes()
    decreases |stack|
  {
    if stack == [] then st
    else
      var b := stack[|stack| - 1];
      var st1 := Visit(g, g.succ0[b], st);
      var st2 := Visit(g, g.succ1[b], st1);
      Resume(g, stack[..|stack| - 1], st2.(post := st2.post + [b]))
  }

  /** The first successor of b that is not seen, or -1. */
  function NextUnseen(g: Graph, b: int, seen: set<int>): int
    requires g.Valid() && 0 <= b < |g.succ0|
  {
    if g.succ0[b] >= 0 && g.succ0[b] !in seen then g.succ0[b]
    else if g.succ1[b] >= 0 && g.succ1[b] !in seen then g.succ1[b]
    else -1
  }

  /** Pushing the first unseen successor does not change what is left to do. */
  lemma ResumePush(g: Graph, stack: seq<int>, st: Dfs, next: int)
    requires g.Valid() && stack != [] && InRange(g, stack) && st.seen <= g.Nodes()
    requires next == NextUnseen(g, stack[|stack| - 1], st.seen) >= 0
    ensures Resume(g, stack + [next], st.(seen := st.seen + {next})) == Resume(g, stack, st)
  {
    hide Visit, Range;
    var b := stack[|stack| - 1];
    var st0 := st.(seen := st.seen + {next});
    assert (stack + [next])[..|stack|] == stack;
    var st1 := Visit(g, g.succ0[next], st0);
    var st2 := Visit(g, g.succ1[next], st1);
    var st' := st2.(post := st2.post + [next]);
    assert Resume(g, stack + [next], st0) == Resume(g, stack, st');
    VisitUnfold(g, next, st);
    assert Visit(g, next, st) == st';
    // next is seen from now on, so the blocks below will skip it
    VisitUnfold(g, g.succ0[b], st);
    VisitUnfold(g, g.succ0[b], st');
    VisitUnfold(g, g.succ1[b], st');
  }

  /** With no unseen successor the top block is finished. */
  lemma ResumePop(g: Graph, stack: seq<int>, st: Dfs)
    requires g.Valid() && stack != [] && InRange(g, stack) && st.seen <= g.Nodes()
    requires NextUnseen(g, stack[|stack| - 1], st.seen) < 0
    ensures Resume(g, stack, st) ==
            Resume(g, stack[..|stack| - 1], st.(post := st.post + [stack[|stack| - 1]]))
  {
    hide Visit, Range;
    var b := stack[|stack| - 1];
    VisitUnfold(g, g.succ0[b], st);
    VisitUnfold(g, g.succ1[b], st);
  }

  lemma ResumeStart(g: Graph)
    requires g.Valid()
    ensures Resume(g, [0], Dfs({0}, [])) == Visit(g, 0, Dfs({}, []))
  {
    hide Visit, Range;
    var st := Dfs({}, []);
    VisitUnfold(g, 0, st);
    assert st.(seen := st.seen + {0}) == Dfs({0}, []);
  }

  /** The loop invariant.  `seen` counts the block on top of the stack even before it
      is coloured; every seen block was pushed once and sits on the stack or in the
      postorder; and finishing the stack yields what the recursive visit yields. */
  ghost predicate Inv(g: Graph, stack: seq<int>, state: seq<int>, reachable: seq<bool>, st: Dfs, pushed: seq<int>)
    requires g.Valid()
  {
    && |state| == |reachable| == |g.succ0|
    && InRange(g, stack) && st.seen <= g.Nodes()
    && (forall i :: 0 <= i < |state| ==> (i in st.seen <==> state[i] != 0 || (stack != [] && i == stack[|stack| - 1])))
    && (forall i :: 0 <= i < |state| ==> (reachable[i] <==> state[i] != 0))
    && (forall i :: 0 <= i < |stack| ==> stack[i] in st.seen)
    && |st.post| + |stack| == |st.seen|
    && Distinct(pushed) && (forall x :: x in pushed <==> x in st.seen)
    && Resume(g, stack, st) == Visit(g, 0, Dfs({}, []))
  }

  lemma InvRoom(g: Graph, stack: seq<int>, state: seq<int>, reachable: seq<bool>, st: Dfs, pushed: seq<int>)
    requires g.Valid() && Inv(g, stack, state, reachable, st, pushed)
    ensures |st.post| + |stack| <= |g.succ0|
    ensures stack != [] && NextUnseen(g, stack[|stack| - 1], st.seen) >= 0 ==> |st.post| + |stack| < |g.succ0|
  {
    hide Resume, Visit, Range;
    SubsetCount(g, st.seen);
    if stack != [] {
      var next := NextUnseen(g, stack[|stack| - 1], st.seen);
      if next >= 0 { SubsetCount(g, st.seen + {next}); }
    }
  }

  lemma InvPush(g: Graph, stack: seq<int>, state: seq<int>, reachable: seq<bool>, st: Dfs, pushed: seq<int>, next: int)
    requires g.Valid() && Inv(g, stack, state, reachable, st, pushed) && stack != []
    requires state[stack[|stack| - 1]] != 0 && next == NextUnseen(g, stack[|stack| - 1], st.seen) >= 0
    ensures Inv(g, stack + [next], state, reachable, st.(seen := st.seen + {next}), pushed + [next])
  {
    hide Resume, Visit, Range;
    ResumePush(g, stack, st, next);
  }

  lemma InvPop(g: Graph, stack: seq<int>, state: seq<int>, reachable: seq<bool>, st: Dfs, pushed: seq<int>)
    requires g.Valid() && Inv(g, stack, state, reachable, st, pushed) && stack != []
    requires state[stack[|stack| - 1]] != 0 && NextUnseen(g, stack[|stack| - 1], st.seen) < 0
    ensures var b := stack[|stack| - 1];
            Inv(g, stack[..|stack| - 1], state[b := 2], reachable, st.(post := st.post + [b]), pushed)
  {
    hide Resume, Visit, Range;
    ResumePop(g, stack, st);
    assert InRange(g, stack[..|stack| - 1]);
  }

  ghost predicate SeenIs(state: seq<int>, seen: set<int>)
  {
    forall i :: 0 <= i < |state| ==> (i in seen <==> state[i] != 0)
  }

  lemma InvInit(g: Graph, state: seq<int>, reachable: seq<bool>)
    requires g.Valid() && |state| == |reachable| == |g.succ0|
    requires forall i :: 0 <= i < |state| ==> state[i] == 0 && !reachable[i]
    ensures Inv(g, [0], state, reachable, Dfs({0}, []), [0])
  {
    hide Resume, Visit, Range;
    ResumeStart(g);
  }

  /** Colouring the top block keeps the invariant; the top block is then in range and coloured. */
  lemma InvColour(g: Graph, stack: seq<int>, state: seq<int>, reachable: seq<bool>, st: Dfs, pushed: seq<int>)
    requires g.Valid() && Inv(g, stack, state, reachable, st, pushed) && stack != []
    ensures var b := stack[|stack| - 1];
            && 0 <= b < |g.succ0| == |state| == |reachable|
            && (state[b] == 0 ==> Inv(g, stack, state[b := 1], reachable[b := true], st, pushed))
            && SeenIs(if state[b] == 0 then state[b := 1] else state, st.seen)
  {
    hide Resume, Visit, Range;
  }

  lemma InvDone(g: Graph, state: seq<int>, reachable: seq<bool>, st: Dfs, pushed: seq<int>)
    requires g.Valid() && Inv(g, [], state, reachable, st, pushed)
    ensures st == Visit(g, 0, Dfs({}, []))
    ensures |reachable| == |g.succ0| && forall i :: 0 <= i < |reachable| ==> (reachable[i] <==> i in st.seen)
    ensures Distinct(pushed) && forall x :: x in pushed <==> x in st.seen
  {
    hide Visit, Range;
  }

  method FindNext(g: Graph, b: int, state: array<int>, ghost seen: set<int>) returns (next: int)
    requires g.Valid() && 0 <= b < |g.succ0| == state.Length
    requires SeenIs(state[..], seen)
    ensures next == NextUnseen(g, b, seen)
  {
    assert forall i :: 0 <= i < state.Length ==> (i in seen <==> state[..][i] != 0);
    next := -1;
    var s := 0;
    while s < 2
      invariant 0 <= s <= 2
      invariant next == -1
      invariant s > 0 ==> g.succ0[b] < 0 || g.succ0[b] in seen
      invariant s > 1 ==> g.succ1[b] < 0 || g.succ1[b] in seen
    {
      var n := if s == 0 then g.succ0[b] else g.succ1[b];
      if n >= 0 && state[n] == 0 {
        next := n;
        break;
      }
      s := s + 1;
    }
  }

  method Colour(b: int, state: array<int>, reachable: array<bool>)
    requires 0 <= b < state.Length == reachable.Length
    modifies state, reachable
    ensures old(state[b]) == 0 ==> state[..] == old(state[..])[b := 1] && reachable[..] == old(reachable[..])[b := true]
    ensures old(state[b]) != 0 ==> state[..] == old(state[..]) && reachable[..] == old(reachable[..])
    ensures state[b] != 0
  {
    if state[b] == 0 {
      state[b] := 1;
      reachable[b] := true;
    }
  }

  /** Colours the top block and looks for a successor to go to; whatever comes next has
      room in the arrays. */
  method Look(g: Graph, stack: array<int>, top: nat, state: array<int>, reachable: array<bool>, ghost st: Dfs, ghost pushed: seq<int>)
    returns (b: int, next: int)
    requires g.Valid() && 0 < top <= stack.Length && state != stack
    requires Inv(g, stack[..top], state[..], reachable[..], st, pushed)
    modifies state, reachable
    ensures Inv(g, stack[..top], state[..], reachable[..], st, pushed)
    ensures b == stack[top - 1] && 0 <= b < |g.succ0| == state.Length && state[b] != 0
    ensures next == NextUnseen(g, b, st.seen) && (next >= 0 ==> next in g.Nodes() && next !in st.seen)
    ensures |st.post| + top <= |g.succ0| && (next >= 0 ==> |st.post| + top < |g.succ0|)
  {
    hide Inv, SeenIs, NextUnseen, Range;
    b := stack[top - 1];
    InvColour(g, stack[..top], state[..], reachable[..], st, pushed);
    Colour(b, state, reachable);
    next := FindNext(g, b, state, st.seen);
    InvRoom(g, stack[..top], state[..], reachable[..], st, pushed);
    NextInRange(g, b, st.seen);
  }

  method Finish(b: int, state: array<int>, post: array<int>, count: nat) returns (count': nat)
    requires 0 <= b < state.Length && count < post.Length && state != post
    modifies state, post
    ensures state[..] == old(state[..])[b := 2]
    ensures count' == count + 1 && post[..count'] == old(post[..count]) + [b]
  {
    state[b] := 2;
    count' := Append(post, count, b);
  }

  /** The explicit-stack search.  It computes the very reverse postorder and flags of
      the recursive one, and pushes each reachable block exactly once, so that its
      stack and postorder arrays, one slot per block, never overflow. */
  method ComputeRpoIterative(g: Graph) returns (rpo: array<int>, reachable: array<bool>, ghost pushed: seq<int>)
    requires g.Valid()
    ensures rpo[..] == Reverse(Postorder(g))
    ensures Marks(reachable, |g.succ0|, Visit(g, 0, Dfs({}, [])).seen)
    ensures Distinct(pushed) && forall x :: x in pushed <==> x in Visit(g, 0, Dfs({}, [])).seen
  {
    hide Visit, Range, Reverse, Resume, NextUnseen, Inv, SeenIs, Distinct;
    var n := |g.succ0|;
    var stack := new int[n](_ => 0);
    var state := new int[n](_ => 0);
    reachable := new bool[n](_ => false);
    var post := new int[n](_ => 0);
    var top, count := 1, 0;
    stack[0] := 0;
    ghost var st := Dfs({0}, []);
    pushed := [0];
    assert stack[..top] == [0];
    InvInit(g, state[..], reachable[..]);
    while top > 0
      invariant 0 <= top <= n && 0 <= count <= n
      invariant post[..count] == st.post
      invariant Inv(g, stack[..top], state[..], reachable[..], st, pushed)
      decreases g.Nodes() - st.seen, top
    {
      var b, next := Look(g, stack, top, state, reachable, st, pushed);
      if next >= 0 {
        InvPush(g, stack[..top], state[..], reachable[..], st, pushed, next);
        top := Append(stack, top, next);
        st, pushed := st.(seen := st.seen + {next}), pushed + [next];
      } else {
        InvPop(g, stack[..top], state[..], reachable[..], st, pushed);
        count := Finish(b, state, post, count);
        top, st := top - 1, st.(post := st.post + [b]);
        assert stack[..top] == stack[..top + 1][..top];
      }
    }
    InvDone(g, state[..], reachable[..], st, pushed);
    rpo := Reversed(post, count);
  }

  lemma NextInRange(g: Graph, b: int, seen: set<int>)
    requires g.Valid() && 0 <= b < |g.succ0|
    ensures var next := NextUnseen(g, b, seen); next < |g.succ0| && (next >= 0 ==> next !in seen && next in g.Nodes())
  {
  }

  lemma SubsetCount(g: Graph, s: set<int>)
    requires s <= g.Nodes()
    ensures |s| <= |g.succ0|
  {
    var rest := g.Nodes() - s;
    assert s + rest == g.Nodes();
  }
}
