/** The worklist analysis `merlin_verify_text` (tools/merlin-verifier/verify.c). */
module Verify {
  import opened Basics
  import opened Words
  import opened Decoder
  import opened Tnums
  import opened Domain
  import opened Transfer
  import opened Graphs
  import opened ControlFlow
  import Dominators

  const STEP_CAP_DEFAULT: int := 0x10_0000

  function StepCap(c: Config): int { if c.stepCap != 0 then c.stepCap else STEP_CAP_DEFAULT }

  // ----- entry state -----

  function InitRegs(c: Config): (x: seq<RVal>)
  {
    seq(32, r requires 0 <= r < 32 =>
      if r == 0 then NumConst(0)
      else if r == 2 then PtrStack(0, 0)
      else if r == 10 then
        (if c.isCallback then Num(Scalar(0, TWO63 - 1, 0, 0, Top())) else PtrCtx(0, 0))
      else if r == 11 && c.isCallback then PtrCtx(0, 0)
      else Uninit)
  }

  function InitState(c: Config): VState { VState(InitRegs(c), true) }

  // ----- replaying a stretch of instructions -----

  lemma AluImmRange(text: seq<u8>, k: int)
    requires Words4(text) && 0 <= k < Count(text)
    ensures Ins(text, k).cls.AluImm? ==> -0x800 <= Ins(text, k).imm < 0x800
  {
    hide Decode;
    ImmRanges(WordAt(text, 4 * k));
  }

  /** The registers after the k instructions from index `at` on. */
  function RegsAt(text: seq<u8>, c: Config, x: seq<RVal>, at: int, k: nat): (y: seq<RVal>)
    requires Words4(text) && |x| == 32 && 0 <= at && at + k <= Count(text)
    ensures |y| == 32
  {
    if k == 0 then x
    else Regs(Ins(text, at + k - 1), RegsAt(text, c, x, at, k - 1), c)
  }

  /** Rejections raised by those instructions. */
  function RejectsOf(text: seq<u8>, c: Config, x: seq<RVal>, at: int, k: nat): nat
    requires Words4(text) && |x| == 32 && 0 <= at && at + k <= Count(text)
  {
    if k == 0 then 0
    else RejectsOf(text, c, x, at, k - 1) + Rejects(Ins(text, at + k - 1), RegsAt(text, c, x, at, k - 1), c)
  }

  /** Loop bound pending after those instructions. */
  function PendingOf(text: seq<u8>, c: Config, x: seq<RVal>, at: int, k: nat): u32
    requires Words4(text) && |x| == 32 && 0 <= at && at + k <= Count(text)
  {
    if k == 0 then 0
    else Pending(Ins(text, at + k - 1), RegsAt(text, c, x, at, k - 1), c, PendingOf(text, c, x, at, k - 1))
  }

  predicate InText(text: seq<u8>, b: Block)
  {
    Words4(text) && 0 <= b.start <= b.end < |text| && b.start % 4 == 0 && b.end % 4 == 0
  }

  function At(b: Block): int { b.start / 4 }
  function Len(b: Block): int { (b.end - b.start) / 4 + 1 }

  function OutOf(text: seq<u8>, c: Config, b: Block, x: seq<RVal>): (y: seq<RVal>)
    requires InText(text, b) && |x| == 32
    ensures |y| == 32
  {
    RegsAt(text, c, x, At(b), Len(b))
  }

  lemma {:induction false} RejectsZero(text: seq<u8>, c: Config, x: seq<RVal>, at: int, k: nat, j: nat)
    requires Words4(text) && |x| == 32 && 0 <= at && at + k <= Count(text) && j < k
    requires RejectsOf(text, c, x, at, k) == 0
    ensures Rejects(Ins(text, at + j), RegsAt(text, c, x, at, j), c) == 0 && RejectsOf(text, c, x, at, j) == 0
  {
    hide Rejects, Regs, Ins;
    if j < k - 1 { RejectsZero(text, c, x, at, k - 1, j); }
  }

  // ----- what every step keeps -----

  lemma RegsWf(i: Insn, x: seq<RVal>, c: Config)
    requires WfRegs(x)
    ensures WfRegs(Regs(i, x, c))
  {
    hide Wf, ScalarAdd, Allowed, ScalarIsConst;
    TopWf();
    forall s: Scalar | Wf(s.tn)
      ensures Wf(ScalarAdd(s, ScalarConst(i.imm)).tn)
    {
      AddConstWf(s, i.imm);
    }
    ConstWf(Wrap64(i.imm));
  }

  lemma AddConstWf(s: Scalar, v: i64)
    requires Wf(s.tn)
    ensures Wf(ScalarAdd(s, ScalarConst(v)).tn)
  {
    hide Wf, Tnums.Add;
    ConstWf(Wrap64(v));
    WfPreserved(s.tn, Const(Wrap64(v)), 0);
  }

  lemma ConstWf(v: u64)
    ensures Wf(Const(v))
  {
    hide Wf, Has;
    ConstHas(v, v);
    HasWf(Const(v));
  }

  /** Every tracked offset is within SPAN + 2^11 * m. */
  predicate Within(v: RVal, m: int) { v.PtrCtx? || v.PtrStack? ==> -SPAN - 0x800 * m <= v.lo && v.hi <= SPAN + 0x800 * m && v.lo <= v.hi }
  predicate OffsetsWithin(x: seq<RVal>, m: int) { forall r :: 0 <= r < |x| ==> Within(x[r], m) }

  lemma RegsWithin(i: Insn, x: seq<RVal>, c: Config, m: nat)
    requires |x| == 32 && (i.cls.AluImm? ==> -0x800 <= i.imm < 0x800) && OffsetsWithin(x, m)
    ensures OffsetsWithin(Regs(i, x, c), m + 1)
  {
    hide ScalarAdd, Allowed, ScalarIsConst;
  }

  lemma JoinWithin(a: RVal, b: RVal, m: int, m': int)
    requires Within(a, m) && Within(b, m') && m <= m'
    ensures Within(JoinVal(a, b), m') && Within(a, m')
  {
    hide ScalarJoin;
  }

  /** sp is stack-tracked inside the frame, or a scalar. */
  predicate SpInFrame(x: seq<RVal>, c: Config)
  {
    |x| == 32 && (x[2].Num? || (x[2].PtrStack? && 0 <= x[2].lo + c.maxStack && x[2].hi <= 0))
  }

  lemma RegsSp(i: Insn, x: seq<RVal>, c: Config)
    requires SpInFrame(x, c) && Rejects(i, x, c) == 0
    ensures SpInFrame(Regs(i, x, c), c)
  {
    hide ScalarAdd, Allowed, ScalarIsConst;
  }

  /** What an analysis state keeps: well-formed tnums, bounded offsets and, as long as
      nothing was rejected, sp inside the frame. */
  predicate Sane(x: seq<RVal>, c: Config, steps: int, clean: bool)
  {
    WfRegs(x) && OffsetsWithin(x, steps) && (clean ==> SpInFrame(x, c))
  }

  lemma InitSane(c: Config)
    ensures Sane(InitRegs(c), c, 0, true)
  {
    hide Wf;
    TopWf();
    ConstWf(Wrap64(0));
    var x := InitRegs(c);
    forall r | 0 <= r < 32
      ensures WfVal(x[r]) && Within(x[r], 0)
    {
      assert x[0] == NumConst(0);
    }
    assert x[2] == PtrStack(0, 0);
  }

  lemma StepSane(text: seq<u8>, k: int, x: seq<RVal>, c: Config, steps: nat, clean: bool)
    requires Words4(text) && 0 <= k < Count(text) && Sane(x, c, steps, clean)
    ensures Sane(Regs(Ins(text, k), x, c), c, steps + 1, clean && Rejects(Ins(text, k), x, c) == 0)
  {
    hide WfRegs, OffsetsWithin, SpInFrame, Ins, Regs, Rejects;
    AluImmRange(text, k);
    WfLen(x);
    RegsWf(Ins(text, k), x, c);
    RegsWithin(Ins(text, k), x, c, steps);
    if clean && Rejects(Ins(text, k), x, c) == 0 { RegsSp(Ins(text, k), x, c); }
  }

  lemma WfLen(x: seq<RVal>)
    requires WfRegs(x)
    ensures |x| == 32
  {
  }

  lemma JoinSane(dst: VState, src: VState, c: Config, m: nat, m': nat, clean: bool)
    requires |dst.x| == 32 && |src.x| == 32 && m <= m'
    requires dst.valid ==> Sane(dst.x, c, m, clean)
    requires src.valid && Sane(src.x, c, m', clean)
    ensures Sane(JoinState(dst, src).x, c, m', clean)
  {
    hide WfVal, JoinVal, Within, SpInFrame;
    if dst.valid {
      forall r | 0 <= r < 32
        ensures WfVal(JoinVal(dst.x[r], src.x[r])) && Within(JoinVal(dst.x[r], src.x[r]), m')
      {
        JoinValWf(dst.x[r], src.x[r]);
        JoinWithin(dst.x[r], src.x[r], m, m');
      }
      if clean { JoinSp(dst.x, src.x, c); }
    }
  }

  lemma JoinSp(a: seq<RVal>, b: seq<RVal>, c: Config)
    requires SpInFrame(a, c) && SpInFrame(b, c)
    ensures SpInFrame(JoinRegs(a, b), c)
  {
    hide ScalarJoin;
  }

  // ----- the fixpoint -----

  ghost predicate EdgeDone(text: seq<u8>, c: Config, b: Block, x: seq<RVal>, entry: seq<VState>, s: int)
    requires InText(text, b) && |x| == 32
  {
    0 <= s < |entry| ==> StateBelow(VState(OutOf(text, c, b, x), true), entry[s])
  }

  /** Block b is consistent with the entry states: replaying it from its entry state
      raises no rejection and its exit state is below the entry state of each successor. */
  ghost predicate Done(text: seq<u8>, c: Config, blocks: seq<Block>, entry: seq<VState>, b: int)
    requires 0 <= b < |blocks| == |entry| && InText(text, blocks[b]) && |entry[b].x| == 32
  {
    entry[b].valid ==>
      && RejectsOf(text, c, entry[b].x, At(blocks[b]), Len(blocks[b])) == 0
      && EdgeDone(text, c, blocks[b], entry[b].x, entry, blocks[b].succ0)
      && EdgeDone(text, c, blocks[b], entry[b].x, entry, blocks[b].succ1)
  }

  /** Some block, run from some state below its entry state, leaves a loop bound
      pending and has n as its first successor. */
  ghost predicate MarkedBy(text: seq<u8>, c: Config, blocks: seq<Block>, entry: seq<VState>, n: int)
  {
    exists b, x :: MarkWitness(text, c, blocks, entry, n, b, x)
  }

  ghost predicate MarkWitness(text: seq<u8>, c: Config, blocks: seq<Block>, entry: seq<VState>, n: int, b: int, x: seq<RVal>)
  {
    && 0 <= b < |blocks| == |entry| && blocks[b].succ0 == n && InText(text, blocks[b]) && WfRegs(x)
    && StateBelow(VState(x, true), entry[b])
    && PendingOf(text, c, x, At(blocks[b]), Len(blocks[b])) != 0
  }

  ghost predicate Shaped(text: seq<u8>, blocks: seq<Block>, entry: seq<VState>, marks: seq<bool>)
  {
    && 0 < |blocks| == |entry| == |marks|
    && (forall b :: 0 <= b < |blocks| ==> InText(text, blocks[b]))
    && (forall b :: 0 <= b < |blocks| ==> -1 <= blocks[b].succ0 < |blocks| && -1 <= blocks[b].succ1 < |blocks|)
    && (forall b :: 0 <= b < |blocks| ==> WfState(entry[b]))
  }

  ghost predicate Queued(entry: seq<VState>, queue: seq<int>)
  {
    && Distinct(queue)
    && forall k :: 0 <= k < |queue| ==> 0 <= queue[k] < |entry| && entry[queue[k]].valid
  }

  /** The invariant while block i is being propagated (i == -1: between blocks).
      Every other block that is not queued is done, unless something was rejected. */
  ghost predicate Inv(text: seq<u8>, c: Config, blocks: seq<Block>, entry: seq<VState>, marks: seq<bool>,
                      queue: seq<int>, steps: int, total: nat, i: int)
  {
    && Shaped(text, blocks, entry, marks)
    && entry[0].valid && StateBelow(InitState(c), entry[0])
    && (forall b :: 0 <= b < |entry| && entry[b].valid ==> Sane(entry[b].x, c, steps, total == 0))
    && Queued(entry, queue)
    && (total == 0 ==> forall b :: 0 <= b < |entry| && b !in queue && b != i ==> Done(text, c, blocks, entry, b))
    && (forall n :: 0 <= n < |marks| && marks[n] ==> MarkedBy(text, c, blocks, entry, n))
  }

  /** What the successors of i have received so far, seen from the state x it was run from. */
  ghost predicate Sent(text: seq<u8>, c: Config, blocks: seq<Block>, entry: seq<VState>, queue: seq<int>, i: int, x: seq<RVal>, s: int)
  {
    && 0 <= i < |blocks| == |entry| && InText(text, blocks[i]) && |x| == 32
    && (i in queue || (entry[i].valid && entry[i].x == x))
    && EdgeDone(text, c, blocks[i], x, entry, s)
  }

  ghost predicate Grown(entry: seq<VState>, entry': seq<VState>)
  {
    && |entry| == |entry'|
    && forall b :: 0 <= b < |entry| ==> WfState(entry[b]) && WfState(entry'[b]) && StateBelow(entry[b], entry'[b])
  }

  lemma {:induction false} RegsAtWf(text: seq<u8>, c: Config, x: seq<RVal>, at: int, k: nat)
    requires Words4(text) && WfRegs(x) && 0 <= at && at + k <= Count(text)
    ensures WfRegs(RegsAt(text, c, x, at, k))
  {
    hide WfRegs, Regs, Ins;
    WfLen(x);
    if k != 0 {
      RegsAtWf(text, c, x, at, k - 1);
      RegsWf(Ins(text, at + k - 1), RegsAt(text, c, x, at, k - 1), c);
    }
  }

  lemma {:induction false} RegsAtSane(text: seq<u8>, c: Config, x: seq<RVal>, at: int, k: nat, steps: nat, clean: bool)
    requires Words4(text) && |x| == 32 && 0 <= at && at + k <= Count(text) && Sane(x, c, steps, clean)
    ensures Sane(RegsAt(text, c, x, at, k), c, steps + k, clean && RejectsOf(text, c, x, at, k) == 0)
  {
    hide Sane, Regs, Ins, Rejects;
    if k != 0 {
      RegsAtSane(text, c, x, at, k - 1, steps, clean);
      StepSane(text, at + k - 1, RegsAt(text, c, x, at, k - 1), c, steps + k - 1, clean && RejectsOf(text, c, x, at, k - 1) == 0);
      if !(clean && RejectsOf(text, c, x, at, k) == 0) {
        SaneWeaken(RegsAt(text, c, x, at, k), c, steps + k, steps + k,
                   clean && RejectsOf(text, c, x, at, k - 1) == 0 && Rejects(Ins(text, at + k - 1), RegsAt(text, c, x, at, k - 1), c) == 0, false);
      }
    }
  }

  lemma SaneWeaken(x: seq<RVal>, c: Config, m: nat, m': nat, clean: bool, clean': bool)
    requires Sane(x, c, m, clean) && m <= m' && (clean' ==> clean)
    ensures Sane(x, c, m', clean')
  {
    hide WfVal;
  }

  lemma EdgeGrows(text: seq<u8>, c: Config, b: Block, x: seq<RVal>, entry: seq<VState>, entry': seq<VState>, s: int)
    requires InText(text, b) && WfRegs(x) && Grown(entry, entry') && EdgeDone(text, c, b, x, entry, s)
    ensures EdgeDone(text, c, b, x, entry', s)
  {
    hide RegsAt, WfRegs, RegsBelow;
    WfLen(x);
    if 0 <= s < |entry| {
      RegsAtWf(text, c, x, At(b), Len(b));
      StateBelowTransitive(VState(OutOf(text, c, b, x), true), entry[s], entry'[s]);
    }
  }

  lemma DoneGrows(text: seq<u8>, c: Config, blocks: seq<Block>, entry: seq<VState>, entry': seq<VState>, b: int)
    requires 0 <= b < |blocks| == |entry| && InText(text, blocks[b]) && Grown(entry, entry') && entry'[b] == entry[b]
    requires |entry[b].x| == 32 && Done(text, c, blocks, entry, b)
    ensures Done(text, c, blocks, entry', b)
  {
    hide EdgeDone, RejectsOf, WfRegs, StateBelow;
    if entry[b].valid {
      EdgeGrows(text, c, blocks[b], entry[b].x, entry, entry', blocks[b].succ0);
      EdgeGrows(text, c, blocks[b], entry[b].x, entry, entry', blocks[b].succ1);
    }
  }

  lemma MarkGrows(text: seq<u8>, c: Config, blocks: seq<Block>, entry: seq<VState>, entry': seq<VState>, n: int)
    requires Grown(entry, entry') && MarkedBy(text, c, blocks, entry, n)
    ensures MarkedBy(text, c, blocks, entry', n)
  {
    hide PendingOf, WfRegs, StateBelow;
    var b, x :| MarkWitness(text, c, blocks, entry, n, b, x);
    StateBelowTransitive(VState(x, true), entry[b], entry'[b]);
    assert MarkWitness(text, c, blocks, entry', n, b, x);
  }

  function Enqueue(queue: seq<int>, n: int): seq<int> { if n in queue then queue else queue + [n] }

  /** Joining an exit state into block n and queueing n if it changed keeps the invariant. */
  lemma JoinKeeps(text: seq<u8>, c: Config, blocks: seq<Block>, entry: seq<VState>, marks: seq<bool>,
                  queue: seq<int>, steps: nat, total: nat, i: int, n: int, src: VState)
    requires Inv(text, c, blocks, entry, marks, queue, steps, total, i) && 0 <= n < |entry|
    requires src.valid && Sane(src.x, c, steps, total == 0)
    ensures |entry[n].x| == |src.x| == 32
    ensures var entry' := entry[n := JoinState(entry[n], src)];
            && Grown(entry, entry') && StateBelow(src, entry'[n])
            && Inv(text, c, blocks, entry', marks, if entry'[n] == entry[n] then queue else Enqueue(queue, n), steps, total, i)
  {
    hide Done, MarkedBy, JoinState, StateBelow, WfRegs, InText, OffsetsWithin, SpInFrame;
    WfLen(src.x); WfLen(entry[n].x);
    JoinStateUpper(entry[n], src);
    var entry' := entry[n := JoinState(entry[n], src)];
    var queue' := if entry'[n] == entry[n] then queue else Enqueue(queue, n);
    JoinSane(entry[n], src, c, steps, steps, total == 0);
    JoinValid(entry[n], src);
    forall b | 0 <= b < |entry|
      ensures WfState(entry'[b]) && StateBelow(entry[b], entry'[b])
    {
      BelowSelf(entry[b]);
    }
    if total == 0 {
      forall b | 0 <= b < |entry'| && b !in queue' && b != i
        ensures WfState(entry'[b]) && |entry'[b].x| == 32 && InText(text, blocks[b]) && Done(text, c, blocks, entry', b)
      {
        WfLen(entry[b].x);
        DoneGrows(text, c, blocks, entry, entry', b);
      }
    }
    forall m | 0 <= m < |marks| && marks[m]
      ensures MarkedBy(text, c, blocks, entry', m)
    {
      MarkGrows(text, c, blocks, entry, entry', m);
    }
    BelowSelf(entry[0]);
    InitWf(c);
    StateBelowTransitive(InitState(c), entry[0], entry'[0]);
    assert entry'[0].valid by { ValidGrows(entry[0], entry'[0]); }
  }

  lemma InitWf(c: Config)
    ensures WfState(InitState(c))
  {
    hide InitRegs, WfRegs, OffsetsWithin, SpInFrame;
    InitSane(c);
  }

  lemma ValidGrows(a: VState, b: VState)
    requires StateBelow(a, b) && a.valid
    ensures b.valid
  {
  }

  lemma JoinValid(dst: VState, src: VState)
    requires |dst.x| == |src.x| == 32 && src.valid
    ensures JoinState(dst, src).valid
  {
  }

  lemma BelowSelf(a: VState)
    requires WfState(a)
    ensures StateBelow(a, a)
  {
    hide JoinVal, WfVal;
    forall i | 0 <= i < 32 ensures Below(a.x[i], a.x[i]) { JoinValIdempotent(a.x[i]); }
  }

  lemma PopKeeps(text: seq<u8>, c: Config, blocks: seq<Block>, entry: seq<VState>, marks: seq<bool>,
                 queue: seq<int>, steps: int, total: nat)
    requires Inv(text, c, blocks, entry, marks, queue, steps, total, -1) && queue != []
    ensures var i := queue[|queue| - 1];
            && 0 <= i < |entry| && entry[i].valid && Sane(entry[i].x, c, steps, total == 0) && InText(text, blocks[i])
            && Inv(text, c, blocks, entry, marks, queue[..|queue| - 1], steps, total, i)
  {
    hide Done, MarkedBy, StateBelow, WfRegs, InText, Sane;
    var i := queue[|queue| - 1];
    forall b | 0 <= b < |entry| && b !in queue[..|queue| - 1] && b != i
      ensures b !in queue
    {
      assert queue == queue[..|queue| - 1] + [i];
    }
  }

  lemma RunKeeps(text: seq<u8>, c: Config, blocks: seq<Block>, entry: seq<VState>, marks: seq<bool>,
                 queue: seq<int>, steps: nat, total: nat, i: int, steps': nat, total': nat)
    requires Inv(text, c, blocks, entry, marks, queue, steps, total, i) && steps <= steps' && total <= total'
    ensures Inv(text, c, blocks, entry, marks, queue, steps', total', i)
  {
    hide Done, MarkedBy, StateBelow, WfRegs, InText, Sane;
    forall b | 0 <= b < |entry| && entry[b].valid
      ensures Sane(entry[b].x, c, steps', total' == 0)
    {
      SaneWeaken(entry[b].x, c, steps, steps', total == 0, total' == 0);
    }
  }

  lemma MarkKeeps(text: seq<u8>, c: Config, blocks: seq<Block>, entry: seq<VState>, marks: seq<bool>,
                  queue: seq<int>, steps: int, total: nat, i: int)
    requires Inv(text, c, blocks, entry, marks, queue, steps, total, i)
    requires 0 <= i < |blocks| && entry[i].valid && InText(text, blocks[i]) && |entry[i].x| == 32
    requires PendingOf(text, c, entry[i].x, At(blocks[i]), Len(blocks[i])) != 0 && blocks[i].succ0 >= 0
    ensures Inv(text, c, blocks, entry, marks[blocks[i].succ0 := true], queue, steps, total, i)
  {
    hide Done, StateBelow, WfRegs, InText, Sane, PendingOf;
    BelowSelf(entry[i]);
    assert entry[i] == VState(entry[i].x, true);
    assert MarkWitness(text, c, blocks, entry, blocks[i].succ0, i, entry[i].x);
  }

  lemma SentKept(text: seq<u8>, c: Config, blocks: seq<Block>, entry: seq<VState>, entry': seq<VState>,
                 queue: seq<int>, queue': seq<int>, i: int, x: seq<RVal>, s: int)
    requires Sent(text, c, blocks, entry, queue, i, x, s) && Grown(entry, entry') && WfRegs(x)
    requires (forall b :: b in queue ==> b in queue') && (entry'[i] == entry[i] || i in queue')
    ensures Sent(text, c, blocks, entry', queue', i, x, s)
  {
    hide StateBelow, WfRegs, InText, EdgeDone;
    EdgeGrows(text, c, blocks[i], x, entry, entry', s);
  }

  lemma FinishKeeps(text: seq<u8>, c: Config, blocks: seq<Block>, entry: seq<VState>, marks: seq<bool>,
                    queue: seq<int>, steps: int, total: nat, i: int, x: seq<RVal>)
    requires Inv(text, c, blocks, entry, marks, queue, steps, total, i) && 0 <= i < |blocks|
    requires Sent(text, c, blocks, entry, queue, i, x, blocks[i].succ0)
    requires Sent(text, c, blocks, entry, queue, i, x, blocks[i].succ1)
    requires total == 0 ==> RejectsOf(text, c, x, At(blocks[i]), Len(blocks[i])) == 0
    ensures Inv(text, c, blocks, entry, marks, queue, steps, total, -1)
  {
    hide MarkedBy, StateBelow, WfRegs, InText, Sane, EdgeDone, RejectsOf;
  }

  // ----- the worklist -----

  /** A stack of distinct blocks in a fixed array. */
  class Worklist {
    const items: array<int>
    var head: nat

    ghost predicate Valid()
      reads this, items
    {
      head <= items.Length && Distinct(items[..head])
    }

    ghost function Contents(): seq<int>
      reads this, items
      requires Valid()
    {
      items[..head]
    }

    constructor (capacity: nat)
      ensures Valid() && Contents() == [] && items.Length == capacity && fresh(items)
    {
      items := new int[capacity](_ => 0);
      head := 0;
    }

    method Push(b: int)
      requires Valid() && (b in Contents() || head < items.Length)
      modifies this`head, items
      ensures Valid() && Contents() == Enqueue(old(Contents()), b)
    {
      for i := 0 to head
        invariant forall k :: 0 <= k < i ==> items[k] != b
      {
        if items[i] == b {
          assert items[..head][i] == b;
          return;
        }
      }
      items[head] := b;
      head := head + 1;
      assert items[..head] == old(items[..head]) + [b];
    }

    method Pop() returns (b: int)
      requires Valid()
      modifies this`head
      ensures Valid()
      ensures old(Contents()) == [] ==> b == -1 && Contents() == []
      ensures old(Contents()) != [] ==>
                var q := old(Contents()); b == q[|q| - 1] && Contents() == q[..|q| - 1]
    {
      if head == 0 {
        return -1;
      }
      head := head - 1;
      b := items[head];
    }
  }

  lemma QueueRoom(entry: seq<VState>, queue: seq<int>, n: int)
    requires Queued(entry, queue) && 0 <= n < |entry| && n !in queue
    ensures |queue| < |entry|
  {
    var q := queue + [n];
    Dominators.DistinctCount(q, |entry|);
  }

  // ----- the record of an analysis -----

  /** Block b was run from registers x. */
  datatype Visit = Visit(b: int, x: seq<RVal>)

  ghost predicate VisitsOk(text: seq<u8>, blocks: seq<Block>, log: seq<Visit>)
  {
    forall k :: 0 <= k < |log| ==> 0 <= log[k].b < |blocks| && InText(text, blocks[log[k].b]) && |log[k].x| == 32
  }

  function Blank(): VState { VState(seq(32, _ => Uninit), false) }

  /** The worklist machine: the entry states and the queue. */
  datatype Work = Work(entry: seq<VState>, queue: seq<int>)

  predicate Whole(entry: seq<VState>) { forall b :: 0 <= b < |entry| ==> |entry[b].x| == 32 }

  /** Joins an exit state into block n, if there is one, and queues n if that changed it. */
  function Offer(w: Work, n: int, out: VState): (w': Work)
    requires Whole(w.entry) && |out.x| == 32
    ensures Whole(w'.entry) && |w'.entry| == |w.entry|
  {
    if n < 0 || n >= |w.entry| then w
    else
      var e := JoinState(w.entry[n], out);
      if e == w.entry[n] then w else Work(w.entry[n := e], Enqueue(w.queue, n))
  }

  /** The machine after running block i from its entry state. */
  function AfterBlock(text: seq<u8>, c: Config, blocks: seq<Block>, w: Work, i: int): (w': Work)
    requires Whole(w.entry) && 0 <= i < |blocks| == |w.entry| && InText(text, blocks[i])
    ensures Whole(w'.entry) && |w'.entry| == |w.entry|
  {
    var out := VState(OutOf(text, c, blocks[i], w.entry[i].x), true);
    Offer(Offer(w, blocks[i].succ0, out), blocks[i].succ1, out)
  }

  function Popped(w: Work): Work { if w.queue == [] then w else w.(queue := w.queue[..|w.queue| - 1]) }

  function StartWork(c: Config, n: nat): (w: Work)
    ensures Whole(w.entry) && |w.entry| == n
  {
    var w := Work(seq(n, b requires 0 <= b < n => if b == 0 then InitState(c) else Blank()), [0]);
    assert |InitState(c).x| == |Blank().x| == 32;
    w
  }

  /** The machine after the visits of a log, from the entry block in the entry state. */
  ghost function WorkAfter(text: seq<u8>, c: Config, blocks: seq<Block>, log: seq<Visit>): (w: Work)
    requires VisitsOk(text, blocks, log)
    ensures Whole(w.entry) && |w.entry| == |blocks|
  {
    if log == [] then StartWork(c, |blocks|)
    else AfterBlock(text, c, blocks, Popped(WorkAfter(text, c, blocks, log[..|log| - 1])), log[|log| - 1].b)
  }

  /** v is the visit the machine makes next: the block on top of the queue, from its
      entry state. */
  predicate NextVisit(w: Work, v: Visit)
  {
    w.queue != [] && v.b == w.queue[|w.queue| - 1] && 0 <= v.b < |w.entry| && w.entry[v.b] == VState(v.x, true)
  }

  /** The log is the machine's own sequence of visits, as far as it goes. */
  ghost predicate IsLog(text: seq<u8>, c: Config, blocks: seq<Block>, log: seq<Visit>)
  {
    && VisitsOk(text, blocks, log)
    && forall k :: 0 <= k < |log| ==> NextVisit(WorkAfter(text, c, blocks, log[..k]), log[k])
  }

  /** ... and it goes to the end: until the queue is empty, or to the visit in which the
      step cap is passed. */
  ghost predicate IsFullLog(text: seq<u8>, c: Config, blocks: seq<Block>, log: seq<Visit>)
  {
    && IsLog(text, c, blocks, log)
    && (log != [] ==> StepsIn(text, blocks, log[..|log| - 1]) <= StepCap(c))
    && (WorkAfter(text, c, blocks, log).queue == [] || StepsIn(text, blocks, log) > StepCap(c))
  }

  ghost function StepsIn(text: seq<u8>, blocks: seq<Block>, log: seq<Visit>): int
    requires VisitsOk(text, blocks, log)
  {
    if log == [] then 0 else StepsIn(text, blocks, log[..|log| - 1]) + Len(blocks[log[|log| - 1].b])
  }

  ghost function RejectsIn(text: seq<u8>, c: Config, blocks: seq<Block>, log: seq<Visit>): nat
    requires VisitsOk(text, blocks, log)
  {
    if log == [] then 0
    else
      var last := log[|log| - 1];
      RejectsIn(text, c, blocks, log[..|log| - 1]) + RejectsOf(text, c, last.x, At(blocks[last.b]), Len(blocks[last.b]))
  }

  ghost predicate MarksAt(text: seq<u8>, c: Config, blocks: seq<Block>, v: Visit, n: int)
    requires 0 <= v.b < |blocks| && InText(text, blocks[v.b]) && |v.x| == 32
  {
    blocks[v.b].succ0 == n && PendingOf(text, c, v.x, At(blocks[v.b]), Len(blocks[v.b])) != 0
  }

  /** Some visit ended with a loop bound pending in front of block n. */
  ghost predicate MarkedIn(text: seq<u8>, c: Config, blocks: seq<Block>, log: seq<Visit>, n: int)
    requires VisitsOk(text, blocks, log)
  {
    exists k :: 0 <= k < |log| && MarksAt(text, c, blocks, log[k], n)
  }

  /** The log accounts for the whole state of the analysis. */
  ghost predicate Logged(text: seq<u8>, c: Config, blocks: seq<Block>, entry: seq<VState>, queue: seq<int>, marks: seq<bool>,
                         steps: int, total: int, log: seq<Visit>)
  {
    && IsLog(text, c, blocks, log)
    && Work(entry, queue) == WorkAfter(text, c, blocks, log)
    && (forall n :: 0 <= n < |marks| ==> marks[n] == MarkedIn(text, c, blocks, log, n))
    && steps == StepsIn(text, blocks, log) && total == RejectsIn(text, c, blocks, log)
  }

  ghost predicate MarksFrom(text: seq<u8>, c: Config, blocks: seq<Block>, marks: seq<bool>, v: Visit, marks': seq<bool>)
    requires 0 <= v.b < |blocks| && InText(text, blocks[v.b]) && |v.x| == 32
  {
    |marks'| == |marks| && forall n :: 0 <= n < |marks| ==> marks'[n] == (marks[n] || MarksAt(text, c, blocks, v, n))
  }

  /** The machine's next visit extends the log. */
  lemma VisitLogged(text: seq<u8>, c: Config, blocks: seq<Block>, log: seq<Visit>, v: Visit)
    requires IsLog(text, c, blocks, log) && 0 <= v.b < |blocks| && InText(text, blocks[v.b]) && |v.x| == 32
    requires NextVisit(WorkAfter(text, c, blocks, log), v)
    ensures IsLog(text, c, blocks, log + [v])
    ensures StepsIn(text, blocks, log + [v]) == StepsIn(text, blocks, log) + Len(blocks[v.b])
  {
    hide WorkAfter, InText, NextVisit;
    var log' := log + [v];
    assert log'[..|log|] == log;
    forall k | 0 <= k < |log'|
      ensures NextVisit(WorkAfter(text, c, blocks, log'[..k]), log'[k])
    {
      if k < |log| { assert log'[..k] == log[..k]; }
    }
  }

  lemma LogStep(text: seq<u8>, c: Config, blocks: seq<Block>, w: Work, marks: seq<bool>, steps: int, total: int,
                log: seq<Visit>, v: Visit, w': Work, marks': seq<bool>)
    requires Logged(text, c, blocks, w.entry, w.queue, marks, steps, total, log) && NextVisit(w, v)
    requires 0 <= v.b < |blocks| == |w.entry| && InText(text, blocks[v.b]) && |v.x| == 32 && Whole(w.entry)
    requires w' == AfterBlock(text, c, blocks, Popped(w), v.b) && MarksFrom(text, c, blocks, marks, v, marks')
    ensures Logged(text, c, blocks, w'.entry, w'.queue, marks', steps + Len(blocks[v.b]),
                   total + RejectsOf(text, c, v.x, At(blocks[v.b]), Len(blocks[v.b])), log + [v])
  {
    hide InText, IsLog, RejectsOf, StepsIn, RegsAt, AfterBlock, MarksAt, NextVisit, Popped;
    var log' := log + [v];
    assert VisitsOk(text, blocks, log) by { LogOk(text, c, blocks, log); }
    assert log'[..|log|] == log;
    assert w == Work(w.entry, w.queue);
    VisitLogged(text, c, blocks, log, v);
    forall n | 0 <= n < |marks'|
      ensures marks'[n] == MarkedIn(text, c, blocks, log', n)
    {
      if k :| 0 <= k < |log| && MarksAt(text, c, blocks, log[k], n) { assert log'[k] == log[k]; }
      assert log'[|log|] == v;
    }
  }

  lemma LogOk(text: seq<u8>, c: Config, blocks: seq<Block>, log: seq<Visit>)
    requires IsLog(text, c, blocks, log)
    ensures VisitsOk(text, blocks, log)
  {
  }

  lemma LogStart(text: seq<u8>, c: Config, blocks: seq<Block>, entry: seq<VState>, marks: seq<bool>)
    requires 0 < |entry| == |blocks| && entry[0] == InitState(c) && forall b :: 0 < b < |entry| ==> entry[b] == Blank()
    requires forall b :: 0 <= b < |marks| ==> !marks[b]
    ensures Logged(text, c, blocks, entry, [0], marks, 0, 0, [])
  {
    hide InitState, Blank;
    assert WorkAfter(text, c, blocks, []).entry == entry;
  }

  // ----- the analysis -----

  /** Runs one block in place, counting steps; stops when the cap is passed. */
  method RunBlock(text: seq<u8>, c: Config, b: Block, st: array<RVal>, steps: nat)
    returns (rejected: nat, pending: u32, steps': nat, capped: bool)
    requires InText(text, b) && st.Length == 32 && steps <= StepCap(c)
    modifies st
    ensures !capped ==>
              && st[..] == OutOf(text, c, b, old(st[..]))
              && rejected == RejectsOf(text, c, old(st[..]), At(b), Len(b))
              && pending == PendingOf(text, c, old(st[..]), At(b), Len(b))
              && steps' == steps + Len(b) <= StepCap(c)
              && rejected <= 2 * Len(b)
    ensures capped ==> steps' == StepCap(c) + 1 && steps + Len(b) > StepCap(c)
  {
    hide Regs, Rejects, Pending, Ins;
    ghost var x := st[..];
    rejected, pending, steps', capped := 0, 0, steps, false;
    var off := b.start;
    ghost var k := 0;
    while off <= b.end && off < |text|
      invariant off == b.start + 4 * k && 0 <= k <= Len(b) && At(b) + Len(b) <= Count(text)
      invariant st[..] == RegsAt(text, c, x, At(b), k)
      invariant rejected == RejectsOf(text, c, x, At(b), k) <= 2 * k
      invariant pending == PendingOf(text, c, x, At(b), k)
      invariant steps' == steps + k <= StepCap(c)
      decreases b.end + 4 - off
    {
      var insn := InsnAt(text, off);
      assert insn == Ins(text, At(b) + k) by { InsIs(text, At(b) + k, off); }
      steps' := steps' + 1;
      if steps' > StepCap(c) {
        return rejected, pending, steps', true;
      }
      var more: nat;
      more, pending := StepInsn(insn, st, c, pending);
      rejected := rejected + more;
      off := off + 4;
      k := k + 1;
    }
  }

  lemma InsIs(text: seq<u8>, k: int, off: int)
    requires Words4(text) && 0 <= k < Count(text) && off == 4 * k
    ensures Ins(text, k) == InsnAt(text, off)
  {
  }

  /** Joins an exit state into successor n, if there is one, and queues it if it grew. */
  method Propagate(text: seq<u8>, c: Config, ghost blocks: seq<Block>, entry: array<VState>, ghost marks: seq<bool>,
                   q: Worklist, ghost steps: nat, ghost total: nat, ghost i: int, n: int, out: VState)
    requires q.Valid() && q.items.Length >= entry.Length && -1 <= n < entry.Length
    requires Inv(text, c, blocks, entry[..], marks, q.Contents(), steps, total, i)
    requires out.valid && Sane(out.x, c, steps, total == 0)
    modifies entry, q`head, q.items
    ensures q.Valid() && Inv(text, c, blocks, entry[..], marks, q.Contents(), steps, total, i)
    ensures Grown(old(entry[..]), entry[..]) && (n >= 0 ==> StateBelow(out, entry[n]))
    ensures forall b :: b in old(q.Contents()) ==> b in q.Contents()
    ensures forall b :: 0 <= b < entry.Length ==> entry[b] == old(entry[b]) || b in q.Contents()
    ensures Whole(old(entry[..])) && |out.x| == 32
    ensures Work(entry[..], q.Contents()) == Offer(Work(old(entry[..]), old(q.Contents())), n, out)
  {
    hide Inv, Sane, JoinState, Grown, StateBelow, Queued, Distinct;
    GrownSelf(text, c, blocks, entry[..], marks, q.Contents(), steps, total, i);
    EntryLengths(text, c, blocks, entry[..], marks, q.Contents(), steps, total, i);
    SaneWf(out.x, c, steps, total == 0);
    ghost var was := entry[..];
    if n < 0 {
      return;
    }
    JoinKeeps(text, c, blocks, entry[..], marks, q.Contents(), steps, total, i, n, out);
    ghost var queue := q.Contents();
    InvQueued(text, c, blocks, entry[..], marks, queue, steps, total, i);
    if n !in queue { QueueRoom(entry[..], queue, n); }
    var changed := VstateJoin(entry, n, out);
    if changed {
      q.Push(n);
    }
    assert was[n := was[n]] == was;
  }

  lemma InvQueued(text: seq<u8>, c: Config, blocks: seq<Block>, entry: seq<VState>, marks: seq<bool>,
                  queue: seq<int>, steps: int, total: nat, i: int)
    requires Inv(text, c, blocks, entry, marks, queue, steps, total, i)
    ensures Queued(entry, queue)
  {
  }

  lemma GrownSelf(text: seq<u8>, c: Config, blocks: seq<Block>, entry: seq<VState>, marks: seq<bool>,
                  queue: seq<int>, steps: int, total: nat, i: int)
    requires Inv(text, c, blocks, entry, marks, queue, steps, total, i)
    ensures Grown(entry, entry)
  {
    hide Done, MarkedBy, WfRegs, StateBelow;
    forall b | 0 <= b < |entry| ensures StateBelow(entry[b], entry[b]) { BelowSelf(entry[b]); }
  }

  // ----- acceptance -----

  /** The certificate of an accepted program: a post-fixpoint above the entry state from
      which no instruction is rejected, and a marked header at the end of every back edge. */
  ghost predicate Accepted(text: seq<u8>, textOffset: u32, c: Config, G: Cfg, entry: seq<VState>, marks: seq<bool>)
  {
    && ValidCfg(text, textOffset, G)
    && Shaped(text, G.blocks, entry, marks)
    && entry[0].valid && StateBelow(InitState(c), entry[0])
    && (forall b :: 0 <= b < |entry| && entry[b].valid ==> Sane(entry[b].x, c, StepCap(c), true))
    && (forall b :: 0 <= b < |entry| ==> Done(text, c, G.blocks, entry, b))
    && (forall e :: e in G.backEdges ==> 0 <= e.1 < |marks| && marks[e.1])
    && (forall n :: 0 <= n < |marks| && marks[n] ==> MarkedBy(text, c, G.blocks, entry, n))
  }

  lemma BuiltShape(text: seq<u8>, textOffset: u32, blocks: seq<Block>)
    requires BuiltFrom(text, textOffset, blocks)
    ensures Words4(text) && 0 < |blocks| <= MAX_BLOCKS
    ensures forall b :: 0 <= b < |blocks| ==> InText(text, blocks[b])
    ensures forall b :: 0 <= b < |blocks| ==> -1 <= blocks[b].succ0 < |blocks| && -1 <= blocks[b].succ1 < |blocks|
  {
    hide IsLeader, Ins, Wired, LinkedAt, IsBlock;
    forall b | 0 <= b < |blocks|
      ensures InText(text, blocks[b])
    {
      assert IsBlock(text, blocks[b], |text|);
      BlockAligned(text, blocks[b]);
    }
  }

  lemma InitInv(text: seq<u8>, c: Config, blocks: seq<Block>, entry: seq<VState>, marks: seq<bool>)
    requires Words4(text) && 0 < |blocks| == |entry| == |marks|
    requires forall b :: 0 <= b < |blocks| ==> InText(text, blocks[b])
    requires forall b :: 0 <= b < |blocks| ==> -1 <= blocks[b].succ0 < |blocks| && -1 <= blocks[b].succ1 < |blocks|
    requires entry[0] == InitState(c) && forall b :: 0 < b < |entry| ==> entry[b] == Blank()
    requires forall b :: 0 <= b < |marks| ==> !marks[b]
    ensures Inv(text, c, blocks, entry, marks, [0], 0, 0, -1)
  {
    hide InText, InitRegs, OffsetsWithin, SpInFrame, RejectsOf, EdgeDone, StateBelow;
    InitSane(c);
    InitWf(c);
    BelowSelf(entry[0]);
    assert Blank().x == seq(32, _ => Uninit);
  }

  lemma FinalInv(text: seq<u8>, textOffset: u32, c: Config, G: Cfg, entry: seq<VState>, marks: seq<bool>, steps: nat)
    requires ValidCfg(text, textOffset, G) && Inv(text, c, G.blocks, entry, marks, [], steps, 0, -1) && steps <= StepCap(c)
    requires forall e :: e in G.backEdges ==> 0 <= e.1 < |marks| && marks[e.1]
    ensures Accepted(text, textOffset, c, G, entry, marks)
  {
    hide ValidCfg, Done, MarkedBy, StateBelow, Sane, WfRegs;
    forall b | 0 <= b < |entry| && entry[b].valid
      ensures Sane(entry[b].x, c, StepCap(c), true)
    {
      SaneWeaken(entry[b].x, c, steps, StepCap(c), true, true);
    }
  }

  /** One iteration of the worklist loop: runs block i and propagates its exit state. */
  method Iterate(text: seq<u8>, c: Config, blocks: seq<Block>, entry: array<VState>, marks: array<bool>, q: Worklist,
                 i: int, steps: nat, ghost total: nat)
    returns (rejected: nat, steps': nat, capped: bool)
    requires q.Valid() && q.items.Length >= entry.Length && 0 <= i < entry.Length == |blocks|
    requires Inv(text, c, blocks, entry[..], marks[..], q.Contents(), steps, total, i)
    requires entry[i].valid && Sane(entry[i].x, c, steps, total == 0) && InText(text, blocks[i])
    requires steps <= StepCap(c)
    modifies entry, marks, q`head, q.items
    ensures q.Valid()
    ensures !capped ==> steps < steps' <= StepCap(c) && rejected <= 2 * (steps' - steps)
    ensures !capped ==> Inv(text, c, blocks, entry[..], marks[..], q.Contents(), steps', total + rejected, -1)
    ensures capped ==> steps' == StepCap(c) + 1 && steps + Len(blocks[i]) > StepCap(c)
    ensures var x := old(entry[i]).x;
            && |x| == 32
            && (!capped ==>
                  && steps' == steps + Len(blocks[i]) && rejected == RejectsOf(text, c, x, At(blocks[i]), Len(blocks[i]))
                  && Whole(old(entry[..]))
                  && Work(entry[..], q.Contents()) == AfterBlock(text, c, blocks, Work(old(entry[..]), old(q.Contents())), i)
                  && MarksFrom(text, c, blocks, old(marks[..]), Visit(i, x), marks[..]))
  {
    hide Inv, Sane, JoinState, Grown, StateBelow, Queued, Distinct, RejectsOf, PendingOf, RegsAt, EdgeDone, Offer, MarksFrom, Whole;
    var b := blocks[i];
    var x := entry[i].x;
    assert |x| == 32 && WfRegs(x) by { SaneWf(x, c, steps, total == 0); }
    assert |marks[..]| == |blocks| && -1 <= b.succ0 < |blocks| && -1 <= b.succ1 < |blocks| by {
      InvShape(text, c, blocks, entry[..], marks[..], q.Contents(), steps, total, i);
    }
    var st := new RVal[32](k requires 0 <= k < 32 => x[k]);
    assert st[..] == x;
    ghost var was := marks[..];
    var pending: u32;
    rejected, pending, steps', capped := RunBlock(text, c, b, st, steps);
    if capped {
      return;
    }
    ghost var total' := total + rejected;
    RunKeeps(text, c, blocks, entry[..], marks[..], q.Contents(), steps, total, i, steps', total');
    if pending != 0 && b.succ0 >= 0 {
      MarkKeeps(text, c, blocks, entry[..], marks[..], q.Contents(), steps', total', i);
      marks[b.succ0] := true;
    }
    MarksNow(text, c, blocks, was, i, x, marks[..]);
    var out := VState(st[..], true);
    assert Sane(out.x, c, steps', total' == 0) by {
      RegsAtSane(text, c, x, At(b), Len(b), steps, total == 0);
      SaneWeaken(out.x, c, steps', steps', total == 0 && rejected == 0, total' == 0);
    }
    ghost var entry0, queue0 := entry[..], q.Contents();
    Propagate(text, c, blocks, entry, marks[..], q, steps', total', i, b.succ0, out);
    ghost var entry1, queue1 := entry[..], q.Contents();
    SentNow(text, c, blocks, entry1, queue1, i, x, b.succ0);
    Propagate(text, c, blocks, entry, marks[..], q, steps', total', i, b.succ1, out);
    SentKept(text, c, blocks, entry1, entry[..], queue1, q.Contents(), i, x, b.succ0);
    SentNow(text, c, blocks, entry[..], q.Contents(), i, x, b.succ1);
    FinishKeeps(text, c, blocks, entry[..], marks[..], q.Contents(), steps', total', i, x);
  }

  lemma EntryLengths(text: seq<u8>, c: Config, blocks: seq<Block>, entry: seq<VState>, marks: seq<bool>,
                     queue: seq<int>, steps: int, total: nat, i: int)
    requires Inv(text, c, blocks, entry, marks, queue, steps, total, i)
    ensures Whole(entry)
  {
    hide Done, MarkedBy, StateBelow, Sane, InText;
  }

  lemma MarksNow(text: seq<u8>, c: Config, blocks: seq<Block>, marks: seq<bool>, i: int, x: seq<RVal>, marks': seq<bool>)
    requires 0 <= i < |blocks| == |marks| && InText(text, blocks[i]) && |x| == 32 && -1 <= blocks[i].succ0 < |blocks|
    requires marks' == if PendingOf(text, c, x, At(blocks[i]), Len(blocks[i])) != 0 && blocks[i].succ0 >= 0
                       then marks[blocks[i].succ0 := true] else marks
    ensures MarksFrom(text, c, blocks, marks, Visit(i, x), marks')
  {
    hide PendingOf, InText;
  }

  lemma SentNow(text: seq<u8>, c: Config, blocks: seq<Block>, entry: seq<VState>, queue: seq<int>, i: int, x: seq<RVal>, s: int)
    requires 0 <= i < |blocks| == |entry| && InText(text, blocks[i]) && |x| == 32
    requires i in queue || (entry[i].valid && entry[i].x == x)
    requires 0 <= s < |entry| ==> StateBelow(VState(OutOf(text, c, blocks[i], x), true), entry[s])
    ensures Sent(text, c, blocks, entry, queue, i, x, s)
  {
    hide StateBelow, RegsAt, InText;
  }

  lemma SaneWf(x: seq<RVal>, c: Config, steps: int, clean: bool)
    requires Sane(x, c, steps, clean)
    ensures |x| == 32 && WfRegs(x)
  {
  }

  lemma InvShape(text: seq<u8>, c: Config, blocks: seq<Block>, entry: seq<VState>, marks: seq<bool>,
                 queue: seq<int>, steps: int, total: nat, i: int)
    requires Inv(text, c, blocks, entry, marks, queue, steps, total, i)
    ensures |marks| == |blocks| == |entry|
    ensures forall b :: 0 <= b < |blocks| ==> -1 <= blocks[b].succ0 < |blocks| && -1 <= blocks[b].succ1 < |blocks|
  {
  }

  /** The worklist loop, from the entry state to an empty worklist or an exhausted cap. */
  method Analyse(text: seq<u8>, c: Config, blocks: seq<Block>, entry: array<VState>, marks: array<bool>)
    returns (rejected: u32, steps: nat, capped: bool, ghost total: nat, ghost log: seq<Visit>)
    requires Words4(text) && 0 < |blocks| == entry.Length == marks.Length <= MAX_BLOCKS
    requires Inv(text, c, blocks, entry[..], marks[..], [0], 0, 0, -1)
    requires Logged(text, c, blocks, entry[..], [0], marks[..], 0, 0, [])
    modifies entry, marks
    ensures IsFullLog(text, c, blocks, log) && VisitsOk(text, blocks, log)
    ensures if capped then steps == StepCap(c) + 1 <= StepsIn(text, blocks, log) else steps <= StepCap(c)
    ensures !capped ==> Inv(text, c, blocks, entry[..], marks[..], [], steps, total, -1)
    ensures !capped ==> Logged(text, c, blocks, entry[..], [], marks[..], steps, total, log)
    ensures !capped ==> total <= 2 * steps && rejected == Wrap32(total)
  {
    hide Inv, Sane, Queued, Distinct, Recorded, Logged, AfterBlock, MarksFrom, RejectsOf, InText, StepsIn, VisitsOk, IsFullLog, Whole, NextVisit;
    var q := NewQueue();
    rejected, steps, capped, total, log := 0, 0, false, 0, [];
    RecordStart(text, c, blocks, entry[..], marks[..]);
    while true
      invariant q.Valid() && fresh(q) && fresh(q.items) && q.items.Length == MAX_BLOCKS
      invariant Inv(text, c, blocks, entry[..], marks[..], q.Contents(), steps, total, -1)
      invariant Recorded(text, c, blocks, Work(entry[..], q.Contents()), marks[..], steps, total, log)
      invariant steps <= StepCap(c) && total <= 2 * steps && rejected == Wrap32(total)
      decreases StepCap(c) - steps
    {
      ghost var w, was, from := Work(entry[..], q.Contents()), marks[..], steps;
      if w.queue != [] { PopKeeps(text, c, blocks, w.entry, was, w.queue, steps, total); }
      var i := q.Pop();
      if i < 0 {
        RecordEnd(text, c, blocks, w, was, steps, total, log);
        return;
      }
      ghost var v := Visit(i, w.entry[i].x);
      TopIsNext(w, v);
      var more: nat;
      more, steps, capped := Iterate(text, c, blocks, entry, marks, q, i, steps, total);
      if capped {
        RecordCapped(text, c, blocks, w, was, from, total, log, v);
        log := log + [v];
        return;
      }
      RecordStep(text, c, blocks, w, was, from, total, log, v, Work(entry[..], q.Contents()), marks[..]);
      log := log + [v];
      WrapAdd(total, more);
      rejected := Wrap32(rejected + more);
      total := total + more;
    }
  }

  /** The log accounts for the state so far, and every visit but the last began within
      the cap. */
  ghost predicate Recorded(text: seq<u8>, c: Config, blocks: seq<Block>, w: Work, marks: seq<bool>, steps: int, total: int, log: seq<Visit>)
  {
    && Logged(text, c, blocks, w.entry, w.queue, marks, steps, total, log)
    && (log != [] ==> StepsIn(text, blocks, log[..|log| - 1]) <= StepCap(c))
  }

  lemma TopIsNext(w: Work, v: Visit)
    requires w.queue != [] && v.b == w.queue[|w.queue| - 1] && 0 <= v.b < |w.entry| && w.entry[v.b].valid && v.x == w.entry[v.b].x
    ensures NextVisit(w, v) && Popped(w) == Work(w.entry, w.queue[..|w.queue| - 1])
  {
  }

  lemma RecordStart(text: seq<u8>, c: Config, blocks: seq<Block>, entry: seq<VState>, marks: seq<bool>)
    requires Logged(text, c, blocks, entry, [0], marks, 0, 0, [])
    ensures Recorded(text, c, blocks, Work(entry, [0]), marks, 0, 0, [])
  {
    hide Logged;
  }

  lemma RecordStep(text: seq<u8>, c: Config, blocks: seq<Block>, w: Work, marks: seq<bool>, steps: int, total: int,
                   log: seq<Visit>, v: Visit, w': Work, marks': seq<bool>)
    requires Recorded(text, c, blocks, w, marks, steps, total, log) && NextVisit(w, v) && steps <= StepCap(c)
    requires 0 <= v.b < |blocks| == |w.entry| && InText(text, blocks[v.b]) && |v.x| == 32 && Whole(w.entry)
    requires w' == AfterBlock(text, c, blocks, Popped(w), v.b) && MarksFrom(text, c, blocks, marks, v, marks')
    ensures Recorded(text, c, blocks, w', marks', steps + Len(blocks[v.b]),
                     total + RejectsOf(text, c, v.x, At(blocks[v.b]), Len(blocks[v.b])), log + [v])
  {
    hide Logged, StepsIn, RejectsOf, InText, NextVisit, AfterBlock, MarksFrom, Popped, Whole;
    LoggedIs(text, c, blocks, w, marks, steps, total, log);
    LogStep(text, c, blocks, w, marks, steps, total, log, v, w', marks');
    assert (log + [v])[..|log + [v]| - 1] == log;
  }

  lemma RecordCapped(text: seq<u8>, c: Config, blocks: seq<Block>, w: Work, marks: seq<bool>, steps: int, total: int, log: seq<Visit>, v: Visit)
    requires Recorded(text, c, blocks, w, marks, steps, total, log) && NextVisit(w, v)
    requires 0 <= v.b < |blocks| && InText(text, blocks[v.b]) && |v.x| == 32
    requires steps <= StepCap(c) < steps + Len(blocks[v.b])
    ensures IsFullLog(text, c, blocks, log + [v]) && VisitsOk(text, blocks, log + [v]) && StepsIn(text, blocks, log + [v]) > StepCap(c)
  {
    hide Logged, StepsIn, InText, NextVisit, IsLog, WorkAfter;
    LoggedIs(text, c, blocks, w, marks, steps, total, log);
    VisitLogged(text, c, blocks, log, v);
    LogOk(text, c, blocks, log + [v]);
    assert (log + [v])[..|log + [v]| - 1] == log;
  }

  lemma RecordEnd(text: seq<u8>, c: Config, blocks: seq<Block>, w: Work, marks: seq<bool>, steps: int, total: int, log: seq<Visit>)
    requires Recorded(text, c, blocks, w, marks, steps, total, log) && w.queue == []
    ensures IsFullLog(text, c, blocks, log) && VisitsOk(text, blocks, log)
    ensures Logged(text, c, blocks, w.entry, [], marks, steps, total, log)
  {
    hide Logged, StepsIn, IsLog, WorkAfter;
    LoggedIs(text, c, blocks, w, marks, steps, total, log);
  }

  lemma LoggedIs(text: seq<u8>, c: Config, blocks: seq<Block>, w: Work, marks: seq<bool>, steps: int, total: int, log: seq<Visit>)
    requires Logged(text, c, blocks, w.entry, w.queue, marks, steps, total, log)
    ensures IsLog(text, c, blocks, log) && VisitsOk(text, blocks, log)
    ensures steps == StepsIn(text, blocks, log) && total == RejectsIn(text, c, blocks, log)
    ensures WorkAfter(text, c, blocks, log) == w && Whole(w.entry)
    ensures forall n :: 0 <= n < |marks| ==> marks[n] == MarkedIn(text, c, blocks, log, n)
  {
    hide IsLog, WorkAfter, StepsIn, RejectsIn, MarkedIn;
    LogOk(text, c, blocks, log);
    assert w == Work(w.entry, w.queue);
  }

  method NewQueue() returns (q: Worklist)
    ensures fresh(q) && fresh(q.items) && q.Valid() && q.Contents() == [0] && q.items.Length == MAX_BLOCKS
  {
    q := new Worklist(MAX_BLOCKS);
    q.Push(0);
  }

  /** The record shows nothing wrong: within the cap, no rejection, and every back edge
      ends at a block that some visit marked. */
  ghost predicate Clean(text: seq<u8>, c: Config, G: Cfg, log: seq<Visit>)
  {
    && VisitsOk(text, G.blocks, log)
    && StepsIn(text, G.blocks, log) <= StepCap(c) && RejectsIn(text, c, G.blocks, log) == 0
    && forall e :: e in G.backEdges ==> MarkedIn(text, c, G.blocks, log, e.1)
  }

  /** The verifier.  It stops within StepCap + 1 counted steps on every text, having made
      exactly the visits of the worklist machine, whose full log accounts for the states
      and marks it ends with.  The count of rejections is kept modulo 2^32; where the cap
      rules out a full turn of that counter, the verdict is positive exactly when the log
      is clean, and then certifies the program. */
  method VerifyText(text: seq<u8>, textOffset: u32, c: Config)
    returns (ok: bool, G: Option<Cfg>, entryOut: seq<VState>, marksOut: seq<bool>, steps: nat, ghost log: seq<Visit>)
    requires 0 < |text| && c.stepCap < 0xffff_ffff
    ensures Outcome(text, textOffset, c, ok, G, entryOut, marksOut, steps, log)
  {
    hide ValidCfg, Buildable, Judged;
    ok, G, entryOut, marksOut, steps, log := false, None, [], [], 0, [];
    if |text| % 4 != 0 {
      assert !Buildable(text) by { BuildableWords(text); }
      return;
    }
    G := BuildCfg(text, textOffset);
    if G.Some? {
      ok, entryOut, marksOut, steps, log := Judge(text, textOffset, c, G.value);
    }
  }

  /** What the verifier comes to: a text whose graph cannot be built is refused, any other
      judged by its analysis. */
  ghost predicate Outcome(text: seq<u8>, textOffset: u32, c: Config, ok: bool, G: Option<Cfg>,
                          entry: seq<VState>, marks: seq<bool>, steps: int, log: seq<Visit>)
  {
    && (G.Some? <==> Buildable(text))
    && (G.None? ==> !ok && steps == 0)
    && (G.Some? ==> ValidCfg(text, textOffset, G.value) && Judged(text, textOffset, c, G.value, ok, entry, marks, steps, log))
  }

  /** What the analysis of a built graph comes to. */
  ghost predicate Judged(text: seq<u8>, textOffset: u32, c: Config, G: Cfg, ok: bool,
                         entry: seq<VState>, marks: seq<bool>, steps: int, log: seq<Visit>)
  {
    && IsFullLog(text, c, G.blocks, log)
    && steps <= StepCap(c) + 1 && (steps > StepCap(c) ==> !ok)
    && (steps <= StepCap(c) ==> Logged(text, c, G.blocks, entry, [], marks, steps, RejectsIn(text, c, G.blocks, log), log))
    && (StepCap(c) < 0x7fff_f000 ==> (ok <==> Clean(text, c, G, log)))
    && (StepCap(c) < 0x7fff_f000 && ok ==> Accepted(text, textOffset, c, G, entry, marks))
  }

  method Judge(text: seq<u8>, textOffset: u32, c: Config, G: Cfg)
    returns (ok: bool, entryOut: seq<VState>, marksOut: seq<bool>, steps: nat, ghost log: seq<Visit>)
    requires ValidCfg(text, textOffset, G)
    ensures Judged(text, textOffset, c, G, ok, entryOut, marksOut, steps, log)
  {
    hide Inv, Accepted, ValidCfg, Logged, IsFullLog, InText, Clean, StepsIn, RejectsIn, InitState, Blank, Judged;
    ok, entryOut, marksOut := false, [], [];
    var blocks := G.blocks;
    CfgShape(text, textOffset, G);
    var entry := new VState[|blocks|](_ => Blank());
    var marks := new bool[|blocks|](_ => false);
    entry[0] := InitState(c);
    InitInv(text, c, blocks, entry[..], marks[..]);
    LogStart(text, c, blocks, entry[..], marks[..]);
    var rejected, capped;
    ghost var total;
    rejected, steps, capped, total, log := Analyse(text, c, blocks, entry, marks);
    if capped {
      CappedJudged(text, textOffset, c, G, steps, log);
      return;
    }
    entryOut, marksOut := entry[..], marks[..];
    InvShape(text, c, blocks, entryOut, marksOut, [], steps, total, -1);
    var bad := Unguarded(G, marksOut);
    WrapAdd(total, bad);
    ok := Wrap32(rejected + bad) == 0;
    NowJudged(text, textOffset, c, G, entryOut, marksOut, steps, total, log, bad, ok);
  }

  lemma LoggedTotal(text: seq<u8>, c: Config, blocks: seq<Block>, entry: seq<VState>, marks: seq<bool>, steps: int, total: int, log: seq<Visit>)
    requires Logged(text, c, blocks, entry, [], marks, steps, total, log)
    ensures VisitsOk(text, blocks, log) && total == RejectsIn(text, c, blocks, log)
  {
    hide WorkAfter, StepsIn, RejectsIn, MarkedIn;
  }

  lemma WrapZero(x: nat)
    requires x < TWO32
    ensures Wrap32(x) == 0 <==> x == 0
  {
  }

  lemma CappedJudged(text: seq<u8>, textOffset: u32, c: Config, G: Cfg, steps: int, log: seq<Visit>)
    requires IsFullLog(text, c, G.blocks, log) && VisitsOk(text, G.blocks, log)
    requires steps == StepCap(c) + 1 <= StepsIn(text, G.blocks, log)
    ensures Judged(text, textOffset, c, G, false, [], [], steps, log)
  {
    hide Accepted, IsFullLog, VisitsOk, StepsIn, Logged;
  }

  lemma NowJudged(text: seq<u8>, textOffset: u32, c: Config, G: Cfg, entry: seq<VState>, marks: seq<bool>,
                  steps: nat, total: nat, log: seq<Visit>, bad: nat, ok: bool)
    requires ValidCfg(text, textOffset, G) && |G.backEdges| <= MAX_EDGES
    requires IsFullLog(text, c, G.blocks, log) && Logged(text, c, G.blocks, entry, [], marks, steps, total, log)
    requires Inv(text, c, G.blocks, entry, marks, [], steps, total, -1) && steps <= StepCap(c) && total <= 2 * steps
    requires forall e :: e in G.backEdges ==> 0 <= e.1 < |marks|
    requires bad <= |G.backEdges| && (bad == 0 <==> forall e :: e in G.backEdges ==> marks[e.1])
    requires ok == (Wrap32(total + bad) == 0)
    ensures Judged(text, textOffset, c, G, ok, entry, marks, steps, log)
  {
    hide Accepted, IsFullLog, Logged, Clean, RejectsIn, ValidCfg, Inv, StepsIn, VisitsOk, Wrap32;
    LoggedTotal(text, c, G.blocks, entry, marks, steps, total, log);
    VerdictIs(text, c, G, entry, marks, steps, total, log, bad);
    if total + bad < TWO32 { WrapZero(total + bad); }
    if ok && StepCap(c) < 0x7fff_f000 { FinalInv(text, textOffset, c, G, entry, marks, steps); }
  }

  lemma BuildableWords(text: seq<u8>)
    ensures Buildable(text) ==> Words4(text)
  {
  }

  /** Below the counter's range, the sum of rejections and unguarded back edges is 0
      exactly for a clean log. */
  lemma VerdictIs(text: seq<u8>, c: Config, G: Cfg, entry: seq<VState>, marks: seq<bool>, steps: int, total: nat, log: seq<Visit>, bad: nat)
    requires Logged(text, c, G.blocks, entry, [], marks, steps, total, log) && steps <= StepCap(c)
    requires forall e :: e in G.backEdges ==> 0 <= e.1 < |marks|
    requires bad == 0 <==> forall e :: e in G.backEdges ==> marks[e.1]
    ensures total + bad == 0 <==> Clean(text, c, G, log)
  {
    hide Logged, IsLog, InText, MarkedIn, StepsIn, RejectsIn, VisitsOk;
    LoggedIs(text, c, G.blocks, Work(entry, []), marks, steps, total, log);
  }

  lemma WrapAdd(total: nat, more: nat)
    ensures Wrap32(Wrap32(total) + more) == Wrap32(total + more)
  {
  }

  lemma CfgShape(text: seq<u8>, textOffset: u32, G: Cfg)
    requires ValidCfg(text, textOffset, G)
    ensures Words4(text) && 0 < |G.blocks| <= MAX_BLOCKS
    ensures forall b :: 0 <= b < |G.blocks| ==> InText(text, G.blocks[b])
    ensures forall b :: 0 <= b < |G.blocks| ==> -1 <= G.blocks[b].succ0 < |G.blocks| && -1 <= G.blocks[b].succ1 < |G.blocks|
    ensures forall e :: e in G.backEdges ==> 0 <= e.1 < |G.blocks|
    ensures |G.backEdges| <= MAX_EDGES
  {
    BuiltShape(text, textOffset, G.blocks);
  }

  /** The number of back edges whose target is not a marked header. */
  function UnguardedIn(edges: seq<(int, int)>, marks: seq<bool>): (n: nat)
    requires forall k :: 0 <= k < |edges| ==> 0 <= edges[k].1 < |marks|
    ensures n <= |edges|
  {
    if edges == [] then 0
    else UnguardedIn(edges[..|edges| - 1], marks) + if marks[edges[|edges| - 1].1] then 0 else 1
  }

  lemma {:induction false} NoneUnguarded(edges: seq<(int, int)>, marks: seq<bool>)
    requires forall k :: 0 <= k < |edges| ==> 0 <= edges[k].1 < |marks|
    ensures UnguardedIn(edges, marks) == 0 <==> forall k :: 0 <= k < |edges| ==> marks[edges[k].1]
  {
    if edges != [] { NoneUnguarded(edges[..|edges| - 1], marks); }
  }

  method Unguarded(G: Cfg, marks: seq<bool>) returns (bad: nat)
    requires forall k :: 0 <= k < |G.backEdges| ==> 0 <= G.backEdges[k].1 < |marks|
    ensures bad == UnguardedIn(G.backEdges, marks) <= |G.backEdges|
    ensures bad == 0 <==> forall e :: e in G.backEdges ==> marks[e.1]
  {
    bad := 0;
    for k := 0 to |G.backEdges|
      invariant bad == UnguardedIn(G.backEdges[..k], marks)
    {
      assert G.backEdges[..k + 1][..k] == G.backEdges[..k];
      if !marks[G.backEdges[k].1] { bad := bad + 1; }
    }
    assert G.backEdges[..|G.backEdges|] == G.backEdges;
    NoneUnguarded(G.backEdges, marks);
  }
}
