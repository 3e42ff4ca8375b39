/** What the log of an analysis tells about it: the log is determined by the text, the
    placement and the configuration, and no offset computation along it overflows. */
module VisitLog {
  import opened Words
  import opened Decoder
  import opened Tnums
  import opened Domain
  import opened Transfer
  import opened ControlFlow
  import opened Verify
  import CfgUnique
  import opened Basics

  // ----- the log is unique -----

  lemma NextIsUnique(w: Work, u: Visit, v: Visit)
    requires NextVisit(w, u) && NextVisit(w, v)
    ensures u == v
  {
  }

  lemma {:induction false} LogsAgree(text: seq<u8>, c: Config, blocks: seq<Block>, a: seq<Visit>, b: seq<Visit>, k: nat)
    requires IsLog(text, c, blocks, a) && IsLog(text, c, blocks, b) && k <= |a| && k <= |b|
    ensures a[..k] == b[..k]
  {
    hide WorkAfter, NextVisit, InText;
    if k > 0 {
      LogsAgree(text, c, blocks, a, b, k - 1);
      NextIsUnique(WorkAfter(text, c, blocks, a[..k - 1]), a[k - 1], b[k - 1]);
      assert a[..k] == a[..k - 1] + [a[k - 1]] && b[..k] == b[..k - 1] + [b[k - 1]];
    }
  }

  lemma {:induction false} StepsGrow(text: seq<u8>, blocks: seq<Block>, log: seq<Visit>, k: nat)
    requires VisitsOk(text, blocks, log) && k <= |log|
    ensures StepsIn(text, blocks, log[..k]) <= StepsIn(text, blocks, log)
    decreases |log|
  {
    if k == |log| {
      assert log[..k] == log;
    } else {
      var pre := log[..|log| - 1];
      assert pre[..k] == log[..k];
      StepsGrow(text, blocks, pre, k);
    }
  }

  lemma NotShorter(text: seq<u8>, c: Config, blocks: seq<Block>, a: seq<Visit>, b: seq<Visit>)
    requires IsFullLog(text, c, blocks, a) && IsFullLog(text, c, blocks, b)
    ensures |a| >= |b|
  {
    hide WorkAfter, StepsIn, InText;
    if |a| < |b| {
      LogsAgree(text, c, blocks, a, b, |a|);
      assert a[..|a|] == a;
      assert NextVisit(WorkAfter(text, c, blocks, b[..|a|]), b[|a|]);
      var pre := b[..|b| - 1];
      assert pre[..|a|] == b[..|a|];
      StepsGrow(text, blocks, pre, |a|);
    }
  }

  /** Two full logs of the same analysis are the same log ... */
  lemma FullLogUnique(text: seq<u8>, c: Config, blocks: seq<Block>, a: seq<Visit>, b: seq<Visit>)
    requires IsFullLog(text, c, blocks, a) && IsFullLog(text, c, blocks, b)
    ensures a == b
  {
    hide IsLog, WorkAfter, StepsIn;
    NotShorter(text, c, blocks, a, b);
    NotShorter(text, c, blocks, b, a);
    LogsAgree(text, c, blocks, a, b, |a|);
    assert a[..|a|] == a && b[..|b|] == b;
  }

  /** ... and being clean does not depend on the order the back edges are listed in. */
  lemma CleanSame(text: seq<u8>, c: Config, G: Cfg, H: Cfg, log: seq<Visit>)
    requires G.blocks == H.blocks && forall e :: e in G.backEdges <==> e in H.backEdges
    ensures Clean(text, c, G, log) <==> Clean(text, c, H, log)
  {
    hide StepsIn, RejectsIn, MarkedIn, VisitsOk;
  }

  /** So the verdict is a function of the text, its placement and the configuration. */
  lemma VerdictDetermined(text: seq<u8>, textOffset: u32, c: Config,
                          ok: bool, G: Option<Cfg>, entry: seq<VState>, marks: seq<bool>, steps: int, log: seq<Visit>,
                          ok': bool, G': Option<Cfg>, entry': seq<VState>, marks': seq<bool>, steps': int, log': seq<Visit>)
    requires Outcome(text, textOffset, c, ok, G, entry, marks, steps, log)
    requires Outcome(text, textOffset, c, ok', G', entry', marks', steps', log')
    ensures StepCap(c) < 0x7fff_f000 ==> ok == ok'
    ensures G.Some? <==> G'.Some?
    ensures G.Some? ==> G.value.blocks == G'.value.blocks && log == log'
  {
    hide IsFullLog, Logged, Clean, Accepted, RejectsIn, ValidCfg, Buildable;
    if G.Some? {
      CfgUnique.CfgUnique(text, textOffset, G.value, G'.value);
      FullLogUnique(text, c, G.value.blocks, log, log');
      CleanSame(text, c, G.value, G'.value, log);
    }
  }

  /** A clean full log over the text's graph makes the verifier accept. */
  lemma CleanIsAccepted(text: seq<u8>, textOffset: u32, c: Config, G: Cfg, log: seq<Visit>,
                        ok: bool, H: Option<Cfg>, entry: seq<VState>, marks: seq<bool>, steps: int, log': seq<Visit>)
    requires Buildable(text) && ValidCfg(text, textOffset, G) && IsFullLog(text, c, G.blocks, log) && Clean(text, c, G, log)
    requires StepCap(c) < 0x7fff_f000 && Outcome(text, textOffset, c, ok, H, entry, marks, steps, log')
    ensures ok && H.Some? && H.value.blocks == G.blocks && log' == log
    ensures Accepted(text, textOffset, c, H.value, entry, marks)
    ensures VisitsOk(text, G.blocks, log) && entry == WorkAfter(text, c, G.blocks, log).entry
  {
    hide IsFullLog, Logged, Clean, Accepted, RejectsIn, ValidCfg, Buildable, WorkAfter, VisitsOk;
    CfgUnique.CfgUnique(text, textOffset, G, H.value);
    FullLogUnique(text, c, G.blocks, log, log');
    CleanSame(text, c, G, H.value, log);
    FullIsOk(text, c, G.blocks, log);
    LoggedIs(text, c, G.blocks, Work(entry, []), marks, steps, RejectsIn(text, c, G.blocks, log), log);
  }

  lemma FullIsOk(text: seq<u8>, c: Config, blocks: seq<Block>, log: seq<Visit>)
    requires IsFullLog(text, c, blocks, log)
    ensures VisitsOk(text, blocks, log)
  {
  }

  // ----- following the machine -----

  /** After the visits of the log the machine is in state w, with this many steps and
      rejections behind it. */
  ghost predicate RunsTo(text: seq<u8>, c: Config, blocks: seq<Block>, log: seq<Visit>, w: Work, steps: int, rejects: int)
  {
    && IsLog(text, c, blocks, log) && WorkAfter(text, c, blocks, log) == w
    && StepsIn(text, blocks, log) == steps && RejectsIn(text, c, blocks, log) == rejects
  }

  lemma RunsStart(text: seq<u8>, c: Config, blocks: seq<Block>)
    ensures RunsTo(text, c, blocks, [], StartWork(c, |blocks|), 0, 0)
  {
  }

  lemma RunsOn(text: seq<u8>, c: Config, blocks: seq<Block>, log: seq<Visit>, w: Work, steps: int, rejects: int, v: Visit, w': Work)
    requires RunsTo(text, c, blocks, log, w, steps, rejects) && NextVisit(w, v)
    requires 0 <= v.b < |blocks| == |w.entry| && InText(text, blocks[v.b]) && |v.x| == 32 && Whole(w.entry)
    requires w' == AfterBlock(text, c, blocks, Popped(w), v.b)
    ensures RunsTo(text, c, blocks, log + [v], w', steps + Len(blocks[v.b]),
                   rejects + RejectsOf(text, c, v.x, At(blocks[v.b]), Len(blocks[v.b])))
  {
    hide IsLog, InText, NextVisit, AfterBlock, RejectsOf;
    LogOk(text, c, blocks, log);
    VisitLogged(text, c, blocks, log, v);
    assert (log + [v])[..|log|] == log;
  }

  lemma RunsOk(text: seq<u8>, c: Config, blocks: seq<Block>, log: seq<Visit>, w: Work, steps: int, rejects: int)
    requires RunsTo(text, c, blocks, log, w, steps, rejects)
    ensures VisitsOk(text, blocks, log) && WorkAfter(text, c, blocks, log) == w
  {
    hide WorkAfter, StepsIn, RejectsIn;
  }

  lemma RunsEnd(text: seq<u8>, c: Config, G: Cfg, log: seq<Visit>, w: Work, steps: int)
    requires RunsTo(text, c, G.blocks, log, w, steps, 0) && w.queue == [] && steps <= StepCap(c) && VisitsOk(text, G.blocks, log)
    requires forall e :: e in G.backEdges ==> MarkedIn(text, c, G.blocks, log, e.1)
    ensures IsFullLog(text, c, G.blocks, log) && Clean(text, c, G, log)
  {
    hide IsLog, WorkAfter, MarkedIn, RejectsIn, StepsIn;
    if log != [] { StepsGrow(text, G.blocks, log, |log| - 1); }
  }

  lemma JoinSelf(s: VState)
    requires WfState(s)
    ensures JoinState(s, s) == s
  {
    hide JoinVal, WfVal;
    forall k | 0 <= k < 32 ensures JoinVal(s.x[k], s.x[k]) == s.x[k] { JoinValIdempotent(s.x[k]); }
  }

  // ----- offsets along the log -----

  lemma LogPrefix(text: seq<u8>, c: Config, blocks: seq<Block>, log: seq<Visit>, k: nat)
    requires IsLog(text, c, blocks, log) && k <= |log|
    ensures IsLog(text, c, blocks, log[..k]) && VisitsOk(text, blocks, log[..k])
  {
    hide WorkAfter, NextVisit, InText;
    forall j | 0 <= j < k
      ensures NextVisit(WorkAfter(text, c, blocks, log[..k][..j]), log[..k][j])
    {
      assert log[..k][..j] == log[..j];
    }
  }

  ghost predicate AllSane(c: Config, entry: seq<VState>, steps: int, clean: bool)
  {
    forall b :: 0 <= b < |entry| && entry[b].valid ==> Sane(entry[b].x, c, steps, clean)
  }

  lemma OfferSane(c: Config, w: Work, n: int, out: VState, steps: nat, clean: bool)
    requires Whole(w.entry) && |out.x| == 32 && out.valid && Sane(out.x, c, steps, clean) && AllSane(c, w.entry, steps, clean)
    ensures AllSane(c, Offer(w, n, out).entry, steps, clean)
  {
    hide Sane, JoinState;
    if 0 <= n < |w.entry| { JoinSane(w.entry[n], out, c, steps, steps, clean); }
  }

  lemma AllSaneWeaken(c: Config, entry: seq<VState>, m: nat, m': nat, clean: bool, clean': bool)
    requires AllSane(c, entry, m, clean) && m <= m' && (clean' ==> clean)
    ensures AllSane(c, entry, m', clean')
  {
    hide Sane;
    forall b | 0 <= b < |entry| && entry[b].valid
      ensures Sane(entry[b].x, c, m', clean')
    {
      SaneWeaken(entry[b].x, c, m, m', clean, clean');
    }
  }

  lemma BlockSane(text: seq<u8>, c: Config, blocks: seq<Block>, w: Work, i: int, steps: nat, clean: bool)
    requires Whole(w.entry) && 0 <= i < |blocks| == |w.entry| && InText(text, blocks[i]) && w.entry[i].valid
    requires AllSane(c, w.entry, steps, clean)
    ensures AllSane(c, AfterBlock(text, c, blocks, w, i).entry, steps + Len(blocks[i]),
                    clean && RejectsOf(text, c, w.entry[i].x, At(blocks[i]), Len(blocks[i])) == 0)
  {
    hide Sane, AllSane, RejectsOf, Offer;
    var x, b := w.entry[i].x, blocks[i];
    var out := VState(OutOf(text, c, b, x), true);
    var clean' := clean && RejectsOf(text, c, x, At(b), Len(b)) == 0;
    assert Sane(x, c, steps, clean) by { SaneAt(c, w.entry, i, steps, clean); }
    RegsAtSane(text, c, x, At(b), Len(b), steps, clean);
    AllSaneWeaken(c, w.entry, steps, steps + Len(b), clean, clean');
    OfferSane(c, w, b.succ0, out, steps + Len(b), clean');
    OfferSane(c, Offer(w, b.succ0, out), b.succ1, out, steps + Len(b), clean');
  }

  lemma SaneAt(c: Config, entry: seq<VState>, b: int, steps: int, clean: bool)
    requires AllSane(c, entry, steps, clean) && 0 <= b < |entry| && entry[b].valid
    ensures Sane(entry[b].x, c, steps, clean)
  {
    hide Sane;
  }

  lemma StartSane(c: Config, n: nat)
    ensures AllSane(c, StartWork(c, n).entry, 0, true)
  {
    hide Sane, InitRegs;
    InitSane(c);
    var entry := StartWork(c, n).entry;
    assert forall b :: 0 < b < n ==> entry[b] == Verify.Blank();
    assert n > 0 ==> entry[0] == InitState(c);
  }

  /** After any visits, every entry state keeps the bound on offsets, and sp in the frame
      as long as nothing was rejected. */
  lemma {:induction false} LogSane(text: seq<u8>, c: Config, blocks: seq<Block>, log: seq<Visit>)
    requires IsLog(text, c, blocks, log)
    ensures StepsIn(text, blocks, log) >= 0
    ensures AllSane(c, WorkAfter(text, c, blocks, log).entry, StepsIn(text, blocks, log), RejectsIn(text, c, blocks, log) == 0)
    decreases |log|
  {
    hide AllSane, AfterBlock, RejectsOf, StartWork;
    if log == [] {
      StartSane(c, |blocks|);
    } else {
      var pre, v := log[..|log| - 1], log[|log| - 1];
      LogPrefix(text, c, blocks, log, |log| - 1);
      LogSane(text, c, blocks, pre);
      var w := Popped(WorkAfter(text, c, blocks, pre));
      assert NextVisit(WorkAfter(text, c, blocks, pre), v);
      BlockSane(text, c, blocks, w, v.b, StepsIn(text, blocks, pre), RejectsIn(text, c, blocks, pre) == 0);
    }
  }

  /** The 64-bit sums the code forms at an instruction do not overflow. */
  predicate NoOverflow(i: Insn, x: seq<RVal>)
    requires |x| == 32
  {
    match x[i.rs1]
    case PtrStack(lo, hi) =>
      && (i.cls.Load? || i.cls.Store? || i.cls.AluImm? ==> InS(lo + i.imm) && InS(hi + i.imm))
      && (i.cls.Load? || i.cls.Store? ==> InS(hi + i.imm + 8))
    case PtrCtx(lo, hi) => i.cls.AluImm? ==> InS(lo + i.imm) && InS(hi + i.imm)
    case _ => true
  }

  lemma SmallSums(i: Insn, x: seq<RVal>, steps: nat)
    requires |x| == 32 && OffsetsWithin(x, steps) && steps < TWO32 && Ranged(i)
    ensures NoOverflow(i, x)
  {
    assert Verify.Within(x[i.rs1], steps);
  }

  /** At every step the analysis takes within its cap, accepted or not, tracked offsets
      are at most 2^30 + 2^11 per step taken, so that no offset or frame-window
      computation overflows; and sp is in the frame while nothing was rejected. */
  lemma OffsetsNeverOverflow(text: seq<u8>, c: Config, blocks: seq<Block>, log: seq<Visit>, k: nat, j: nat)
    requires IsLog(text, c, blocks, log) && k < |log| && j < Len(blocks[log[k].b])
    requires VisitsOk(text, blocks, log[..k]) && StepsIn(text, blocks, log[..k]) + j <= StepCap(c)
    ensures var b := blocks[log[k].b];
            && At(b) + Len(b) <= Count(text)
            && var x := RegsAt(text, c, log[k].x, At(b), j);
               && OffsetsWithin(x, StepsIn(text, blocks, log[..k]) + j)
               && NoOverflow(Ins(text, At(b) + j), x)
               && (RejectsIn(text, c, blocks, log[..k]) == 0 && RejectsOf(text, c, log[k].x, At(b), j) == 0 ==> SpInFrame(x, c))
  {
    hide AllSane, RegsAt, RejectsOf, RejectsIn, StepsIn, WorkAfter, OffsetsWithin, SpInFrame, NoOverflow, Ins, WfRegs;
    var pre, v := log[..k], log[k];
    var steps, clean := StepsIn(text, blocks, pre), RejectsIn(text, c, blocks, pre) == 0;
    LogPrefix(text, c, blocks, log, k);
    LogSane(text, c, blocks, pre);
    assert NextVisit(WorkAfter(text, c, blocks, pre), v);
    SaneAt(c, WorkAfter(text, c, blocks, pre).entry, v.b, steps, clean);
    var b := blocks[v.b];
    RegsAtSane(text, c, v.x, At(b), j, steps, clean);
    InsRanged(text, At(b) + j);
    SmallSums(Ins(text, At(b) + j), RegsAt(text, c, v.x, At(b), j), steps + j);
  }

  lemma InsRanged(text: seq<u8>, k: int)
    requires Words4(text) && 0 <= k < Count(text)
    ensures Ranged(Ins(text, k))
  {
    hide Decode, Ranged;
    ImmRanges(WordAt(text, 4 * k));
  }
}
