/** Abstract register values and states (tools/merlin-verifier/verify.c, verify.h),
    ordered by their join. */
module Domain {
  import opened Words
  import opened Tnums

  /** Offsets of context and stack pointers are ranges relative to their base. */
  datatype RVal =
    | Uninit
    | Num(s: Scalar)
    | PtrCtx(lo: int, hi: int)
    | PtrStack(lo: int, hi: int)
    | PtrHelperRet(id: u32)
    | PtrKfuncSlot(id: u32)

  function NumTop(): RVal { Num(ScalarTop()) }
  function NumConst(v: i64): RVal { Num(ScalarConst(v)) }

  function JoinVal(a: RVal, b: RVal): RVal
  {
    match (a, b)
    case (Uninit, _) => b
    case (_, Uninit) => a
    case (Num(s), Num(t)) => Num(ScalarJoin(s, t))
    case (PtrCtx(lo, hi), PtrCtx(lo', hi')) => PtrCtx(Min(lo, lo'), Max(hi, hi'))
    case (PtrStack(lo, hi), PtrStack(lo', hi')) => PtrStack(Min(lo, lo'), Max(hi, hi'))
    case (PtrHelperRet(id), PtrHelperRet(id')) => if id == id' then a else NumTop()
    case (PtrKfuncSlot(id), PtrKfuncSlot(id')) => if id == id' then a else NumTop()
    case _ => NumTop()
  }

  predicate WfVal(a: RVal) { a.Num? ==> Wf(a.s.tn) }

  lemma JoinValCommutes(a: RVal, b: RVal)
    ensures JoinVal(a, b) == JoinVal(b, a)
  {
    hide Join;
    if a.Num? && b.Num? { JoinCommutes(a.s.tn, b.s.tn); }
  }

  lemma ScalarJoinTop(s: Scalar)
    ensures ScalarJoin(ScalarTop(), s) == ScalarTop() == ScalarJoin(s, ScalarTop())
  {
    hide Join;
    JoinTop(s.tn);
    JoinCommutes(s.tn, Top());
  }

  /** Scalar top absorbs everything and the uninitialised value nothing. */
  lemma JoinValExtremes(a: RVal)
    ensures JoinVal(NumTop(), a) == NumTop() == JoinVal(a, NumTop())
    ensures JoinVal(Uninit, a) == a == JoinVal(a, Uninit)
  {
    hide ScalarJoin;
    if a.Num? { ScalarJoinTop(a.s); }
  }

  lemma JoinValAssociates(a: RVal, b: RVal, c: RVal)
    requires WfVal(a) && WfVal(b) && WfVal(c)
    ensures JoinVal(JoinVal(a, b), c) == JoinVal(a, JoinVal(b, c))
  {
    hide Join, ScalarJoin, Wf;
    JoinValExtremes(a); JoinValExtremes(b); JoinValExtremes(c);
    if a.Num? && b.Num? && c.Num? { ScalarJoinAssociates(a.s, b.s, c.s); }
  }

  lemma ScalarJoinAssociates(a: Scalar, b: Scalar, c: Scalar)
    requires Wf(a.tn) && Wf(b.tn) && Wf(c.tn)
    ensures ScalarJoin(ScalarJoin(a, b), c) == ScalarJoin(a, ScalarJoin(b, c))
  {
    hide Join, Wf;
    JoinAssociates(a.tn, b.tn, c.tn);
  }

  /** Joining a value with itself gives it back exactly when its tnum is well-formed. */
  lemma JoinValIdempotent(a: RVal)
    ensures JoinVal(a, a) == a <==> WfVal(a)
  {
    hide Join, Wf;
    if a.Num? { JoinIdempotent(a.s.tn); }
  }

  lemma JoinValWf(a: RVal, b: RVal)
    requires WfVal(a) && WfVal(b)
    ensures WfVal(JoinVal(a, b)) && WfVal(NumTop())
  {
    hide Join, Wf, Add;
    TopWf();
    if a.Num? && b.Num? { WfPreserved(a.s.tn, b.s.tn, 0); }
  }

  lemma TopWf()
    ensures Wf(Top())
  {
    hide Wf, Has;
    TopHas(0);
    HasWf(Top());
  }

  /** The order the join induces. */
  predicate Below(a: RVal, b: RVal) { JoinVal(a, b) == b }

  lemma BelowTransitive(a: RVal, b: RVal, c: RVal)
    requires WfVal(a) && WfVal(b) && WfVal(c) && Below(a, b) && Below(b, c)
    ensures Below(a, c)
  {
    hide JoinVal, WfVal;
    JoinValAssociates(a, b, c);
  }

  /** The join is the least upper bound in its own order. */
  lemma JoinValLeast(a: RVal, b: RVal, c: RVal)
    requires WfVal(a) && WfVal(b) && WfVal(c)
    ensures Below(a, JoinVal(a, b)) && Below(b, JoinVal(a, b))
    ensures Below(a, c) && Below(b, c) ==> Below(JoinVal(a, b), c)
  {
    hide JoinVal, WfVal;
    JoinValIdempotent(a); JoinValIdempotent(b);
    JoinValAssociates(a, a, b);
    JoinValCommutes(a, b);
    JoinValAssociates(b, b, a);
    JoinValAssociates(a, b, c);
  }

  // ----- states -----

  /** Thirty-two registers; an invalid state is bottom (no path reaches it yet). */
  datatype VState = VState(x: seq<RVal>, valid: bool)

  predicate WfRegs(x: seq<RVal>) { |x| == 32 && forall i :: 0 <= i < 32 ==> WfVal(x[i]) }

  function JoinRegs(a: seq<RVal>, b: seq<RVal>): (r: seq<RVal>)
    requires |a| == |b| == 32
  {
    seq(32, i requires 0 <= i < 32 => JoinVal(a[i], b[i]))
  }

  function JoinState(dst: VState, src: VState): VState
    requires |dst.x| == |src.x| == 32
  {
    if !src.valid then dst else if !dst.valid then src else VState(JoinRegs(dst.x, src.x), true)
  }

  predicate WfState(s: VState) { WfRegs(s.x) }

  predicate RegsBelow(a: seq<RVal>, b: seq<RVal>)
  {
    |a| == |b| == 32 && forall i :: 0 <= i < 32 ==> Below(a[i], b[i])
  }

  /** Invalid states are below everything. */
  predicate StateBelow(a: VState, b: VState) { a.valid ==> b.valid && RegsBelow(a.x, b.x) }

  /** The join of states is an upper bound of both, and differs from dst exactly when
      dst was strictly below it. */
  lemma JoinStateUpper(dst: VState, src: VState)
    requires WfState(dst) && WfState(src)
    ensures WfState(JoinState(dst, src))
    ensures StateBelow(dst, JoinState(dst, src)) && StateBelow(src, JoinState(dst, src))
    ensures JoinState(dst, src) == dst ==> StateBelow(src, dst)
    ensures dst.valid && StateBelow(src, dst) ==> JoinState(dst, src) == dst
  {
    hide JoinVal, WfVal;
    var r := JoinState(dst, src);
    forall i | 0 <= i < 32
      ensures Below(dst.x[i], dst.x[i]) && Below(src.x[i], src.x[i])
      ensures Below(dst.x[i], JoinVal(dst.x[i], src.x[i])) && Below(src.x[i], JoinVal(dst.x[i], src.x[i]))
      ensures WfVal(JoinVal(dst.x[i], src.x[i]))
      ensures Below(src.x[i], dst.x[i]) ==> JoinVal(dst.x[i], src.x[i]) == dst.x[i]
    {
      JoinValIdempotent(dst.x[i]); JoinValIdempotent(src.x[i]);
      JoinValLeast(dst.x[i], src.x[i], dst.x[i]);
      JoinValWf(dst.x[i], src.x[i]);
      JoinValCommutes(dst.x[i], src.x[i]);
    }
    if dst.valid && StateBelow(src, dst) && src.valid { assert JoinRegs(dst.x, src.x) == dst.x; }
  }

  lemma StateBelowTransitive(a: VState, b: VState, c: VState)
    requires WfState(a) && WfState(b) && WfState(c) && StateBelow(a, b) && StateBelow(b, c)
    ensures StateBelow(a, c)
  {
    hide Below, WfVal;
    if a.valid {
      forall i | 0 <= i < 32 ensures Below(a.x[i], c.x[i]) { BelowTransitive(a.x[i], b.x[i], c.x[i]); }
    }
  }

  /** Joins src into entry[n] register by register; reports whether anything changed. */
  method VstateJoin(entry: array<VState>, n: int, src: VState) returns (changed: bool)
    requires 0 <= n < entry.Length && |entry[n].x| == |src.x| == 32
    modifies entry
    ensures entry[..] == old(entry[..])[n := JoinState(old(entry[n]), src)]
    ensures changed <==> entry[n] != old(entry[n])
  {
    hide JoinVal;
    changed := false;
    if !src.valid {
      return;
    }
    if !entry[n].valid {
      entry[n] := src;
      return true;
    }
    ghost var was := entry[n];
    ghost var all := entry[..];
    var i := 0;
    while i < 32
      invariant 0 <= i <= 32 && |entry[n].x| == 32 && entry[n].valid
      invariant entry[..] == all[n := entry[n]]
      invariant forall k :: 0 <= k < i ==> entry[n].x[k] == JoinVal(was.x[k], src.x[k])
      invariant forall k :: i <= k < 32 ==> entry[n].x[k] == was.x[k]
      invariant changed <==> entry[n].x != was.x
    {
      var nv := JoinVal(entry[n].x[i], src.x[i]);
      if nv != entry[n].x[i] {
        entry[n] := entry[n].(x := entry[n].x[i := nv]);
        changed := true;
        assert entry[n].x[i] != was.x[i];
      }
      i := i + 1;
    }
    assert entry[n].x == JoinRegs(was.x, src.x);
  }
}
