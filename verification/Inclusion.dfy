/** What the join of register values means, without naming it: inclusion of values by
    their fields, and the join as its least upper bound. */
module Inclusion {
  import opened Words
  import opened Tnums
  import opened Domain

  ghost predicate TnumIn(small: Tnum, big: Tnum) { forall x: u64 :: Has(small, x) ==> Has(big, x) }

  ghost predicate ScalarIn(small: Scalar, big: Scalar)
  {
    && big.smin <= small.smin && small.smax <= big.smax
    && big.umin <= small.umin && small.umax <= big.umax
    && TnumIn(small.tn, big.tn)
  }

  /** Says nothing about a word. */
  ghost predicate SaysNothing(s: Scalar)
  {
    && s.smin == -0x8000_0000_0000_0000 && s.smax == 0x7fff_ffff_ffff_ffff && s.umin == 0 && s.umax == 0xffff_ffff_ffff_ffff
    && forall x: u64 :: Has(s.tn, x)
  }

  /** big tells no more than small: an unwritten register is below every value, a scalar
      that says nothing above; otherwise the kinds agree, ranges are nested and ids equal. */
  ghost predicate Includes(big: RVal, small: RVal)
  {
    || small.Uninit?
    || (big.Num? && SaysNothing(big.s))
    || match (big, small)
       case (Num(b), Num(s)) => ScalarIn(s, b)
       case (PtrCtx(lo, hi), PtrCtx(lo', hi')) => lo <= lo' && hi' <= hi
       case (PtrStack(lo, hi), PtrStack(lo', hi')) => lo <= lo' && hi' <= hi
       case (PtrHelperRet(id), PtrHelperRet(id')) => id == id'
       case (PtrKfuncSlot(id), PtrKfuncSlot(id')) => id == id'
       case _ => false
  }

  // ----- tnums by their members -----

  lemma UnknownStaysUnknown(a: Tnum, b: Tnum, i: nat)
    requires Wf(a) && TnumIn(a, b) && i < 64 && Bit(a.mask, i)
    ensures Bit(b.mask, i)
  {
    hide Bit, And, Or, Xor, Has, Wf;
    HasWf(a);
    WfBits(a);
    assert BitWf(a, i);
    var x := Flipped(a, i);
    HasBits(b, x);
    HasBits(b, a.value);
    assert BitHas(b, x, i) && BitHas(b, a.value, i);
  }

  /** A well-formed tnum is determined by its members. */
  lemma SameMembers(a: Tnum, b: Tnum)
    requires Wf(a) && Wf(b) && TnumIn(a, b) && TnumIn(b, a)
    ensures a == b
  {
    hide Bit, And, Or, Xor, Has, Wf;
    HasWf(a);
    HasWf(b);
    WfBits(a);
    WfBits(b);
    HasBits(b, a.value);
    forall i: nat | i < 64
      ensures Bit(a.mask, i) == Bit(b.mask, i) && Bit(a.value, i) == Bit(b.value, i)
    {
      if Bit(a.mask, i) { UnknownStaysUnknown(a, b, i); }
      if Bit(b.mask, i) { UnknownStaysUnknown(b, a, i); }
      assert BitHas(b, a.value, i) && BitWf(a, i) && BitWf(b, i);
    }
    WordsEqual(a.mask, b.mask);
    WordsEqual(a.value, b.value);
  }

  lemma TnumJoinIn(a: Tnum, b: Tnum, c: Tnum)
    requires Wf(a) && Wf(b)
    ensures Wf(Join(a, b)) && TnumIn(a, Join(a, b)) && TnumIn(b, Join(a, b))
    ensures TnumIn(a, c) && TnumIn(b, c) ==> TnumIn(Join(a, b), c)
  {
    hide Has, Wf, Join;
    forall x: u64
      ensures (Has(a, x) || Has(b, x) ==> Has(Join(a, b), x)) && Wf(Join(a, b))
      ensures TnumIn(a, c) && TnumIn(b, c) && Has(Join(a, b), x) ==> Has(c, x)
    {
      JoinLeast(a, b, x);
      if TnumIn(a, c) && TnumIn(b, c) && Has(Join(a, b), x) { JoinBelow(a, b, c, x); }
    }
    assert Wf(Join(a, b)) by { JoinLeast(a, b, 0); }
  }

  lemma TnumJoinIff(a: Tnum, b: Tnum)
    requires Wf(a) && Wf(b)
    ensures Join(a, b) == b <==> TnumIn(a, b)
  {
    hide Has, Wf, Join, TnumIn;
    TnumJoinIn(a, b, b);
    assert TnumIn(b, b) by { InSelf(b); }
    if TnumIn(a, b) { SameMembers(Join(a, b), b); }
  }

  lemma InSelf(a: Tnum)
    ensures TnumIn(a, a)
  {
  }

  lemma TopSaysNothing(s: Scalar)
    requires Wf(s.tn)
    ensures SaysNothing(s) <==> s == ScalarTop()
  {
    hide Has, Wf, Top;
    TopWf();
    forall x: u64 ensures Has(Top(), x) { TopHas(x); }
    if SaysNothing(s) { SameMembers(s.tn, Top()); }
  }

  // ----- the join -----

  lemma ScalarJoinIn(a: Scalar, b: Scalar, c: Scalar)
    requires Wf(a.tn) && Wf(b.tn)
    ensures ScalarIn(a, ScalarJoin(a, b)) && ScalarIn(b, ScalarJoin(a, b))
    ensures ScalarIn(a, c) && ScalarIn(b, c) ==> ScalarIn(ScalarJoin(a, b), c)
  {
    hide Has, Wf, Join, TnumIn;
    TnumJoinIn(a.tn, b.tn, c.tn);
  }

  /** The join includes both values and lies in every value that includes both. */
  lemma JoinIsLeast(a: RVal, b: RVal, c: RVal)
    requires WfVal(a) && WfVal(b)
    ensures Includes(JoinVal(a, b), a) && Includes(JoinVal(a, b), b)
    ensures Includes(c, a) && Includes(c, b) ==> Includes(c, JoinVal(a, b))
  {
    hide ScalarJoin, ScalarIn, SaysNothing, ScalarTop, Wf;
    assert SaysNothing(ScalarTop()) by { TopWf(); TopIs(); }
    ScalarSelf(a);
    ScalarSelf(b);
    if a.Num? && b.Num? { ScalarJoinIn(a.s, b.s, if c.Num? then c.s else a.s); }
  }

  lemma TopIs()
    requires Wf(Top())
    ensures SaysNothing(ScalarTop())
  {
    TopSaysNothing(ScalarTop());
  }

  lemma ScalarSelf(a: RVal)
    ensures a.Num? ==> ScalarIn(a.s, a.s)
  {
    hide Has;
  }

  /** The order of the join is inclusion. */
  lemma BelowIff(a: RVal, b: RVal)
    requires WfVal(a) && WfVal(b)
    ensures Below(a, b) <==> Includes(b, a)
  {
    hide SaysNothing, ScalarTop, Wf, Join, TnumIn;
    if b.Num? { TopSaysNothing(b.s); }
    if a.Num? && b.Num? {
      TnumJoinIff(a.s.tn, b.s.tn);
      if SaysNothing(b.s) { ScalarJoinTop(a.s); }
    }
  }

  // ----- states -----

  /** An unreached state is below all. */
  ghost predicate StateIncludes(big: VState, small: VState)
  {
    small.valid ==> big.valid && |big.x| == |small.x| == 32 && forall k :: 0 <= k < 32 ==> Includes(big.x[k], small.x[k])
  }

  lemma SelfIncluded(a: RVal)
    ensures Includes(a, a)
  {
    hide SaysNothing;
    ScalarSelf(a);
  }

  /** Joining states is the least upper bound, register by register. */
  lemma JoinStateIsLeast(dst: VState, src: VState, c: VState)
    requires WfState(dst) && WfState(src)
    ensures |dst.x| == |src.x| == 32
    ensures StateIncludes(JoinState(dst, src), dst) && StateIncludes(JoinState(dst, src), src)
    ensures StateIncludes(c, dst) && StateIncludes(c, src) ==> StateIncludes(c, JoinState(dst, src))
  {
    hide Includes, JoinVal, WfVal;
    forall k | 0 <= k < 32
      ensures Includes(dst.x[k], dst.x[k]) && Includes(src.x[k], src.x[k])
      ensures Includes(JoinVal(dst.x[k], src.x[k]), dst.x[k]) && Includes(JoinVal(dst.x[k], src.x[k]), src.x[k])
      ensures |c.x| == 32 && Includes(c.x[k], dst.x[k]) && Includes(c.x[k], src.x[k]) ==> Includes(c.x[k], JoinVal(dst.x[k], src.x[k]))
    {
      SelfIncluded(dst.x[k]);
      SelfIncluded(src.x[k]);
      JoinIsLeast(dst.x[k], src.x[k], if |c.x| == 32 then c.x[k] else Uninit);
    }
  }
}
