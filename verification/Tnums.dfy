/** Tristate numbers and the combined scalar domain of tools/merlin-verifier/tnum.h. */
module Tnums {
  import opened Words

  /** `mask` marks the unknown bits; a known bit has the value it has in `value`. */
  datatype Tnum = Tnum(value: u64, mask: u64)

  predicate Wf(t: Tnum) { And(t.value, t.mask) == 0 }

  /** Membership: x agrees with `value` on every known bit. */
  predicate Has(t: Tnum, x: u64) { And(x, Not(t.mask)) == t.value }

  function Const(v: u64): Tnum { Tnum(v, 0) }
  function Top(): Tnum { Tnum(0, Not(0)) }
  predicate IsConst(t: Tnum) { t.mask == 0 }

  function Join(a: Tnum, b: Tnum): Tnum
  {
    var v := And(a.value, b.value);
    var mu := Xor(a.value, b.value);
    var mask := Or(Or(a.mask, b.mask), mu);
    Tnum(And(v, Not(mask)), mask)
  }

  function Add(a: Tnum, b: Tnum): Tnum
  {
    var sm := Wrap64(a.mask + b.mask);
    var sv := Wrap64(a.value + b.value);
    var sigma := Wrap64(sv + sm);
    var chi := Xor(sigma, sv);
    var mu := Or(Or(chi, a.mask), b.mask);
    Tnum(And(sv, Not(mu)), mu)
  }

  function Sub(a: Tnum, b: Tnum): Tnum
  {
    var dv := Wrap64(a.value - b.value);
    var alpha := Wrap64(dv + a.mask);
    var beta := Wrap64(dv - b.mask);
    var chi := Xor(alpha, beta);
    var mu := Or(Or(chi, a.mask), b.mask);
    Tnum(And(dv, Not(mu)), mu)
  }

  function AndT(a: Tnum, b: Tnum): Tnum
  {
    var alpha := Or(a.value, a.mask);
    var beta := Or(b.value, b.mask);
    var v := And(a.value, b.value);
    Tnum(v, And(And(alpha, beta), Not(v)))
  }

  function OrT(a: Tnum, b: Tnum): Tnum
  {
    var v := Or(a.value, b.value);
    Tnum(v, And(Or(a.mask, b.mask), Not(v)))
  }

  function XorT(a: Tnum, b: Tnum): Tnum
  {
    var mu := Or(a.mask, b.mask);
    Tnum(And(Xor(a.value, b.value), Not(mu)), mu)
  }

  // ----- bit-level readings -----

  ghost predicate BitWf(t: Tnum, i: nat) { Bit(t.mask, i) ==> !Bit(t.value, i) }
  ghost predicate BitHas(t: Tnum, x: u64, i: nat)
  {
    BitWf(t, i) && (!Bit(t.mask, i) ==> Bit(x, i) == Bit(t.value, i))
  }

  lemma WfBits(t: Tnum)
    ensures Wf(t) <==> forall i: nat :: i < 64 ==> BitWf(t, i)
  {
    hide Bit, And, Or, Xor;
    forall i: nat | i < 64
      ensures Bit(And(t.value, t.mask), i) == !BitWf(t, i)
    {
      BitAndAt(t.value, t.mask, i);
    }
    forall i: nat { BitZero(i); }
    if forall i: nat :: i < 64 ==> BitWf(t, i) { WordsEqual(And(t.value, t.mask), 0); }
  }

  lemma HasBits(t: Tnum, x: u64)
    ensures Has(t, x) <==> forall i: nat :: i < 64 ==> BitHas(t, x, i)
  {
    hide Bit, And, Or, Xor;
    forall i: nat | i < 64
      ensures (Bit(And(x, Not(t.mask)), i) == Bit(t.value, i)) == BitHas(t, x, i)
    {
      BitAndAt(x, Not(t.mask), i);
      BitNotAt(t.mask, i);
    }
    if forall i: nat :: i < 64 ==> BitHas(t, x, i) { WordsEqual(And(x, Not(t.mask)), t.value); }
  }

  /** Only well-formed tnums have members, and a well-formed one has its value. */
  lemma HasWf(t: Tnum)
    ensures Wf(t) <==> Has(t, t.value)
    ensures forall x: u64 :: Has(t, x) ==> Wf(t)
  {
    hide Bit, And, Or, Xor;
    WfBits(t);
    HasBits(t, t.value);
    if Wf(t) {
      forall i: nat | i < 64 ensures BitHas(t, t.value, i) { assert BitWf(t, i); }
    }
    forall x: u64 | Has(t, x)
      ensures Wf(t)
    {
      HasBits(t, x);
      forall i: nat | i < 64 ensures BitWf(t, i) { assert BitHas(t, x, i); }
    }
    if Has(t, t.value) {
      forall i: nat | i < 64 ensures BitWf(t, i) { assert BitHas(t, t.value, i); }
    }
  }

  lemma ConstHas(v: u64, x: u64)
    ensures Has(Const(v), x) <==> x == v
  {
    hide Bit, And, Or, Xor;
    HasBits(Const(v), x);
    forall i: nat { BitZero(i); }
    if Has(Const(v), x) {
      forall i: nat | i < 64 ensures Bit(x, i) == Bit(v, i) { assert BitHas(Const(v), x, i); }
      WordsEqual(x, v);
    }
  }

  lemma TopHas(x: u64)
    ensures Has(Top(), x)
  {
    hide Bit, And, Or, Xor;
    HasBits(Top(), x);
    forall i: nat | i < 64
      ensures BitHas(Top(), x, i)
    {
      BitZero(i);
      BitNotAt(0, i);
    }
  }

  // ----- join -----

  lemma JoinAt(a: Tnum, b: Tnum, i: nat)
    requires i < 64
    ensures Bit(Join(a, b).mask, i) == (Bit(a.mask, i) || Bit(b.mask, i) || Bit(a.value, i) != Bit(b.value, i))
    ensures Bit(Join(a, b).value, i) == (!Bit(Join(a, b).mask, i) && Bit(a.value, i) && Bit(b.value, i))
  {
    hide Bit, And, Or, Xor;
    var v, mu := And(a.value, b.value), Xor(a.value, b.value);
    var mask := Or(Or(a.mask, b.mask), mu);
    BitAndAt(a.value, b.value, i);
    BitXorAt(a.value, b.value, i);
    BitOrAt(a.mask, b.mask, i);
    BitOrAt(Or(a.mask, b.mask), mu, i);
    BitNotAt(mask, i);
    BitAndAt(v, Not(mask), i);
  }

  /** The join is the least tnum that has every member of both: it is an upper
      bound, and it is below every other upper bound. */
  lemma JoinLeast(a: Tnum, b: Tnum, x: u64)
    requires Wf(a) && Wf(b)
    ensures Has(a, x) || Has(b, x) ==> Has(Join(a, b), x)
    ensures Wf(Join(a, b))
    ensures forall t: Tnum ::
              (forall y: u64 :: Has(a, y) || Has(b, y) ==> Has(t, y)) && Has(Join(a, b), x) ==> Has(t, x)
  {
    hide Bit, And, Or, Xor;
    WfBits(a); WfBits(b); WfBits(Join(a, b));
    HasBits(a, x); HasBits(b, x); HasBits(Join(a, b), x);
    forall i: nat | i < 64
      ensures BitWf(Join(a, b), i)
      ensures BitHas(a, x, i) ==> BitHas(Join(a, b), x, i)
      ensures BitHas(b, x, i) ==> BitHas(Join(a, b), x, i)
    {
      JoinAt(a, b, i);
    }
    forall t: Tnum | (forall y: u64 :: Has(a, y) || Has(b, y) ==> Has(t, y)) && Has(Join(a, b), x)
      ensures Has(t, x)
    {
      HasWf(a); HasWf(b);
      JoinBelow(a, b, t, x);
    }
  }

  /** A tnum that has every member of a and b has every member of the join. */
  lemma JoinBelow(a: Tnum, b: Tnum, t: Tnum, x: u64)
    requires Wf(a) && Wf(b) && Has(Join(a, b), x)
    requires forall y: u64 :: Has(a, y) || Has(b, y) ==> Has(t, y)
    ensures Has(t, x)
  {
    hide Bit, And, Or, Xor;
    HasWf(a); HasWf(b);
    WfBits(a); WfBits(b);
    HasBits(Join(a, b), x); HasBits(t, x);
    forall i: nat | i < 64
      ensures BitHas(t, x, i)
    {
      JoinAt(a, b, i);
      HasBits(t, a.value); HasBits(t, b.value);
      assert BitHas(t, a.value, i) && BitHas(t, b.value, i) && BitHas(Join(a, b), x, i);
      if Bit(a.mask, i) { var y := Flipped(a, i); HasBits(t, y); assert BitHas(t, y, i); assert BitWf(a, i); }
      if Bit(b.mask, i) { var y := Flipped(b, i); HasBits(t, y); assert BitHas(t, y, i); assert BitWf(b, i); }
    }
  }

  /** The member of a that differs from its value exactly at the unknown bit i. */
  lemma Flipped(a: Tnum, i: nat) returns (x: u64)
    requires Wf(a) && i < 64 && Bit(a.mask, i)
    ensures Has(a, x) && x == a.value + Pow2(i) && Bit(x, i)
  {
    hide Bit, And, Or, Xor;
    WfBits(a);
    assert BitWf(a, i);
    Pow2Values();
    BitSetBound(a.value, i, 64);
    x := a.value + Pow2(i);
    HasBits(a, x);
    forall k: nat | k < 64
      ensures BitHas(a, x, k)
    {
      BitSet(a.value, i, k);
      assert BitWf(a, k);
    }
    BitSet(a.value, i, i);
  }

  lemma TnumsEqual(a: Tnum, b: Tnum)
    requires forall i: nat :: i < 64 ==> Bit(a.value, i) == Bit(b.value, i) && Bit(a.mask, i) == Bit(b.mask, i)
    ensures a == b
  {
    hide Bit, And, Or, Xor;
    WordsEqual(a.value, b.value);
    WordsEqual(a.mask, b.mask);
  }

  lemma JoinCommutes(a: Tnum, b: Tnum)
    ensures Join(a, b) == Join(b, a)
  {
    hide Bit, And, Or, Xor;
    forall i: nat | i < 64
      ensures Bit(Join(a, b).value, i) == Bit(Join(b, a).value, i) && Bit(Join(a, b).mask, i) == Bit(Join(b, a).mask, i)
    {
      JoinAt(a, b, i);
      JoinAt(b, a, i);
    }
    TnumsEqual(Join(a, b), Join(b, a));
  }

  lemma JoinAssociates(a: Tnum, b: Tnum, c: Tnum)
    requires Wf(a) && Wf(b) && Wf(c)
    ensures Join(Join(a, b), c) == Join(a, Join(b, c))
  {
    hide Bit, And, Or, Xor;
    WfBits(a); WfBits(b); WfBits(c);
    var l, r := Join(Join(a, b), c), Join(a, Join(b, c));
    forall i: nat | i < 64
      ensures Bit(l.value, i) == Bit(r.value, i) && Bit(l.mask, i) == Bit(r.mask, i)
    {
      JoinAt(a, b, i); JoinAt(Join(a, b), c, i);
      JoinAt(b, c, i); JoinAt(a, Join(b, c), i);
      assert BitWf(a, i) && BitWf(b, i) && BitWf(c, i);
    }
    TnumsEqual(l, r);
  }

  /** Joining a tnum with itself gives it back exactly when it is well-formed. */
  lemma JoinIdempotent(a: Tnum)
    ensures Join(a, a) == a <==> Wf(a)
  {
    hide Bit, And, Or, Xor;
    WfBits(a);
    forall i: nat | i < 64
      ensures Bit(Join(a, a).mask, i) == Bit(a.mask, i)
      ensures Bit(Join(a, a).value, i) == (Bit(a.value, i) && !Bit(a.mask, i))
    {
      JoinAt(a, a, i);
    }
    if Wf(a) {
      forall i: nat | i < 64 ensures Bit(Join(a, a).value, i) == Bit(a.value, i) { assert BitWf(a, i); }
      TnumsEqual(Join(a, a), a);
    }
  }

  lemma JoinTop(a: Tnum)
    ensures Join(Top(), a) == Top()
  {
    hide Bit, And, Or, Xor;
    forall i: nat | i < 64
      ensures Bit(Join(Top(), a).value, i) == Bit(0, i) && Bit(Join(Top(), a).mask, i) == Bit(Not(0), i)
    {
      JoinAt(Top(), a, i);
      BitNotAt(0, i);
      BitZero(i);
    }
    TnumsEqual(Join(Top(), a), Top());
  }

  // ----- addition and subtraction -----

  /** x lies between lo and lo + m, bit by bit: the known bits are those outside m. */
  ghost predicate Within(lo: nat, m: nat, x: nat)
  {
    forall k: nat :: k < 64 ==> (Bit(m, k) ==> !Bit(lo, k)) && (!Bit(m, k) ==> Bit(x, k) == Bit(lo, k))
  }

  lemma HasWithin(t: Tnum, x: u64)
    ensures Has(t, x) <==> Within(t.value, t.mask, x)
  {
    hide Bit, And, Or, Xor;
    HasBits(t, x);
    if Within(t.value, t.mask, x) {
      forall i: nat | i < 64 ensures BitHas(t, x, i) { }
    }
    if Has(t, x) {
      forall k: nat | k < 64
        ensures (Bit(t.mask, k) ==> !Bit(t.value, k)) && (!Bit(t.mask, k) ==> Bit(x, k) == Bit(t.value, k))
      {
        assert BitHas(t, x, k);
      }
    }
  }

  /** The kernel of both soundness proofs.  A sum bit is fixed as soon as both
      summand bits are known and the least and greatest sums agree on it. */
  lemma SumBitFixed(xlo: nat, xm: nat, x: nat, ylo: nat, ym: nat, y: nat, c: nat, i: nat)
    requires c <= 1 && i < 64
    requires Within(xlo, xm, x) && Within(ylo, ym, y)
    requires !Bit(xm, i) && !Bit(ym, i)
    requires Bit(xlo + ylo + c, i) == Bit((xlo + xm) + (ylo + ym) + c, i)
    ensures Bit(x + y + c, i) == Bit(xlo + ylo + c, i)
  {
    hide Bit, And, Or, Xor;
    var xhi, yhi := xlo + xm, ylo + ym;
    forall k: nat | k <= i
      ensures Bit(xhi, k) == (Bit(xlo, k) || Bit(xm, k)) && Bit(yhi, k) == (Bit(ylo, k) || Bit(ym, k))
    {
      DisjointSum(xlo, xm, k);
      DisjointSum(ylo, ym, k);
    }
    CarryMonotone(xlo, ylo, x, y, c, c, i);
    CarryMonotone(x, y, xhi, yhi, c, c, i);
    BitOfSum(xlo, ylo, c, i);
    BitOfSum(x, y, c, i);
    BitOfSum(xhi, yhi, c, i);
  }

  /** The bits of the mask and value that both operations assemble from the two
      extreme results p and q and the reference result v. */
  lemma AssembleAt(p: u64, q: u64, v: u64, am: u64, bm: u64, i: nat)
    requires i < 64
    ensures var mu := Or(Or(Xor(p, q), am), bm);
            && Bit(mu, i) == (Bit(am, i) || Bit(bm, i) || Bit(p, i) != Bit(q, i))
            && Bit(And(v, Not(mu)), i) == (Bit(v, i) && !Bit(mu, i))
  {
    hide Bit, And, Or, Xor;
    var chi := Xor(p, q);
    var mu := Or(Or(chi, am), bm);
    BitXorAt(p, q, i);
    BitOrAt(chi, am, i);
    BitOrAt(Or(chi, am), bm, i);
    BitNotAt(mu, i);
    BitAndAt(v, Not(mu), i);
  }

  lemma AddAt(a: Tnum, b: Tnum, i: nat)
    requires i < 64
    ensures Bit(Add(a, b).mask, i) ==
            (Bit(a.mask, i) || Bit(b.mask, i) ||
             Bit((a.value + a.mask) + (b.value + b.mask), i) != Bit(a.value + b.value, i))
    ensures Bit(Add(a, b).value, i) == (Bit(a.value + b.value, i) && !Bit(Add(a, b).mask, i))
  {
    hide Bit, Wrap64, And, Or, Xor;
    var sv := Wrap64(a.value + b.value);
    var sigma := Wrap64(Wrap64(a.value + b.value) + Wrap64(a.mask + b.mask));
    WrapOfSum(a.value + b.value, a.mask + b.mask);
    assert (a.value + b.value) + (a.mask + b.mask) == (a.value + a.mask) + (b.value + b.mask);
    BitWrapAt((a.value + a.mask) + (b.value + b.mask), i);
    BitWrapAt(a.value + b.value, i);
    AssembleAt(sigma, sv, sv, a.mask, b.mask, i);
  }

  lemma WrapOfSum(x: int, y: int)
    ensures Wrap64(Wrap64(x) + y) == Wrap64(x + y) == Wrap64(Wrap64(x) + Wrap64(y))
  {
  }

  /** Every wrapped sum of members is a member of the sum. */
  lemma AddSound(a: Tnum, b: Tnum, x: u64, y: u64)
    requires Has(a, x) && Has(b, y)
    ensures Has(Add(a, b), Wrap64(x + y))
  {
    hide Bit, And, Or, Xor;
    HasWithin(a, x); HasWithin(b, y);
    var r, z := Add(a, b), Wrap64(x + y);
    forall i: nat | i < 64
      ensures BitHas(r, z, i)
    {
      AddAt(a, b, i);
      BitWrapAt(x + y, i);
      if !Bit(r.mask, i) { SumBitFixed(a.value, a.mask, x, b.value, b.mask, y, 0, i); }
    }
    HasBits(r, z);
  }

  /** The greatest member: every unknown bit set. */
  lemma Greatest(a: Tnum) returns (x: u64)
    requires Wf(a)
    ensures Has(a, x) && x == a.value + a.mask
  {
    hide Bit, And, Or, Xor;
    WfBits(a);
    Pow2Values();
    forall k: nat | k < 64
      ensures !(Bit(a.value, k) && Bit(a.mask, k))
    {
      assert BitWf(a, k);
    }
    DisjointBound(a.value, a.mask, 64);
    x := a.value + a.mask;
    forall i: nat | i < 64
      ensures BitHas(a, x, i)
    {
      assert BitWf(a, i);
      DisjointSum(a.value, a.mask, i);
    }
    HasBits(a, x);
  }

  /** No unknown bit of a sum could have been known: each takes both values on members. */
  lemma AddOptimal(a: Tnum, b: Tnum, i: nat)
    returns (x: u64, y: u64, x': u64, y': u64)
    requires Wf(a) && Wf(b) && i < 64 && Bit(Add(a, b).mask, i)
    ensures Has(a, x) && Has(b, y) && Has(a, x') && Has(b, y')
    ensures Bit(Wrap64(x + y), i) && !Bit(Wrap64(x' + y'), i)
  {
    hide Bit, And, Or, Xor, Has, Wrap64, Add, Wf;
    AddAt(a, b, i);
    HasWf(a); HasWf(b);
    x, y := a.value, b.value;
    x', y' := a.value, b.value;
    if Bit(a.mask, i) {
      x' := Flipped(a, i);
      BitFlip(a.value + b.value, i);
      assert x' + y' == a.value + b.value + Pow2(i);
    } else if Bit(b.mask, i) {
      y' := Flipped(b, i);
      BitFlip(a.value + b.value, i);
      assert x' + y' == a.value + b.value + Pow2(i);
    } else {
      x' := Greatest(a);
      y' := Greatest(b);
    }
    BitWrapAt(x + y, i);
    BitWrapAt(x' + y', i);
    if !Bit(Wrap64(x + y), i) { x, y, x', y' := x', y', x, y; }
  }

  /** Subtraction is addition of the complement with a carry in. */
  lemma SubAsSum(x: u64, y: u64)
    ensures Wrap64(x - y) == Wrap64(x + Not(y) + 1)
  {
    assert x - y == x + Not(y) + 1 - TWO64;
  }

  lemma ComplementWithin(b: Tnum, y: u64)
    requires Has(b, y)
    ensures b.value + b.mask < TWO64
    ensures Within(Not(b.value + b.mask), b.mask, Not(y))
  {
    hide Bit, And, Or, Xor;
    HasWf(b);
    var hi := Greatest(b);
    HasWithin(b, hi); HasWithin(b, y);
    forall k: nat | k < 64
      ensures Bit(b.mask, k) ==> !Bit(Not(hi), k)
      ensures !Bit(b.mask, k) ==> Bit(Not(y), k) == Bit(Not(hi), k)
    {
      BitNotAt(hi, k); BitNotAt(y, k);
      DisjointSum(b.value, b.mask, k);
    }
  }

  /** The three wrapped results of a subtraction, each as a sum with a carry in. */
  lemma SubParts(av: u64, am: u64, bv: u64, bm: u64)
    requires bv + bm < TWO64
    ensures var dv := Wrap64(av - bv);
            && dv == Wrap64(av + Not(bv) + 1)
            && Wrap64(dv + am) == Wrap64((av + am) + Not(bv) + 1)
            && Wrap64(dv - bm) == Wrap64(av + Not(bv + bm) + 1)
  {
    SubAsSum(av, bv);
    SubAsSum(av, bv + bm);
    WrapOfSum(av - bv, am);
    WrapOfSum(av - bv, 0 - bm);
    WrapOfSum(av + Not(bv) + 1, am);
  }

  lemma SubAt(a: Tnum, b: Tnum, i: nat)
    requires i < 64 && b.value + b.mask < TWO64
    ensures Bit(Sub(a, b).mask, i) ==
            (Bit(a.mask, i) || Bit(b.mask, i) ||
             Bit((a.value + a.mask) + Not(b.value) + 1, i) != Bit(a.value + Not(b.value + b.mask) + 1, i))
    ensures Bit(Sub(a, b).value, i) == (Bit(a.value + Not(b.value) + 1, i) && !Bit(Sub(a, b).mask, i))
  {
    hide Bit, Wrap64, And, Or, Xor;
    SubParts(a.value, a.mask, b.value, b.mask);
    var dv := Wrap64(a.value - b.value);
    var alpha, beta := Wrap64(Wrap64(a.value - b.value) + a.mask), Wrap64(Wrap64(a.value - b.value) - b.mask);
    BitWrapAt(a.value + Not(b.value) + 1, i);
    BitWrapAt((a.value + a.mask) + Not(b.value) + 1, i);
    BitWrapAt(a.value + Not(b.value + b.mask) + 1, i);
    AssembleAt(alpha, beta, dv, a.mask, b.mask, i);
  }

  /** Every wrapped difference of members is a member of the difference. */
  lemma SubSound(a: Tnum, b: Tnum, x: u64, y: u64)
    requires Has(a, x) && Has(b, y)
    ensures Has(Sub(a, b), Wrap64(x - y))
  {
    hide Bit, And, Or, Xor;
    HasWf(a); HasWf(b);
    HasWithin(a, x); HasWithin(a, a.value);
    ComplementWithin(b, y);
    ComplementWithin(b, b.value);
    var r, z := Sub(a, b), Wrap64(x - y);
    SubAsSum(x, y);
    forall i: nat | i < 64
      ensures BitHas(r, z, i)
    {
      SubBitHas(a, b, x, y, z, i);
    }
    HasBits(r, z);
  }

  lemma SubBitHas(a: Tnum, b: Tnum, x: u64, y: u64, z: u64, i: nat)
    requires i < 64 && b.value + b.mask < TWO64
    requires Within(a.value, a.mask, x) && Within(a.value, a.mask, a.value)
    requires var lo := Not(b.value + b.mask); Within(lo, b.mask, Not(y)) && Within(lo, b.mask, Not(b.value))
    requires z == Wrap64(x + Not(y) + 1)
    ensures BitHas(Sub(a, b), z, i)
  {
    hide Bit, Wrap64, Sub, Within, And;
    var lo := Not(b.value + b.mask);
    SubAt(a, b, i);
    BitWrapAt(x + Not(y) + 1, i);
    if !Bit(Sub(a, b).mask, i) {
      assert lo + b.mask == Not(b.value);
      SumBitFixed(a.value, a.mask, x, lo, b.mask, Not(y), 1, i);
      SumBitFixed(a.value, a.mask, a.value, lo, b.mask, Not(b.value), 1, i);
    }
  }

  lemma SubOptimal(a: Tnum, b: Tnum, i: nat)
    returns (x: u64, y: u64, x': u64, y': u64)
    requires Wf(a) && Wf(b) && i < 64 && Bit(Sub(a, b).mask, i)
    ensures Has(a, x) && Has(b, y) && Has(a, x') && Has(b, y')
    ensures Bit(Wrap64(x - y), i) && !Bit(Wrap64(x' - y'), i)
  {
    hide Bit, And, Or, Xor, Has, Wrap64, Sub, Wf;
    HasWf(a); HasWf(b);
    x := Greatest(a);
    y' := Greatest(b);
    SubAt(a, b, i);
    y := b.value;
    x' := a.value;
    if Bit(a.mask, i) {
      x, y' := a.value, b.value;
      x' := Flipped(a, i);
      BitFlip(a.value + Not(b.value) + 1, i);
      assert x' + Not(y') + 1 == a.value + Not(b.value) + 1 + Pow2(i);
    } else if Bit(b.mask, i) {
      x := a.value;
      y' := Flipped(b, i);
      BitFlip(a.value + Not(y') + 1, i);
      assert x + Not(y) + 1 == a.value + Not(y') + 1 + Pow2(i);
    }
    SubAsSum(x, y); SubAsSum(x', y');
    BitWrapAt(x + Not(y) + 1, i);
    BitWrapAt(x' + Not(y') + 1, i);
    if !Bit(Wrap64(x - y), i) { x, y, x', y' := x', y', x, y; }
  }

  // ----- bitwise transfer functions -----

  /** The three bitwise operators are sound, bit by bit. */
  lemma BitwiseSound(a: Tnum, b: Tnum, x: u64, y: u64)
    requires Has(a, x) && Has(b, y)
    ensures Has(AndT(a, b), And(x, y))
    ensures Has(OrT(a, b), Or(x, y))
    ensures Has(XorT(a, b), Xor(x, y))
  {
    hide Bit, And, Or, Xor;
    HasBits(a, x); HasBits(b, y);
    forall i: nat | i < 64
      ensures BitHas(AndT(a, b), And(x, y), i)
      ensures BitHas(OrT(a, b), Or(x, y), i)
      ensures BitHas(XorT(a, b), Xor(x, y), i)
    {
      assert BitHas(a, x, i) && BitHas(b, y, i);
      AndAt(a, b, i); BitAndAt(x, y, i);
      OrAt(a, b, i); BitOrAt(x, y, i);
      XorAt(a, b, i); BitXorAt(x, y, i);
    }
    HasBits(AndT(a, b), And(x, y));
    HasBits(OrT(a, b), Or(x, y));
    HasBits(XorT(a, b), Xor(x, y));
  }

  /** A member whose bit i is b, where a leaves that open. */
  lemma Pick(a: Tnum, i: nat, b: bool) returns (x: u64)
    requires Wf(a) && i < 64 && (Bit(a.mask, i) || Bit(a.value, i) == b)
    ensures Has(a, x) && Bit(x, i) == b
  {
    hide Bit, And, Or, Xor, Has;
    HasWf(a);
    WfBits(a);
    assert BitWf(a, i);
    if Bit(a.mask, i) && b { x := Flipped(a, i); } else { x := a.value; }
  }

  /** Every unknown bit of a bitwise result is attained as both 1 and 0. */
  lemma BitwiseOptimal(op: BitOp, a: Tnum, b: Tnum, i: nat)
    returns (x: u64, y: u64, x': u64, y': u64)
    requires Wf(a) && Wf(b) && i < 64 && Bit(OnTnums(op, a, b).mask, i)
    ensures Has(a, x) && Has(b, y) && Has(a, x') && Has(b, y')
    ensures op.On(Bit(x, i), Bit(y, i)) && !op.On(Bit(x', i), Bit(y', i))
  {
    hide Bit, And, Or, Xor, Has, Wf, AndT, OrT, XorT;
    AndAt(a, b, i); OrAt(a, b, i); XorAt(a, b, i);
    if Bit(a.mask, i) {
      x := Pick(a, i, true);
      x' := Pick(a, i, false);
      var other := Bit(b.value, i) || (Bit(b.mask, i) && op == BitAnd);
      y := Pick(b, i, other);
      y' := y;
      if op == BitXor && other { x, x' := x', x; }
    } else {
      y := Pick(b, i, true);
      y' := Pick(b, i, false);
      x := Pick(a, i, Bit(a.value, i));
      x' := x;
      if op == BitXor && Bit(a.value, i) { y, y' := y', y; }
    }
  }

  function OnTnums(op: BitOp, a: Tnum, b: Tnum): Tnum
  {
    match op
    case BitAnd => AndT(a, b)
    case BitOr => OrT(a, b)
    case BitXor => XorT(a, b)
  }

  // ----- shifts by a known amount -----

  function LShift(a: Tnum, k: nat): Tnum
  {
    if k >= 64 then Top() else Tnum(ShiftLeft(a.value, k), ShiftLeft(a.mask, k))
  }

  function RShift(a: Tnum, k: nat): Tnum
  {
    if k >= 64 then Const(0) else Tnum(ShiftRight(a.value, k), ShiftRight(a.mask, k))
  }

  lemma LeftAt(x: u64, k: nat, i: nat)
    requires i < 64
    ensures Bit(ShiftLeft(x, k), i) == (i >= k && Bit(x, i - k))
  {
    hide Bit, Wrap64;
    MulSign(x, Pow2(k));
    BitWrapAt(x * Pow2(k), i);
    BitShiftLeft(x, k, i);
  }

  lemma RightAt(x: u64, k: nat, i: nat)
    requires i < 64
    ensures Bit(ShiftRight(x, k), i) == (i + k < 64 && Bit(x, i + k))
  {
    hide Bit;
    BitShiftRight(x, k, ShiftRight(x, k), i);
    if i + k >= 64 {
      Pow2Values();
      BitShiftRight(x, 64, 0, i + k - 64);
      BitZero(i + k - 64);
    }
  }

  /** From 64 on, a left shift knows nothing and a right shift leaves exactly 0. */
  lemma ShiftBeyond(a: Tnum, x: u64, k: nat)
    requires k >= 64
    ensures Has(LShift(a, k), x)
    ensures Has(RShift(a, k), x) <==> x == 0
  {
    hide Bit, And, Or, Xor, Has;
    TopHas(x);
    ConstHas(0, x);
  }


  /** Shifts are sound for every amount, 64 and above included. */
  lemma ShiftSound(a: Tnum, x: u64, k: nat)
    requires Has(a, x)
    ensures Has(LShift(a, k), ShiftLeft(x, k))
    ensures Has(RShift(a, k), ShiftRight(x, k))
  {
    hide Bit, And, Or, Xor, Has, ShiftLeft, ShiftRight;
    HasBits(a, x);
    if k >= 64 {
      TopHas(ShiftLeft(x, k));
      ShiftedOut(x, k);
      ConstHas(0, 0);
    } else {
      forall i: nat | i < 64
        ensures BitHas(LShift(a, k), ShiftLeft(x, k), i) && BitHas(RShift(a, k), ShiftRight(x, k), i)
      {
        LeftAt(x, k, i); LeftAt(a.value, k, i); LeftAt(a.mask, k, i);
        RightAt(x, k, i); RightAt(a.value, k, i); RightAt(a.mask, k, i);
        if i >= k { assert BitHas(a, x, i - k); }
        if i + k < 64 { assert BitHas(a, x, i + k); }
      }
      HasBits(LShift(a, k), ShiftLeft(x, k));
      HasBits(RShift(a, k), ShiftRight(x, k));
    }
  }

  lemma ShiftedOut(x: u64, k: nat)
    requires k >= 64
    ensures ShiftRight(x, k) == 0
  {
    hide Bit, ShiftRight;
    forall i: nat | i < 64
      ensures Bit(ShiftRight(x, k), i) == Bit(0, i)
    {
      RightAt(x, k, i);
      BitZero(i);
    }
    WordsEqual(ShiftRight(x, k), 0);
  }

  /** Below 64, every unknown bit of a shifted tnum is attained as both 1 and 0. */
  lemma ShiftOptimal(a: Tnum, k: nat, i: nat, left: bool) returns (x: u64, x': u64)
    requires Wf(a) && k < 64 && i < 64 && Bit((if left then LShift(a, k) else RShift(a, k)).mask, i)
    ensures Has(a, x) && Has(a, x')
    ensures left ==> Bit(ShiftLeft(x, k), i) && !Bit(ShiftLeft(x', k), i)
    ensures !left ==> Bit(ShiftRight(x, k), i) && !Bit(ShiftRight(x', k), i)
  {
    hide Bit, And, Or, Xor, Has, Wf, ShiftLeft, ShiftRight;
    LeftAt(a.mask, k, i); RightAt(a.mask, k, i);
    var j := if left then i - k else i + k;
    x := Pick(a, j, true);
    x' := Pick(a, j, false);
    LeftAt(x, k, i); LeftAt(x', k, i);
    RightAt(x, k, i); RightAt(x', k, i);
  }

  lemma AndAt(a: Tnum, b: Tnum, i: nat)
    requires i < 64
    ensures Bit(AndT(a, b).value, i) == (Bit(a.value, i) && Bit(b.value, i))
    ensures Bit(AndT(a, b).mask, i) ==
            ((Bit(a.value, i) || Bit(a.mask, i)) && (Bit(b.value, i) || Bit(b.mask, i)) && !(Bit(a.value, i) && Bit(b.value, i)))
  {
    hide Bit, And, Or, Xor;
    var alpha, beta, v := Or(a.value, a.mask), Or(b.value, b.mask), And(a.value, b.value);
    BitOrAt(a.value, a.mask, i); BitOrAt(b.value, b.mask, i);
    BitAndAt(a.value, b.value, i); BitAndAt(alpha, beta, i);
    BitNotAt(v, i); BitAndAt(And(alpha, beta), Not(v), i);
  }

  lemma OrAt(a: Tnum, b: Tnum, i: nat)
    requires i < 64
    ensures Bit(OrT(a, b).value, i) == (Bit(a.value, i) || Bit(b.value, i))
    ensures Bit(OrT(a, b).mask, i) == ((Bit(a.mask, i) || Bit(b.mask, i)) && !Bit(OrT(a, b).value, i))
  {
    hide Bit, And, Or, Xor;
    var v, mu := Or(a.value, b.value), Or(a.mask, b.mask);
    BitOrAt(a.value, b.value, i); BitOrAt(a.mask, b.mask, i);
    BitNotAt(v, i); BitAndAt(mu, Not(v), i);
  }

  lemma XorAt(a: Tnum, b: Tnum, i: nat)
    requires i < 64
    ensures Bit(XorT(a, b).mask, i) == (Bit(a.mask, i) || Bit(b.mask, i))
    ensures Bit(XorT(a, b).value, i) == ((Bit(a.value, i) != Bit(b.value, i)) && !Bit(XorT(a, b).mask, i))
  {
    hide Bit, And, Or, Xor;
    var v, mu := Xor(a.value, b.value), Or(a.mask, b.mask);
    BitXorAt(a.value, b.value, i); BitOrAt(a.mask, b.mask, i);
    BitNotAt(mu, i); BitAndAt(v, Not(mu), i);
  }

  // ----- scalars: signed range, unsigned range and tnum together -----

  datatype Scalar = Scalar(smin: i64, smax: i64, umin: u64, umax: u64, tn: Tnum)

  function ScalarConst(v: i64): Scalar { Scalar(v, v, Wrap64(v), Wrap64(v), Const(Wrap64(v))) }
  function ScalarTop(): Scalar { Scalar(-TWO63, TWO63 - 1, 0, TWO64 - 1, Top()) }
  predicate ScalarIsConst(s: Scalar) { IsConst(s.tn) && s.smin == s.smax }

  function Min(a: int, b: int): int { if a < b then a else b }
  function Max(a: int, b: int): int { if a > b then a else b }

  function ScalarJoin(a: Scalar, b: Scalar): Scalar
  {
    Scalar(Min(a.smin, b.smin), Max(a.smax, b.smax), Min(a.umin, b.umin), Max(a.umax, b.umax), Join(a.tn, b.tn))
  }

  /** The overflow tests are those of the source: sign comparison on wrapped signed
      sums, and a wrapped unsigned sum below its first operand. */
  function ScalarAdd(a: Scalar, b: Scalar): Scalar
  {
    var lo, hi := WrapSigned(a.smin + b.smin), WrapSigned(a.smax + b.smax);
    var sOverflow :=
      ((a.smin < 0) == (b.smin < 0) && (lo < 0) != (a.smin < 0)) ||
      ((a.smax < 0) == (b.smax < 0) && (hi < 0) != (a.smax < 0));
    var ulo, uhi := Wrap64(a.umin + b.umin), Wrap64(a.umax + b.umax);
    var uOverflow := ulo < a.umin || uhi < a.umax;
    Scalar(if sOverflow then -TWO63 else lo, if sOverflow then TWO63 - 1 else hi,
           if uOverflow then 0 else ulo, if uOverflow then TWO64 - 1 else uhi,
           Add(a.tn, b.tn))
  }

  predicate InS(x: int) { -TWO63 <= x < TWO63 }
  predicate InU(x: int) { 0 <= x < TWO64 }

  /** Membership in all three components; `u` says whether the unsigned range counts. */
  predicate ScalarHas(s: Scalar, x: u64, u: bool)
  {
    s.smin <= Signed(x) <= s.smax && (u ==> s.umin <= x <= s.umax) && Has(s.tn, x)
  }

  /** The overflow tests give the exact endpoint sums precisely when neither
      endpoint sum leaves the type, and the full range otherwise. */
  lemma ScalarAddRanges(a: Scalar, b: Scalar)
    ensures var r := ScalarAdd(a, b);
            && (r.smin, r.smax) == (if InS(a.smin + b.smin) && InS(a.smax + b.smax)
                                    then (a.smin + b.smin, a.smax + b.smax) else (-TWO63, TWO63 - 1))
            && (r.umin, r.umax) == (if InU(a.umin + b.umin) && InU(a.umax + b.umax)
                                    then (a.umin + b.umin, a.umax + b.umax) else (0, TWO64 - 1))
            && r.tn == Add(a.tn, b.tn)
  {
    hide WrapSigned, Wrap64, Add;
    SignTest(a.smin, b.smin);
    SignTest(a.smax, b.smax);
    WrapCases(a.umin + b.umin);
    WrapCases(a.umax + b.umax);
  }

  lemma WrapCases(x: int)
    requires -TWO64 <= x < 2 * TWO64
    ensures Wrap64(x) == if x < 0 then x + TWO64 else if x < TWO64 then x else x - TWO64
  {
  }

  lemma SignTest(x: i64, y: i64)
    ensures ((x < 0) == (y < 0) && (WrapSigned(x + y) < 0) != (x < 0)) <==> !InS(x + y)
    ensures InS(x + y) ==> WrapSigned(x + y) == x + y
  {
    WrapCases(x + y);
  }

  lemma ScalarAddSound(a: Scalar, b: Scalar, x: u64, y: u64, u: bool)
    requires ScalarHas(a, x, u) && ScalarHas(b, y, u)
    ensures ScalarHas(ScalarAdd(a, b), Wrap64(x + y), u)
  {
    hide Has, Add, Wrap64, ScalarAdd;
    ScalarAddRanges(a, b);
    AddSound(a.tn, b.tn, x, y);
    WrapCases(x + y);
  }

  lemma ScalarJoinSound(a: Scalar, b: Scalar, x: u64, u: bool)
    requires Wf(a.tn) && Wf(b.tn)
    requires ScalarHas(a, x, u) || ScalarHas(b, x, u)
    ensures ScalarHas(ScalarJoin(a, b), x, u)
  {
    hide Bit, And, Or, Xor;
    JoinLeast(a.tn, b.tn, x);
  }

  lemma ScalarConstHas(v: i64, x: u64, u: bool)
    ensures ScalarHas(ScalarConst(v), x, u) <==> x == Wrap64(v)
  {
    hide Bit, And, Or, Xor;
    ConstHas(Wrap64(v), x);
  }

  lemma ScalarTopHas(x: u64, u: bool)
    ensures ScalarHas(ScalarTop(), x, u)
  {
    hide Bit, And, Or, Xor;
    TopHas(x);
  }

  lemma WfPreserved(a: Tnum, b: Tnum, v: u64)
    requires Wf(a) && Wf(b)
    ensures Wf(Add(a, b)) && Wf(Join(a, b)) && Wf(Const(v)) && Wf(Top())
  {
    hide Bit, And, Or, Xor;
    HasWf(a); HasWf(b);
    AddSound(a, b, a.value, b.value);
    HasWf(Add(a, b));
    JoinLeast(a, b, 0);
    ConstHas(v, v); HasWf(Const(v));
    TopHas(0); HasWf(Top());
  }
}
