/** Program namespaces (tools/merlin-ns/ns.c): permission bitsets and quotas, composition
    of a child with its parent, and the admission check. */
module Namespaces {
  import opened Basics
  import opened Words

  const ATTACH_WORDS: nat := 2
  const HELPER_WORDS: nat := 64
  const KFUNC_WORDS: nat := 64

  type Bitset = seq<u64>

  datatype Quota = Progs | Maps | MapMemory | ProgMemory

  /** The fields of merlin_ns_config_v1 that composition and the check look at; 0 is no
      limit. */
  datatype Config = Config(flags: u32, parentId: u32, attach: Bitset, helpers: Bitset, kfuncs: Bitset,
                           maxProgs: u64, maxMaps: u64, maxMapMemory: u64, maxProgMemory: u64)
  {
    predicate Wf() { |attach| == ATTACH_WORDS && |helpers| == HELPER_WORDS && |kfuncs| == KFUNC_WORDS }

    function Limit(q: Quota): u64
    {
      match q
      case Progs => maxProgs
      case Maps => maxMaps
      case MapMemory => maxMapMemory
      case ProgMemory => maxProgMemory
    }
  }

  datatype Usage = Usage(progs: u64, maps: u64, mapMemory: u64, progMemory: u64)

  datatype Facts = Facts(attach: u32, helpers: seq<u32>, kfuncs: seq<u32>, mapMemory: u64, progMemory: u64)

  datatype Verdict = Accept | AttachNotAllowed | HelperNotAllowed | KfuncNotAllowed | OverQuota(q: Quota)

  // ----- bitsets -----

  /** Index b is in the set; indices beyond the words are not. */
  predicate Has(bs: Bitset, b: nat) { b / 64 < |bs| && Bit(bs[b / 64], b % 64) }

  ghost predicate Subset(child: Bitset, parent: Bitset) { forall b: nat :: Has(child, b) ==> Has(parent, b) }

  lemma BitByShift(x: u64, k: nat)
    ensures Bit(x, k) <==> ShiftRight(x, k) % 2 == 1
  {
    BitShiftRight(x, k, ShiftRight(x, k), 0);
  }

  /** merlin_ns_bit_get. */
  method BitGet(bs: Bitset, idx: u32) returns (has: bool)
    ensures has <==> Has(bs, idx)
  {
    if idx / 64 >= |bs| { return false; }
    BitByShift(bs[idx / 64], idx % 64);
    has := ShiftRight(bs[idx / 64], idx % 64) % 2 == 1;
  }

  /** The position of the lowest set bit. */
  method LowestBit(x: u64) returns (bit: nat)
    requires x != 0
    ensures bit < 64 && Bit(x, bit) && forall i: nat :: i < bit ==> !Bit(x, i)
  {
    hide Bit;
    bit := 0;
    SomeBit(x);
    BitByShift(x, 0);
    while ShiftRight(x, bit) % 2 == 0
      invariant bit < 64
      invariant forall i: nat :: i < bit ==> !Bit(x, i)
      decreases 64 - bit
    {
      BitByShift(x, bit);
      bit := bit + 1;
      if bit == 64 { assert false; }
    }
    BitByShift(x, bit);
  }

  lemma SomeBit(x: u64)
    requires x != 0
    ensures exists i: nat :: i < 64 && Bit(x, i)
  {
    hide Bit;
    if forall i: nat :: i < 64 ==> !Bit(x, i) {
      forall i: nat | i < 64
        ensures Bit(x, i) == Bit(0, i)
      {
        BitZero(i);
      }
      WordsEqual(x, 0);
      assert false;
    }
  }

  /** b is the lowest index in the child and not in the parent. */
  ghost predicate Offends(child: Bitset, parent: Bitset, b: nat)
  {
    Has(child, b) && !Has(parent, b) && forall i: nat :: i < b && Has(child, i) ==> Has(parent, i)
  }

  lemma IllegalBits(c: u64, p: u64, i: nat)
    requires i < 64
    ensures Bit(And(c, Not(p)), i) <==> Bit(c, i) && !Bit(p, i)
  {
    BitAndAt(c, Not(p), i);
    BitNotAt(p, i);
  }

  /** The first n words of the child lie in the parent. */
  ghost predicate SubsetUpTo(child: Bitset, parent: Bitset, n: nat)
  {
    forall b: nat :: b < 64 * n && Has(child, b) ==> Has(parent, b)
  }

  lemma WordInside(child: Bitset, parent: Bitset, i: nat)
    requires |child| == |parent| && i < |child| && SubsetUpTo(child, parent, i)
    requires And(child[i], Not(parent[i])) == 0
    ensures SubsetUpTo(child, parent, i + 1)
  {
    hide Bit, And, Not;
    forall b: nat | b < 64 * (i + 1) && Has(child, b)
      ensures Has(parent, b)
    {
      if b >= 64 * i {
        assert b / 64 == i;
        IllegalBits(child[i], parent[i], b % 64);
        BitZero(b % 64);
      }
    }
  }

  lemma WordOffends(child: Bitset, parent: Bitset, i: nat, bit: nat)
    requires |child| == |parent| && i < |child| && SubsetUpTo(child, parent, i) && bit < 64
    requires Bit(And(child[i], Not(parent[i])), bit) && forall k: nat :: k < bit ==> !Bit(And(child[i], Not(parent[i])), k)
    ensures Offends(child, parent, i * 64 + bit)
  {
    hide Bit, And, Not;
    var at := i * 64 + bit;
    assert at / 64 == i && at % 64 == bit;
    IllegalBits(child[i], parent[i], bit);
    forall b: nat | b < at && Has(child, b)
      ensures Has(parent, b)
    {
      if b >= 64 * i {
        assert b / 64 == i && b % 64 < bit;
        IllegalBits(child[i], parent[i], b % 64);
      }
    }
  }

  /** Word-by-word inclusion; on failure, the lowest offending index. */
  method BitsetSubset(child: Bitset, parent: Bitset) returns (ok: bool, offending: nat)
    requires |child| == |parent|
    ensures ok <==> Subset(child, parent)
    ensures !ok ==> Offends(child, parent, offending)
  {
    hide Bit, And, Not, Has;
    for i := 0 to |child|
      invariant SubsetUpTo(child, parent, i)
    {
      var illegal := And(child[i], Not(parent[i]));
      if illegal != 0 {
        var bit := LowestBit(illegal);
        WordOffends(child, parent, i, bit);
        return false, i * 64 + bit;
      }
      WordInside(child, parent, i);
    }
    InWords(child);
    return true, 0;
  }

  lemma InWords(bs: Bitset)
    ensures forall b: nat :: Has(bs, b) ==> b < 64 * |bs|
  {
    forall b: nat | Has(bs, b)
      ensures b < 64 * |bs|
    {
      assert b == 64 * (b / 64) + b % 64;
    }
  }

  // ----- composition -----

  /** x is allowed by limit max. */
  predicate Within(x: u64, max: u64) { max == 0 || x <= max }

  /** The composed limit: an unset child limit inherits the parent's. */
  function Merged(child: u64, parent: u64): u64 { if child == 0 then parent else child }

  /** The child widens nothing; 0 cannot widen, since it inherits. */
  ghost predicate Narrows(child: Config, parent: Config)
  {
    && Subset(child.attach, parent.attach) && Subset(child.helpers, parent.helpers) && Subset(child.kfuncs, parent.kfuncs)
    && forall q: Quota :: Within(child.Limit(q), parent.Limit(q))
  }

  ghost function Effective(child: Config, parent: Config): Config
  {
    child.(parentId := parent.parentId,
           maxProgs := Merged(child.maxProgs, parent.maxProgs),
           maxMaps := Merged(child.maxMaps, parent.maxMaps),
           maxMapMemory := Merged(child.maxMapMemory, parent.maxMapMemory),
           maxProgMemory := Merged(child.maxProgMemory, parent.maxProgMemory))
  }

  /** The quota rule of the composition, case by case; None where the child widens. */
  method MergeQuota(child: u64, parent: u64) returns (r: Option<u64>)
    ensures r.Some? <==> Within(child, parent)
    ensures r.Some? ==> forall x: u64 :: Within(x, r.value) <==> Within(x, child) && Within(x, parent)
    ensures r.Some? ==> r.value == Merged(child, parent)
  {
    if parent != 0 {
      if child == 0 { return Some(parent); }
      if child > parent { return None; }
      return Some(child);
    }
    return Some(child);
  }

  method Compose(child: Config, parent: Config) returns (r: Option<Config>)
    requires child.Wf() && parent.Wf()
    ensures r.Some? <==> Narrows(child, parent)
    ensures r.Some? ==> r.value == Effective(child, parent) && r.value.Wf()
  {
    hide Subset, Within, Merged;
    var ok, bit := BitsetSubset(child.attach, parent.attach);
    if !ok { return None; }
    ok, bit := BitsetSubset(child.helpers, parent.helpers);
    if !ok { return None; }
    ok, bit := BitsetSubset(child.kfuncs, parent.kfuncs);
    if !ok { return None; }
    var progs := MergeQuota(child.maxProgs, parent.maxProgs);
    if progs.None? { assert !Within(child.Limit(Progs), parent.Limit(Progs)); return None; }
    var maps := MergeQuota(child.maxMaps, parent.maxMaps);
    if maps.None? { assert !Within(child.Limit(Maps), parent.Limit(Maps)); return None; }
    var mapMemory := MergeQuota(child.maxMapMemory, parent.maxMapMemory);
    if mapMemory.None? { assert !Within(child.Limit(MapMemory), parent.Limit(MapMemory)); return None; }
    var progMemory := MergeQuota(child.maxProgMemory, parent.maxProgMemory);
    if progMemory.None? { assert !Within(child.Limit(ProgMemory), parent.Limit(ProgMemory)); return None; }
    r := Some(child.(parentId := parent.parentId, maxProgs := progs.value, maxMaps := maps.value,
                     maxMapMemory := mapMemory.value, maxProgMemory := progMemory.value));
  }

  // ----- the admission check -----

  /** What a load would bring each quota to, in 64-bit arithmetic; the maps are counted
      by the caller beforehand. */
  function Demand(q: Quota, u: Usage, p: Facts): u64
  {
    match q
    case Progs => Wrap64(u.progs + 1)
    case Maps => u.maps
    case MapMemory => Wrap64(u.mapMemory + p.mapMemory)
    case ProgMemory => Wrap64(u.progMemory + p.progMemory)
  }

  predicate AllIn(ids: seq<u32>, bs: Bitset) { forall i :: 0 <= i < |ids| ==> Has(bs, ids[i]) }

  /** The first id that is not in the set. */
  predicate FirstOutside(ids: seq<u32>, bs: Bitset, id: u32)
  {
    exists i :: 0 <= i < |ids| && ids[i] == id && !Has(bs, id) && AllIn(ids[..i], bs)
  }

  ghost predicate Permits(c: Config, p: Facts) { Has(c.attach, p.attach) && AllIn(p.helpers, c.helpers) && AllIn(p.kfuncs, c.kfuncs) }

  /** The program may load. */
  ghost predicate Admits(c: Config, u: Usage, p: Facts)
  {
    Permits(c, p) && forall q: Quota :: Within(Demand(q, u, p), c.Limit(q))
  }

  /** All ids are in the set, or the first that is not. */
  method FindOutside(ids: seq<u32>, bs: Bitset) returns (all: bool, id: u32)
    ensures all <==> AllIn(ids, bs)
    ensures !all ==> FirstOutside(ids, bs, id)
  {
    hide Has;
    for i := 0 to |ids|
      invariant AllIn(ids[..i], bs)
    {
      var has := BitGet(bs, ids[i]);
      if !has { return false, ids[i]; }
    }
    assert ids[..|ids|] == ids;
    return true, 0;
  }

  /** The first failing reason, in the order attach, helpers, kfuncs, quotas; acceptance
      exactly when nothing fails. The quotas are stated over the true totals. */
  method Check(c: Config, u: Usage, p: Facts) returns (v: Verdict, id: u32)
    ensures v.Accept? <==> Admits(c, u, p)
    ensures v.Accept? <==> Permits(c, p) && Fits(u.progs + 1, c.maxProgs) && Fits(u.maps, c.maxMaps)
                           && Fits(u.mapMemory + p.mapMemory, c.maxMapMemory) && Fits(u.progMemory + p.progMemory, c.maxProgMemory)
    ensures v == OverQuota(Progs) <==> Permits(c, p) && !Fits(u.progs + 1, c.maxProgs)
    ensures v == OverQuota(Maps) <==> Permits(c, p) && Fits(u.progs + 1, c.maxProgs) && !Fits(u.maps, c.maxMaps)
    ensures v == OverQuota(MapMemory) <==> Permits(c, p) && Fits(u.progs + 1, c.maxProgs) && Fits(u.maps, c.maxMaps)
                                           && !Fits(u.mapMemory + p.mapMemory, c.maxMapMemory)
    ensures v.AttachNotAllowed? <==> !Has(c.attach, p.attach)
    ensures v.HelperNotAllowed? <==> Has(c.attach, p.attach) && !AllIn(p.helpers, c.helpers)
    ensures v.KfuncNotAllowed? <==> Has(c.attach, p.attach) && AllIn(p.helpers, c.helpers) && !AllIn(p.kfuncs, c.kfuncs)
    ensures v.AttachNotAllowed? ==> id == p.attach
    ensures v.HelperNotAllowed? ==> FirstOutside(p.helpers, c.helpers, id)
    ensures v.KfuncNotAllowed? ==> FirstOutside(p.kfuncs, c.kfuncs, id)
  {
    hide Has, AllIn, FirstOutside, Within, Demand, Fits;
    AdmitsIff(c, u, p);
    id := 0;
    var ok := BitGet(c.attach, p.attach);
    if !ok { return AttachNotAllowed, p.attach; }
    ok, id := FindOutside(p.helpers, c.helpers);
    if !ok { return HelperNotAllowed, id; }
    ok, id := FindOutside(p.kfuncs, c.kfuncs);
    if !ok { return KfuncNotAllowed, id; }
    var over := CheckQuotas(c, u, p);
    if over.Some? { return OverQuota(over.value), 0; }
    return Accept, 0;
  }

  /** The first exceeded quota, in the order of the tests. */
  method CheckQuotas(c: Config, u: Usage, p: Facts) returns (over: Option<Quota>)
    ensures over == Some(Progs) <==> !Fits(u.progs + 1, c.maxProgs)
    ensures over == Some(Maps) <==> Fits(u.progs + 1, c.maxProgs) && !Fits(u.maps, c.maxMaps)
    ensures over == Some(MapMemory) <==> Fits(u.progs + 1, c.maxProgs) && Fits(u.maps, c.maxMaps)
                                         && !Fits(u.mapMemory + p.mapMemory, c.maxMapMemory)
    ensures over.None? <==> Fits(u.progs + 1, c.maxProgs) && Fits(u.maps, c.maxMaps)
                            && Fits(u.mapMemory + p.mapMemory, c.maxMapMemory) && Fits(u.progMemory + p.progMemory, c.maxProgMemory)
  {
    hide Wrap64;
    WithinIffFits(u.progs, 1, c.maxProgs);
    WithinIffFits(u.mapMemory, p.mapMemory, c.maxMapMemory);
    WithinIffFits(u.progMemory, p.progMemory, c.maxProgMemory);
    if c.maxProgs != 0 && Wrap64(u.progs + 1) > c.maxProgs { over := Some(Progs); }
    else if c.maxMaps != 0 && u.maps > c.maxMaps { over := Some(Maps); }
    else if c.maxMapMemory != 0 && Wrap64(u.mapMemory + p.mapMemory) > c.maxMapMemory { over := Some(MapMemory); }
    else if c.maxProgMemory != 0 && Wrap64(u.progMemory + p.progMemory) > c.maxProgMemory { over := Some(ProgMemory); }
    else { over := None; }
  }

  /** A total meets a limit: the limit is unset, or the total is at most the limit, or it
      is past 2^64 by no more than the limit. */
  predicate Fits(total: nat, max: u64) { max == 0 || total <= max || TWO64 <= total <= TWO64 + max }

  lemma WithinIffFits(x: u64, y: u64, max: u64)
    ensures Within(Wrap64(x + y), max) <==> Fits(x + y, max)
  {
    if x + y >= TWO64 { ModUnique(x + y, TWO64, 1, x + y - TWO64); } else { ModUnique(x + y, TWO64, 0, x + y); }
  }

  /** Admission in terms of the fields: the permissions, one more program, the maps, and
      both memory sums against their limits. */
  lemma AdmitsIff(c: Config, u: Usage, p: Facts)
    ensures Admits(c, u, p) <==> Permits(c, p) && Fits(u.progs + 1, c.maxProgs) && Fits(u.maps, c.maxMaps)
                                 && Fits(u.mapMemory + p.mapMemory, c.maxMapMemory) && Fits(u.progMemory + p.progMemory, c.maxProgMemory)
  {
    hide Permits, Wrap64;
    WithinIffFits(u.progs, 1, c.maxProgs);
    WithinIffFits(u.mapMemory, p.mapMemory, c.maxMapMemory);
    WithinIffFits(u.progMemory, p.progMemory, c.maxProgMemory);
    assert Within(Demand(Progs, u, p), c.Limit(Progs)) <==> Fits(u.progs + 1, c.maxProgs);
    assert Within(Demand(Maps, u, p), c.Limit(Maps)) <==> Fits(u.maps, c.maxMaps);
    assert Within(Demand(MapMemory, u, p), c.Limit(MapMemory)) <==> Fits(u.mapMemory + p.mapMemory, c.maxMapMemory);
    assert Within(Demand(ProgMemory, u, p), c.Limit(ProgMemory)) <==> Fits(u.progMemory + p.progMemory, c.maxProgMemory);
  }

  // ----- composition and admission agree -----

  lemma EffectiveLimit(child: Config, parent: Config, q: Quota)
    ensures Effective(child, parent).Limit(q) == Merged(child.Limit(q), parent.Limit(q))
  {
  }

  /** A composed namespace admits exactly what the child and the parent both admit. */
  lemma ComposeIsMeet(child: Config, parent: Config, u: Usage, p: Facts)
    requires Narrows(child, parent)
    ensures Admits(Effective(child, parent), u, p) <==> Admits(child, u, p) && Admits(parent, u, p)
  {
    hide Has;
    var e := Effective(child, parent);
    forall q: Quota
      ensures Within(Demand(q, u, p), e.Limit(q)) <==> Within(Demand(q, u, p), child.Limit(q)) && Within(Demand(q, u, p), parent.Limit(q))
    {
      EffectiveLimit(child, parent, q);
      assert Within(child.Limit(q), parent.Limit(q));
    }
    if Permits(child, p) { assert Permits(parent, p); }
  }

  /** The effective namespaces down a chain of configurations, the root's first: each
      configuration composed with the effective one above it. */
  ghost predicate IsChain(cs: seq<Config>, effs: seq<Config>)
  {
    && |cs| == |effs| > 0 && effs[0] == cs[0]
    && forall i :: 0 < i < |cs| ==> Narrows(cs[i], effs[i - 1]) && effs[i] == Effective(cs[i], effs[i - 1])
  }

  /** The bottom of a chain admits exactly what every configuration on it admits. */
  lemma {:induction false} ChainAdmits(cs: seq<Config>, effs: seq<Config>, n: nat, u: Usage, p: Facts)
    requires IsChain(cs, effs) && n < |cs|
    ensures Admits(effs[n], u, p) <==> forall i :: 0 <= i <= n ==> Admits(cs[i], u, p)
    decreases n
  {
    hide Admits, Narrows, Effective;
    if n > 0 {
      ChainAdmits(cs, effs, n - 1, u, p);
      ComposeIsMeet(cs[n], effs[n - 1], u, p);
      if forall i :: 0 <= i <= n - 1 ==> Admits(cs[i], u, p) {
        if Admits(cs[n], u, p) { assert forall i :: 0 <= i <= n ==> Admits(cs[i], u, p); }
      } else {
        var i :| 0 <= i <= n - 1 && !Admits(cs[i], u, p);
        assert !Admits(cs[i], u, p);
      }
    }
  }

  /** What a descendant accepts, every ancestor accepts. */
  lemma AncestorsAdmit(cs: seq<Config>, effs: seq<Config>, i: nat, n: nat, u: Usage, p: Facts)
    requires IsChain(cs, effs) && i <= n < |cs| && Admits(effs[n], u, p)
    ensures Admits(effs[i], u, p)
  {
    hide Admits, IsChain;
    ChainAdmits(cs, effs, n, u, p);
    ChainAdmits(cs, effs, i, u, p);
  }

  /** Down a chain a limit is 0 exactly when it was never set, and otherwise the least
      of those set. */
  lemma {:induction false} ChainLimit(cs: seq<Config>, effs: seq<Config>, n: nat, q: Quota)
    requires IsChain(cs, effs) && n < |cs|
    ensures var m := effs[n].Limit(q);
            if m == 0 then forall i :: 0 <= i <= n ==> cs[i].Limit(q) == 0
            else (exists i :: 0 <= i <= n && cs[i].Limit(q) == m) && forall i :: 0 <= i <= n && cs[i].Limit(q) != 0 ==> m <= cs[i].Limit(q)
    decreases n
  {
    if n == 0 {
      assert cs[0].Limit(q) == effs[0].Limit(q);
    } else {
      ChainLimit(cs, effs, n - 1, q);
      EffectiveLimit(cs[n], effs[n - 1], q);
      assert Within(cs[n].Limit(q), effs[n - 1].Limit(q));
      if cs[n].Limit(q) == 0 && effs[n - 1].Limit(q) != 0 {
        var i :| 0 <= i <= n - 1 && cs[i].Limit(q) == effs[n - 1].Limit(q);
        assert cs[i].Limit(q) == effs[n].Limit(q);
      }
    }
  }

  /** The composed configuration field by field: the child's flags and sets, the parent's
      parent, and for each limit the least of those set. */
  lemma EffectiveFields(child: Config, parent: Config)
    requires Narrows(child, parent)
    ensures var e := Effective(child, parent);
            && e.flags == child.flags && e.parentId == parent.parentId
            && e.attach == child.attach && e.helpers == child.helpers && e.kfuncs == child.kfuncs
            && e.maxProgs == LeastSet(child.maxProgs, parent.maxProgs) && e.maxMaps == LeastSet(child.maxMaps, parent.maxMaps)
            && e.maxMapMemory == LeastSet(child.maxMapMemory, parent.maxMapMemory)
            && e.maxProgMemory == LeastSet(child.maxProgMemory, parent.maxProgMemory)
  {
    hide Subset;
    assert Within(child.Limit(Progs), parent.Limit(Progs)) && Within(child.Limit(Maps), parent.Limit(Maps));
    assert Within(child.Limit(MapMemory), parent.Limit(MapMemory)) && Within(child.Limit(ProgMemory), parent.Limit(ProgMemory));
  }

  /** The smaller of two limits, where 0 is no limit. */
  function LeastSet(x: u64, y: u64): u64 { if x == 0 || (y != 0 && y < x) then y else x }

  /** Composition narrows exactly when every set grows no index and no limit set by the
      parent is exceeded. */
  lemma NarrowsIff(child: Config, parent: Config)
    ensures Narrows(child, parent) <==>
              && (forall b: nat :: Has(child.attach, b) ==> Has(parent.attach, b))
              && (forall b: nat :: Has(child.helpers, b) ==> Has(parent.helpers, b))
              && (forall b: nat :: Has(child.kfuncs, b) ==> Has(parent.kfuncs, b))
              && (parent.maxProgs == 0 || child.maxProgs <= parent.maxProgs)
              && (parent.maxMaps == 0 || child.maxMaps <= parent.maxMaps)
              && (parent.maxMapMemory == 0 || child.maxMapMemory <= parent.maxMapMemory)
              && (parent.maxProgMemory == 0 || child.maxProgMemory <= parent.maxProgMemory)
  {
    hide Has;
    assert Within(child.Limit(Progs), parent.Limit(Progs)) <==> parent.maxProgs == 0 || child.maxProgs <= parent.maxProgs;
    assert Within(child.Limit(Maps), parent.Limit(Maps)) <==> parent.maxMaps == 0 || child.maxMaps <= parent.maxMaps;
    assert Within(child.Limit(MapMemory), parent.Limit(MapMemory)) <==> parent.maxMapMemory == 0 || child.maxMapMemory <= parent.maxMapMemory;
    assert Within(child.Limit(ProgMemory), parent.Limit(ProgMemory)) <==> parent.maxProgMemory == 0 || child.maxProgMemory <= parent.maxProgMemory;
  }

  // ----- the wrap-around of the totals -----

  /** An admitted load keeps every set limit whose total stays below 2^64; it exceeds one
      exactly when that total reaches 2^64. The number of maps never exceeds a set limit. */
  lemma WrapAdmits(c: Config, u: Usage, p: Facts)
    requires Admits(c, u, p)
    ensures c.maxProgs != 0 ==> (u.progs + 1 > c.maxProgs <==> u.progs + 1 >= TWO64)
    ensures c.maxMaps != 0 ==> u.maps <= c.maxMaps
    ensures c.maxMapMemory != 0 ==> (u.mapMemory + p.mapMemory > c.maxMapMemory <==> u.mapMemory + p.mapMemory >= TWO64)
    ensures c.maxProgMemory != 0 ==> (u.progMemory + p.progMemory > c.maxProgMemory <==> u.progMemory + p.progMemory >= TWO64)
  {
    hide Admits, Permits;
    AdmitsIff(c, u, p);
  }

  /** 2^64 - 1 live programs and a limit of one: a further program is admitted. */
  lemma ProgramCountWraps(c: Config, u: Usage, p: Facts)
    requires c.maxProgs == 1 && c.maxMaps == 0 && c.maxMapMemory == 0 && c.maxProgMemory == 0
    requires u.progs == TWO64 - 1 && Permits(c, p)
    ensures Admits(c, u, p)
  {
    hide Admits, Permits;
    AdmitsIff(c, u, p);
  }
}
