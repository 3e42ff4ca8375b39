/** Transactions on mathematical maps: the meaning of a commit in tools/merlin-txn/store.c,
    and what follows from it. */
module Replays {
  import opened Words
  import opened MapSlots

  const MAX_MAPS: nat := 64
  const MAX_OPS: nat := 4096

  /** A staged operation; op is the wire code, which staging does not check. */
  datatype TxnOp = TxnOp(handle: u32, op: u32, key: u64, value: u64)

  const INSERT: u32 := 1
  const UPDATE: u32 := 2
  const UPSERT: u32 := 3
  const DELETE: u32 := 4
  const REPLACE_ALL: u32 := 5

  datatype AMap = Gone | Live(c: map<u64, u64>, version: u32)

  type AStore = s: seq<AMap> | |s| == 64 witness seq(64, _ => Gone)

  // ----- one operation -----

  datatype Effect = Applied(c: map<u64, u64>) | Skipped | Failed(rc: Rc)

  /** An operation on one map of at most 256 keys. */
  function OnMap(op: TxnOp, c: map<u64, u64>): Effect
  {
    var put := c[op.key := op.value];
    if op.op == INSERT then
      (if op.key in c then Skipped else if |c| == MAX_ENTRIES then Failed(Enospc) else Applied(put))
    else if op.op == UPDATE then (if op.key in c then Applied(put) else Skipped)
    else if op.op == UPSERT then (if op.key !in c && |c| == MAX_ENTRIES then Failed(Enospc) else Applied(put))
    else if op.op == DELETE then (if op.key in c then Applied(c - {op.key}) else Skipped)
    else if op.op == REPLACE_ALL then Applied(map[op.key := op.value])
    else Failed(Einval)
  }

  datatype Act = Did(s: AStore) | Skip | Fail(rc: Rc)

  predicate Names(s: AStore, h: u32) { 1 <= h <= MAX_MAPS && s[h - 1].Live? }

  function OnStore(s: AStore, op: TxnOp): Act
  {
    if !Names(s, op.handle) then Fail(Ebadf)
    else match OnMap(op, s[op.handle - 1].c)
      case Applied(c) => Did(s[op.handle - 1 := Live(c, Wrap32(s[op.handle - 1].version + 1))])
      case Skipped => Skip
      case Failed(rc) => Fail(rc)
  }

  // ----- a whole transaction -----

  datatype Run = Run(s: AStore, applied: nat, skipped: nat, rc: Rc)

  function Advance(p: Run, op: TxnOp): Run
  {
    if p.rc != Ok then p
    else match OnStore(p.s, op)
      case Did(s) => p.(s := s, applied := p.applied + 1)
      case Skip => p.(skipped := p.skipped + 1)
      case Fail(rc) => p.(rc := rc)
  }

  /** The operations in order, up to the first that fails. */
  function Replay(s: AStore, ops: seq<TxnOp>): Run
  {
    if ops == [] then Run(s, 0, 0, Ok) else Advance(Replay(s, ops[..|ops| - 1]), ops[|ops| - 1])
  }

  lemma ReplayOne(s: AStore, op: TxnOp)
    ensures Replay(s, [op]) == Advance(Run(s, 0, 0, Ok), op)
  {
    hide Advance;
    assert [op][..|[op]| - 1] == [];
    assert Replay(s, []) == Run(s, 0, 0, Ok);
  }

  lemma FailRc(s: AStore, op: TxnOp)
    requires OnStore(s, op).Fail?
    ensures OnStore(s, op).rc in {Ebadf, Einval, Enospc}
  {
  }

  /** Once failed, later operations change nothing. */
  lemma {:induction false} FailureSticks(s: AStore, ops: seq<TxnOp>, n: nat)
    requires n <= |ops| && Replay(s, ops[..n]).rc != Ok
    ensures Replay(s, ops) == Replay(s, ops[..n])
    decreases |ops|
  {
    hide OnStore;
    if n == |ops| {
      assert ops[..n] == ops;
    } else {
      var pre := ops[..|ops| - 1];
      assert pre[..n] == ops[..n];
      FailureSticks(s, pre, n);
    }
  }

  /** A successful transaction accounts for every operation; a failing one is the replay
      of exactly the operations before the one that fails. */
  lemma {:induction false} ReplayOutcome(s: AStore, ops: seq<TxnOp>)
    ensures var r := Replay(s, ops);
            var n := r.applied + r.skipped;
            && n <= |ops|
            && (r.rc == Ok ==> n == |ops|)
            && (r.rc != Ok ==>
                 && n < |ops| && OnStore(r.s, ops[n]) == Fail(r.rc)
                 && Replay(s, ops[..n]) == r.(rc := Ok))
  {
    hide OnStore;
    if ops != [] {
      var last, pre := |ops| - 1, ops[..|ops| - 1];
      var p := Replay(s, pre);
      ReplayOutcome(s, pre);
      if p.rc == Ok {
        assert ops[..last] == pre;
        if OnStore(p.s, ops[last]).Fail? { FailRc(p.s, ops[last]); }
      } else {
        var n := p.applied + p.skipped;
        assert ops[..n] == pre[..n] && ops[n] == pre[n];
      }
    }
  }

  /** Committing a then b is committing a + b. */
  lemma {:induction false} ReplayAppend(s: AStore, a: seq<TxnOp>, b: seq<TxnOp>)
    requires Replay(s, a).rc == Ok
    ensures var p, q := Replay(s, a), Replay(Replay(s, a).s, b);
            Replay(s, a + b) == Run(q.s, p.applied + q.applied, p.skipped + q.skipped, q.rc)
    decreases |b|
  {
    hide OnStore;
    if b == [] {
      assert a + b == a;
    } else {
      assert (a + b)[..|a + b| - 1] == a + b[..|b| - 1];
      assert (a + b)[|a + b| - 1] == b[|b| - 1];
      ReplayAppend(s, a, b[..|b| - 1]);
    }
  }

  // ----- versions -----

  /** How many operations on the map with this handle were applied. */
  function AppliedOn(s: AStore, ops: seq<TxnOp>, h: u32): nat
  {
    if ops == [] then 0
    else
      var pre, op := ops[..|ops| - 1], ops[|ops| - 1];
      var p := Replay(s, pre);
      AppliedOn(s, pre, h) + if p.rc == Ok && OnStore(p.s, op).Did? && op.handle == h then 1 else 0
  }

  /** A transaction neither creates nor destroys a map; it raises each version by the
      operations applied to that map and leaves maps with none of them alone. */
  lemma {:induction false} VersionsRaised(s: AStore, ops: seq<TxnOp>, h: u32)
    requires 1 <= h <= MAX_MAPS
    ensures var a, b := s[h - 1], Replay(s, ops).s[h - 1];
            && (a.Live? <==> b.Live?)
            && (a.Live? ==> b.version == Wrap32(a.version + AppliedOn(s, ops, h)))
            && (AppliedOn(s, ops, h) == 0 ==> b == a)
            && AppliedOn(s, ops, h) <= Replay(s, ops).applied
  {
    hide OnStore, Wrap32;
    if ops == [] {
      if s[h - 1].Live? { WrapOf(s[h - 1].version); }
    } else {
      VersionsRaised(s, ops[..|ops| - 1], h);
      var p, op := Replay(s, ops[..|ops| - 1]), ops[|ops| - 1];
      if OnStore(p.s, op).Did? { StepRaises(p.s, op, h); }
      if s[h - 1].Live? { WrapNext(s[h - 1].version + AppliedOn(s, ops[..|ops| - 1], h)); }
    }
  }

  lemma StepRaises(s: AStore, op: TxnOp, h: u32)
    requires 1 <= h <= MAX_MAPS && OnStore(s, op).Did?
    ensures var a, b := s[h - 1], OnStore(s, op).s[h - 1];
            if op.handle == h then a.Live? && b.Live? && b.version == Wrap32(a.version + 1) else b == a
  {
    hide OnMap, Wrap32;
  }

  lemma WrapOf(x: u32)
    ensures Wrap32(x) == x
  {
  }

  lemma WrapNext(x: int)
    ensures Wrap32(Wrap32(x) + 1) == Wrap32(x + 1)
  {
    var q := x / 0x1_0000_0000;
    if Wrap32(x) + 1 == 0x1_0000_0000 {
      ModUnique(x + 1, 0x1_0000_0000, q + 1, 0);
    } else {
      ModUnique(x + 1, 0x1_0000_0000, q, Wrap32(x) + 1);
    }
  }

  function AppliedUpTo(s: AStore, ops: seq<TxnOp>, n: nat): nat
    requires n <= MAX_MAPS
  {
    if n == 0 then 0 else AppliedUpTo(s, ops, n - 1) + AppliedOn(s, ops, n)
  }

  /** The applied operations are those counted in the versions of the 64 maps. */
  lemma {:induction false} AppliedInTotal(s: AStore, ops: seq<TxnOp>)
    ensures AppliedUpTo(s, ops, MAX_MAPS) == Replay(s, ops).applied
  {
    hide OnMap, AppliedUpTo;
    if ops == [] {
      NothingApplied(s, MAX_MAPS);
    } else {
      var pre, op := ops[..|ops| - 1], ops[|ops| - 1];
      AppliedInTotal(s, pre);
      OneMore(s, ops, MAX_MAPS);
    }
  }

  lemma {:induction false} NothingApplied(s: AStore, n: nat)
    requires n <= MAX_MAPS
    ensures AppliedUpTo(s, [], n) == 0
  {
    if n > 0 { NothingApplied(s, n - 1); }
  }

  lemma {:induction false} OneMore(s: AStore, ops: seq<TxnOp>, n: nat)
    requires ops != [] && n <= MAX_MAPS
    ensures var pre, op := ops[..|ops| - 1], ops[|ops| - 1];
            var p := Replay(s, pre);
            AppliedUpTo(s, ops, n) == AppliedUpTo(s, pre, n)
              + if p.rc == Ok && OnStore(p.s, op).Did? && op.handle <= n then 1 else 0
  {
    hide OnMap, Replay;
    if n > 0 { OneMore(s, ops, n - 1); }
    var pre, op := ops[..|ops| - 1], ops[|ops| - 1];
    var p := Replay(s, pre);
    if OnStore(p.s, op).Did? { assert op.handle >= 1; }
  }

  // ----- when a failing transaction leaves no trace -----

  /** What the first operation that is not skipped on s does to s. */
  function FirstEffect(s: AStore, ops: seq<TxnOp>): Act
  {
    if ops == [] then Skip
    else
      var p := FirstEffect(s, ops[..|ops| - 1]);
      if p.Skip? then OnStore(s, ops[|ops| - 1]) else p
  }

  lemma {:induction false} FirstDecides(s: AStore, ops: seq<TxnOp>)
    ensures var f, r := FirstEffect(s, ops), Replay(s, ops);
            && (f.Skip? ==> r == Run(s, 0, |ops|, Ok))
            && (f.Fail? ==> r.s == s && r.applied == 0 && r.rc == f.rc && r.rc != Ok)
            && (f.Did? ==> r.applied > 0)
  {
    hide OnStore;
    if ops != [] {
      var pre, op := ops[..|ops| - 1], ops[|ops| - 1];
      FirstDecides(s, pre);
      if FirstEffect(s, pre).Skip? && OnStore(s, op).Fail? { FailRc(s, op); }
    }
  }

  lemma {:induction false} SomeMapRaised(s: AStore, ops: seq<TxnOp>)
    requires Replay(s, ops).applied > 0
    ensures exists h: u32 :: 1 <= h <= MAX_MAPS && AppliedOn(s, ops, h) > 0
  {
    hide OnMap;
    var pre, op := ops[..|ops| - 1], ops[|ops| - 1];
    var p := Replay(s, pre);
    if p.applied > 0 {
      SomeMapRaised(s, pre);
      var h: u32 :| 1 <= h <= MAX_MAPS && AppliedOn(s, pre, h) > 0;
      assert AppliedOn(s, ops, h) > 0;
    } else {
      assert OnStore(p.s, op).Did?;
      assert AppliedOn(s, ops, op.handle) > 0;
    }
  }

  /** A transaction that fits the staging limit and applied something has changed the
      store: some version moved. */
  lemma AppliedShows(s: AStore, ops: seq<TxnOp>)
    requires |ops| <= MAX_OPS && Replay(s, ops).applied > 0
    ensures Replay(s, ops).s != s
  {
    hide Replay, AppliedOn;
    SomeMapRaised(s, ops);
    var h: u32 :| 1 <= h <= MAX_MAPS && AppliedOn(s, ops, h) > 0;
    VersionsRaised(s, ops, h);
    ReplayOutcome(s, ops);
    if s[h - 1].Live? {
      WrapMoves(s[h - 1].version, AppliedOn(s, ops, h));
    } else {
      NeverOnGone(s, ops, h);
    }
  }

  lemma WrapMoves(x: u32, d: nat)
    requires 0 < d <= MAX_OPS
    ensures Wrap32(x + d) != x
  {
    if x + d >= 0x1_0000_0000 { ModUnique(x + d, 0x1_0000_0000, 1, x + d - 0x1_0000_0000); }
  }

  lemma {:induction false} NeverOnGone(s: AStore, ops: seq<TxnOp>, h: u32)
    requires 1 <= h <= MAX_MAPS && s[h - 1].Gone?
    ensures AppliedOn(s, ops, h) == 0
  {
    hide OnMap, Replay;
    if ops != [] {
      NeverOnGone(s, ops[..|ops| - 1], h);
      VersionsRaised(s, ops[..|ops| - 1], h);
    }
  }

  /** A failing commit is atomic exactly when the first operation that is not skipped is
      the one that fails. */
  lemma AtomicIff(s: AStore, ops: seq<TxnOp>)
    requires |ops| <= MAX_OPS && Replay(s, ops).rc != Ok
    ensures Replay(s, ops).s == s <==> FirstEffect(s, ops).Fail?
  {
    hide Replay, FirstEffect;
    FirstDecides(s, ops);
    if FirstEffect(s, ops).Did? { AppliedShows(s, ops); }
  }

  /** An insert followed by an operation with an unknown code: the commit fails and the
      insert stays. */
  lemma FailedCommitKeepsItsPrefix(s: AStore)
    requires s[0] == Live(map[], 0)
    ensures var r := Replay(s, [TxnOp(1, INSERT, 7, 8), TxnOp(1, 9, 0, 0)]);
            r.rc == Einval && r.applied == 1 && r.s[0] == Live(map[7 := 8], 1)
  {
    var first, second := TxnOp(1, INSERT, 7, 8), TxnOp(1, 9, 0, 0);
    var ops := [first, second];
    assert ops[..1] == [first];
    ReplayOne(s, first);
  }

  // ----- what versions and REPLACE_ALL do -----

  /** A transaction raises a live map's version by one, as the header says of every commit,
      exactly when one operation was applied to it. */
  lemma VersionCountsOneIff(s: AStore, ops: seq<TxnOp>, h: u32)
    requires |ops| <= MAX_OPS && 1 <= h <= MAX_MAPS && s[h - 1].Live?
    ensures Replay(s, ops).s[h - 1].Live?
    ensures Replay(s, ops).s[h - 1].version == Wrap32(s[h - 1].version + 1) <==> AppliedOn(s, ops, h) == 1
  {
    hide Replay, AppliedOn, Wrap32;
    VersionsRaised(s, ops, h);
    ReplayOutcome(s, ops);
    var v, n := s[h - 1].version, AppliedOn(s, ops, h);
    if n == 0 {
      WrapsApart(v, 0, 1);
    } else if n > 1 {
      WrapsApart(v, 1, n);
    }
  }

  lemma WrapsApart(v: u32, a: nat, b: nat)
    requires a < b <= MAX_OPS
    ensures Wrap32(v + a) != Wrap32(v + b)
  {
    var d := (v + b) / TWO32 - (v + a) / TWO32;
    assert b - a == d * TWO32 + (Wrap32(v + b) - Wrap32(v + a));
    assert d * TWO32 <= 0 || d * TWO32 >= TWO32;
  }

  /** Two inserts in one transaction raise the version by two. */
  lemma TwoInsertsRaiseByTwo(s: AStore)
    requires s[0] == Live(map[], 0)
    ensures var r := Replay(s, [TxnOp(1, INSERT, 7, 8), TxnOp(1, INSERT, 8, 9)]);
            r.rc == Ok && r.s[0] == Live(map[7 := 8, 8 := 9], 2)
  {
    var first, second := TxnOp(1, INSERT, 7, 8), TxnOp(1, INSERT, 8, 9);
    var ops := [first, second];
    assert ops[..1] == [first];
    ReplayOne(s, first);
    assert map[7 := 8][8 := 9] == map[7 := 8, 8 := 9];
  }

  /** REPLACE_ALL stores its value: two of them with the same key leave the same map
      exactly when their values are equal. */
  lemma ReplaceAllUsesValue(c: map<u64, u64>, a: TxnOp, b: TxnOp)
    requires a.op == b.op == REPLACE_ALL && a.key == b.key
    ensures OnMap(a, c) == OnMap(b, c) <==> a.value == b.value
  {
    assert OnMap(a, c).c[a.key] == a.value && OnMap(b, c).c[b.key] == b.value;
  }

  lemma ReplaceAllWitness(s: AStore)
    requires s[0] == Live(map[], 0)
    ensures Replay(s, [TxnOp(1, REPLACE_ALL, 7, 8)]).s[0] == Live(map[7 := 8], 1)
    ensures Replay(s, [TxnOp(1, REPLACE_ALL, 7, 9)]).s[0] == Live(map[7 := 9], 1)
  {
    var a, b := TxnOp(1, REPLACE_ALL, 7, 8), TxnOp(1, REPLACE_ALL, 7, 9);
    ReplayOne(s, a);
    ReplayOne(s, b);
  }

  // ----- what each operation does to a map -----

  /** By the codes 1 to 5 of the interface.  INSERT adds a new key and changes no old one;
      UPDATE changes the value of a key that is there, and no key set; UPSERT leaves the key
      mapped to the value; DELETE takes away its key and no other; REPLACE_ALL leaves one
      pair.  INSERT of a key that is there, and UPDATE or DELETE of one that is not, are
      skipped; a new key that meets a full map fails; so does any other code. */
  lemma OperationsMean(op: TxnOp, c: map<u64, u64>)
    ensures op.op == 1 ==>
              if op.key in c then OnMap(op, c) == Skipped
              else if |c| == 256 then OnMap(op, c) == Failed(Enospc)
              else Puts(OnMap(op, c), op, c) && OnMap(op, c).c.Keys == c.Keys + {op.key}
    ensures op.op == 2 ==>
              if op.key !in c then OnMap(op, c) == Skipped
              else Puts(OnMap(op, c), op, c) && OnMap(op, c).c.Keys == c.Keys
    ensures op.op == 3 ==>
              if op.key !in c && |c| == 256 then OnMap(op, c) == Failed(Enospc)
              else Puts(OnMap(op, c), op, c) && OnMap(op, c).c.Keys == c.Keys + {op.key}
    ensures op.op == 4 ==>
              if op.key !in c then OnMap(op, c) == Skipped
              else OnMap(op, c).Applied? && OnMap(op, c).c.Keys == c.Keys - {op.key}
                   && forall k :: k in c && k != op.key ==> OnMap(op, c).c[k] == c[k]
    ensures op.op == 5 ==> OnMap(op, c).Applied? && OnMap(op, c).c.Keys == {op.key} && OnMap(op, c).c[op.key] == op.value
    ensures op.op !in {1, 2, 3, 4, 5} ==> OnMap(op, c) == Failed(Einval)
  {
  }

  /** The operation is applied, maps its key to its value and leaves the other pairs. */
  predicate Puts(e: Effect, op: TxnOp, c: map<u64, u64>)
  {
    && e.Applied? && op.key in e.c && e.c[op.key] == op.value
    && forall k :: k in c && k != op.key ==> k in e.c && e.c[k] == c[k]
  }

  /** Lifted to a transaction of one operation on a live map. */
  lemma OneOperation(s: AStore, op: TxnOp)
    requires 1 <= op.handle <= 64 && s[op.handle - 1].Live?
    ensures var e, r, m := OnMap(op, s[op.handle - 1].c), Replay(s, [op]), s[op.handle - 1];
            && (forall h :: 0 <= h < 64 && h != op.handle - 1 ==> r.s[h] == s[h])
            && (e.Applied? ==> r == Run(r.s, 1, 0, Ok) && r.s[op.handle - 1] == Live(e.c, Wrap32(m.version + 1)))
            && (e.Skipped? ==> r == Run(s, 0, 1, Ok))
            && (e.Failed? ==> r == Run(s, 0, 0, e.rc))
  {
    hide OnMap, Wrap32;
    ReplayOne(s, op);
  }

  /** An operation on a dead or unknown handle fails and changes nothing. */
  lemma NoSuchMap(s: AStore, op: TxnOp)
    requires op.handle == 0 || op.handle > 64 || s[op.handle - 1].Gone?
    ensures Replay(s, [op]) == Run(s, 0, 0, Ebadf)
  {
    hide OnMap;
    ReplayOne(s, op);
  }

  // ----- what whole transactions keep -----

  /** The operations on the map with handle h all have one of these codes. */
  predicate Only(ops: seq<TxnOp>, h: u32, codes: set<u32>) { forall i :: 0 <= i < |ops| && ops[i].handle == h ==> ops[i].op in codes }

  /** No operation on the map names the key, nor replaces the map. */
  predicate Spares(ops: seq<TxnOp>, h: u32, k: u64)
  {
    forall i :: 0 <= i < |ops| && ops[i].handle == h ==> ops[i].key != k && ops[i].op != 5
  }

  /** Both maps hold the key with one value, or neither holds it. */
  predicate SameAt(a: map<u64, u64>, b: map<u64, u64>, k: u64) { (k in a <==> k in b) && (k in a ==> a[k] == b[k]) }

  /** b has every pair of a. */
  predicate Extends(a: map<u64, u64>, b: map<u64, u64>) { a.Keys <= b.Keys && forall k :: k in a ==> a[k] == b[k] }

  lemma StepKeeps(s: AStore, op: TxnOp, h: u32)
    requires 1 <= h <= MAX_MAPS && s[h - 1].Live? && OnStore(s, op).Did?
    ensures OnStore(s, op).s[h - 1].Live?
    ensures var a, b := s[h - 1].c, OnStore(s, op).s[h - 1].c;
            && (op.handle != h ==> b == a)
            && (op.op == 1 ==> Extends(a, b))
            && (op.op == 2 ==> b.Keys == a.Keys)
            && (op.op in {1, 2, 3} ==> a.Keys <= b.Keys)
            && (op.op == 4 ==> Extends(b, a))
            && (op.op != 5 ==> forall k :: k != op.key ==> SameAt(a, b, k))
  {
    hide OnMap, Wrap32;
    OperationsMean(op, s[op.handle - 1].c);
  }

  /** A key that a transaction spares keeps its value, even when the transaction fails. */
  lemma {:induction false} SparedKeyKept(s: AStore, ops: seq<TxnOp>, h: u32, k: u64)
    requires 1 <= h <= MAX_MAPS && s[h - 1].Live? && Spares(ops, h, k)
    ensures Replay(s, ops).s[h - 1].Live? && SameAt(s[h - 1].c, Replay(s, ops).s[h - 1].c, k)
  {
    hide OnStore, OnMap;
    if ops != [] {
      var pre, op := ops[..|ops| - 1], ops[|ops| - 1];
      SparedKeyKept(s, pre, h, k);
      var p := Replay(s, pre);
      if p.rc == Ok && OnStore(p.s, op).Did? { StepKeeps(p.s, op, h); }
    }
  }

  /** Whole transactions, failed ones included: updates alone keep a map's key set; inserts
      alone keep every pair; inserts, updates and upserts lose no key; deletes alone only
      take pairs away. */
  lemma {:induction false} CodesKeep(s: AStore, ops: seq<TxnOp>, h: u32)
    requires 1 <= h <= MAX_MAPS && s[h - 1].Live?
    ensures Replay(s, ops).s[h - 1].Live?
    ensures Only(ops, h, {2}) ==> Replay(s, ops).s[h - 1].c.Keys == s[h - 1].c.Keys
    ensures Only(ops, h, {1}) ==> Extends(s[h - 1].c, Replay(s, ops).s[h - 1].c)
    ensures Only(ops, h, {1, 2, 3}) ==> s[h - 1].c.Keys <= Replay(s, ops).s[h - 1].c.Keys
    ensures Only(ops, h, {4}) ==> Extends(Replay(s, ops).s[h - 1].c, s[h - 1].c)
  {
    hide OnStore, OnMap, Extends;
    if ops == [] {
      ExtendsItself(s[h - 1].c);
    } else {
      var pre, last := ops[..|ops| - 1], |ops| - 1;
      CodesKeep(s, pre, h);
      var p := Replay(s, pre);
      assert forall i :: 0 <= i < last ==> pre[i] == ops[i];
      if p.rc == Ok && OnStore(p.s, ops[last]).Did? {
        StepKeeps(p.s, ops[last], h);
        var m := OnStore(p.s, ops[last]).s[h - 1].c;
        ExtendsOn(s[h - 1].c, p.s[h - 1].c, m);
        ExtendsOn(m, p.s[h - 1].c, s[h - 1].c);
      }
    }
  }

  lemma ExtendsItself(a: map<u64, u64>)
    ensures Extends(a, a)
  {
  }

  lemma ExtendsOn(a: map<u64, u64>, b: map<u64, u64>, c: map<u64, u64>)
    ensures Extends(a, b) && Extends(b, c) ==> Extends(a, c)
  {
  }
}
