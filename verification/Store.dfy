/** The map store and its transactions (tools/merlin-txn/store.c): tables and flags
    updated in place, refining the mathematical store of Replays. */
module Store {
  import opened Basics
  import opened Words
  import opened MapSlots
  import opened Replays

  ghost function AbsMap(m: MapRec): AMap { if m.valid then Live(Contents(m.entries), m.version) else Gone }

  ghost function AbsAll(maps: seq<MapRec>): AStore
    requires |maps| == MAX_MAPS
  {
    seq(MAX_MAPS, i requires 0 <= i < MAX_MAPS => AbsMap(maps[i]))
  }

  ghost predicate WfAll(maps: seq<MapRec>)
  {
    |maps| == MAX_MAPS && forall i :: 0 <= i < |maps| ==> maps[i].handle == i + 1 && (maps[i].valid ==> Wf(maps[i]))
  }

  lemma AbsUpdate(maps: seq<MapRec>, i: int, m: MapRec)
    requires |maps| == MAX_MAPS && 0 <= i < MAX_MAPS
    ensures AbsAll(maps[i := m]) == AbsAll(maps)[i := AbsMap(m)]
  {
    hide AbsMap;
  }

  // ----- transactions -----

  class Txn {
    var open: bool
    var committed: bool
    var aborted: bool
    var nsId: u32
    var ops: seq<TxnOp>
    var touched: seq<u32>

    /** touched lists, once each, the handles the staged operations name. */
    ghost predicate Valid()
      reads this
    {
      && |ops| <= MAX_OPS && Distinct(touched)
      && Lists(touched, ops)
      && InTable(touched)
    }

    predicate Usable()
      reads this
    {
      open && !committed && !aborted
    }

    method Begin(ns: u32)
      modifies this
      ensures Valid() && nsId == ns && ops == [] && touched == []
      ensures open && !committed && !aborted
    {
      open, committed, aborted, nsId, ops, touched := true, false, false, ns, [], [];
    }

    /** Appends an operation on a live map; an unusable or full transaction, or a dead
        handle, leaves everything as it is. */
    method Stage(store: Store, h: u32, op: u32, key: u64, value: u64) returns (rc: Rc)
      requires Valid() && store.Valid()
      modifies this`ops, this`touched
      ensures Valid()
      ensures rc == if !open || committed || aborted then Einval else if old(|ops|) == 4096 then Enospc
                    else if !Names(store.Abs(), h) then Ebadf else Ok
      ensures ops == if rc == Ok then old(ops) + [TxnOp(h, op, key, value)] else old(ops)
      ensures rc != Ok ==> touched == old(touched)
    {
      if !Usable() { return Einval; }
      if |ops| >= MAX_OPS { return Enospc; }
      var found := store.FindMap(h);
      if !found { return Ebadf; }
      ghost var before := ops;
      ops := ops + [TxnOp(h, op, key, value)];
      var seen := false;
      for i := 0 to |touched|
        invariant seen == (h in touched[..i])
      {
        if touched[i] == h { seen := true; break; }
      }
      assert seen == (h in touched);
      if !seen { RoomToTouch(touched, h); }
      StagedHandles(before, touched, TxnOp(h, op, key, value));
      if !seen && |touched| < MAX_MAPS { touched := touched + [h]; }
      rc := Ok;
    }

    method Abort()
      modifies this`open, this`aborted
      ensures !open && aborted
    {
      open, aborted := false, true;
    }
  }

  ghost predicate InTable(s: seq<u32>) { forall i :: 0 <= i < |s| ==> 1 <= s[i] <= MAX_MAPS }

  ghost predicate Lists(touched: seq<u32>, ops: seq<TxnOp>)
  {
    forall h: u32 :: h in touched <==> exists i :: 0 <= i < |ops| && ops[i].handle == h
  }

  lemma StagedHandles(ops: seq<TxnOp>, touched: seq<u32>, op: TxnOp)
    requires Lists(touched, ops)
    ensures op.handle in touched ==> Lists(touched, ops + [op])
    ensures Lists(touched + [op.handle], ops + [op])
  {
    var ops' := ops + [op];
    forall h: u32
      ensures (h in touched || h == op.handle) <==> exists i :: 0 <= i < |ops'| && ops'[i].handle == h
    {
      if h in touched {
        var i :| 0 <= i < |ops| && ops[i].handle == h;
        assert ops'[i].handle == h;
      }
      if h == op.handle { assert ops'[|ops|].handle == h; }
      if i :| 0 <= i < |ops'| && ops'[i].handle == h {
        if i < |ops| { assert ops[i].handle == h; }
      }
    }
  }

  /** The touched table never fills up before every handle is in it. */
  lemma RoomToTouch(touched: seq<u32>, h: u32)
    requires Distinct(touched) && h !in touched && 1 <= h <= MAX_MAPS
    requires InTable(touched)
    ensures |touched| < MAX_MAPS
  {
    var s := set x: u32 | x in touched;
    DistinctSize(touched);
    Handles(s + {h}, MAX_MAPS);
  }

  lemma {:induction false} DistinctSize(t: seq<u32>)
    requires Distinct(t)
    ensures |set x: u32 | x in t| == |t|
  {
    if t != [] {
      var n, pre := |t| - 1, t[..|t| - 1];
      DistinctSize(pre);
      assert (set x: u32 | x in t) == (set x: u32 | x in pre) + {t[n]};
    }
  }

  lemma {:induction false} Handles(s: set<u32>, n: nat)
    requires forall x: u32 :: x in s ==> 1 <= x <= n
    ensures |s| <= n
  {
    if n == 0 {
      assert s == {} by { if x: u32 :| x in s { assert false; } }
    } else {
      Handles(s - {n}, n - 1);
    }
  }

  datatype Stats = Stats(staged: nat, applied: nat, skipped: nat, conflict: u32)

  // ----- the store -----

  class Store {
    const maps: array<MapRec>
    const locked: array<bool>

    ghost predicate Valid()
      reads this, maps, locked
    {
      locked.Length == MAX_MAPS && WfAll(maps[..])
    }

    ghost function Abs(): AStore
      reads this, maps, locked
      requires Valid()
    {
      AbsAll(maps[..])
    }

    constructor ()
      ensures Valid() && fresh(maps) && fresh(locked)
      ensures Abs() == seq(MAX_MAPS, _ => Gone) && forall i :: 0 <= i < MAX_MAPS ==> !locked[i]
    {
      maps := new MapRec[MAX_MAPS](i requires 0 <= i < MAX_MAPS => MapRec(i + 1, false, Blank(), 0, 0));
      locked := new bool[MAX_MAPS](_ => false);
    }

    /** Takes the lowest dead slot; 0 when there is none. */
    method Create() returns (h: u32)
      requires Valid()
      modifies maps
      ensures Valid() && h <= MAX_MAPS
      ensures h == 0 ==> Abs() == old(Abs()) && forall i :: 0 <= i < MAX_MAPS ==> Abs()[i].Live?
      ensures h != 0 ==> Names(Abs(), h) && old(Abs())[h - 1].Gone? && (forall i :: 0 <= i < h - 1 ==> old(Abs())[i].Live?)
                         && Abs() == old(Abs())[h - 1 := Live(map[], 0)]
    {
      hide Contents, Blank;
      var i := 0;
      while i < MAX_MAPS
        invariant 0 <= i <= MAX_MAPS
        invariant forall j :: 0 <= j < i ==> maps[j].valid
      {
        if !maps[i].valid {
          ghost var before := maps[..];
          BlankIsEmpty();
          var m := MapRec(maps[i].handle, true, Blank(), 0, 0);
          maps[i] := m;
          assert maps[..] == before[i := m];
          AbsUpdate(before, i, m);
          return m.handle;
        }
        i := i + 1;
      }
      h := 0;
    }

    method Destroy(h: u32)
      requires Valid()
      modifies maps
      ensures Valid()
      ensures Abs() == if 1 <= h <= MAX_MAPS then old(Abs())[h - 1 := Gone] else old(Abs())
    {
      hide Contents, Wf;
      if h == 0 || h > MAX_MAPS { return; }
      ghost var before := maps[..];
      var m := maps[h - 1].(valid := false, count := 0);
      maps[h - 1] := m;
      assert maps[..] == before[h - 1 := m];
      AbsUpdate(before, h - 1, m);
    }

    method FindMap(h: u32) returns (found: bool)
      requires Valid()
      ensures found <==> Names(Abs(), h)
    {
      if h == 0 || h > MAX_MAPS { return false; }
      found := maps[h - 1].valid;
    }

    method Lookup(h: u32, key: u64) returns (found: bool, val: u64)
      requires Valid()
      ensures found <==> Names(Abs(), h) && key in Abs()[h - 1].c
      ensures found ==> val == Abs()[h - 1].c[key]
    {
      hide Contents;
      var live := FindMap(h);
      if !live { return false, 0; }
      var es := maps[h - 1].entries;
      var i := FindKey(es, key);
      if i < |es| { return true, es[i].value; }
      return false, 0;
    }

    method Count(h: u32) returns (n: u32)
      requires Valid()
      ensures n == if Names(Abs(), h) then |Abs()[h - 1].c| else 0
    {
      hide Contents;
      var live := FindMap(h);
      if !live { return 0; }
      SlotsMatch(maps[h - 1].entries);
      n := maps[h - 1].count;
    }

    /** The next used slot from pos on; the position moves past it, to the end if there is
        none, and not at all for a dead handle. */
    method Next(h: u32, pos: nat) returns (more: bool, pos': nat, key: u64, val: u64)
      requires Valid()
      ensures more ==> Names(Abs(), h) && pos < pos' <= MAX_ENTRIES && maps[h - 1].entries[pos' - 1] == Entry(key, val, true)
                       && NoneUsed(maps[h - 1].entries, pos, pos' - 1)
      ensures Names(Abs(), h) && !more ==> NoneUsed(maps[h - 1].entries, pos, MAX_ENTRIES)
      ensures !more ==> pos' == if Names(Abs(), h) && pos < MAX_ENTRIES then MAX_ENTRIES else pos
    {
      hide Contents;
      more, pos', key, val := false, pos, 0, 0;
      var live := FindMap(h);
      if !live { return; }
      var es := maps[h - 1].entries;
      while pos' < MAX_ENTRIES
        invariant pos <= pos' && (pos' <= MAX_ENTRIES || pos' == pos) && NoneUsed(es, pos, pos')
      {
        var i := pos';
        pos' := pos' + 1;
        if es[i].used { return true, pos', es[i].key, es[i].value; }
      }
    }

    /** Iterating from position 0, as map-dump does: every pair of the map, once each. */
    method Dump(h: u32) returns (out: seq<(u64, u64)>)
      requires Valid()
      ensures !Names(Abs(), h) ==> out == []
      ensures Names(Abs(), h) ==> Enumerates(out, Abs()[h - 1].c)
    {
      hide Contents, Unique, Pairs, NoneUsed, Enumerates, UsedSlots;
      out := [];
      var pos := 0;
      ghost var es := if Names(Abs(), h) then maps[h - 1].entries else Blank();
      PairsNone(es);
      while true
        invariant pos <= MAX_ENTRIES
        invariant out == if Names(Abs(), h) then Pairs(es[..pos]) else []
        decreases MAX_ENTRIES - pos
      {
        var more, p, k, v := Next(h, pos);
        if !more {
          if Names(Abs(), h) { PairsDone(es, pos); }
          return;
        }
        PairsNext(es, pos, p, k, v);
        out := out + [(k, v)];
        pos := p;
      }
    }

    /** The first touched map that is locked, or 0. */
    method FindConflict(touched: seq<u32>) returns (h: u32)
      requires Valid() && InTable(touched)
      ensures h == FirstLocked(locked[..], touched)
    {
      for i := 0 to |touched|
        invariant FirstLocked(locked[..], touched) == FirstLocked(locked[..], touched[i..])
      {
        assert touched[i..][0] == touched[i] && touched[i..][1..] == touched[i + 1..];
        if locked[touched[i] - 1] { return touched[i]; }
      }
      h := 0;
    }

    method SetLocks(touched: seq<u32>, value: bool)
      requires locked.Length == MAX_MAPS && InTable(touched)
      modifies locked
      ensures forall i :: 0 <= i < MAX_MAPS ==> locked[i] == if i + 1 in touched then value else old(locked[i])
    {
      for i := 0 to |touched|
        invariant forall j :: 0 <= j < MAX_MAPS ==> locked[j] == if j + 1 in touched[..i] then value else old(locked[j])
      {
        assert touched[..i + 1] == touched[..i] + [touched[i]];
        locked[touched[i] - 1] := value;
      }
      assert touched[..|touched|] == touched;
    }

    /** The commit loop: the store becomes the replay of the operations. */
    method ApplyAll(ops: seq<TxnOp>) returns (applied: nat, skipped: nat, rc: Rc)
      requires Valid()
      modifies maps
      ensures Valid() && Run(Abs(), applied, skipped, rc) == Replay(old(Abs()), ops)
    {
      hide Replay, WfAll, AbsAll, Advance;
      applied, skipped, rc := 0, 0, Ok;
      ghost var s := Abs();
      ReplayNone(s, ops);
      for i := 0 to |ops|
        invariant Valid() && rc == Ok
        invariant Run(Abs(), applied, skipped, rc) == Replay(s, ops[..i])
      {
        ReplayNext(s, ops, i);
        var r := ApplyAt(ops[i]);
        if r == Eexist || r == Enoent { skipped := skipped + 1; }
        else if r == Ok { applied := applied + 1; }
        else {
          rc := r;
          FailureSticks(s, ops, i + 1);
          break;
        }
      }
      assert ops[..|ops|] == ops;
    }

    /** One turn of the commit loop. */
    method ApplyAt(op: TxnOp) returns (r: Rc)
      requires Valid()
      modifies maps
      ensures Valid()
      ensures match OnStore(old(Abs()), op)
              case Did(s) => r == Ok && Abs() == s
              case Skip => (r == Eexist || r == Enoent) && Abs() == old(Abs())
              case Fail(rc) => r == rc && r != Ok && r != Eexist && r != Enoent && Abs() == old(Abs())
    {
      hide Contents, Unique, UsedSlots, OnMap;
      var live := FindMap(op.handle);
      if !live { return Ebadf; }
      ghost var before := maps[..];
      var m: MapRec;
      m, r := ApplyOne(maps[op.handle - 1], op);
      if r == Ok { m := m.(version := Wrap32(m.version + 1)); }
      maps[op.handle - 1] := m;
      assert maps[..] == before[op.handle - 1 := m];
      AbsUpdate(before, op.handle - 1, m);
    }

    /** Commits a transaction.  An unusable one, or one in conflict with a commit in
        flight, changes nothing; otherwise the store becomes the replay of the staged
        operations, the touched maps end unlocked and the transaction is closed. */
    method Commit(txn: Txn, flags: u32) returns (rc: Rc, stats: Stats)
      requires Valid() && txn.Valid()
      modifies maps, locked, txn`open, txn`committed, txn`aborted
      ensures Valid() && txn.Valid()
      ensures var usable, blocked := old(txn.open && !txn.committed && !txn.aborted), old(Blocked(locked[..], txn, flags));
              !usable || blocked ==>
                && rc == (if usable then Ebusy else Einval)
                && Abs() == old(Abs()) && locked[..] == old(locked[..])
                && txn.open == old(txn.open) && txn.committed == old(txn.committed) && txn.aborted == old(txn.aborted)
                && (rc == Ebusy ==> stats.conflict == FirstLocked(old(locked[..]), txn.touched))
      ensures var usable, blocked := old(txn.open && !txn.committed && !txn.aborted), old(Blocked(locked[..], txn, flags));
              var r := Replay(old(Abs()), txn.ops);
              usable && !blocked ==>
                && Run(Abs(), stats.applied, stats.skipped, rc) == r && stats.staged == |txn.ops| && stats.conflict == 0
                && !txn.open && txn.committed == (rc == Ok) && txn.aborted == (rc != Ok)
                && (forall i :: 0 <= i < MAX_MAPS ==> locked[i] == (old(locked[i]) && i + 1 !in txn.touched))
    {
      hide Replay, WfAll, AbsAll, FirstLocked;
      stats := Stats(0, 0, 0, 0);
      if !txn.Usable() { return Einval, stats; }
      if flags / 2 % 2 == 0 {
        var h := FindConflict(txn.touched);
        if h != 0 { return Ebusy, stats.(conflict := h); }
      }
      SetLocks(txn.touched, true);
      var applied, skipped;
      applied, skipped, rc := ApplyAll(txn.ops);
      SetLocks(txn.touched, false);
      stats := Stats(|txn.ops|, applied, skipped, 0);
      if rc == Ok { txn.committed := true; } else { txn.aborted := true; }
      txn.open := false;
    }

    /** Applies one staged operation to a map, as the switch in the commit loop does. */
    method ApplyOne(m: MapRec, op: TxnOp) returns (m': MapRec, r: Rc)
      requires Wf(m)
      ensures match OnMap(op, Contents(m.entries))
              case Applied(c) => r == Ok && Becomes(m, m', c)
              case Skipped => (r == Eexist || r == Enoent) && Becomes(m, m', Contents(m.entries))
              case Failed(rc) => r == rc && r != Ok && r != Eexist && r != Enoent && Becomes(m, m', Contents(m.entries))
    {
      hide Contents, Wf;
      if op.op == INSERT { m', r := MapInsert(m, op.key, op.value); }
      else if op.op == UPDATE { m', r := MapUpdate(m, op.key, op.value); }
      else if op.op == UPSERT { m', r := MapUpsert(m, op.key, op.value); }
      else if op.op == DELETE {
        m', r := MapDelete(m, op.key);
        if r == Enoent { assert Contents(m.entries) - {op.key} == Contents(m.entries); }
      }
      else if op.op == REPLACE_ALL {
        m' := MapReplaceAll(m, [op.key], [op.value]);
        assert FromPairs([op.key], [op.value], 0) == map[];
        assert FromPairs([op.key], [op.value], 1) == map[op.key := op.value];
        r := Ok;
      }
      else { m', r := m, Einval; }
    }
  }

  /** The handle of the first touched map that is locked, or 0. */
  ghost function FirstLocked(locked: seq<bool>, touched: seq<u32>): u32
    requires |locked| == MAX_MAPS && InTable(touched)
  {
    if touched == [] then 0
    else if locked[touched[0] - 1] then touched[0]
    else FirstLocked(locked, touched[1..])
  }

  /** Without the FAST flag (bit 1), a commit stops at a locked map. */
  ghost predicate Blocked(locked: seq<bool>, txn: Txn, flags: u32)
    reads txn
    requires |locked| == MAX_MAPS && txn.Valid()
  {
    flags / 2 % 2 == 0 && FirstLocked(locked, txn.touched) != 0
  }

  /** A conflict is reported exactly when some touched map is locked, and for the first
      such map. */
  lemma {:induction false} ConflictIff(locked: seq<bool>, touched: seq<u32>)
    requires |locked| == MAX_MAPS && InTable(touched)
    ensures var h := FirstLocked(locked, touched);
            if h == 0 then forall i :: 0 <= i < |touched| ==> !locked[touched[i] - 1]
            else exists i :: 0 <= i < |touched| && touched[i] == h && locked[h - 1] && forall j :: 0 <= j < i ==> !locked[touched[j] - 1]
  {
    if touched != [] && !locked[touched[0] - 1] {
      var rest := touched[1..];
      ConflictIff(locked, rest);
      var h := FirstLocked(locked, rest);
      if h != 0 {
        var i :| 0 <= i < |rest| && rest[i] == h && locked[h - 1] && forall j :: 0 <= j < i ==> !locked[rest[j] - 1];
        assert touched[i + 1] == h;
        assert forall j :: 0 < j < i + 1 ==> touched[j] == rest[j - 1];
      }
    }
  }

  /** A commit is held back exactly when bit 1 of its flags is clear and a staged operation
      names a locked map. */
  lemma BlockedIff(locked: seq<bool>, txn: Txn, flags: u32)
    requires |locked| == MAX_MAPS && txn.Valid()
    ensures Blocked(locked, txn, flags) <==>
              flags / 2 % 2 == 0 && exists i :: 0 <= i < |txn.ops| && 1 <= txn.ops[i].handle <= MAX_MAPS && locked[txn.ops[i].handle - 1]
  {
    hide FirstLocked;
    ConflictIff(locked, txn.touched);
    var h := FirstLocked(locked, txn.touched);
    if h != 0 {
      assert h in txn.touched;
    } else {
      forall i | 0 <= i < |txn.ops| && 1 <= txn.ops[i].handle <= MAX_MAPS
        ensures !locked[txn.ops[i].handle - 1]
      {
        assert txn.ops[i].handle in txn.touched;
      }
    }
  }

  lemma ReplayNone(s: AStore, ops: seq<TxnOp>)
    ensures Replay(s, ops[..0]) == Run(s, 0, 0, Ok)
  {
  }

  lemma ReplayNext(s: AStore, ops: seq<TxnOp>, i: nat)
    requires i < |ops| && Replay(s, ops[..i]).rc == Ok
    ensures var p := Replay(s, ops[..i]);
            Replay(s, ops[..i + 1]) ==
            match OnStore(p.s, ops[i])
            case Did(s') => p.(s := s', applied := p.applied + 1)
            case Skip => p.(skipped := p.skipped + 1)
            case Fail(rc) => p.(rc := rc)
  {
    hide OnStore;
    assert ops[..i + 1][..i] == ops[..i];
  }

  ghost predicate NoneUsed(es: seq<Entry>, a: int, b: int) { forall i :: a <= i < b && 0 <= i < |es| ==> !es[i].used }

  function Pairs(es: seq<Entry>): seq<(u64, u64)>
  {
    if es == [] then []
    else Pairs(es[..|es| - 1]) + if es[|es| - 1].used then [(es[|es| - 1].key, es[|es| - 1].value)] else []
  }

  /** out lists the pairs of c, no key twice. */
  ghost predicate Enumerates(out: seq<(u64, u64)>, c: map<u64, u64>)
  {
    && |out| == |c|
    && (forall i, j :: 0 <= i < j < |out| ==> out[i].0 != out[j].0)
    && (forall i :: 0 <= i < |out| ==> out[i].0 in c && c[out[i].0] == out[i].1)
    && (forall k :: k in c ==> (k, c[k]) in out)
  }

  lemma {:induction false} PairsSkip(es: seq<Entry>, a: nat, b: nat)
    requires a <= b <= |es| && NoneUsed(es, a, b)
    ensures Pairs(es[..b]) == Pairs(es[..a])
    decreases b - a
  {
    if a < b {
      PairsSkip(es, a, b - 1);
      assert es[..b][..b - 1] == es[..b - 1];
    }
  }

  lemma PairsNone(es: seq<Entry>)
    ensures Pairs(es[..0]) == []
  {
  }

  lemma PairsNext(es: seq<Entry>, pos: nat, p: nat, k: u64, v: u64)
    requires pos < p <= |es| && NoneUsed(es, pos, p - 1) && es[p - 1] == Entry(k, v, true)
    ensures Pairs(es[..p]) == Pairs(es[..pos]) + [(k, v)]
  {
    PairsSkip(es, pos, p - 1);
    assert es[..p][..p - 1] == es[..p - 1];
  }

  lemma PairsDone(es: seq<Entry>, pos: nat)
    requires pos <= |es| && NoneUsed(es, pos, |es|) && Unique(es)
    ensures Enumerates(Pairs(es[..pos]), Contents(es))
  {
    hide Contents, Pairs, Unique;
    PairsSkip(es, pos, |es|);
    assert es[..|es|] == es;
    PairsEnumerate(es);
  }

  lemma {:induction false} PairsEnumerate(es: seq<Entry>)
    requires Unique(es)
    ensures Enumerates(Pairs(es), Contents(es))
  {
    if es != [] {
      var n, pre := |es| - 1, es[..|es| - 1];
      PairsEnumerate(pre);
      if es[n].used {
        var k, v := es[n].key, es[n].value;
        InContents(pre, k);
        assert k !in Contents(pre);
        EnumerateMore(Pairs(pre), Contents(pre), k, v);
      }
    }
  }

  lemma EnumerateMore(out: seq<(u64, u64)>, c: map<u64, u64>, k: u64, v: u64)
    requires Enumerates(out, c) && k !in c
    ensures Enumerates(out + [(k, v)], c[k := v])
  {
    var out', c' := out + [(k, v)], c[k := v];
    forall x | x in c'
      ensures (x, c'[x]) in out'
    {
      if x == k { assert out'[|out|] == (k, v); } else { assert (x, c[x]) in out; }
    }
  }

  lemma BlankIsEmpty()
    ensures Contents(Blank()) == map[]
    ensures forall h: u32, valid: bool :: Wf(MapRec(h, valid, Blank(), 0, 0))
  {
    hide Contents;
    BlankContents();
  }
}
