/** One map of the store (tools/merlin-txn/store.c): a fixed table of slots that stands
    for a mathematical map, and the mutations the commit engine applies to it. */
module MapSlots {
  import opened Words

  const MAX_ENTRIES: nat := 256

  datatype Entry = Entry(key: u64, value: u64, used: bool)

  datatype MapRec = MapRec(handle: u32, valid: bool, entries: seq<Entry>, count: u32, version: u32)

  datatype Rc = Ok | Einval | Enospc | Ebadf | Ebusy | Eexist | Enoent

  function Blank(): seq<Entry> { seq(MAX_ENTRIES, _ => Entry(0, 0, false)) }

  // ----- what the slots stand for -----

  predicate KeyAt(es: seq<Entry>, i: int, k: u64) { 0 <= i < |es| && es[i].used && es[i].key == k }

  ghost predicate Unique(es: seq<Entry>)
  {
    forall i, j :: 0 <= i < |es| && 0 <= j < |es| && es[i].used && es[j].used && es[i].key == es[j].key ==> i == j
  }

  function UsedSlots(es: seq<Entry>): set<int> { set i | 0 <= i < |es| && es[i].used }

  /** The mathematical map: later slots win, though no key has two in a valid map. */
  function Contents(es: seq<Entry>): map<u64, u64>
  {
    if es == [] then map[]
    else
      var last, rest := es[|es| - 1], Contents(es[..|es| - 1]);
      if last.used then rest[last.key := last.value] else rest
  }

  /** Every valid map: 256 slots, no key twice, count the number of used slots. */
  ghost predicate Wf(m: MapRec) { |m.entries| == MAX_ENTRIES && Unique(m.entries) && m.count == |UsedSlots(m.entries)| }

  lemma {:induction false} InContents(es: seq<Entry>, k: u64)
    ensures k in Contents(es) <==> exists i :: KeyAt(es, i, k)
  {
    if es != [] {
      var n, pre := |es| - 1, es[..|es| - 1];
      InContents(pre, k);
      if i :| KeyAt(pre, i, k) { assert KeyAt(es, i, k); }
      if es[n].used && es[n].key == k { assert KeyAt(es, n, k); }
      if i :| KeyAt(es, i, k) && i < n { assert KeyAt(pre, i, k); }
    }
  }

  lemma {:induction false} ValueAt(es: seq<Entry>, i: int)
    requires Unique(es) && 0 <= i < |es| && es[i].used
    ensures es[i].key in Contents(es) && Contents(es)[es[i].key] == es[i].value
    decreases |es|
  {
    var n, pre := |es| - 1, es[..|es| - 1];
    if i < n { ValueAt(pre, i); }
  }

  /** Used slots and keys are equally many. */
  lemma {:induction false} SlotsMatch(es: seq<Entry>)
    requires Unique(es)
    ensures |UsedSlots(es)| == |Contents(es)|
  {
    if es != [] {
      var n, pre := |es| - 1, es[..|es| - 1];
      SlotsMatch(pre);
      if es[n].used {
        assert UsedSlots(es) == UsedSlots(pre) + {n};
        InContents(pre, es[n].key);
      } else {
        assert UsedSlots(es) == UsedSlots(pre);
      }
    }
  }

  lemma BlankContents()
    ensures Unique(Blank()) && Contents(Blank()) == map[] && UsedSlots(Blank()) == {}
  {
    hide Contents;
    forall k: u64
      ensures k !in Contents(Blank())
    {
      InContents(Blank(), k);
    }
  }

  /** Writing a free slot, or the slot that holds the key, maps the key. */
  lemma Written(es: seq<Entry>, i: int, k: u64, v: u64)
    requires Unique(es) && 0 <= i < |es|
    requires KeyAt(es, i, k) || (!es[i].used && k !in Contents(es))
    ensures var es' := es[i := Entry(k, v, true)];
            Unique(es') && Contents(es') == Contents(es)[k := v] && UsedSlots(es') == UsedSlots(es) + {i}
  {
    hide Contents;
    var es' := es[i := Entry(k, v, true)];
    InContents(es, k);
    assert forall j :: KeyAt(es, j, k) ==> j == i;
    assert forall j :: 0 <= j < |es| && es[j].used && j != i ==> !KeyAt(es, j, k);
    assert Unique(es');
    assert KeyAt(es', i, k);
    forall x: u64
      ensures x in Contents(es') <==> x in Contents(es)[k := v]
      ensures x in Contents(es') ==> Contents(es')[x] == Contents(es)[k := v][x]
    {
      InContents(es', x);
      InContents(es, x);
      if j :| KeyAt(es, j, x) { assert KeyAt(es', j, x) || x == k; }
      if j :| KeyAt(es', j, x) {
        ValueAt(es', j);
        if j != i { assert KeyAt(es, j, x); ValueAt(es, j); }
      }
    }
  }

  lemma Erased(es: seq<Entry>, i: int, k: u64)
    requires Unique(es) && KeyAt(es, i, k)
    ensures var es' := es[i := es[i].(used := false)];
            Unique(es') && Contents(es') == Contents(es) - {k} && UsedSlots(es') == UsedSlots(es) - {i}
  {
    hide Contents;
    var es' := es[i := es[i].(used := false)];
    assert Unique(es');
    forall x: u64
      ensures x in Contents(es') <==> x in Contents(es) - {k}
      ensures x in Contents(es') ==> Contents(es')[x] == Contents(es)[x]
    {
      InContents(es', x);
      InContents(es, x);
      if j :| KeyAt(es, j, x) { assert KeyAt(es', j, x) || j == i; }
      if j :| KeyAt(es', j, x) {
        assert KeyAt(es, j, x);
        ValueAt(es', j);
        ValueAt(es, j);
      }
    }
  }

  /** A table has a free slot exactly when it holds fewer keys than slots. */
  lemma FullIff(es: seq<Entry>)
    requires Unique(es)
    ensures |Contents(es)| <= |es|
    ensures |Contents(es)| == |es| <==> forall i :: 0 <= i < |es| ==> es[i].used
  {
    hide Contents;
    SlotsMatch(es);
    UsedBound(es);
  }

  lemma {:induction false} UsedBound(es: seq<Entry>)
    ensures |UsedSlots(es)| <= |es|
    ensures |UsedSlots(es)| == |es| <==> forall i :: 0 <= i < |es| ==> es[i].used
  {
    if es == [] {
      assert UsedSlots(es) == {};
    } else {
      var n, pre := |es| - 1, es[..|es| - 1];
      UsedBound(pre);
      assert UsedSlots(es) == UsedSlots(pre) + if es[n].used then {n} else {};
      assert (forall i :: 0 <= i < |es| ==> es[i].used) <==> es[n].used && forall i :: 0 <= i < n ==> pre[i].used;
    }
  }

  // ----- searching -----

  /** The slot that holds the key, or 256. */
  method FindKey(es: seq<Entry>, key: u64) returns (i: nat)
    requires Unique(es)
    ensures i <= |es|
    ensures i < |es| ==> KeyAt(es, i, key) && key in Contents(es) && Contents(es)[key] == es[i].value
    ensures i < |es| <==> key in Contents(es)
  {
    hide Contents;
    i := 0;
    InContents(es, key);
    while i < |es|
      invariant i <= |es|
      invariant forall j :: 0 <= j < i ==> !KeyAt(es, j, key)
    {
      if es[i].used && es[i].key == key {
        assert KeyAt(es, i, key);
        ValueAt(es, i);
        return;
      }
      i := i + 1;
    }
  }

  /** The first free slot, or 256. */
  method FindFree(es: seq<Entry>) returns (i: nat)
    requires Unique(es)
    ensures i <= |es| && (i < |es| ==> !es[i].used) && forall j :: 0 <= j < i ==> es[j].used
    ensures i == |es| <==> |Contents(es)| == |es|
  {
    hide Contents;
    i := 0;
    FullIff(es);
    while i < |es|
      invariant i <= |es|
      invariant forall j :: 0 <= j < i ==> es[j].used
    {
      if !es[i].used { return; }
      i := i + 1;
    }
  }

  // ----- mutations -----

  /** m' is m with contents c: same handle, validity and version, and still valid. */
  ghost predicate Becomes(m: MapRec, m': MapRec, c: map<u64, u64>)
  {
    Wf(m') && Contents(m'.entries) == c && m'.handle == m.handle && m'.valid == m.valid && m'.version == m.version
  }

  method MapInsert(m: MapRec, key: u64, val: u64) returns (m': MapRec, r: Rc)
    requires Wf(m)
    ensures var c := Contents(m.entries);
            && r == (if key in c then Eexist else if |c| == MAX_ENTRIES then Enospc else Ok)
            && Becomes(m, m', if r == Ok then c[key := val] else c)
  {
    hide Contents, Unique;
    var i := FindKey(m.entries, key);
    if i < |m.entries| { return m, Eexist; }
    i := FindFree(m.entries);
    if i == |m.entries| { return m, Enospc; }
    Written(m.entries, i, key, val);
    UsedBound(m.entries);
    m' := m.(entries := m.entries[i := Entry(key, val, true)], count := m.count + 1);
    r := Ok;
  }

  method MapUpdate(m: MapRec, key: u64, val: u64) returns (m': MapRec, r: Rc)
    requires Wf(m)
    ensures var c := Contents(m.entries);
            && r == (if key in c then Ok else Enoent)
            && Becomes(m, m', if r == Ok then c[key := val] else c)
  {
    hide Contents, Unique;
    var i := FindKey(m.entries, key);
    if i == |m.entries| { return m, Enoent; }
    Written(m.entries, i, key, val);
    assert UsedSlots(m.entries) + {i} == UsedSlots(m.entries);
    m' := m.(entries := m.entries[i := m.entries[i].(value := val)]);
    r := Ok;
  }

  method MapUpsert(m: MapRec, key: u64, val: u64) returns (m': MapRec, r: Rc)
    requires Wf(m)
    ensures var c := Contents(m.entries);
            && r == (if key !in c && |c| == MAX_ENTRIES then Enospc else Ok)
            && Becomes(m, m', if r == Ok then c[key := val] else c)
  {
    hide Contents, Unique, Wf;
    m', r := MapUpdate(m, key, val);
    if r == Enoent {
      m', r := MapInsert(m, key, val);
    }
  }

  method MapDelete(m: MapRec, key: u64) returns (m': MapRec, r: Rc)
    requires Wf(m)
    ensures var c := Contents(m.entries);
            && r == (if key in c then Ok else Enoent)
            && Becomes(m, m', c - {key})
  {
    hide Contents, Unique;
    var i := FindKey(m.entries, key);
    if i == |m.entries| {
      assert Contents(m.entries) - {key} == Contents(m.entries);
      return m, Enoent;
    }
    Erased(m.entries, i, key);
    assert i in UsedSlots(m.entries);
    m' := m.(entries := m.entries[i := m.entries[i].(used := false)], count := m.count - 1);
    r := Ok;
  }

  /** Clears the table and writes the first 256 pairs.  The table keeps unique keys
      exactly when those pairs have distinct keys; the commit engine passes one pair. */
  method MapReplaceAll(m: MapRec, keys: seq<u64>, vals: seq<u64>) returns (m': MapRec)
    requires |keys| == |vals|
    ensures var n := if |keys| < MAX_ENTRIES then |keys| else MAX_ENTRIES;
            && |m'.entries| == MAX_ENTRIES && Contents(m'.entries) == FromPairs(keys, vals, n)
            && m'.count == |UsedSlots(m'.entries)| == n
            && (Wf(m') <==> forall i, j :: 0 <= i < j < n ==> keys[i] != keys[j])
    ensures m'.handle == m.handle && m'.valid == m.valid && m'.version == m.version
  {
    hide Contents, Unique, UsedSlots, Filled, Blank, FromPairs;
    BlankFilled(keys, vals);
    m' := m.(entries := Blank(), count := 0);
    var i := 0;
    while i < |keys| && i < MAX_ENTRIES
      invariant 0 <= i <= |keys| && i <= MAX_ENTRIES
      invariant m' == m.(entries := m'.entries, count := i) && Filled(m'.entries, keys, vals, i)
    {
      WrittenNext(m'.entries, keys, vals, i);
      m' := m'.(entries := m'.entries[i := Entry(keys[i], vals[i], true)], count := m'.count + 1);
      i := i + 1;
    }
    FilledMeans(m'.entries, keys, vals, i);
  }

  /** The first n pairs stand in the first n slots and nothing else does. */
  ghost predicate Filled(es: seq<Entry>, keys: seq<u64>, vals: seq<u64>, n: nat)
  {
    && |keys| == |vals| && n <= |keys| && n <= |es| == MAX_ENTRIES
    && (forall j :: 0 <= j < n ==> es[j] == Entry(keys[j], vals[j], true))
    && (forall j :: n <= j < |es| ==> !es[j].used)
    && Contents(es) == FromPairs(keys, vals, n) && |UsedSlots(es)| == n
  }

  lemma BlankFilled(keys: seq<u64>, vals: seq<u64>)
    requires |keys| == |vals|
    ensures |Blank()| == MAX_ENTRIES && Filled(Blank(), keys, vals, 0)
  {
    hide Contents, UsedSlots;
    BlankContents();
  }

  lemma WrittenNext(es: seq<Entry>, keys: seq<u64>, vals: seq<u64>, n: nat)
    requires Filled(es, keys, vals, n) && n < |keys| && n < MAX_ENTRIES
    ensures |es| == MAX_ENTRIES && Filled(es[n := Entry(keys[n], vals[n], true)], keys, vals, n + 1)
  {
    hide Contents;
    WrittenAfter(es, n, keys[n], vals[n]);
    assert UsedSlots(es[n := Entry(keys[n], vals[n], true)]) == UsedSlots(es) + {n};
  }

  lemma FilledMeans(es: seq<Entry>, keys: seq<u64>, vals: seq<u64>, n: nat)
    requires Filled(es, keys, vals, n)
    ensures |es| == MAX_ENTRIES && Contents(es) == FromPairs(keys, vals, n) && |UsedSlots(es)| == n
    ensures Unique(es) <==> forall i, j :: 0 <= i < j < n ==> keys[i] != keys[j]
  {
    hide Contents, UsedSlots, FromPairs;
    if Unique(es) {
      forall i, j | 0 <= i < j < n
        ensures keys[i] != keys[j]
      {
        assert es[i].used && es[j].used;
      }
    } else {
      var i, j :| 0 <= i < |es| && 0 <= j < |es| && es[i].used && es[j].used && es[i].key == es[j].key && i != j;
      assert i < n && j < n;
    }
  }

  lemma {:induction false} WrittenAfter(es: seq<Entry>, i: nat, k: u64, v: u64)
    requires i < |es| && forall j :: i <= j < |es| ==> !es[j].used
    ensures Contents(es[i := Entry(k, v, true)]) == Contents(es)[k := v]
    decreases |es|
  {
    var n := |es| - 1;
    var es' := es[i := Entry(k, v, true)];
    if i < n {
      WrittenAfter(es[..n], i, k, v);
      assert es'[..n] == es[..n][i := Entry(k, v, true)];
    } else {
      assert es'[..n] == es[..n];
    }
  }

  /** The first n pairs as a map; a later pair wins. */
  function FromPairs(keys: seq<u64>, vals: seq<u64>, n: nat): map<u64, u64>
    requires |keys| == |vals| && n <= |keys|
  {
    if n == 0 then map[] else FromPairs(keys, vals, n - 1)[keys[n - 1] := vals[n - 1]]
  }
}
