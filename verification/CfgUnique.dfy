/** The graph of a text is determined by the text and its placement: blocks, order and
    back edges leave no choice. */
module CfgUnique {
  import opened Words
  import opened Decoder
  import opened Graphs
  import opened ControlFlow

  ghost predicate SameSpan(a: Block, b: Block) { a.start == b.start && a.end == b.end }

  /** A block runs up to the next leader. */
  lemma EndNotEarlier(text: seq<u8>, textOffset: u32, a: seq<Block>, b: seq<Block>, i: int)
    requires Words4(text) && Tiles(text, textOffset, a, |text|) && Tiles(text, textOffset, b, |text|)
    requires 0 <= i < |a| && i < |b| && a[i].start == b[i].start
    ensures a[i].end >= b[i].end
  {
    hide IsLeader, Ins, Wired;
    assert IsBlock(text, a[i], |text|) && IsBlock(text, b[i], |text|);
    NextWord(a[i].start, a[i].end, b[i].end);
    if i + 1 < |a| {
      assert IsBlock(text, a[i + 1], |text|) && a[i + 1].start == a[i].end + 4;
    }
  }

  lemma NextWord(s: int, x: int, y: int)
    requires 0 <= s <= x && x % 4 == 0 && y % 4 == 0
    ensures s / 4 < (x + 4) / 4 && (x < y ==> x + 4 <= y && (x + 4) / 4 <= y / 4)
  {
  }

  lemma {:induction false} SpansAgree(text: seq<u8>, textOffset: u32, a: seq<Block>, b: seq<Block>, k: nat)
    requires Words4(text) && Tiles(text, textOffset, a, |text|) && Tiles(text, textOffset, b, |text|) && k <= |a| && k <= |b|
    ensures forall i :: 0 <= i < k ==> SameSpan(a[i], b[i])
  {
    hide IsBlock, Wired;
    if k > 0 {
      SpansAgree(text, textOffset, a, b, k - 1);
      assert a[k - 1].start == b[k - 1].start by {
        if k > 1 { assert SameSpan(a[k - 2], b[k - 2]); }
      }
      EndNotEarlier(text, textOffset, a, b, k - 1);
      EndNotEarlier(text, textOffset, b, a, k - 1);
    }
  }

  lemma NotFewer(text: seq<u8>, textOffset: u32, a: seq<Block>, b: seq<Block>)
    requires Words4(text) && 0 < |text| && Tiles(text, textOffset, a, |text|) && Tiles(text, textOffset, b, |text|)
    ensures |a| >= |b|
  {
    hide IsBlock, Wired;
    if |a| < |b| {
      InnerStart(text, textOffset, b, |a|);
      SpansAgree(text, textOffset, a, b, |a|);
    }
  }

  lemma InnerStart(text: seq<u8>, textOffset: u32, b: seq<Block>, k: int)
    requires Words4(text) && Tiles(text, textOffset, b, |text|) && 0 < k < |b|
    ensures b[k - 1].end + 4 < |text|
  {
    hide IsLeader, Ins, Wired;
    assert IsBlock(text, b[k], |text|) && b[k].start == b[k - 1].end + 4;
  }

  lemma StartsAscend(text: seq<u8>, textOffset: u32, a: seq<Block>, i: int, j: int)
    requires Words4(text) && Tiles(text, textOffset, a, |text|) && 0 <= i < j < |a|
    ensures a[i].start < a[j].start
    decreases j
  {
    hide IsLeader, Ins, Wired;
    assert IsBlock(text, a[j - 1], |text|) && a[j].start == a[j - 1].end + 4;
    if i < j - 1 { StartsAscend(text, textOffset, a, i, j - 1); }
  }

  lemma EndsBefore(text: seq<u8>, textOffset: u32, a: seq<Block>, i: int, j: int)
    requires Words4(text) && Tiles(text, textOffset, a, |text|) && 0 <= i < j < |a|
    ensures a[i].end < a[j].start
  {
    hide IsBlock, Wired;
    assert a[i + 1].start == a[i].end + 4;
    if i + 1 < j { StartsAscend(text, textOffset, a, i + 1, j); }
  }

  /** A successor pc resolves in one way. */
  lemma ResolvesOnce(text: seq<u8>, textOffset: u32, a: seq<Block>, b: seq<Block>, pc: u32, s: int, t: int)
    requires Words4(text) && |text| <= 4 * MAX_INSNS && Tiles(text, textOffset, a, |text|) && Tiles(text, textOffset, b, |text|)
    requires |a| == |b| && forall i :: 0 <= i < |a| ==> SameSpan(a[i], b[i])
    requires Resolves(a, textOffset, pc, s) && Resolves(b, textOffset, pc, t)
    ensures s == t
  {
    hide IsBlock, Wired, Pc, Tiles;
    assert (s >= 0 ==> SameSpan(a[s], b[s])) && (t >= 0 ==> SameSpan(a[t], b[t]));
    if s >= 0 && t >= 0 {
      TilesEnds(text, textOffset, a, |text|);
      PcInjective(textOffset, a[s].start, a[t].start);
      if s < t { StartsAscend(text, textOffset, a, s, t); }
      if t < s { StartsAscend(text, textOffset, a, t, s); }
    }
  }

  /** Two graphs of the same text at the same place have the same blocks ... */
  lemma BlocksUnique(text: seq<u8>, textOffset: u32, a: seq<Block>, b: seq<Block>)
    requires BuiltFrom(text, textOffset, a) && BuiltFrom(text, textOffset, b)
    ensures a == b
  {
    hide Tiles, TargetOk, LinkedAt;
    NotFewer(text, textOffset, a, b);
    NotFewer(text, textOffset, b, a);
    SpansAgree(text, textOffset, a, b, |a|);
    forall i | 0 <= i < |a|
      ensures a[i] == b[i]
    {
      BlockUnique(text, textOffset, a, b, i);
    }
  }

  lemma BlockUnique(text: seq<u8>, textOffset: u32, a: seq<Block>, b: seq<Block>, i: int)
    requires BuiltFrom(text, textOffset, a) && BuiltFrom(text, textOffset, b) && |a| == |b| && 0 <= i < |a|
    requires forall j :: 0 <= j < |a| ==> SameSpan(a[j], b[j])
    ensures a[i] == b[i]
  {
    hide IsLeader, Ins, Resolves, Pc, TargetOk;
    assert SameSpan(a[i], b[i]);
    assert IsBlock(text, a[i], |text|) && IsBlock(text, b[i], |text|);
    assert Wired(text, textOffset, a[i]) && Wired(text, textOffset, b[i]);
    assert LinkedAt(text, textOffset, a, i) && LinkedAt(text, textOffset, b, i);
    assert a[i].succPc0 == b[i].succPc0 && a[i].succPc1 == b[i].succPc1 && a[i].isReturn == b[i].isReturn;
    if !a[i].isReturn && IsControl(Last(text, a[i]).cls) {
      ResolvesOnce(text, textOffset, a, b, a[i].succPc0, a[i].succ0, b[i].succ0);
      ResolvesOnce(text, textOffset, a, b, a[i].succPc1, a[i].succ1, b[i].succ1);
    }
  }

  /** ... the same order and the same back edges. */
  lemma CfgUnique(text: seq<u8>, textOffset: u32, G: Cfg, H: Cfg)
    requires ValidCfg(text, textOffset, G) && ValidCfg(text, textOffset, H)
    ensures G.blocks == H.blocks && G.rpo == H.rpo && forall e :: e in G.backEdges <==> e in H.backEdges
  {
    hide BuiltFrom, IsRpo, IsBackEdge, Postorder, Reverse;
    BlocksUnique(text, textOffset, G.blocks, H.blocks);
  }
}
