/** Control-flow graph construction (tools/merlin-verifier/cfg.c): leaders, basic
    blocks, successor wiring, and back edges.

    Instruction k is the word at byte offset 4 * k.  A block stores the offsets of its
    first and last instruction; the program counter of offset x is textOffset + x
    modulo 2^32, and successor pcs are kept in that form because the code uses pc 0
    to mean "none". */
module ControlFlow {
  import opened Basics
  import opened Words
  import opened Decoder
  import opened Graphs
  import opened Dominators

  const MAX_BLOCKS: int := 4096
  const MAX_EDGES: int := 8192
  const MAX_INSNS: int := 65536

  function Count(text: seq<u8>): nat { |text| / 4 }
  predicate Words4(text: seq<u8>) { |text| % 4 == 0 }

  function Ins(text: seq<u8>, k: int): Insn
    requires Words4(text) && 0 <= k < Count(text)
  {
    InsnAt(text, 4 * k)
  }

  // ----- leaders -----

  /** Byte offset a branch or jump at index k transfers to. */
  function Target(text: seq<u8>, k: int): int
    requires Words4(text) && 0 <= k < Count(text)
  {
    4 * k + Ins(text, k).imm
  }

  predicate TargetOk(text: seq<u8>, k: int)
    requires Words4(text) && 0 <= k < Count(text)
  {
    Ins(text, k).cls.Branch? || Ins(text, k).cls.Jal? ==> 0 <= Target(text, k) < |text|
  }

  /** Instruction j makes k a leader: k follows a control transfer or holds its target. */
  predicate MarksLeader(text: seq<u8>, j: int, k: int)
    requires Words4(text) && 0 <= j < Count(text)
  {
    var cls := Ins(text, j).cls;
    || (IsControl(cls) && k == j + 1)
    || ((cls.Branch? || cls.Jal?) && k == Target(text, j) / 4)
  }

  ghost predicate IsLeader(text: seq<u8>, k: int)
    requires Words4(text)
  {
    k == 0 || exists j :: 0 <= j < Count(text) && MarksLeader(text, j, k)
  }

  method FindLeaders(text: seq<u8>, leader: array<bool>) returns (ok: bool)
    requires Words4(text) && 0 < Count(text) <= leader.Length
    requires forall k :: 0 <= k < leader.Length ==> !leader[k]
    modifies leader
    ensures ok <==> forall k :: 0 <= k < Count(text) ==> TargetOk(text, k)
    ensures ok ==> forall k :: 0 <= k < Count(text) ==> (leader[k] <==> IsLeader(text, k))
  {
    hide Ins;
    var n := Count(text);
    leader[0] := true;
    var j := 0;
    while j < n
      invariant 0 <= j <= n
      invariant forall i :: 0 <= i < j ==> TargetOk(text, i)
      invariant forall k :: 0 <= k < n ==> (leader[k] <==> k == 0 || exists i :: 0 <= i < j && MarksLeader(text, i, k))
    {
      var insn := Ins(text, j);
      if insn.cls.Branch? || insn.cls.Jal? {
        var tgt := 4 * j + insn.imm;
        if tgt < 0 || tgt >= |text| {
          assert !TargetOk(text, j);
          return false;
        }
        leader[tgt / 4] := true;
      }
      if IsControl(insn.cls) && j + 1 < n {
        leader[j + 1] := true;
      }
      forall k | 0 <= k < n
        ensures leader[k] <==> k == 0 || exists i :: 0 <= i < j + 1 && MarksLeader(text, i, k)
      {
        if MarksLeader(text, j, k) { }
      }
      j := j + 1;
    }
    ok := true;
  }

  // ----- blocks -----

  datatype Block = Block(start: int, end: int, insnCount: nat, succPc0: u32, succPc1: u32,
                         isReturn: bool, succ0: int, succ1: int)

  function Pc(textOffset: u32, off: int): u32 { Wrap32(textOffset + off) }

  /** The instruction that ends a block. */
  function Last(text: seq<u8>, b: Block): Insn
    requires Words4(text) && 0 <= b.end < |text| && b.end % 4 == 0
  {
    Ins(text, b.end / 4)
  }

  /** Successor pcs as the terminator dictates them; 0 where there is none. */
  predicate Wired(text: seq<u8>, textOffset: u32, b: Block)
    requires Words4(text) && 0 <= b.end < |text| && b.end % 4 == 0
  {
    WiredAs(text, textOffset, b.end, b.isReturn, b.succPc0, b.succPc1)
  }

  predicate WiredAs(text: seq<u8>, textOffset: u32, end: int, isReturn: bool, pc0: u32, pc1: u32)
    requires Words4(text) && 0 <= end < |text| && end % 4 == 0
  {
    var i := Ins(text, end / 4);
    && isReturn == i.cls.Jalr?
    && pc0 == (if i.cls.Branch? then Pc(textOffset, end + 4)
               else if i.cls.Jal? then Pc(textOffset, end + i.imm) else 0)
    && pc1 == (if i.cls.Branch? then Pc(textOffset, end + i.imm)
               else if i.cls.Jal? && i.rd != 0 && end + 4 < |text| then Pc(textOffset, end + 4) else 0)
  }

  /** A block: aligned, non-empty, inside the first `upto` bytes, starting at a leader
      and meeting no other leader and, before its end, no control transfer. */
  ghost predicate IsBlock(text: seq<u8>, b: Block, upto: int)
    requires Words4(text)
  {
    IsSpan(text, b.start, b.end, b.insnCount, upto)
  }

  ghost predicate IsSpan(text: seq<u8>, start: int, end: int, count: int, upto: int)
    requires Words4(text)
  {
    && 0 <= start <= end < upto <= |text| && start % 4 == 0 && end % 4 == 0
    && count == (end - start) / 4 + 1
    && IsLeader(text, start / 4)
    && (forall k :: start / 4 < k <= end / 4 ==> !IsLeader(text, k))
    && (forall k :: start / 4 <= k < end / 4 ==> !IsControl(Ins(text, k).cls))
  }

  /** The blocks tile the first `upto` bytes without gaps or overlaps. */
  ghost predicate Tiles(text: seq<u8>, textOffset: u32, blocks: seq<Block>, upto: int)
    requires Words4(text)
  {
    && 0 <= upto <= |text|
    && (forall b :: 0 <= b < |blocks| ==> IsBlock(text, blocks[b], upto) && Wired(text, textOffset, blocks[b]))
    && (forall b :: 0 <= b < |blocks| ==> -1 <= blocks[b].succ0 && -1 <= blocks[b].succ1)
    && (if blocks == [] then upto == 0 else blocks[0].start == 0 && blocks[|blocks| - 1].end == upto - 4)
    && (forall b :: 0 < b < |blocks| ==> blocks[b].start == blocks[b - 1].end + 4)
  }

  /** Number of leaders among the first k instructions. */
  ghost function Leaders(text: seq<u8>, k: nat): nat
    requires Words4(text)
  {
    if k == 0 then 0 else Leaders(text, k - 1) + (if IsLeader(text, k - 1) then 1 else 0)
  }

  /** Appending instruction k to a block, wiring the successors it dictates. */
  function AddInsn(text: seq<u8>, textOffset: u32, b: Block, k: int): Block
    requires Words4(text) && 0 <= k < Count(text)
  {
    var i := Ins(text, k);
    var off := 4 * k;
    var b' := b.(end := off, insnCount := b.insnCount + 1);
    if i.cls.Branch? then b'.(succPc0 := Pc(textOffset, off + 4), succPc1 := Pc(textOffset, off + i.imm))
    else if i.cls.Jal? then
      b'.(succPc0 := Pc(textOffset, off + i.imm),
          succPc1 := if i.rd != 0 && off + 4 < |text| then Pc(textOffset, off + 4) else b'.succPc1)
    else if i.cls.Jalr? then b'.(isReturn := true)
    else b'
  }

  function NewBlock(off: int): Block { Block(off, off, 0, 0, 0, false, -1, -1) }

  lemma FreshBlock(text: seq<u8>, textOffset: u32, k: int)
    requires Words4(text) && 0 <= k < Count(text) && IsLeader(text, k)
    ensures var b := AddInsn(text, textOffset, NewBlock(4 * k), k);
            IsBlock(text, b, 4 * k + 4) && Wired(text, textOffset, b)
  {
    hide IsLeader, Ins;
  }

  /** An instruction that is not a leader does not follow a control transfer, so the
      block it extends was not yet wired. */
  lemma GrowBlock(text: seq<u8>, textOffset: u32, b: Block, k: int)
    requires Words4(text) && 0 < k < Count(text) && !IsLeader(text, k)
    requires IsBlock(text, b, 4 * k) && Wired(text, textOffset, b) && b.end == 4 * k - 4
    ensures var b' := AddInsn(text, textOffset, b, k);
            IsBlock(text, b', 4 * k + 4) && Wired(text, textOffset, b')
  {
    hide Ins;
    assert !MarksLeader(text, k - 1, k);
    assert b.end / 4 == k - 1;
    assert !IsControl(Ins(text, k - 1).cls);
  }

  lemma {:induction false} LeadersMonotone(text: seq<u8>, j: nat, k: nat)
    requires Words4(text) && j <= k
    ensures Leaders(text, j) <= Leaders(text, k)
    decreases k
  {
    if j < k { LeadersMonotone(text, j, k - 1); }
  }

  lemma TilesLeader(text: seq<u8>, textOffset: u32, blocks: seq<Block>, k: int)
    requires Words4(text) && 0 <= k < Count(text) && IsLeader(text, k) && Tiles(text, textOffset, blocks, 4 * k)
    ensures Tiles(text, textOffset, blocks + [AddInsn(text, textOffset, NewBlock(4 * k), k)], 4 * k + 4)
  {
    hide IsLeader, Ins, Wired, IsBlock, AddInsn;
    FreshBlock(text, textOffset, k);
    AddInsnSucc(text, textOffset, NewBlock(4 * k), k);
    BlocksKept(text, blocks, k);
  }

  lemma BlocksKept(text: seq<u8>, blocks: seq<Block>, k: int)
    requires Words4(text) && 0 <= k < Count(text)
    ensures forall b :: 0 <= b < |blocks| && IsBlock(text, blocks[b], 4 * k) ==> IsBlock(text, blocks[b], 4 * k + 4)
  {
    hide IsLeader, Ins;
  }

  lemma TilesGrow(text: seq<u8>, textOffset: u32, blocks: seq<Block>, k: int)
    requires Words4(text) && 0 <= k < Count(text) && !IsLeader(text, k) && Tiles(text, textOffset, blocks, 4 * k)
    ensures blocks != []
    ensures var c := |blocks| - 1;
            Tiles(text, textOffset, blocks[c := AddInsn(text, textOffset, blocks[c], k)], 4 * k + 4)
  {
    hide IsLeader, Ins, Wired, IsBlock, AddInsn;
    LeaderZero(text);
    assert blocks != [];
    var last := blocks[|blocks| - 1];
    assert IsBlock(text, last, 4 * k);
    GrowBlock(text, textOffset, last, k);
    AddInsnSucc(text, textOffset, last, k);
    BlocksKept(text, blocks, k);
  }

  lemma LeaderZero(text: seq<u8>)
    requires Words4(text)
    ensures IsLeader(text, 0)
  {
  }

  /** First pass: cut the text at the leaders. */
  method CutBlocks(text: seq<u8>, textOffset: u32, leader: array<bool>) returns (ok: bool, blocks: seq<Block>)
    requires Words4(text) && 0 < Count(text) <= leader.Length
    requires forall k :: 0 <= k < Count(text) ==> (leader[k] <==> IsLeader(text, k))
    ensures ok <==> Leaders(text, Count(text)) <= MAX_BLOCKS
    ensures ok ==> Tiles(text, textOffset, blocks, |text|) && 0 < |blocks| == Leaders(text, Count(text))
    ensures ok ==> forall b :: 0 <= b < |blocks| ==> blocks[b].succ0 == blocks[b].succ1 == -1
  {
    hide IsLeader, Ins, Tiles, AddInsn;
    var n := Count(text);
    blocks := [];
    TilesNone(text, textOffset);
    var k := 0;
    while k < n
      invariant 0 <= k <= n
      invariant Tiles(text, textOffset, blocks, 4 * k)
      invariant |blocks| == Leaders(text, k) <= MAX_BLOCKS
      invariant forall b :: 0 <= b < |blocks| ==> blocks[b].succ0 == blocks[b].succ1 == -1
    {
      LeadersMonotone(text, k + 1, n);
      if leader[k] {
        if |blocks| >= MAX_BLOCKS {
          return false, blocks;
        }
        TilesLeader(text, textOffset, blocks, k);
        AddInsnSucc(text, textOffset, NewBlock(4 * k), k);
        blocks := blocks + [AddInsn(text, textOffset, NewBlock(4 * k), k)];
      } else {
        TilesGrow(text, textOffset, blocks, k);
        var curr := |blocks| - 1;
        AddInsnSucc(text, textOffset, blocks[curr], k);
        blocks := blocks[curr := AddInsn(text, textOffset, blocks[curr], k)];
      }
      k := k + 1;
    }
    ok := true;
    TilesNonempty(text, textOffset, blocks, |text|);
  }

  lemma AddInsnSucc(text: seq<u8>, textOffset: u32, b: Block, k: int)
    requires Words4(text) && 0 <= k < Count(text)
    ensures var b' := AddInsn(text, textOffset, b, k);
            b'.succ0 == b.succ0 && b'.succ1 == b.succ1 && b'.start == b.start && b'.end == 4 * k
  {
  }

  lemma TilesNone(text: seq<u8>, textOffset: u32)
    requires Words4(text)
    ensures Tiles(text, textOffset, [], 0)
  {
  }

  lemma TilesNonempty(text: seq<u8>, textOffset: u32, blocks: seq<Block>, upto: int)
    requires Words4(text) && Tiles(text, textOffset, blocks, upto) && upto > 0
    ensures blocks != []
  {
  }

  // ----- successor indices -----

  /** Index of the first block whose leader has the given pc, or -1. */
  method BlockAt(blocks: seq<Block>, textOffset: u32, pc: u32) returns (r: int)
    ensures -1 <= r < |blocks|
    ensures r >= 0 ==> Pc(textOffset, blocks[r].start) == pc && forall b :: 0 <= b < r ==> Pc(textOffset, blocks[b].start) != pc
    ensures r < 0 ==> forall b :: 0 <= b < |blocks| ==> Pc(textOffset, blocks[b].start) != pc
  {
    for i := 0 to |blocks|
      invariant forall b :: 0 <= b < i ==> Pc(textOffset, blocks[b].start) != pc
    {
      if Pc(textOffset, blocks[i].start) == pc {
        return i;
      }
    }
    return -1;
  }

  /** s is the index of the block with this pc, unless the pc is 0 or no block has it. */
  ghost predicate Resolves(blocks: seq<Block>, textOffset: u32, pc: u32, s: int)
  {
    && -1 <= s < |blocks|
    && (s >= 0 ==> pc != 0 && Pc(textOffset, blocks[s].start) == pc)
    && (s < 0 && pc != 0 ==> forall b :: 0 <= b < |blocks| ==> Pc(textOffset, blocks[b].start) != pc)
  }

  /** The successors of block i after the second pass. */
  ghost predicate Linked(text: seq<u8>, textOffset: u32, blocks: seq<Block>, i: int)
    requires Words4(text) && 0 <= i < |blocks| && 0 <= blocks[i].end < |text| && blocks[i].end % 4 == 0
  {
    var b := blocks[i];
    var cls := Last(text, b).cls;
    if b.isReturn then b.succ0 == b.succ1 == -1
    else if !IsControl(cls) then b.succ0 == (if i + 1 < |blocks| then i + 1 else -1) && b.succ1 == -1
    else Resolves(blocks, textOffset, b.succPc0, b.succ0) && Resolves(blocks, textOffset, b.succPc1, b.succ1)
  }

  /** blocks' differs from blocks only in successor indices. */
  ghost predicate SameShape(blocks: seq<Block>, blocks': seq<Block>)
  {
    && |blocks| == |blocks'|
    && forall i :: 0 <= i < |blocks| ==> blocks'[i].(succ0 := blocks[i].succ0, succ1 := blocks[i].succ1) == blocks[i]
  }

  method Resolve(blocks: seq<Block>, textOffset: u32, pc: u32) returns (s: int)
    ensures Resolves(blocks, textOffset, pc, s)
  {
    s := -1;
    if pc != 0 {
      s := BlockAt(blocks, textOffset, pc);
    }
  }

  /** Second pass: turn successor pcs into block indices. */
  method LinkBlocks(text: seq<u8>, textOffset: u32, cut: seq<Block>) returns (blocks: seq<Block>)
    requires Words4(text) && Tiles(text, textOffset, cut, |text|)
    requires forall b :: 0 <= b < |cut| ==> cut[b].succ0 == cut[b].succ1 == -1
    ensures Tiles(text, textOffset, blocks, |text|) && |blocks| == |cut|
    ensures forall i :: 0 <= i < |blocks| ==> -1 <= blocks[i].succ0 < |blocks| && -1 <= blocks[i].succ1 < |blocks|
    ensures forall i :: 0 <= i < |blocks| ==> LinkedAt(text, textOffset, blocks, i)
  {
    hide IsLeader, Ins, Last, Tiles;
    blocks := cut;
    TilesEnds(text, textOffset, cut, |text|);
    var i := 0;
    while i < |blocks|
      invariant 0 <= i <= |blocks| && SameShape(cut, blocks)
      invariant forall k :: i <= k < |blocks| ==> blocks[k] == cut[k]
      invariant forall k :: 0 <= k < i ==> LinkedAt(text, textOffset, blocks, k)
      invariant forall k :: 0 <= k < i ==> -1 <= blocks[k].succ0 < |blocks| && -1 <= blocks[k].succ1 < |blocks|
    {
      var b := blocks[i];
      var s0, s1 := -1, -1;
      if !b.isReturn {
        if !IsControl(Last(text, b).cls) {
          if i + 1 < |blocks| { s0 := i + 1; }
        } else {
          s0 := Resolve(blocks, textOffset, b.succPc0);
          s1 := Resolve(blocks, textOffset, b.succPc1);
        }
      }
      ghost var before := blocks;
      blocks := blocks[i := b.(succ0 := s0, succ1 := s1)];
      ResolvesShape(before, blocks, textOffset, b.succPc0, s0);
      ResolvesShape(before, blocks, textOffset, b.succPc1, s1);
      LastShape(text, b, s0, s1);
      forall k | 0 <= k < i
        ensures LinkedAt(text, textOffset, blocks, k)
      {
        assert LinkedAt(text, textOffset, before, k);
        ResolvesShape(before, blocks, textOffset, blocks[k].succPc0, blocks[k].succ0);
        ResolvesShape(before, blocks, textOffset, blocks[k].succPc1, blocks[k].succ1);
      }
      i := i + 1;
    }
    TilesShape(text, textOffset, cut, blocks);
  }

  ghost predicate LinkedAt(text: seq<u8>, textOffset: u32, blocks: seq<Block>, i: int)
  {
    && Words4(text) && 0 <= i < |blocks| && 0 <= blocks[i].end < |text| && blocks[i].end % 4 == 0
    && Linked(text, textOffset, blocks, i)
  }

  lemma TilesEnds(text: seq<u8>, textOffset: u32, blocks: seq<Block>, upto: int)
    requires Words4(text) && Tiles(text, textOffset, blocks, upto)
    ensures forall i :: 0 <= i < |blocks| ==> 0 <= blocks[i].start <= blocks[i].end < upto && blocks[i].end % 4 == 0
  {
  }

  lemma LastShape(text: seq<u8>, b: Block, s0: int, s1: int)
    requires Words4(text) && 0 <= b.end < |text| && b.end % 4 == 0
    ensures Last(text, b.(succ0 := s0, succ1 := s1)) == Last(text, b)
  {
  }

  lemma ResolvesShape(blocks: seq<Block>, blocks': seq<Block>, textOffset: u32, pc: u32, s: int)
    requires |blocks| == |blocks'| && forall i :: 0 <= i < |blocks| ==> blocks[i].start == blocks'[i].start
    ensures Resolves(blocks, textOffset, pc, s) ==> Resolves(blocks', textOffset, pc, s)
  {
  }

  lemma TilesShape(text: seq<u8>, textOffset: u32, cut: seq<Block>, blocks: seq<Block>)
    requires Words4(text) && Tiles(text, textOffset, cut, |text|) && SameShape(cut, blocks)
    requires forall i :: 0 <= i < |blocks| ==> -1 <= blocks[i].succ0 && -1 <= blocks[i].succ1
    ensures Tiles(text, textOffset, blocks, |text|)
  {
    hide IsLeader, Ins, IsBlock, Wired;
    TilesEnds(text, textOffset, cut, |text|);
    forall b | 0 <= b < |blocks|
      ensures 0 <= blocks[b].end < |text| && blocks[b].end % 4 == 0
      ensures IsBlock(text, blocks[b], |text|) && Wired(text, textOffset, blocks[b])
    {
      assert IsBlock(text, cut[b], |text|) && Wired(text, textOffset, cut[b]);
      BlockShape(text, textOffset, cut[b], blocks[b].succ0, blocks[b].succ1);
    }
  }

  lemma BlockShape(text: seq<u8>, textOffset: u32, b: Block, s0: int, s1: int)
    requires Words4(text) && 0 <= b.end < |text| && b.end % 4 == 0
    requires IsBlock(text, b, |text|) && Wired(text, textOffset, b)
    ensures IsBlock(text, b.(succ0 := s0, succ1 := s1), |text|) && Wired(text, textOffset, b.(succ0 := s0, succ1 := s1))
  {
    hide IsSpan, WiredAs;
  }

  // ----- exactness of the edges -----

  /** Control can pass from the instruction at offset e to the one at offset t: its
      next pc, or the return point of a linking jump, aligned and inside the text. */
  predicate Flows(text: seq<u8>, e: int, t: int)
    requires Words4(text) && 0 <= e < |text| && e % 4 == 0
  {
    var i := Ins(text, e / 4);
    && 0 <= t < |text| && t % 4 == 0
    && match i.cls
       case Branch => t == e + 4 || t == e + i.imm
       case Jal => t == e + i.imm || (i.rd != 0 && t == e + 4)
       case Jalr => false
       case _ => t == e + 4
  }

  /** No branch or jump passes control to an offset whose pc is 0. */
  ghost predicate AvoidsZero(text: seq<u8>, textOffset: u32)
    requires Words4(text)
  {
    forall e, t :: 0 <= e < |text| && e % 4 == 0 && IsControl(Ins(text, e / 4).cls) && Flows(text, e, t) ==> Pc(textOffset, t) != 0
  }

  /** So it is wherever the text is loaded above pc 0 and does not wrap; at offset 0 it is
      so exactly when nothing branches or jumps to the start. */
  lemma WhenZeroIsAvoided(text: seq<u8>, textOffset: u32)
    requires Words4(text) && textOffset + |text| <= TWO32
    ensures 0 < textOffset ==> AvoidsZero(text, textOffset)
    ensures AvoidsZero(text, 0) <==>
            forall e :: 0 <= e < |text| && e % 4 == 0 && IsControl(Ins(text, e / 4).cls) ==> !Flows(text, e, 0)
  {
    hide Ins, Flows;
    if 0 < textOffset {
      forall e, t | 0 <= e < |text| && e % 4 == 0 && IsControl(Ins(text, e / 4).cls) && Flows(text, e, t)
        ensures Pc(textOffset, t) != 0
      {
        FlowsInside(text, e, t);
      }
    }
    forall e, t | 0 <= e < |text| && e % 4 == 0 && Flows(text, e, t)
      ensures Pc(0, t) != 0 <==> t != 0
    {
      FlowsInside(text, e, t);
    }
  }

  lemma FlowsInside(text: seq<u8>, e: int, t: int)
    requires Words4(text) && 0 <= e < |text| && e % 4 == 0 && Flows(text, e, t)
    ensures 0 <= t < |text|
  {
    hide Ins;
  }

  /** The block that holds the instruction at an aligned offset of the text. */
  lemma {:induction false} BlockHolding(text: seq<u8>, textOffset: u32, blocks: seq<Block>, off: int, c: nat) returns (b: int)
    requires Words4(text) && Tiles(text, textOffset, blocks, |text|) && c < |blocks|
    requires 0 <= off <= blocks[c].end && off % 4 == 0
    ensures 0 <= b <= c && blocks[b].start <= off <= blocks[b].end
  {
    hide IsLeader, Ins, Wired, IsBlock;
    if blocks[c].start <= off {
      b := c;
    } else {
      assert IsBlock(text, blocks[c], |text|);
      assert blocks[c].start % 4 == 0 && blocks[c].end % 4 == 0 by { BlockAligned(text, blocks[c]); }
      assert c > 0 && blocks[c].start == blocks[c - 1].end + 4;
      b := BlockHolding(text, textOffset, blocks, off, c - 1);
    }
  }

  lemma BlockAligned(text: seq<u8>, b: Block)
    requires Words4(text) && IsBlock(text, b, |text|)
    ensures b.start % 4 == 0 && b.end % 4 == 0 && 0 <= b.start <= b.end < |text|
  {
  }

  lemma LeaderHasBlock(text: seq<u8>, textOffset: u32, blocks: seq<Block>, k: int) returns (b: int)
    requires Words4(text) && Tiles(text, textOffset, blocks, |text|) && 0 <= k < Count(text) && IsLeader(text, k)
    ensures 0 <= b < |blocks| && blocks[b].start == 4 * k
  {
    hide IsLeader, Ins, Wired;
    b := BlockHolding(text, textOffset, blocks, 4 * k, |blocks| - 1);
    assert IsBlock(text, blocks[b], |text|);
  }

  lemma PcInjective(textOffset: u32, x: int, y: int)
    requires 0 <= x <= 4 * MAX_INSNS && 0 <= y <= 4 * MAX_INSNS && Pc(textOffset, x) == Pc(textOffset, y)
    ensures x == y
  {
  }

  /** A resolved successor of an offset in the text names the block starting there; only
      a missing block, or pc 0, leaves it unresolved. */
  lemma ResolvesOffset(text: seq<u8>, textOffset: u32, blocks: seq<Block>, t: int, s: int)
    requires Words4(text) && Tiles(text, textOffset, blocks, |text|) && |text| <= 4 * MAX_INSNS
    requires 0 <= t <= |text| && Resolves(blocks, textOffset, Pc(textOffset, t), s)
    ensures s >= 0 ==> blocks[s].start == t && Pc(textOffset, t) != 0
    ensures s < 0 && Pc(textOffset, t) != 0 ==> forall b :: 0 <= b < |blocks| ==> blocks[b].start != t
  {
    hide IsLeader, Ins, Wired, Pc;
    TilesEnds(text, textOffset, blocks, |text|);
    if s >= 0 { PcInjective(textOffset, blocks[s].start, t); }
  }

  ghost predicate HasSucc(blocks: seq<Block>, i: int, c: int)
  {
    0 <= i < |blocks| && 0 <= c < |blocks| && (blocks[i].succ0 == c || blocks[i].succ1 == c)
  }

  /** Every recorded edge is a transfer the last instruction can make ... */
  lemma EdgesSound(text: seq<u8>, textOffset: u32, blocks: seq<Block>, i: int, c: int)
    requires BuiltFrom(text, textOffset, blocks) && HasSucc(blocks, i, c)
    ensures 0 <= blocks[i].end < |text| && blocks[i].end % 4 == 0
    ensures Flows(text, blocks[i].end, blocks[c].start)
    ensures IsControl(Last(text, blocks[i]).cls) ==> Pc(textOffset, blocks[c].start) != 0
  {
    hide IsLeader, Ins, Pc, Resolves;
    var b := blocks[i];
    assert LinkedAt(text, textOffset, blocks, i) && IsBlock(text, b, |text|) && Wired(text, textOffset, b);
    assert IsBlock(text, blocks[c], |text|);
    assert TargetOk(text, b.end / 4);
    if IsControl(Last(text, b).cls) && !b.isReturn {
      if blocks[i].succ0 == c { ControlTarget(text, textOffset, blocks, i, b.succPc0, c); }
      if blocks[i].succ1 == c { ControlTarget(text, textOffset, blocks, i, b.succPc1, c); }
    }
  }

  lemma ControlTarget(text: seq<u8>, textOffset: u32, blocks: seq<Block>, i: int, pc: u32, c: int)
    requires BuiltFrom(text, textOffset, blocks)
    requires 0 <= i < |blocks| && 0 <= c < |blocks| && Resolves(blocks, textOffset, pc, c)
    requires 0 <= blocks[i].end < |text| && blocks[i].end % 4 == 0 && (pc == blocks[i].succPc0 || pc == blocks[i].succPc1)
    requires Wired(text, textOffset, blocks[i]) && TargetOk(text, blocks[i].end / 4)
    ensures IsControl(Last(text, blocks[i]).cls) && !blocks[i].isReturn ==>
              Flows(text, blocks[i].end, blocks[c].start) && Pc(textOffset, blocks[c].start) != 0
  {
    hide IsLeader, Ins, Pc;
    var b := blocks[i];
    var e := b.end;
    var last := Last(text, b);
    assert IsBlock(text, blocks[c], |text|);
    if last.cls.Branch? || last.cls.Jal? {
      var t := if pc == Pc(textOffset, e + 4) && (last.cls.Branch? || last.rd != 0) then e + 4 else e + last.imm;
      assert Target(text, e / 4) == e + last.imm;
      assert pc == Pc(textOffset, t);
      ResolvesOffset(text, textOffset, blocks, t, c);
    }
  }

  /** ... and every transfer it can make is recorded. */
  lemma EdgesComplete(text: seq<u8>, textOffset: u32, blocks: seq<Block>, i: int, t: int) returns (c: int)
    requires BuiltFrom(text, textOffset, blocks) && 0 <= i < |blocks|
    requires 0 <= blocks[i].end < |text| && blocks[i].end % 4 == 0 && Flows(text, blocks[i].end, t)
    requires IsControl(Last(text, blocks[i]).cls) ==> Pc(textOffset, t) != 0
    ensures HasSucc(blocks, i, c) && blocks[c].start == t
  {
    hide Ins, Pc, Resolves, IsLeader, IsBlock;
    var b := blocks[i];
    assert LinkedAt(text, textOffset, blocks, i);
    if !IsControl(Last(text, b).cls) {
      assert i + 1 < |blocks|;
      c := i + 1;
    } else {
      assert Wired(text, textOffset, b);
      var d := TargetHasBlock(text, textOffset, blocks, b.end, t);
      c := if Pc(textOffset, t) == b.succPc0 then b.succ0 else b.succ1;
      assert Resolves(blocks, textOffset, Pc(textOffset, t), c);
      ResolvesOffset(text, textOffset, blocks, t, c);
      ResolvesRange(blocks, textOffset, Pc(textOffset, t), c);
    }
  }

  /** The edges of the graph are exactly the transfers the block's last instruction can
      make, except those by branch or jump to an offset whose pc is 0. */
  lemma EdgesExact(text: seq<u8>, textOffset: u32, blocks: seq<Block>, i: int, t: int)
    requires BuiltFrom(text, textOffset, blocks) && 0 <= i < |blocks|
    requires 0 <= blocks[i].end < |text| && blocks[i].end % 4 == 0
    ensures (exists c :: HasSucc(blocks, i, c) && blocks[c].start == t) <==>
            (Flows(text, blocks[i].end, t) && (IsControl(Last(text, blocks[i]).cls) ==> Pc(textOffset, t) != 0))
  {
    hide Flows, Last, Pc, Tiles, LinkedAt, TargetOk;
    if c :| HasSucc(blocks, i, c) && blocks[c].start == t {
      EdgesSound(text, textOffset, blocks, i, c);
    }
    if Flows(text, blocks[i].end, t) && (IsControl(Last(text, blocks[i]).cls) ==> Pc(textOffset, t) != 0) {
      var c := EdgesComplete(text, textOffset, blocks, i, t);
    }
  }

  /** A text loaded at offset 0 with an instruction that jumps to its start: the graph
      has no edge for it. */
  lemma EdgeToPcZeroIsLost(text: seq<u8>, blocks: seq<Block>, i: int, c: int)
    requires BuiltFrom(text, 0, blocks) && HasSucc(blocks, i, c)
    requires 0 <= blocks[i].end < |text| && blocks[i].end % 4 == 0 && IsControl(Last(text, blocks[i]).cls)
    ensures blocks[c].start != 0
  {
    hide Flows, Last, Tiles, LinkedAt, TargetOk;
    EdgesSound(text, 0, blocks, i, c);
  }

  lemma ResolvesRange(blocks: seq<Block>, textOffset: u32, pc: u32, s: int)
    requires Resolves(blocks, textOffset, pc, s)
    ensures -1 <= s < |blocks|
  {
  }

  lemma TargetHasBlock(text: seq<u8>, textOffset: u32, blocks: seq<Block>, e: int, t: int) returns (d: int)
    requires Words4(text) && Tiles(text, textOffset, blocks, |text|)
    requires 0 <= e < |text| && e % 4 == 0 && Flows(text, e, t) && IsControl(Ins(text, e / 4).cls)
    ensures 0 <= d < |blocks| && blocks[d].start == t
  {
    hide Ins, Tiles;
    assert MarksLeader(text, e / 4, t / 4);
    assert IsLeader(text, t / 4);
    d := LeaderHasBlock(text, textOffset, blocks, t / 4);
  }

  /** What the two passes leave behind. */
  ghost predicate BuiltFrom(text: seq<u8>, textOffset: u32, blocks: seq<Block>)
  {
    && Words4(text) && 0 < |text| <= 4 * MAX_INSNS
    && (forall k :: 0 <= k < Count(text) ==> TargetOk(text, k))
    && 0 < |blocks| <= MAX_BLOCKS
    && Tiles(text, textOffset, blocks, |text|)
    && (forall i :: 0 <= i < |blocks| ==> -1 <= blocks[i].succ0 < |blocks| && -1 <= blocks[i].succ1 < |blocks|)
    && (forall i :: 0 <= i < |blocks| ==> LinkedAt(text, textOffset, blocks, i))
  }

  // ----- back edges -----

  function GraphOf(blocks: seq<Block>): Graph
  {
    Graph(seq(|blocks|, i requires 0 <= i < |blocks| => blocks[i].succ0),
                seq(|blocks|, i requires 0 <= i < |blocks| => blocks[i].succ1))
  }

  /** An edge back to a block that dominates its source; for an unreachable source the
      code only recognises a self-loop. */
  ghost predicate IsBackEdge(g: Graph, src: int, dst: int)
  {
    g.Edge(src, dst) && (if Reachable(g, src) then Dominates(g, dst, src) else dst == src)
  }

  /** The back edge in one successor slot, if there is one. */
  ghost function SlotEdge(g: Graph, src: int, dst: int): seq<(int, int)>
  {
    if dst >= 0 && IsBackEdge(g, src, dst) then [(src, dst)] else []
  }

  /** The back edges of the first n blocks, slot by slot: one for each successor slot that
      holds a back edge, so twice where both slots hold it. */
  ghost function BackEdgesUpTo(g: Graph, n: nat): seq<(int, int)>
    requires g.Valid() && n <= |g.succ0|
  {
    if n == 0 then [] else BackEdgesUpTo(g, n - 1) + SlotEdge(g, n - 1, g.succ0[n - 1]) + SlotEdge(g, n - 1, g.succ1[n - 1])
  }

  lemma {:induction false} BackEdgeIn(g: Graph, n: nat, e: (int, int))
    requires g.Valid() && n <= |g.succ0|
    ensures |BackEdgesUpTo(g, n)| <= 2 * n
    ensures e in BackEdgesUpTo(g, n) <==> e.0 < n && IsBackEdge(g, e.0, e.1)
  {
    hide Reachable, Dominates;
    if n > 0 {
      BackEdgeIn(g, n - 1, e);
      var a, b, c := BackEdgesUpTo(g, n - 1), SlotEdge(g, n - 1, g.succ0[n - 1]), SlotEdge(g, n - 1, g.succ1[n - 1]);
      assert e in a + b + c <==> e in a || e in b || e in c;
    }
  }

  method FindBackEdges(g: Graph, ghost c: Ctx, idom: array<int>) returns (edges: seq<(int, int)>)
    requires g.Valid() && |g.succ0| <= MAX_BLOCKS && c.g == g && Exact(c, idom[..]) && idom.Length == |g.succ0|
    ensures edges == BackEdgesUpTo(g, |g.succ0|) && |edges| <= MAX_EDGES
    ensures forall e :: e in edges <==> IsBackEdge(g, e.0, e.1)
  {
    hide Exact, Reachable, Dominates;
    edges := [];
    for i := 0 to |g.succ0|
      invariant |edges| <= 2 * i
      invariant edges == BackEdgesUpTo(g, i)
    {
      for s := 0 to 2
        invariant |edges| <= 2 * i + s
        invariant edges == BackEdgesUpTo(g, i) + (if s > 0 then SlotEdge(g, i, g.succ0[i]) else [])
                           + (if s > 1 then SlotEdge(g, i, g.succ1[i]) else [])
      {
        var t := if s == 0 then g.succ0[i] else g.succ1[i];
        if t >= 0 {
          var dom := IsDominator(c, idom, t, i);
          if dom {
            // the capacity test of the code never fires
            assert |edges| < MAX_EDGES;
            edges := edges + [(i, t)];
          }
        }
      }
    }
    forall e
      ensures e in edges <==> IsBackEdge(g, e.0, e.1)
    {
      BackEdgeIn(g, |g.succ0|, e);
    }
  }

  // ----- the whole construction -----

  datatype Cfg = Cfg(blocks: seq<Block>, rpo: seq<int>, idom: seq<int>, backEdges: seq<(int, int)>)
  ghost predicate ValidCfg(text: seq<u8>, textOffset: u32, G: Cfg)
  {
    var g := GraphOf(G.blocks);
    && BuiltFrom(text, textOffset, G.blocks)
    && g.Valid()
    && G.rpo == Reverse(Postorder(g)) && IsRpo(g, G.rpo)
    && (exists c: Ctx :: c.g == g && c.rpo == G.rpo && Exact(c, G.idom))
    && |G.backEdges| <= MAX_EDGES && (forall e :: e in G.backEdges <==> IsBackEdge(g, e.0, e.1))
  }

  /** Whole words, not too many of them, every direct target inside the text, and not too
      many leaders. */
  ghost predicate Buildable(text: seq<u8>)
  {
    && Words4(text) && Count(text) <= MAX_INSNS
    && (forall k :: 0 <= k < Count(text) ==> TargetOk(text, k))
    && Leaders(text, Count(text)) <= MAX_BLOCKS
  }

  /** Succeeds exactly when the text is a whole number of words within the cap, no
      branch or jump leaves it, and it has at most MAX_BLOCKS leaders.  On an empty text
      the passes find nothing and the search sees a zeroed first block. */
  method BuildCfg(text: seq<u8>, textOffset: u32) returns (r: Option<Cfg>)
    ensures r.Some? <==> Buildable(text)
    ensures r.Some? && 0 < |text| ==>
              var g := GraphOf(r.value.blocks);
              ValidCfg(text, textOffset, r.value) && g.Valid() && r.value.backEdges == BackEdgesUpTo(g, |g.succ0|)
    ensures |text| == 0 ==> r == Some(Cfg([], [0], [], []))
  {
    hide IsLeader, Ins, Tiles, Exact, IsRpo, IsBackEdge, Reverse, LinkedAt, Leaders, TargetOk, BackEdgesUpTo;
    if |text| % 4 != 0 || |text| / 4 > MAX_INSNS {
      return None;
    }
    if |text| == 0 {
      EmptyBuildable(text);
      return Some(Cfg([], [0], [], []));
    }
    var leader := new bool[MAX_INSNS](_ => false);
    var ok := FindLeaders(text, leader);
    if !ok {
      return None;
    }
    var cut;
    ok, cut := CutBlocks(text, textOffset, leader);
    if !ok {
      return None;
    }
    var blocks := LinkBlocks(text, textOffset, cut);
    var g := GraphOf(blocks);
    var rpo, reachable := ComputeRpo(g);
    ghost var c;
    var idom;
    idom, c := ComputeDominators(g, rpo);
    var edges := FindBackEdges(g, c, idom);
    r := Some(Cfg(blocks, rpo[..], idom[..], edges));
  }

  // ----- the construction in terms of the text -----

  /** The leaders: the first instruction, the one after each branch or jump, and the ones
      that a branch or a direct jump leads into. */
  lemma LeaderIff(text: seq<u8>, k: int)
    requires Words4(text) && 0 <= k < Count(text)
    ensures IsLeader(text, k) <==>
            || k == 0
            || Ins(text, k - 1).cls in {Branch, Jal, Jalr}
            || exists j :: 0 <= j < Count(text) && Ins(text, j).cls in {Branch, Jal} && 4 * k <= 4 * j + Ins(text, j).imm < 4 * k + 4
  {
    hide Ins;
    if IsLeader(text, k) {
      if k != 0 {
        var j :| 0 <= j < Count(text) && MarksLeader(text, j, k);
        assert MarksLeader(text, j, k);
      }
    } else {
      assert k != 0 && !MarksLeader(text, k - 1, k);
      forall j | 0 <= j < Count(text) && Ins(text, j).cls in {Branch, Jal}
        ensures !(4 * k <= 4 * j + Ins(text, j).imm < 4 * k + 4)
      {
        assert !MarksLeader(text, j, k);
      }
    }
  }

  lemma {:induction false} LeadersCounted(text: seq<u8>, n: nat)
    requires Words4(text)
    ensures Leaders(text, n) == |set k | 0 <= k < n && IsLeader(text, k)|
  {
    hide IsLeader;
    if n > 0 {
      LeadersCounted(text, n - 1);
      var a, b := set k | 0 <= k < n - 1 && IsLeader(text, k), set k | 0 <= k < n && IsLeader(text, k);
      if IsLeader(text, n - 1) { assert b == a + {n - 1}; } else { assert b == a; }
    }
  }

  /** A graph is built exactly for a text of whole words, at most 65536 of them, whose
      branches and direct jumps stay inside it, and which has at most 4096 leaders. */
  lemma BuildableIff(text: seq<u8>)
    ensures Buildable(text) <==>
            && |text| % 4 == 0 && |text| <= 4 * 65536
            && (forall k :: 0 <= k < |text| / 4 && Ins(text, k).cls in {Branch, Jal} ==> 0 <= 4 * k + Ins(text, k).imm < |text|)
            && |set k | 0 <= k < |text| / 4 && IsLeader(text, k)| <= 4096
  {
    hide Ins, IsLeader, Leaders;
    if Words4(text) { LeadersCounted(text, Count(text)); }
    if Buildable(text) {
      forall k | 0 <= k < |text| / 4 && Ins(text, k).cls in {Branch, Jal}
        ensures 0 <= 4 * k + Ins(text, k).imm < |text|
      {
        assert TargetOk(text, k);
      }
    }
  }

  /** Slot s leads to offset t: it is the block that starts there, and it is empty exactly
      when t is no instruction of the text or has pc 0. */
  ghost predicate LeadsTo(text: seq<u8>, textOffset: u32, blocks: seq<Block>, s: int, t: int)
  {
    if s < 0 then s == -1 && (t < 0 || t >= |text| || t % 4 != 0 || Pc(textOffset, t) == 0)
    else s < |blocks| && blocks[s].start == t && Pc(textOffset, t) != 0
  }

  /** The two successor slots by the last instruction of a block: a branch has the next
      instruction in the first and its target in the second; a direct jump its target in
      the first and, if it links, the next instruction in the second; a jalr none; anything
      else the next block. */
  lemma SlotsExact(text: seq<u8>, textOffset: u32, blocks: seq<Block>, i: int)
    requires BuiltFrom(text, textOffset, blocks) && 0 <= i < |blocks|
    ensures 0 <= blocks[i].end < |text| && blocks[i].end % 4 == 0
    ensures var b, last := blocks[i], Last(text, blocks[i]);
            match last.cls
            case Branch => LeadsTo(text, textOffset, blocks, b.succ0, b.end + 4) && LeadsTo(text, textOffset, blocks, b.succ1, b.end + last.imm)
            case Jal =>
              && LeadsTo(text, textOffset, blocks, b.succ0, b.end + last.imm)
              && if last.rd != 0 then LeadsTo(text, textOffset, blocks, b.succ1, b.end + 4) else b.succ1 == -1
            case Jalr => b.succ0 == b.succ1 == -1
            case _ => b.succ1 == -1 && b.succ0 == if i + 1 < |blocks| then i + 1 else -1
  {
    hide IsLeader, Ins, Pc, Resolves, IsBlock, LeadsTo;
    var b := blocks[i];
    assert LinkedAt(text, textOffset, blocks, i) && Wired(text, textOffset, b);
    assert TargetOk(text, b.end / 4);
    var last := Last(text, b);
    if last.cls.Branch? || last.cls.Jal? {
      assert Target(text, b.end / 4) == b.end + last.imm;
      SlotLeads(text, textOffset, blocks, b.end, b.end + last.imm, if last.cls.Jal? then b.succ0 else b.succ1);
      if last.cls.Branch? { SlotLeads(text, textOffset, blocks, b.end, b.end + 4, b.succ0); }
      else if last.rd != 0 && b.end + 4 < |text| { SlotLeads(text, textOffset, blocks, b.end, b.end + 4, b.succ1); }
      else { EmptySlot(text, textOffset, blocks, b.succPc1, b.succ1, b.end + 4); }
    }
  }

  lemma EmptySlot(text: seq<u8>, textOffset: u32, blocks: seq<Block>, pc: u32, s: int, t: int)
    requires pc == 0 && Resolves(blocks, textOffset, pc, s)
    ensures s == -1 && (t >= |text| ==> LeadsTo(text, textOffset, blocks, s, t))
  {
  }

  lemma SlotLeads(text: seq<u8>, textOffset: u32, blocks: seq<Block>, e: int, t: int, s: int)
    requires BuiltFrom(text, textOffset, blocks) && 0 <= e < |text| && e % 4 == 0 && 0 <= t <= |text|
    requires Resolves(blocks, textOffset, Pc(textOffset, t), s)
    requires IsControl(Ins(text, e / 4).cls) && (0 <= t < |text| && t % 4 == 0 ==> Flows(text, e, t))
    ensures LeadsTo(text, textOffset, blocks, s, t)
  {
    hide IsLeader, Ins, Pc, IsBlock, Flows, LinkedAt, Tiles, Resolves;
    ResolvesRange(blocks, textOffset, Pc(textOffset, t), s);
    ResolvesOffset(text, textOffset, blocks, t, s);
    if s < 0 && Pc(textOffset, t) != 0 && 0 <= t < |text| && t % 4 == 0 {
      var d := TargetHasBlock(text, textOffset, blocks, e, t);
    }
  }

  lemma EmptyBuildable(text: seq<u8>)
    requires |text| == 0
    ensures Buildable(text)
  {
  }
}
