/** The byte-level emitter of tools/merlin-jit-x86_64/emit.c: a growable buffer and one
    method per x86-64 instruction. */
module Emit {
  import opened Basics
  import opened Words
  import X86

  /** The emitter's instructions.  Displacements and immediates are 32-bit two's
      complement; shift counts are bytes. */
  datatype Op =
    | PushReg(r: X86.R64)
    | PopReg(r: X86.R64)
    | SubRsp(imm: int)
    | AddRsp(imm: int)
    | MovRbxRsp
    | StoreRdi(disp: int)
    | LoadRax(disp: int)
    | StoreRax(disp: int)
    | LoadRcx(disp: int)
    | MovRdiRbx
    | MovRax(v: u64)
    | XorRaxRax
    | AddRaxRcx | SubRaxRcx | OrRaxRcx | AndRaxRcx | XorRaxRcx
    | ImulRaxRcx
    | AddRax(imm: int)
    | ShlRax(k: u8) | ShrRax(k: u8) | SarRax(k: u8)
    | CallRax
    | Ret

  function Le32(v: int): seq<u8> { X86.ToLe(4, Wrap32(v)) }
  function Le64(v: u64): seq<u8> { X86.ToLe(8, v) }

  /** The bytes each emitter function writes. */
  function Bytes(op: Op): seq<u8>
  {
    match op
    case PushReg(r) => [0x50 + r]
    case PopReg(r) => [0x58 + r]
    case SubRsp(imm) => [0x48, 0x81, 0xEC] + Le32(imm)
    case AddRsp(imm) => [0x48, 0x81, 0xC4] + Le32(imm)
    case MovRbxRsp => [0x48, 0x89, 0xE3]
    case StoreRdi(d) => [0x48, 0x89, 0xBB] + Le32(d)
    case LoadRax(d) => [0x48, 0x8B, 0x83] + Le32(d)
    case StoreRax(d) => [0x48, 0x89, 0x83] + Le32(d)
    case LoadRcx(d) => [0x48, 0x8B, 0x8B] + Le32(d)
    case MovRdiRbx => [0x48, 0x89, 0xDF]
    case MovRax(v) => [0x48, 0xB8] + Le64(v)
    case XorRaxRax => [0x48, 0x31, 0xC0]
    case AddRaxRcx => [0x48, 0x01, 0xC8]
    case SubRaxRcx => [0x48, 0x29, 0xC8]
    case OrRaxRcx => [0x48, 0x09, 0xC8]
    case AndRaxRcx => [0x48, 0x21, 0xC8]
    case XorRaxRcx => [0x48, 0x31, 0xC8]
    case ImulRaxRcx => [0x48, 0x0F, 0xAF, 0xC1]
    case AddRax(imm) => [0x48, 0x05] + Le32(imm)
    case ShlRax(k) => [0x48, 0xC1, 0xE0, k]
    case ShrRax(k) => [0x48, 0xC1, 0xE8, k]
    case SarRax(k) => [0x48, 0xC1, 0xF8, k]
    case CallRax => [0xFF, 0xD0]
    case Ret => [0xC3]
  }

  /** The instruction each emitter function is named after. */
  function Meaning(op: Op): X86.Instr
  {
    match op
    case PushReg(r) => X86.Push(r)
    case PopReg(r) => X86.Pop(r)
    case SubRsp(imm) => X86.AluImm(X86.SubOp, X86.RSP, imm)
    case AddRsp(imm) => X86.AluImm(X86.AddOp, X86.RSP, imm)
    case MovRbxRsp => X86.Store(X86.Reg(X86.RBX), X86.RSP)
    case StoreRdi(d) => X86.Store(X86.Mem(X86.RBX, d), X86.RDI)
    case LoadRax(d) => X86.Load(X86.RAX, X86.Mem(X86.RBX, d))
    case StoreRax(d) => X86.Store(X86.Mem(X86.RBX, d), X86.RAX)
    case LoadRcx(d) => X86.Load(X86.RCX, X86.Mem(X86.RBX, d))
    case MovRdiRbx => X86.Store(X86.Reg(X86.RDI), X86.RBX)
    case MovRax(v) => X86.MovImm64(X86.RAX, v)
    case XorRaxRax => X86.AluOp(X86.XorOp, X86.Reg(X86.RAX), X86.RAX)
    case AddRaxRcx => X86.AluOp(X86.AddOp, X86.Reg(X86.RAX), X86.RCX)
    case SubRaxRcx => X86.AluOp(X86.SubOp, X86.Reg(X86.RAX), X86.RCX)
    case OrRaxRcx => X86.AluOp(X86.OrOp, X86.Reg(X86.RAX), X86.RCX)
    case AndRaxRcx => X86.AluOp(X86.AndOp, X86.Reg(X86.RAX), X86.RCX)
    case XorRaxRcx => X86.AluOp(X86.XorOp, X86.Reg(X86.RAX), X86.RCX)
    case ImulRaxRcx => X86.Imul(X86.RAX, X86.Reg(X86.RCX))
    case AddRax(imm) => X86.AluImm(X86.AddOp, X86.RAX, imm)
    case ShlRax(k) => X86.ShiftImm(X86.Shl, X86.RAX, k % 64)
    case ShrRax(k) => X86.ShiftImm(X86.Shr, X86.RAX, k % 64)
    case SarRax(k) => X86.ShiftImm(X86.Sar, X86.RAX, k % 64)
    case CallRax => X86.Call(X86.RAX)
    case Ret => X86.Ret
  }

  /** The encoding holds a 32- or 64-bit field. */
  predicate HasField(op: Op)
  {
    op.SubRsp? || op.AddRsp? || op.StoreRdi? || op.LoadRax? || op.StoreRax? || op.LoadRcx? || op.AddRax? || op.MovRax?
  }

  predicate Is32(v: int) { -0x8000_0000 <= v < 0x8000_0000 }

  /** Fields fit their encodings. */
  predicate Fits(op: Op)
  {
    match op
    case SubRsp(v) => Is32(v)
    case AddRsp(v) => Is32(v)
    case StoreRdi(v) => Is32(v)
    case LoadRax(v) => Is32(v)
    case StoreRax(v) => Is32(v)
    case LoadRcx(v) => Is32(v)
    case AddRax(v) => Is32(v)
    case _ => true
  }

  lemma Le32Back(v: int)
    requires Is32(v)
    ensures |Le32(v)| == 4 && X86.Imm32(Le32(v)) == v
  {
    Pow2Values();
    X86.LeRoundTrip(4, Wrap32(v));
  }

  lemma Le64Back(v: u64)
    ensures |Le64(v)| == 8 && X86.FromLe(Le64(v)) == v
  {
    Pow2Values();
    X86.LeRoundTrip(8, v);
  }

  /** The bytes mean what the emitter's names say, wherever they stand in the code. */
  lemma BytesDecode(pre: seq<u8>, op: Op, post: seq<u8>)
    requires Fits(op)
    ensures X86.DecodeAt(pre + Bytes(op) + post, |pre|) == Some((Meaning(op), |Bytes(op)|))
  {
    hide Bytes, Meaning, X86.DecodeAt;
    if op.SubRsp? || op.AddRsp? || op.AddRax? { ImmBytesDecode(pre, op, post); }
    else if op.StoreRdi? || op.LoadRax? || op.StoreRax? || op.LoadRcx? { MemBytesDecode(pre, op, post); }
    else if op.MovRax? || op.PushReg? || op.PopReg? || op.CallRax? || op.Ret? { OtherBytesDecode(pre, op, post); }
    else if op.ShlRax? || op.ShrRax? || op.SarRax? || op.ImulRaxRcx? { FourBytesDecode(pre, op, post); }
    else { RegBytesDecode(pre, op, post); }
  }

  lemma ImmBytesDecode(pre: seq<u8>, op: Op, post: seq<u8>)
    requires Fits(op) && (op.SubRsp? || op.AddRsp? || op.AddRax?)
    ensures X86.DecodeAt(pre + Bytes(op) + post, |pre|) == Some((Meaning(op), |Bytes(op)|))
  {
    hide Bytes, Meaning, X86.DecodeAt;
    if op.AddRax? { AddRaxDecode(pre, op, post); } else { RspBytesDecode(pre, op, post); }
  }

  lemma RspBytesDecode(pre: seq<u8>, op: Op, post: seq<u8>)
    requires Fits(op) && (op.SubRsp? || op.AddRsp?)
    ensures X86.DecodeAt(pre + Bytes(op) + post, |pre|) == Some((Meaning(op), |Bytes(op)|))
  {
    hide Le32, Le64, X86.Imm32, X86.ModRm, X86.FromLe;
    var head := if op.SubRsp? then [0x48, 0x81, 0xEC] else [0x48, 0x81, 0xC4];
    Field32(pre, head, op.imm, post);
    var code, k := pre + Bytes(op) + post, |pre|;
    assert Bytes(op) == head + Le32(op.imm);
    assert code[k] == 0x48 && code[k + 1] == 0x81 && code[k + 2] == head[2];
  }

  lemma AddRaxDecode(pre: seq<u8>, op: Op, post: seq<u8>)
    requires Fits(op) && op.AddRax?
    ensures X86.DecodeAt(pre + Bytes(op) + post, |pre|) == Some((Meaning(op), |Bytes(op)|))
  {
    hide Le32, Le64, X86.Imm32, X86.ModRm, X86.FromLe;
    var head := [0x48, 0x05];
    Field32(pre, head, op.imm, post);
    var code, k := pre + Bytes(op) + post, |pre|;
    assert Bytes(op) == head + Le32(op.imm);
    assert code[k] == 0x48 && code[k + 1] == 0x05;
  }

  lemma MemBytesDecode(pre: seq<u8>, op: Op, post: seq<u8>)
    requires Fits(op) && (op.StoreRdi? || op.LoadRax? || op.StoreRax? || op.LoadRcx?)
    ensures X86.DecodeAt(pre + Bytes(op) + post, |pre|) == Some((Meaning(op), |Bytes(op)|))
  {
    hide Le32, X86.Imm32;
    var head := if op.StoreRdi? then [0x48, 0x89, 0xBB] else if op.LoadRax? then [0x48, 0x8B, 0x83]
                else if op.StoreRax? then [0x48, 0x89, 0x83] else [0x48, 0x8B, 0x8B];
    Field32(pre, head, op.disp, post);
    var code, k := pre + Bytes(op) + post, |pre|;
    assert Bytes(op) == head + Le32(op.disp);
    assert code[k] == 0x48 && code[k + 1] == head[1] && code[k + 2] == head[2] && k + 7 <= |code|;
    assert X86.ModRm(code, k + 2) == Some((X86.Mem(X86.RBX, op.disp), 5));
  }

  lemma OtherBytesDecode(pre: seq<u8>, op: Op, post: seq<u8>)
    requires op.MovRax? || op.PushReg? || op.PopReg? || op.CallRax? || op.Ret?
    ensures X86.DecodeAt(pre + Bytes(op) + post, |pre|) == Some((Meaning(op), |Bytes(op)|))
  {
    hide Bytes, Meaning, X86.DecodeAt;
    if op.MovRax? { MovBytesDecode(pre, op, post); } else { TinyBytesDecode(pre, op, post); }
  }

  lemma MovBytesDecode(pre: seq<u8>, op: Op, post: seq<u8>)
    requires op.MovRax?
    ensures X86.DecodeAt(pre + Bytes(op) + post, |pre|) == Some((Meaning(op), |Bytes(op)|))
  {
    hide Le64, X86.FromLe, X86.ModRm, X86.Imm32;
    var code, k := pre + Bytes(op) + post, |pre|;
    Le64Back(op.v);
    assert code[k] == 0x48 && code[k + 1] == 0xB8;
    assert code[k + 2..k + 10] == Le64(op.v);
  }

  lemma TinyBytesDecode(pre: seq<u8>, op: Op, post: seq<u8>)
    requires op.PushReg? || op.PopReg? || op.CallRax? || op.Ret?
    ensures X86.DecodeAt(pre + Bytes(op) + post, |pre|) == Some((Meaning(op), |Bytes(op)|))
  {
    hide Le32, Le64, X86.DecodeRexW, X86.ModRm, X86.Imm32;
    var code, k := pre + Bytes(op) + post, |pre|;
    assert code[k] == Bytes(op)[0] && (op.CallRax? ==> code[k + 1] == Bytes(op)[1]);
  }

  lemma FourBytesDecode(pre: seq<u8>, op: Op, post: seq<u8>)
    requires op.ShlRax? || op.ShrRax? || op.SarRax? || op.ImulRaxRcx?
    ensures X86.DecodeAt(pre + Bytes(op) + post, |pre|) == Some((Meaning(op), |Bytes(op)|))
  {
    hide X86.FromLe, X86.Imm32;
    var code, k := pre + Bytes(op) + post, |pre|;
    assert code[k] == 0x48 && code[k + 1] == Bytes(op)[1] && code[k + 2] == Bytes(op)[2] && code[k + 3] == Bytes(op)[3];
  }

  lemma RegBytesDecode(pre: seq<u8>, op: Op, post: seq<u8>)
    requires op.MovRbxRsp? || op.MovRdiRbx? || op.XorRaxRax? || op.AddRaxRcx? || op.SubRaxRcx? || op.OrRaxRcx? || op.AndRaxRcx? || op.XorRaxRcx?
    ensures X86.DecodeAt(pre + Bytes(op) + post, |pre|) == Some((Meaning(op), |Bytes(op)|))
  {
    hide X86.FromLe, X86.Imm32;
    var code, k := pre + Bytes(op) + post, |pre|;
    assert code[k] == 0x48 && code[k + 1] == Bytes(op)[1] && code[k + 2] == Bytes(op)[2];
  }

  lemma Field32(pre: seq<u8>, head: seq<u8>, v: int, post: seq<u8>)
    requires Is32(v)
    ensures |Le32(v)| == 4
    ensures var code, k := pre + (head + Le32(v)) + post, |pre| + |head|;
            X86.Imm32(code[k..k + 4]) == v
  {
    hide X86.Imm32;
    Le32Back(v);
    var code, k := pre + (head + Le32(v)) + post, |pre| + |head|;
    assert code[k..k + 4] == Le32(v);
  }

  // ----- the buffer -----

  class EmitBuf {
    var buf: array<u8>
    var len: nat

    ghost predicate Valid()
      reads this
    {
      len <= buf.Length
    }

    ghost function Code(): seq<u8>
      reads this, buf
      requires Valid()
    {
      buf[..len]
    }

    constructor (cap: nat)
      ensures Valid() && Code() == [] && buf.Length == cap && fresh(buf)
    {
      buf := new u8[cap](_ => 0);
      len := 0;
    }

    /** Makes room for n more bytes by doubling the capacity until they fit, and no
        further; the contents stay.  A buffer of capacity 0 would double for ever. */
    method Reserve(n: nat)
      requires Valid() && (len + n <= buf.Length || 0 < buf.Length)
      modifies this`buf
      ensures Valid() && Code() == old(Code())
      ensures buf.Length == Doubled(old(buf.Length), len + n)
      ensures buf == old(buf) || fresh(buf)
    {
      if len + n > buf.Length {
        var cap := 2 * buf.Length;
        while len + n > cap
          invariant cap >= 2 * buf.Length > 0 && Doubled(cap, len + n) == Doubled(buf.Length, len + n)
          decreases len + n - cap
          modifies {}
        {
          cap := 2 * cap;
        }
        var bigger := new u8[cap](_ => 0);
        for i := 0 to len
          invariant forall k :: 0 <= k < i ==> bigger[k] == buf[k]
          modifies bigger
        {
          bigger[i] := buf[i];
        }
        assert bigger[..len] == buf[..len];
        buf := bigger;
      }
    }

    method EmitBytes(p: seq<u8>)
      requires Valid() && 0 < buf.Length
      modifies this, buf
      ensures Valid() && 0 < buf.Length && Code() == old(Code()) + p
      ensures buf == old(buf) || fresh(buf)
    {
      DoubledFits(buf.Length, len + |p|);
      Reserve(|p|);
      ghost var code := Code();
      var dst, at := buf, len;
      for i := 0 to |p|
        invariant dst[..at] == code
        invariant forall k :: 0 <= k < i ==> dst[at + k] == p[k]
        modifies dst
      {
        dst[at + i] := p[i];
      }
      len := len + |p|;
      assert buf[..len] == code + p;
    }

    method EmitByte(b: u8)
      requires Valid() && 0 < buf.Length
      modifies this, buf
      ensures Valid() && 0 < buf.Length && Code() == old(Code()) + [b]
      ensures buf == old(buf) || fresh(buf)
    {
      DoubledFits(buf.Length, len + 1);
      Reserve(1);
      ghost var code := Code();
      buf[len] := b;
      len := len + 1;
      assert buf[..len] == code + [b];
    }

    /** Four bytes of v, least significant first. */
    method EmitU32(v: int)
      requires Valid() && 0 < buf.Length
      modifies this, buf
      ensures Valid() && 0 < buf.Length && Code() == old(Code()) + Le32(v)
      ensures buf == old(buf) || fresh(buf)
    {
      var w := Wrap32(v);
      Le32Bytes(v);
      EmitBytes([w % 256, w / 0x100 % 256, w / 0x1_0000 % 256, w / 0x100_0000 % 256]);
    }

    /** Eight bytes of v: byte i is v >> 8 i. */
    method EmitU64(v: u64)
      requires Valid() && 0 < buf.Length
      modifies this, buf
      ensures Valid() && 0 < buf.Length && Code() == old(Code()) + Le64(v)
      ensures buf == old(buf) || fresh(buf)
    {
      ghost var code := Code();
      var le := Le64(v);
      for i := 0 to 8
        invariant Valid() && 0 < buf.Length && Code() == code + le[..i]
        invariant buf == old(buf) || fresh(buf)
      {
        X86.LeByte(8, v, i);
        EmitByte(ShiftRight(v, 8 * i) % 256);
        assert le[..i + 1] == le[..i] + [le[i]];
      }
      assert le[..8] == le;
    }

    /** One instruction. */
    method Emit(op: Op)
      requires Valid() && 0 < buf.Length
      modifies this, buf
      ensures Valid() && 0 < buf.Length && Code() == old(Code()) + Bytes(op)
      ensures buf == old(buf) || fresh(buf)
    {
      hide Bytes;
      if HasField(op) { EmitField(op); } else { EmitFixed(op); }
    }

    /** The instructions with a 32- or 64-bit field. */
    method EmitField(op: Op)
      requires Valid() && 0 < buf.Length && HasField(op)
      modifies this, buf
      ensures Valid() && 0 < buf.Length && Code() == old(Code()) + Bytes(op)
      ensures buf == old(buf) || fresh(buf)
    {
      hide Le32, Le64;
      match op {
        case SubRsp(imm) => EmitWithU32([0x48, 0x81, 0xEC], imm);
        case AddRsp(imm) => EmitWithU32([0x48, 0x81, 0xC4], imm);
        case StoreRdi(d) => EmitWithU32([0x48, 0x89, 0xBB], d);
        case LoadRax(d) => EmitWithU32([0x48, 0x8B, 0x83], d);
        case StoreRax(d) => EmitWithU32([0x48, 0x89, 0x83], d);
        case LoadRcx(d) => EmitWithU32([0x48, 0x8B, 0x8B], d);
        case AddRax(imm) => EmitWithU32([0x48, 0x05], imm);
        case MovRax(v) =>
          EmitBytes([0x48, 0xB8]);
          EmitU64(v);
          assert old(Code()) + [0x48, 0xB8] + Le64(v) == old(Code()) + ([0x48, 0xB8] + Le64(v));
      }
    }

    /** The instructions of one to four bytes. */
    method EmitFixed(op: Op)
      requires Valid() && 0 < buf.Length && !HasField(op)
      modifies this, buf
      ensures Valid() && 0 < buf.Length && Code() == old(Code()) + Bytes(op)
      ensures buf == old(buf) || fresh(buf)
    {
      var p: seq<u8>;
      match op {
        case PushReg(r) => p := [0x50 + r % 8];
        case PopReg(r) => p := [0x58 + r % 8];
        case MovRbxRsp => p := [0x48, 0x89, 0xE3];
        case MovRdiRbx => p := [0x48, 0x89, 0xDF];
        case XorRaxRax => p := [0x48, 0x31, 0xC0];
        case AddRaxRcx => p := [0x48, 0x01, 0xC8];
        case SubRaxRcx => p := [0x48, 0x29, 0xC8];
        case OrRaxRcx => p := [0x48, 0x09, 0xC8];
        case AndRaxRcx => p := [0x48, 0x21, 0xC8];
        case XorRaxRcx => p := [0x48, 0x31, 0xC8];
        case ImulRaxRcx => p := [0x48, 0x0F, 0xAF, 0xC1];
        case ShlRax(k) => p := [0x48, 0xC1, 0xE0, k];
        case ShrRax(k) => p := [0x48, 0xC1, 0xE8, k];
        case SarRax(k) => p := [0x48, 0xC1, 0xF8, k];
        case CallRax => p := [0xFF, 0xD0];
        case Ret => p := [0xC3];
      }
      EmitBytes(p);
    }

    method EmitWithU32(head: seq<u8>, v: int)
      requires Valid() && 0 < buf.Length
      modifies this, buf
      ensures Valid() && 0 < buf.Length && Code() == old(Code()) + (head + Le32(v))
      ensures buf == old(buf) || fresh(buf)
    {
      hide Le32;
      EmitBytes(head);
      EmitU32(v);
      assert old(Code()) + head + Le32(v) == old(Code()) + (head + Le32(v));
    }

    /** Emits a sequence of instructions. */
    method EmitAll(ops: seq<Op>)
      requires Valid() && 0 < buf.Length
      modifies this, buf
      ensures Valid() && 0 < buf.Length && Code() == old(Code()) + Flatten(ops)
      ensures buf == old(buf) || fresh(buf)
    {
      hide Bytes;
      ghost var code := Code();
      for i := 0 to |ops|
        invariant Valid() && 0 < buf.Length && Code() == code + Flatten(ops[..i])
        invariant buf == old(buf) || fresh(buf)
      {
        Emit(ops[i]);
        assert ops[..i + 1] == ops[..i] + [ops[i]];
        FlattenAppend(ops[..i], [ops[i]]);
        FlattenOne(ops[i]);
        assert code + Flatten(ops[..i]) + Bytes(ops[i]) == code + (Flatten(ops[..i]) + Bytes(ops[i]));
      }
      assert ops[..|ops|] == ops;
    }
  }

  /** The first of cap, 2 cap, 4 cap, ... that is at least n. */
  function Doubled(cap: nat, n: nat): nat
    requires n <= cap || 0 < cap
    decreases n - cap
  {
    if n <= cap then cap else Doubled(2 * cap, n)
  }

  lemma {:induction false} DoubledFits(cap: nat, n: nat)
    requires 0 < cap
    ensures n <= Doubled(cap, n) && (cap < n ==> Doubled(cap, n) < 2 * n) && 0 < Doubled(cap, n)
    decreases n - cap
  {
    if cap < n { DoubledFits(2 * cap, n); }
  }

  lemma Le32Bytes(v: int)
    ensures var w := Wrap32(v); Le32(v) == [w % 256, w / 0x100 % 256, w / 0x1_0000 % 256, w / 0x100_0000 % 256]
  {
    var w := Wrap32(v);
    assert X86.ToLe(4, w) == [w % 256] + X86.ToLe(3, w / 256);
    assert X86.ToLe(3, w / 256) == [w / 256 % 256] + X86.ToLe(2, w / 256 / 256);
    assert X86.ToLe(2, w / 256 / 256) == [w / 256 / 256 % 256] + X86.ToLe(1, w / 256 / 256 / 256);
  }

  /** The code bytes of a sequence of instructions. */
  function Flatten(ops: seq<Op>): seq<u8>
  {
    if ops == [] then [] else Bytes(ops[0]) + Flatten(ops[1..])
  }

  lemma FlattenOne(op: Op)
    ensures Flatten([op]) == Bytes(op)
  {
    hide Bytes;
    assert Flatten([op]) == Bytes(op) + Flatten([]);
  }

  lemma {:induction false} FlattenAppend(a: seq<Op>, b: seq<Op>)
    ensures Flatten(a + b) == Flatten(a) + Flatten(b)
  {
    hide Bytes;
    if a == [] {
      assert a + b == b;
    } else {
      assert (a + b)[1..] == a[1..] + b;
      FlattenAppend(a[1..], b);
    }
  }
}
