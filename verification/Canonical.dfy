/** The other direction of the decoder's round trip: the words it reads as an instruction
    are that instruction's encoding, except where it ignores bits that the encoding fixes. */
module Canonical {
  import opened Basics
  import opened Words
  import opened Decoder

  /** The fields of a word, put together again. */
  lemma FieldsBack(w: u32)
    ensures 0 <= w / 0x200_0000 < 128
    ensures w == Fields(w % 128, w / 0x80 % 32, w / 0x1000 % 8, w / 0x8000 % 32, w / 0x10_0000 % 32, w / 0x200_0000)
  {
    DivMod(w, 128);
    Digit(w, 0x80, 32);
    Digit(w, 0x1000, 8);
    Digit(w, 0x8000, 32);
    Digit(w, 0x10_0000, 32);
  }

  lemma UnsignedBack(u: int, sign: int)
    requires sign > 0 && 0 <= u < 2 * sign
    ensures Unsigned(Sext(u, sign), 2 * sign) == u && -sign <= Sext(u, sign) < sign
  {
  }

  /** The bits that an encoding fixes and the decoder does not look at have their values:
      funct7 of the register and shift forms, and the fields of the fences. */
  predicate IsCanonical(w: u32)
  {
    var op, f3, f7 := w % 128, w / 0x1000 % 8, w / 0x200_0000;
    if op == 0x33 || op == 0x3b then f7 == 0 || f7 == 1 || (f7 == 0x20 && (f3 == 0 || f3 == 5))
    else if op == 0x13 then (f3 == 1 ==> f7 == 0 || f7 == 1) && (f3 == 5 ==> f7 == 0 || f7 == 1 || f7 == 0x20 || f7 == 0x21)
    else if op == 0x1b then (f3 == 1 ==> f7 == 0) && (f3 == 5 ==> f7 == 0 || f7 == 0x20)
    else if op == 0x0f then w == 0x0f || w == 0x100f
    else true
  }

  // ----- immediates put back into fields -----

  lemma ShortBack(rs2: int, f7: int)
    requires 0 <= rs2 < 32 && 0 <= f7 < 128
    ensures var u := rs2 + 32 * f7; 0 <= u < 0x1000 && u % 32 == rs2 && u / 32 == f7
  {
    Unpack(f7, rs2, 32, rs2 + 32 * f7);
  }

  lemma BranchBack(a: int, b: int, c: int, d: int)
    requires 0 <= a < 16 && 0 <= b < 64 && 0 <= c < 2 && 0 <= d < 2
    ensures var u := 2 * (a + 16 * (b + 64 * (c + 2 * d)));
            0 <= u < 0x2000 && u % 2 == 0 && u / 2 % 16 == a && u / 32 % 64 == b && u / 0x800 % 2 == c && u / 0x1000 == d
  {
    var u3 := c + 2 * d;
    var u2 := b + 64 * u3;
    var u1 := a + 16 * u2;
    var u := 2 * u1;
    Unpack(u1, 0, 2, u);
    Unpack(u2, a, 16, u1);
    Unpack(u3, b, 64, u2);
    Unpack(d, c, 2, u3);
    DivDiv(u, 2, 16);
    DivDiv(u, 32, 64);
    DivDiv(u, 0x800, 2);
  }

  lemma JumpBack(a: int, b: int, c: int, d: int, e: int, f: int)
    requires 0 <= a < 16 && 0 <= b < 64 && 0 <= c < 2 && 0 <= d < 8 && 0 <= e < 32 && 0 <= f < 2
    ensures var u := 2 * (a + 16 * (b + 64 * (c + 2 * (d + 8 * (e + 32 * f)))));
            && 0 <= u < 0x20_0000 && u % 2 == 0 && u / 2 % 16 == a && u / 32 % 64 == b && u / 0x800 % 2 == c
            && u / 0x1000 % 8 == d && u / 0x8000 % 32 == e && u / 0x10_0000 == f
  {
    var u5 := e + 32 * f;
    var u4 := d + 8 * u5;
    var u3 := c + 2 * u4;
    var u2 := b + 64 * u3;
    var u1 := a + 16 * u2;
    var u := 2 * u1;
    Unpack(u1, 0, 2, u);
    Unpack(u2, a, 16, u1);
    Unpack(u3, b, 64, u2);
    Unpack(u4, c, 2, u3);
    Unpack(u5, d, 8, u4);
    Unpack(f, e, 32, u5);
    DivDiv(u, 2, 16);
    DivDiv(u, 32, 64);
    DivDiv(u, 0x800, 2);
    DivDiv(u, 0x1000, 8);
    DivDiv(u, 0x8000, 32);
  }

  lemma Halves(x: int, n: int)
    requires 0 <= x < 2 * n
    ensures x / 2 * 2 + x % 2 == x && 0 <= x / 2 < n && 0 <= x % 2 < 2
  {
  }

  // ----- each format -----

  /** a is what w says, and w is a's encoding exactly when it is canonical. */
  predicate Matched(w: u32, a: Asm) { View(Decode(w)) == Some(a) ==> Encodable(a) && (Assemble(a) == w <==> IsCanonical(w)) }

  lemma ImmIBack(w: u32)
    ensures var u := w / 0x10_0000;
            0 <= u < 0x1000 && Unsigned(ImmI(w), 0x1000) == u && -0x800 <= ImmI(w) < 0x800 && u % 32 == w / 0x10_0000 % 32 && u / 32 == w / 0x200_0000
  {
    UnsignedBack(w / 0x10_0000, 0x800);
    DivDiv(w, 0x10_0000, 32);
  }

  lemma ImmSBack(w: u32)
    ensures var u := w / 0x200_0000 * 32 + w / 0x80 % 32;
            0 <= u < 0x1000 && Unsigned(ImmS(w), 0x1000) == u && -0x800 <= ImmS(w) < 0x800 && u % 32 == w / 0x80 % 32 && u / 32 == w / 0x200_0000
  {
    var rd, f7 := w / 0x80 % 32, w / 0x200_0000;
    assert 0 <= f7 < 128;
    ShortBack(rd, f7);
    UnsignedBack(f7 * 32 + rd, 0x800);
  }

  lemma ShortMatched(w: u32, a: Asm)
    requires w % 128 == 0x67 || w % 128 == 0x03 || w % 128 == 0x23
    ensures Matched(w, a)
  {
    hide Fields, ImmI, ImmS, Unsigned;
    FieldsBack(w);
    ImmIBack(w);
    ImmSBack(w);
  }

  lemma ImmUBack(w: u32)
    ensures var u := w / 0x1000;
            && Unsigned(ImmU(w), 0x1_0000_0000) / 0x1000 == u && ImmU(w) % 0x1000 == 0 && -0x8000_0000 <= ImmU(w) < 0x8000_0000
            && u % 8 == w / 0x1000 % 8 && u / 8 % 32 == w / 0x8000 % 32 && u / 256 % 32 == w / 0x10_0000 % 32 && u / 0x2000 == w / 0x200_0000
  {
    var u := w / 0x1000;
    assert 0 <= u < 0x10_0000;
    UnsignedBack(u * 0x1000, 0x8000_0000);
    Unpack(u, 0, 0x1000, u * 0x1000);
    ImmURange(w);
    DivDiv(w, 0x1000, 8);
    DivDiv(w, 0x1000, 256);
    DivDiv(w, 0x1000, 0x2000);
  }

  lemma UpperMatched(w: u32, a: Asm)
    requires w % 128 == 0x37 || w % 128 == 0x17
    ensures Matched(w, a)
  {
    hide Fields, ImmU, Unsigned;
    FieldsBack(w);
    ImmUBack(w);
  }

  lemma ImmBBack(w: u32)
    ensures var u := Unsigned(ImmB(w), 0x2000);
            && ImmB(w) % 2 == 0 && -0x1000 <= ImmB(w) < 0x1000
            && u / 2 % 16 * 2 + u / 0x800 % 2 == w / 0x80 % 32 && u / 0x1000 * 64 + u / 32 % 64 == w / 0x200_0000
  {
    var rd, f7 := w / 0x80 % 32, w / 0x200_0000;
    FieldsBack(w);
    PiecesOf(w % 128, rd, w / 0x1000 % 8, w / 0x8000 % 32, w / 0x10_0000 % 32, f7);
    Halves(rd, 16);
    DivMod(f7, 64);
    BranchBack(rd / 2, f7 % 64, rd % 2, f7 / 64);
    UnsignedBack(2 * (rd / 2 + 16 * (f7 % 64 + 64 * (rd % 2 + 2 * (f7 / 64)))), 0x1000);
    ImmBRange(w);
  }

  lemma BranchMatched(w: u32, a: Asm)
    requires w % 128 == 0x63
    ensures Matched(w, a)
  {
    hide Fields, ImmB, Unsigned;
    FieldsBack(w);
    ImmBBack(w);
  }

  lemma ImmJBack(w: u32)
    ensures var u := Unsigned(ImmJ(w), 0x20_0000);
            && ImmJ(w) % 2 == 0 && -0x10_0000 <= ImmJ(w) < 0x10_0000
            && u / 0x1000 % 8 == w / 0x1000 % 8 && u / 0x8000 % 32 == w / 0x8000 % 32
            && u / 2 % 16 * 2 + u / 0x800 % 2 == w / 0x10_0000 % 32 && u / 0x10_0000 * 64 + u / 32 % 64 == w / 0x200_0000
  {
    var f3, rs1, rs2, f7 := w / 0x1000 % 8, w / 0x8000 % 32, w / 0x10_0000 % 32, w / 0x200_0000;
    FieldsBack(w);
    PiecesOf(w % 128, w / 0x80 % 32, f3, rs1, rs2, f7);
    Halves(rs2, 16);
    DivMod(f7, 64);
    JumpBack(rs2 / 2, f7 % 64, rs2 % 2, f3, rs1, f7 / 64);
    UnsignedBack(2 * (rs2 / 2 + 16 * (f7 % 64 + 64 * (rs2 % 2 + 2 * (f3 + 8 * (rs1 + 32 * (f7 / 64)))))), 0x10_0000);
    ImmJRange(w);
  }

  lemma JumpMatched(w: u32, a: Asm)
    requires w % 128 == 0x6f
    ensures Matched(w, a)
  {
    hide Fields, ImmJ, Unsigned;
    FieldsBack(w);
    ImmJBack(w);
  }

  /** Equal words have equal funct7. */
  lemma F7Decides(w: u32, f7: int)
    requires 0 <= f7 < 128
    ensures Fields(w % 128, w / 0x80 % 32, w / 0x1000 % 8, w / 0x8000 % 32, w / 0x10_0000 % 32, f7) == w <==> f7 == w / 0x200_0000
  {
    FieldsBack(w);
  }

  lemma RegMatched(w: u32, a: Asm)
    requires w % 128 == 0x33 || w % 128 == 0x3b
    ensures Matched(w, a)
  {
    hide Fields, Decode, IsCanonical;
    var f3, f7 := w / 0x1000 % 8, w / 0x200_0000;
    FieldsBack(w);
    RegDecodes(w);
    RegAgain(w % 128, w / 0x80 % 32, f3, w / 0x8000 % 32, w / 0x10_0000 % 32, f7);
    RegCanonical(w);
    F7Decides(w, 0); F7Decides(w, 1); F7Decides(w, 0x20);
  }

  lemma RegDecodes(w: u32)
    requires w % 128 == 0x33 || w % 128 == 0x3b
    ensures var out := Insn(Invalid, w / 0x80 % 32, w / 0x8000 % 32, w / 0x10_0000 % 32, 0, Beq, 0, Add, false);
            Decode(w) == if w % 128 == 0x33 then DecodeAluReg(out, w / 0x1000 % 8, w / 0x200_0000)
                         else DecodeAluRegW(out.(wordOp := true), w / 0x1000 % 8, w / 0x200_0000)
  {
    hide DecodeAluReg, DecodeAluRegW, ImmI, ImmS, ImmB, ImmU, ImmJ, DecodeBranch, DecodeAluImm, DecodeAluImmW;
    LowBits(w);
  }

  lemma RegCanonical(w: u32)
    requires w % 128 == 0x33 || w % 128 == 0x3b
    ensures var f3, f7 := w / 0x1000 % 8, w / 0x200_0000; IsCanonical(w) <==> f7 == 0 || f7 == 1 || (f7 == 0x20 && (f3 == 0 || f3 == 5))
  {
  }

  /** What the register forms are read as, in the terms of their encoding. */
  lemma RegAgain(op: int, rd: Reg, f3: int, rs1: Reg, rs2: Reg, f7: int)
    requires (op == 0x33 || op == 0x3b) && 0 <= f3 < 8 && 0 <= f7 < 128
    ensures var out := Insn(Invalid, rd, rs1, rs2, 0, Beq, 0, Add, false);
            var v := View(if op == 0x33 then DecodeAluReg(out, f3, f7) else DecodeAluRegW(out.(wordOp := true), f3, f7));
            v.Some? ==>
              && (if op == 0x33 then v.value.AsmReg? else v.value.AsmRegW?) && Encodable(v.value)
              && v.value.rd == rd && v.value.rs1 == rs1 && v.value.rs2 == rs2 && RegF3(v.value.op) == f3
              && RegF7(v.value.op) == if f7 == 1 then 1 else if f7 == 0x20 && (f3 == 0 || f3 == 5) then 0x20 else 0
  {
  }

  lemma ImmMatched(w: u32, a: Asm)
    requires w % 128 == 0x13 || w % 128 == 0x1b
    ensures Matched(w, a)
  {
    hide Fields, ImmI, Unsigned, Decode, IsCanonical, View, Assemble, Encodable;
    var f3 := w / 0x1000 % 8;
    if f3 == 1 || f3 == 5 { ShiftMatched(w, a); } else { PlainMatched(w, a); }
  }

  lemma PlainMatched(w: u32, a: Asm)
    requires (w % 128 == 0x13 || w % 128 == 0x1b) && w / 0x1000 % 8 != 1 && w / 0x1000 % 8 != 5
    ensures Matched(w, a)
  {
    hide Fields, ImmI, Unsigned;
    FieldsBack(w);
    ImmIBack(w);
  }

  function ShiftOp(f3: int, bit30: int): AluOp { if f3 == 1 then Sll else if bit30 == 1 then Sra else Srl }

  lemma ShiftReads(w: u32)
    requires (w % 128 == 0x13 || w % 128 == 0x1b) && (w / 0x1000 % 8 == 1 || w / 0x1000 % 8 == 5)
    ensures var rd, rs1, f := w / 0x80 % 32, w / 0x8000 % 32, ShiftOp(w / 0x1000 % 8, w / 0x4000_0000 % 2);
            View(Decode(w)) == Some(if w % 128 == 0x13 then AsmShift(f, rd, rs1, w / 0x10_0000 % 64) else AsmShiftW(f, rd, rs1, w / 0x10_0000 % 32))
  {
    hide ImmI, ImmS, ImmB, ImmU, ImmJ, DecodeBranch, DecodeAluReg, DecodeAluRegW, DecodeAluImm, DecodeAluImmW, Blank, ShiftOp;
    LowBits(w);
    ShiftForms(w, Decoder.Blank(w));
    BlankFields(w);
  }

  lemma LowBits(w: u32)
    ensures w % 4 == w % 128 % 4
  {
    var q, r := w / 128, w % 128;
    DivMod(w, 128);
    DivMod(r, 4);
    ModUnique(w, 4, 32 * q + r / 4, r % 4);
  }

  lemma BlankFields(w: u32)
    ensures Decoder.Blank(w).rd == w / 0x80 % 32 && Decoder.Blank(w).rs1 == w / 0x8000 % 32
  {
  }

  lemma ShiftForms(w: u32, out: Insn)
    requires w / 0x1000 % 8 == 1 || w / 0x1000 % 8 == 5
    ensures var f3, f := w / 0x1000 % 8, ShiftOp(w / 0x1000 % 8, w / 0x4000_0000 % 2);
            && View(DecodeAluImm(out, w, f3)) == Some(AsmShift(f, out.rd, out.rs1, w / 0x10_0000 % 64))
            && View(DecodeAluImmW(out.(wordOp := true), w, f3)) == Some(AsmShiftW(f, out.rd, out.rs1, w / 0x10_0000 % 32))
  {
    hide ImmI;
  }

  lemma ShiftMatched(w: u32, a: Asm)
    requires (w % 128 == 0x13 || w % 128 == 0x1b) && (w / 0x1000 % 8 == 1 || w / 0x1000 % 8 == 5)
    ensures Matched(w, a)
  {
    hide Decode, View, ShiftOp, Assemble, Encodable, IsCanonical;
    ShiftReads(w);
    ShiftEncodes(w);
  }

  /** The encoding of what a shift word says, against the word. */
  lemma ShiftEncodes(w: u32)
    requires (w % 128 == 0x13 || w % 128 == 0x1b) && (w / 0x1000 % 8 == 1 || w / 0x1000 % 8 == 5)
    ensures var rd, rs1, f := w / 0x80 % 32, w / 0x8000 % 32, ShiftOp(w / 0x1000 % 8, w / 0x4000_0000 % 2);
            var a := if w % 128 == 0x13 then AsmShift(f, rd, rs1, w / 0x10_0000 % 64) else AsmShiftW(f, rd, rs1, w / 0x10_0000 % 32);
            Encodable(a) && (Assemble(a) == w <==> IsCanonical(w))
  {
    hide Fields, ShiftOp, RegF3, RegF7, IsCanonical;
    var f3, f7, rs2 := w / 0x1000 % 8, w / 0x200_0000, w / 0x10_0000 % 32;
    FieldsBack(w);
    PiecesOf(w % 128, w / 0x80 % 32, f3, w / 0x8000 % 32, rs2, f7);
    ShortBack(rs2, f7 % 2);
    ShiftOpFields(f3, f7 / 32 % 2);
    var base := RegF7(ShiftOp(f3, f7 / 32 % 2));
    ShiftCanonical(w, base);
    F7Decides(w, base + f7 % 2);
    F7Decides(w, base);
  }

  lemma ShiftCanonical(w: u32, base: int)
    requires (w % 128 == 0x13 || w % 128 == 0x1b) && (w / 0x1000 % 8 == 1 || w / 0x1000 % 8 == 5)
    requires base == if w / 0x1000 % 8 == 5 && w / 0x200_0000 / 32 % 2 == 1 then 0x20 else 0
    ensures var f7 := w / 0x200_0000; IsCanonical(w) <==> f7 == if w % 128 == 0x13 then base + f7 % 2 else base
  {
    assert 0 <= w / 0x200_0000 < 128;
    ShiftF7Back(w / 0x200_0000);
  }

  lemma ShiftOpFields(f3: int, bit30: int)
    requires (f3 == 1 || f3 == 5) && 0 <= bit30 < 2
    ensures var f := ShiftOp(f3, bit30); IsShift(f) && RegF3(f) == f3 && RegF7(f) == if f3 == 5 && bit30 == 1 then 0x20 else 0
  {
  }

  lemma ShiftF7Back(f7: int)
    requires 0 <= f7 < 128
    ensures f7 == f7 % 2 <==> f7 == 0 || f7 == 1
    ensures f7 == 0x20 + f7 % 2 <==> f7 == 0x20 || f7 == 0x21
    ensures (f7 == 0 || f7 == 1 ==> f7 / 32 % 2 == 0) && (f7 == 0x20 || f7 == 0x21 ==> f7 / 32 % 2 == 1)
  {
  }

  lemma RestMatched(w: u32, a: Asm)
    requires w % 128 == 0x0f || w % 128 == 0x73
    ensures Matched(w, a)
  {
    hide Decode, View, Assemble, Encodable, IsCanonical;
    if w % 128 == 0x0f { FenceMatched(w, a); } else { SystemMatched(w, a); }
  }

  lemma FenceMatched(w: u32, a: Asm)
    requires w % 128 == 0x0f
    ensures Matched(w, a)
  {
    hide Decode, IsCanonical;
    FenceReads(w);
  }

  lemma FenceReads(w: u32)
    requires w % 128 == 0x0f
    ensures var v := View(Decode(w)); v.Some? ==> v.value == if w / 0x1000 % 8 == 0 then AsmFence else AsmFenceI
    ensures View(Decode(w)).Some? ==> w / 0x1000 % 8 == 0 || w / 0x1000 % 8 == 1
    ensures IsCanonical(w) <==> w == 0x0f || w == 0x100f
    ensures 0x0f / 0x1000 % 8 == 0 && 0x100f / 0x1000 % 8 == 1
  {
    hide Fields, ImmI, ImmS, ImmB, ImmU, ImmJ, DecodeBranch, DecodeAluReg, DecodeAluRegW, DecodeAluImm, DecodeAluImmW, Blank;
    LowBits(w);
    BlankShape(w);
  }

  lemma SystemMatched(w: u32, a: Asm)
    requires w % 128 == 0x73
    ensures Matched(w, a)
  {
    hide ImmI, ImmS, ImmB, ImmU, ImmJ, DecodeBranch, DecodeAluReg, DecodeAluRegW, DecodeAluImm, DecodeAluImmW, Blank;
    LowBits(w);
  }

  lemma NothingElse(w: u32)
    requires w % 128 !in {0x67, 0x03, 0x23, 0x37, 0x17, 0x63, 0x6f, 0x33, 0x3b, 0x13, 0x1b, 0x0f, 0x73}
    ensures View(Decode(w)).None?
  {
    hide DecodeBranch, DecodeAluImm, DecodeAluImmW, DecodeAluReg, DecodeAluRegW, ImmI, ImmS, ImmB, ImmU, ImmJ;
  }

  /** The decoder reads a word as instruction a without it being a's encoding exactly where
      the word is not canonical. */
  lemma DecodedIsAssembledIff(w: u32, a: Asm)
    requires View(Decode(w)) == Some(a)
    ensures Encodable(a) && (Assemble(a) == w <==> IsCanonical(w))
  {
    hide Decode, View, Assemble, Encodable, IsCanonical;
    var op := w % 128;
    if op == 0x67 || op == 0x03 || op == 0x23 { ShortMatched(w, a); }
    else if op == 0x37 || op == 0x17 { UpperMatched(w, a); }
    else if op == 0x63 { BranchMatched(w, a); }
    else if op == 0x6f { JumpMatched(w, a); }
    else if op == 0x33 || op == 0x3b { RegMatched(w, a); }
    else if op == 0x13 || op == 0x1b { ImmMatched(w, a); }
    else if op == 0x0f || op == 0x73 { RestMatched(w, a); }
    else { NothingElse(w); }
  }

  /** funct7 = 2 under opcode 0x33 is no instruction of RV64IM and is read as an add. */
  lemma IllegalAddIsRead()
    ensures View(Decode(0x0400_0033)) == Some(AsmReg(Add, 0, 0, 0)) && !IsCanonical(0x0400_0033)
  {
    hide Decode, DecodeAluReg;
    assert 0x0400_0033 % 128 == 0x33 && 0x0400_0033 / 0x200_0000 == 2 && 0x0400_0033 / 0x1000 % 8 == 0;
    assert 0x0400_0033 / 0x80 % 32 == 0 && 0x0400_0033 / 0x8000 % 32 == 0 && 0x0400_0033 / 0x10_0000 % 32 == 0;
    RegDecodes(0x0400_0033);
    AddWithF7Two(Insn(Invalid, 0, 0, 0, 0, Beq, 0, Add, false));
  }

  lemma AddWithF7Two(out: Insn)
    ensures DecodeAluReg(out, 0, 2) == out.(cls := AluReg, aluOp := Add)
  {
  }
}
