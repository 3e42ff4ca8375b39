/** The subset of x86-64 that the JIT emits: a decoder of instruction bytes (REX.W,
    opcode, ModR/M, displacement and immediate fields, Intel SDM volume 2) and the
    meaning of each instruction, with calls under the System V ABI. */
module X86 {
  import opened Basics
  import opened Words

  const RAX: int := 0
  const RCX: int := 1
  const RBX: int := 3
  const RSP: int := 4
  const RDI: int := 7

  // ----- instructions -----

  type R64 = r: int | 0 <= r < 8

  /** A ModR/M operand: a register (mod 3) or base + disp32 (mod 2, no SIB byte). */
  datatype Operand = Reg(r: R64) | Mem(base: R64, disp: int)

  datatype Alu = AddOp | OrOp | AndOp | SubOp | XorOp
  datatype Shift = Shl | Shr | Sar

  datatype Instr =
    | Push(r: R64)
    | Pop(r: R64)
    | Store(to: Operand, from: R64)              // 89 /r
    | Load(reg: R64, rm: Operand)                // 8B /r
    | AluOp(alu: Alu, to: Operand, from: R64)    // 01, 09, 21, 29, 31 /r
    | AluImm(alu: Alu, reg: R64, imm: int)       // 81 /0, 81 /5, 05
    | Imul(reg: R64, rm: Operand)                // 0F AF /r
    | ShiftImm(shift: Shift, reg: R64, count: int) // C1 /4, /5, /7
    | MovImm64(r: R64, imm64: u64)               // B8 + r
    | Call(r: R64)                               // FF /2
    | Ret                                        // C3

  // ----- little-endian fields -----

  function FromLe(s: seq<u8>): nat
  {
    if s == [] then 0 else s[0] + 256 * FromLe(s[1..])
  }

  /** The n low bytes of v, least significant first. */
  function ToLe(n: nat, v: nat): (s: seq<u8>)
    ensures |s| == n
  {
    if n == 0 then [] else [v % 256] + ToLe(n - 1, v / 256)
  }

  lemma {:induction false} LeRoundTrip(n: nat, v: nat)
    requires v < Pow2(8 * n)
    ensures FromLe(ToLe(n, v)) == v
  {
    if n != 0 {
      Pow2Add(8, 8 * (n - 1));
      assert Pow2(8 * n) == 256 * Pow2(8 * (n - 1)) by { Pow2Values(); }
      LeRoundTrip(n - 1, v / 256);
      assert ToLe(n, v)[1..] == ToLe(n - 1, v / 256);
    }
  }

  lemma {:induction false} LeByte(n: nat, v: nat, i: nat)
    requires i < n
    ensures ToLe(n, v)[i] == v / Pow2(8 * i) % 256
    decreases i
  {
    if i != 0 {
      LeByte(n - 1, v / 256, i - 1);
      Pow2Add(8, 8 * (i - 1));
      Pow2Values();
      assert Pow2(8 * i) == 256 * Pow2(8 * (i - 1));
      DivDiv(v, 256, Pow2(8 * (i - 1)));
    }
  }

  /** Two's-complement reading of a 32-bit field. */
  function Imm32(s: seq<u8>): int
    requires |s| == 4
  {
    var v := FromLe(s);
    if v < 0x8000_0000 then v else v - 0x1_0000_0000
  }

  // ----- decoding -----

  function Decoded(i: Instr, len: nat): Option<(Instr, nat)> { Some((i, len)) }

  /** Operand and length of the ModR/M byte at position k with what follows it. */
  function ModRm(code: seq<u8>, k: int): Option<(Operand, nat)>
    requires 0 <= k < |code|
  {
    var mod, rm := code[k] / 64, code[k] % 8;
    if mod == 3 then Some((Reg(rm), 1))
    else if mod == 2 && rm != 4 && k + 5 <= |code| then Some((Mem(rm, Imm32(code[k + 1..k + 5])), 5))
    else None
  }

  function RegField(b: u8): R64 { b / 8 % 8 }

  /** The instruction at position k and its length. */
  function DecodeAt(code: seq<u8>, k: int): Option<(Instr, nat)>
    requires 0 <= k
  {
    if k >= |code| then None
    else
      var op := code[k];
      if 0x50 <= op < 0x58 then Decoded(Push(op - 0x50), 1)
      else if 0x58 <= op < 0x60 then Decoded(Pop(op - 0x58), 1)
      else if op == 0xC3 then Decoded(Ret, 1)
      else if op == 0xFF && k + 1 < |code| && code[k + 1] / 64 == 3 && RegField(code[k + 1]) == 2 then
        Decoded(Call(code[k + 1] % 8), 2)
      else if op == 0x48 && k + 2 < |code| then DecodeRexW(code, k)
      else None
  }

  function DecodeRexW(code: seq<u8>, k: int): Option<(Instr, nat)>
    requires 0 <= k && k + 2 < |code|
  {
    var op := code[k + 1];
    if 0xB8 <= op < 0xC0 then
      (if k + 10 <= |code| then
         LeBound(code[k + 2..k + 10]);
         Decoded(MovImm64(op - 0xB8, FromLe(code[k + 2..k + 10])), 10)
       else None)
    else if op == 0x05 then
      (if k + 6 <= |code| then Decoded(AluImm(AddOp, RAX, Imm32(code[k + 2..k + 6])), 6) else None)
    else if op == 0x81 then
      (if code[k + 2] / 64 == 3 && k + 7 <= |code| && (RegField(code[k + 2]) == 0 || RegField(code[k + 2]) == 5) then
         Decoded(AluImm(if RegField(code[k + 2]) == 0 then AddOp else SubOp, code[k + 2] % 8, Imm32(code[k + 3..k + 7])), 7)
       else None)
    else if op == 0xC1 then
      (if code[k + 2] / 64 == 3 && k + 3 < |code| && RegField(code[k + 2]) in {4, 5, 7} then
         Decoded(ShiftImm(if RegField(code[k + 2]) == 4 then Shl else if RegField(code[k + 2]) == 5 then Shr else Sar,
                          code[k + 2] % 8, code[k + 3] % 64), 4)
       else None)
    else if op == 0x0F then
      (if code[k + 2] == 0xAF && k + 3 < |code| then
         match ModRm(code, k + 3)
         case Some((o, n)) => Decoded(Imul(RegField(code[k + 3]), o), 3 + n)
         case None => None
       else None)
    else
      match ModRm(code, k + 2)
      case None => None
      case Some((o, n)) =>
        var reg := RegField(code[k + 2]);
        if op == 0x89 then Decoded(Store(o, reg), 2 + n)
        else if op == 0x8B then Decoded(Load(reg, o), 2 + n)
        else if op == 0x01 then Decoded(AluOp(AddOp, o, reg), 2 + n)
        else if op == 0x09 then Decoded(AluOp(OrOp, o, reg), 2 + n)
        else if op == 0x21 then Decoded(AluOp(AndOp, o, reg), 2 + n)
        else if op == 0x29 then Decoded(AluOp(SubOp, o, reg), 2 + n)
        else if op == 0x31 then Decoded(AluOp(XorOp, o, reg), 2 + n)
        else None
  }

  /** Some codes in full: push and pop rbx, ret, call rax; mov rbx, rsp; mov rdi, rbx;
      add, or, and, sub, xor and imul of rax and rcx; shl, shr and sar of rax by 5. */
  lemma KnownCodes()
    ensures DecodeAt([0x53], 0) == Decoded(Push(3), 1) && DecodeAt([0x5B], 0) == Decoded(Pop(3), 1)
    ensures DecodeAt([0xC3], 0) == Decoded(Ret, 1) && DecodeAt([0xFF, 0xD0], 0) == Decoded(Call(0), 2)
    ensures DecodeAt([0x48, 0x89, 0xE3], 0) == Decoded(Store(Reg(3), 4), 3)
    ensures DecodeAt([0x48, 0x89, 0xDF], 0) == Decoded(Store(Reg(7), 3), 3)
    ensures DecodeAt([0x48, 0x01, 0xC8], 0) == Decoded(AluOp(AddOp, Reg(0), 1), 3)
    ensures DecodeAt([0x48, 0x09, 0xC8], 0) == Decoded(AluOp(OrOp, Reg(0), 1), 3)
    ensures DecodeAt([0x48, 0x21, 0xC8], 0) == Decoded(AluOp(AndOp, Reg(0), 1), 3)
    ensures DecodeAt([0x48, 0x29, 0xC8], 0) == Decoded(AluOp(SubOp, Reg(0), 1), 3)
    ensures DecodeAt([0x48, 0x31, 0xC8], 0) == Decoded(AluOp(XorOp, Reg(0), 1), 3)
    ensures DecodeAt([0x48, 0x0F, 0xAF, 0xC1], 0) == Decoded(Imul(0, Reg(1)), 4)
    ensures DecodeAt([0x48, 0xC1, 0xE0, 5], 0) == Decoded(ShiftImm(Shl, 0, 5), 4)
    ensures DecodeAt([0x48, 0xC1, 0xE8, 5], 0) == Decoded(ShiftImm(Shr, 0, 5), 4)
    ensures DecodeAt([0x48, 0xC1, 0xF8, 5], 0) == Decoded(ShiftImm(Sar, 0, 5), 4)
  {
  }

  /** ... and with fields: sub rsp, 256; add rsp, 256; add rax, -1; mov rax, 1; */
  lemma KnownImmediates()
    ensures DecodeAt([0x48, 0x81, 0xEC, 0, 1, 0, 0], 0) == Decoded(AluImm(SubOp, 4, 256), 7)
    ensures DecodeAt([0x48, 0x81, 0xC4, 0, 1, 0, 0], 0) == Decoded(AluImm(AddOp, 4, 256), 7)
    ensures DecodeAt([0x48, 0x05, 0xFF, 0xFF, 0xFF, 0xFF], 0) == Decoded(AluImm(AddOp, 0, -1), 6)
    ensures DecodeAt([0x48, 0xB8, 1, 0, 0, 0, 0, 0, 0, 0], 0) == Decoded(MovImm64(0, 1), 10)
  {
    hide FromLe;
    Le4(0, 1, 0, 0);
    Le4(0xFF, 0xFF, 0xFF, 0xFF);
    LeOne();
    assert [0x48, 0x81, 0xEC, 0, 1, 0, 0][3..7] == [0, 1, 0, 0] == [0x48, 0x81, 0xC4, 0, 1, 0, 0][3..7];
    assert [0x48, 0x05, 0xFF, 0xFF, 0xFF, 0xFF][2..6] == [0xFF, 0xFF, 0xFF, 0xFF];
    assert [0x48, 0xB8, 1, 0, 0, 0, 0, 0, 0, 0][2..10] == [1, 0, 0, 0, 0, 0, 0, 0];
  }

  /** mov [rbx + 80], rdi; mov rax, [rbx + 80]; mov [rbx + 80], rax; mov rcx, [rbx + 80]. */
  lemma KnownDisplacements()
    ensures DecodeAt([0x48, 0x89, 0xBB, 80, 0, 0, 0], 0) == Decoded(Store(Mem(3, 80), 7), 7)
    ensures DecodeAt([0x48, 0x8B, 0x83, 80, 0, 0, 0], 0) == Decoded(Load(0, Mem(3, 80)), 7)
    ensures DecodeAt([0x48, 0x89, 0x83, 80, 0, 0, 0], 0) == Decoded(Store(Mem(3, 80), 0), 7)
    ensures DecodeAt([0x48, 0x8B, 0x8B, 80, 0, 0, 0], 0) == Decoded(Load(1, Mem(3, 80)), 7)
  {
    hide FromLe;
    Le4(80, 0, 0, 0);
    assert [0x48, 0x89, 0xBB, 80, 0, 0, 0][3..7] == [80, 0, 0, 0] == [0x48, 0x8B, 0x83, 80, 0, 0, 0][3..7];
    assert [0x48, 0x89, 0x83, 80, 0, 0, 0][3..7] == [80, 0, 0, 0] == [0x48, 0x8B, 0x8B, 80, 0, 0, 0][3..7];
  }

  lemma Le4(a: u8, b: u8, c: u8, d: u8)
    ensures FromLe([a, b, c, d]) == a + 0x100 * b + 0x1_0000 * c + 0x100_0000 * d
  {
    assert [a, b, c, d][1..] == [b, c, d] && [b, c, d][1..] == [c, d] && [c, d][1..] == [d] && [d][1..] == [];
    assert FromLe([d]) == d && FromLe([c, d]) == c + 256 * FromLe([d]);
    assert FromLe([b, c, d]) == b + 256 * FromLe([c, d]);
  }

  lemma LeOne()
    ensures FromLe([1, 0, 0, 0, 0, 0, 0, 0]) == 1
  {
    var s := [1, 0, 0, 0, 0, 0, 0, 0];
    LeZero(s[1..]);
  }

  lemma {:induction false} LeZero(s: seq<u8>)
    requires forall i :: 0 <= i < |s| ==> s[i] == 0
    ensures FromLe(s) == 0
  {
    if s != [] { LeZero(s[1..]); }
  }

  lemma LeBound(s: seq<u8>)
    requires |s| == 8
    ensures FromLe(s) < TWO64
  {
    LeUpper(s);
    Pow2Values();
  }

  lemma {:induction false} LeUpper(s: seq<u8>)
    ensures FromLe(s) < Pow2(8 * |s|)
  {
    if s != [] {
      LeUpper(s[1..]);
      Pow2Add(8, 8 * (|s| - 1));
      Pow2Values();
      assert Pow2(8 * |s|) == 256 * Pow2(8 * (|s| - 1));
    }
  }

  // ----- execution -----

  /** Registers, memory in aligned 8-byte cells (a cell not in the map holds 0), and the
      register files passed to the helper trampoline so far. */
  datatype State = State(regs: seq<u64>, mem: map<u64, u64>, calls: seq<seq<u64>>)

  function Cell(mem: map<u64, u64>, a: u64): u64 { if a in mem then mem[a] else 0 }

  /** The host around the code: the trampoline's address, what it returns, and what a
      call leaves in caller-saved registers and below the stack pointer. */
  datatype Host = Host(tramp: u64,
                       helper: (seq<seq<u64>>, seq<u64>) -> u64,
                       junk: (seq<seq<u64>>, int) -> u64,
                       scratch: seq<seq<u64>> -> map<u64, u64>)

  function AluVal(op: Alu, x: u64, y: u64): u64
  {
    match op
    case AddOp => Wrap64(x + y)
    case SubOp => Wrap64(x - y)
    case OrOp => Or(x, y)
    case AndOp => And(x, y)
    case XorOp => Xor(x, y)
  }

  function ShiftVal(op: Shift, x: u64, k: nat): u64
  {
    match op
    case Shl => ShiftLeft(x, k)
    case Shr => ShiftRight(x, k)
    case Sar => ShiftRightArith(x, k)
  }

  function At(s: State, o: Operand): u64
    requires |s.regs| == 8 && o.Mem?
  {
    Wrap64(s.regs[o.base] + o.disp)
  }

  predicate Accessible(s: State, o: Operand)
    requires |s.regs| == 8
  {
    o.Mem? ==> At(s, o) % 8 == 0
  }

  function Get(s: State, o: Operand): u64
    requires |s.regs| == 8
  {
    if o.Reg? then s.regs[o.r] else Cell(s.mem, At(s, o))
  }

  function Put(s: State, o: Operand, v: u64): (s': State)
    requires |s.regs| == 8
    ensures |s'.regs| == 8
  {
    if o.Reg? then s.(regs := s.regs[o.r := v]) else s.(mem := s.mem[At(s, o) := v])
  }

  function Below(m: map<u64, u64>, sp: u64): map<u64, u64> { map a | a in m && a < sp :: m[a] }

  /** The 32-entry register file at address a. */
  function File(mem: map<u64, u64>, a: u64): seq<u64>
    requires a + 256 <= TWO64
  {
    seq(32, k requires 0 <= k < 32 => Cell(mem, a + 8 * k))
  }

  /** A call of the trampoline.  The stack pointer must be 16-byte aligned; the callee
      keeps rbx, rbp and rsp and everything from rsp up but regs[10], which it sets. */
  function CallTramp(s: State, host: Host, target: u64): Option<State>
    requires |s.regs| == 8
  {
    var a, sp := s.regs[RDI], s.regs[RSP];
    if target != host.tramp || sp % 16 != 0 || a % 8 != 0 || a + 256 > TWO64 then None
    else
      var file := File(s.mem, a);
      Some(State(
        seq(8, k requires 0 <= k < 8 => if k == RBX || k == RSP || k == 5 then s.regs[k] else host.junk(s.calls, k)),
        (s.mem + Below(host.scratch(s.calls), sp))[a + 80 := host.helper(s.calls, file)],
        s.calls + [file]))
  }

  /** One instruction other than Ret; None where the subset gives it no meaning. */
  function Exec(i: Instr, s: State, host: Host): (r: Option<State>)
    requires |s.regs| == 8
    ensures r.Some? ==> |r.value.regs| == 8
  {
    match i
    case Push(r) =>
      var sp := Wrap64(s.regs[RSP] as int - 8);
      if sp % 8 != 0 then None else Some(s.(regs := s.regs[RSP := sp], mem := s.mem[sp := s.regs[r]]))
    case Pop(r) =>
      var sp := s.regs[RSP];
      if sp % 8 != 0 then None else Some(s.(regs := s.regs[RSP := Wrap64(sp as int + 8)][r := Cell(s.mem, sp)]))
    case Store(o, r) => if !Accessible(s, o) then None else Some(Put(s, o, s.regs[r]))
    case Load(r, o) => if !Accessible(s, o) then None else Some(s.(regs := s.regs[r := Get(s, o)]))
    case AluOp(op, o, r) => if !Accessible(s, o) then None else Some(Put(s, o, AluVal(op, Get(s, o), s.regs[r])))
    case AluImm(op, r, imm) => Some(s.(regs := s.regs[r := AluVal(op, s.regs[r], Wrap64(imm))]))
    case Imul(r, o) => if !Accessible(s, o) then None else Some(s.(regs := s.regs[r := Wrap64(s.regs[r] * Get(s, o))]))
    case ShiftImm(op, r, k) => if k < 0 then None else Some(s.(regs := s.regs[r := ShiftVal(op, s.regs[r], k)]))
    case MovImm64(r, v) => Some(s.(regs := s.regs[r := v]))
    case Call(r) => CallTramp(s, host, s.regs[r])
    case Ret => None
  }

  datatype Outcome = Stuck | Returned(s: State, to: u64)

  function Return(s: State): Outcome
    requires |s.regs| == 8
  {
    var sp := s.regs[RSP];
    if sp % 8 != 0 then Stuck else Returned(s.(regs := s.regs[RSP := Wrap64(sp as int + 8)]), Cell(s.mem, sp))
  }

  /** Running code bytes from position k to the first ret. */
  function Run(code: seq<u8>, k: nat, s: State, host: Host): Outcome
    requires |s.regs| == 8
    decreases |code| - k
  {
    match DecodeAt(code, k)
    case None => Stuck
    case Some((i, len)) =>
      if i.Ret? then Return(s)
      else if len == 0 then Stuck
      else match Exec(i, s, host)
        case None => Stuck
        case Some(s') => Run(code, k + len, s', host)
  }

  /** Position and state after n instructions, none of them a ret. */
  function After(code: seq<u8>, k: nat, s: State, host: Host, n: nat): (r: Option<(nat, State)>)
    requires |s.regs| == 8
    ensures r.Some? ==> |r.value.1.regs| == 8
    decreases n
  {
    if n == 0 then Some((k, s))
    else match DecodeAt(code, k)
      case None => None
      case Some((i, len)) =>
        if i.Ret? then None
        else match Exec(i, s, host)
          case None => None
          case Some(s') => After(code, k + len, s', host, n - 1)
  }

  lemma {:induction false} AfterThen(code: seq<u8>, k: nat, s: State, host: Host, m: nat, n: nat)
    requires |s.regs| == 8 && After(code, k, s, host, m).Some?
    ensures var (k', s') := After(code, k, s, host, m).value; After(code, k, s, host, m + n) == After(code, k', s', host, n)
    decreases m
  {
    hide DecodeAt, Exec;
    if m > 0 {
      var (i, len) := DecodeAt(code, k).value;
      AfterThen(code, k + len, Exec(i, s, host).value, host, m - 1, n);
    }
  }
}
