/** Fixed-width machine words as bounded integers, and their bits.

    Every word is a mathematical integer with an explicit bound, and every
    wrap-around is an explicit `%`.  Bitwise operators are defined bit by bit;
    `BitsEqual` lets identities between them be proved one bit at a time. */
module Words {
  const TWO32: int := 0x1_0000_0000
  const TWO63: int := 0x8000_0000_0000_0000
  const TWO64: int := 0x1_0000_0000_0000_0000

  type u8 = x: int | 0 <= x < 0x100
  type u32 = x: int | 0 <= x < 0x1_0000_0000
  type u64 = x: int | 0 <= x < 0x1_0000_0000_0000_0000
  type i64 = x: int | -0x8000_0000_0000_0000 <= x < 0x8000_0000_0000_0000

  function Wrap32(x: int): u32 { x % 0x1_0000_0000 }
  function Wrap64(x: int): u64 { x % 0x1_0000_0000_0000_0000 }

  /** Two's-complement reading of a 64-bit word, and its inverse. */
  function Signed(x: u64): i64 { if x < TWO63 then x else x - TWO64 }
  function WrapSigned(x: int): i64 { Signed(Wrap64(x)) }

  // ----- powers of two and bits -----

  function Pow2(n: nat): (r: nat)
    ensures r >= 1
  {
    if n == 0 then 1 else 2 * Pow2(n - 1)
  }

  lemma {:induction false} Pow2Add(m: nat, n: nat)
    ensures Pow2(m + n) == Pow2(m) * Pow2(n)
  {
    if m != 0 {
      Pow2Add(m - 1, n);
      assert Pow2(m + n) == 2 * Pow2(m - 1 + n);
      assert 2 * (Pow2(m - 1) * Pow2(n)) == (2 * Pow2(m - 1)) * Pow2(n);
    }
  }

  lemma Pow2Values()
    ensures Pow2(8) == 0x100
    ensures Pow2(16) == 0x1_0000
    ensures Pow2(32) == TWO32
    ensures Pow2(64) == TWO64
  {
    assert Pow2(4) == 16;
    Pow2Add(4, 4);
    Pow2Add(8, 8);
    Pow2Add(16, 16);
    Pow2Add(32, 32);
  }

  predicate Bit(x: nat, i: nat)
    decreases i
  {
    if i == 0 then x % 2 == 1 else Bit(x / 2, i - 1)
  }

  /** Two n-bit numbers with the same bits are the same number. */
  lemma {:induction false} BitsEqual(n: nat, x: nat, y: nat)
    requires x < Pow2(n) && y < Pow2(n)
    requires forall i: nat :: i < n ==> Bit(x, i) == Bit(y, i)
    ensures x == y
  {
    if n != 0 {
      assert Bit(x, 0) == Bit(y, 0);
      forall i: nat | i < n - 1
        ensures Bit(x / 2, i) == Bit(y / 2, i)
      {
        assert Bit(x, i + 1) == Bit(y, i + 1);
      }
      BitsEqual(n - 1, x / 2, y / 2);
    }
  }

  /** Reducing modulo 2^n keeps the low n bits. */
  lemma {:induction false} BitMod(x: nat, n: nat, i: nat)
    requires i < n
    ensures Bit(x % Pow2(n), i) == Bit(x, i)
    decreases n
  {
    var m := Pow2(n - 1);
    var q, r := x / (2 * m), x % (2 * m);
    assert x == q * (2 * m) + r;
    assert x == 2 * (q * m) + r;
    if i != 0 {
      assert x / 2 == q * m + r / 2;
      assert r / 2 < m;
      ModUnique(x / 2, m, q, r / 2);
      BitMod(x / 2, n - 1, i - 1);
    }
  }

  lemma ModUnique(x: int, m: nat, q: int, r: int)
    requires m > 0 && 0 <= r < m && x == q * m + r
    ensures x % m == r && x / m == q
  {
    var q', r' := x / m, x % m;
    assert x == q' * m + r';
    assert (q - q') * m == r' - r;
    assert q - q' >= 1 ==> (q - q') * m >= m;
    assert q - q' <= -1 ==> (q - q') * m <= 0 - m;
  }

  lemma {:induction false} BitZero(i: nat)
    ensures !Bit(0, i)
    decreases i
  {
    if i != 0 { BitZero(i - 1); }
  }

  /** Adding 2^i flips bit i. */
  lemma {:induction false} BitFlip(x: nat, i: nat)
    ensures Bit(x + Pow2(i), i) == !Bit(x, i)
    decreases i
  {
    if i != 0 {
      assert (x + Pow2(i)) / 2 == x / 2 + Pow2(i - 1);
      BitFlip(x / 2, i - 1);
    }
  }

  /** Setting a clear bit changes that bit only. */
  lemma {:induction false} BitSet(x: nat, i: nat, k: nat)
    requires !Bit(x, i)
    ensures Bit(x + Pow2(i), k) == (k == i || Bit(x, k))
    decreases i
  {
    if k == i {
      BitFlip(x, i);
    } else if i == 0 {
      assert x % 2 == 0;
    } else {
      assert (x + Pow2(i)) / 2 == x / 2 + Pow2(i - 1);
      if k != 0 { BitSet(x / 2, i - 1, k - 1); }
    }
  }

  /** A number below 2^n with a clear bit i < n stays below 2^n when it is set. */
  lemma {:induction false} BitSetBound(x: nat, i: nat, n: nat)
    requires i < n && x < Pow2(n) && !Bit(x, i)
    ensures x + Pow2(i) < Pow2(n)
    decreases n
  {
    if i == 0 {
      assert x % 2 == 0;
    } else {
      BitSetBound(x / 2, i - 1, n - 1);
      assert x <= 2 * (x / 2) + 1;
    }
  }

  // ----- bitwise operators -----

  datatype BitOp = BitAnd | BitOr | BitXor {
    predicate On(a: bool, b: bool) {
      match this
      case BitAnd => a && b
      case BitOr => a || b
      case BitXor => a != b
    }
  }

  function Bitwise(op: BitOp, n: nat, x: nat, y: nat): nat
  {
    if n == 0 then 0
    else (if op.On(x % 2 == 1, y % 2 == 1) then 1 else 0) + 2 * Bitwise(op, n - 1, x / 2, y / 2)
  }

  lemma {:induction false} BitwiseBound(op: BitOp, n: nat, x: nat, y: nat)
    ensures Bitwise(op, n, x, y) < Pow2(n)
  {
    if n != 0 { BitwiseBound(op, n - 1, x / 2, y / 2); }
  }

  lemma {:induction false} BitOfBitwise(op: BitOp, n: nat, x: nat, y: nat, i: nat)
    requires i < n
    ensures Bit(Bitwise(op, n, x, y), i) == op.On(Bit(x, i), Bit(y, i))
  {
    var low, high := if op.On(x % 2 == 1, y % 2 == 1) then 1 else 0, Bitwise(op, n - 1, x / 2, y / 2);
    var r := Bitwise(op, n, x, y);
    assert r == low + 2 * high;
    assert r / 2 == high && r % 2 == low;
    if i != 0 { BitOfBitwise(op, n - 1, x / 2, y / 2, i - 1); }
  }

  function And(x: u64, y: u64): u64 { Pow2Values(); BitwiseBound(BitAnd, 64, x, y); Bitwise(BitAnd, 64, x, y) }
  function Or(x: u64, y: u64): u64 { Pow2Values(); BitwiseBound(BitOr, 64, x, y); Bitwise(BitOr, 64, x, y) }
  function Xor(x: u64, y: u64): u64 { Pow2Values(); BitwiseBound(BitXor, 64, x, y); Bitwise(BitXor, 64, x, y) }
  function Not(x: u64): u64 { TWO64 - 1 - x }

  lemma {:induction false} BitComplement(n: nat, x: nat, i: nat)
    requires x < Pow2(n) && i < n
    ensures Bit(Pow2(n) - 1 - x, i) == !Bit(x, i)
    decreases n
  {
    if i != 0 {
      assert (Pow2(n) - 1 - x) / 2 == Pow2(n - 1) - 1 - x / 2;
      BitComplement(n - 1, x / 2, i - 1);
    }
  }

  /** What each operator does to each bit. */
  lemma BitAndAt(x: u64, y: u64, i: nat)
    requires i < 64
    ensures Bit(And(x, y), i) == (Bit(x, i) && Bit(y, i))
  {
    BitOfBitwise(BitAnd, 64, x, y, i);
  }

  lemma BitOrAt(x: u64, y: u64, i: nat)
    requires i < 64
    ensures Bit(Or(x, y), i) == (Bit(x, i) || Bit(y, i))
  {
    BitOfBitwise(BitOr, 64, x, y, i);
  }

  lemma BitXorAt(x: u64, y: u64, i: nat)
    requires i < 64
    ensures Bit(Xor(x, y), i) == (Bit(x, i) != Bit(y, i))
  {
    BitOfBitwise(BitXor, 64, x, y, i);
  }

  lemma BitNotAt(x: u64, i: nat)
    requires i < 64
    ensures Bit(Not(x), i) == !Bit(x, i)
  {
    Pow2Values();
    BitComplement(64, x, i);
  }

  lemma BitWrapAt(x: nat, i: nat)
    requires i < 64
    ensures Bit(Wrap64(x), i) == Bit(x, i)
  {
    Pow2Values();
    BitMod(x, 64, i);
  }

  lemma WordsEqual(x: u64, y: u64)
    requires forall i: nat :: i < 64 ==> Bit(x, i) == Bit(y, i)
    ensures x == y
  {
    Pow2Values();
    BitsEqual(64, x, y);
  }

  // ----- ripple-carry addition -----

  /** The carry into bit i of the sum x + y + c. */
  function CarryAt(x: nat, y: nat, c: nat, i: nat): (r: nat)
    requires c <= 1
    ensures r <= 1
    decreases i
  {
    if i == 0 then c else CarryAt(x / 2, y / 2, (x % 2 + y % 2 + c) / 2, i - 1)
  }

  lemma {:induction false} BitOfSum(x: nat, y: nat, c: nat, i: nat)
    requires c <= 1
    ensures Bit(x + y + c, i) == ((Bit(x, i) != Bit(y, i)) != (CarryAt(x, y, c, i) == 1))
    decreases i
  {
    if i != 0 {
      var c' := (x % 2 + y % 2 + c) / 2;
      assert (x + y + c) / 2 == x / 2 + y / 2 + c';
      BitOfSum(x / 2, y / 2, c', i - 1);
    }
  }

  /** Carries are monotone in the bits of both summands. */
  lemma {:induction false} CarryMonotone(x: nat, y: nat, x': nat, y': nat, c: nat, c': nat, i: nat)
    requires c <= c' <= 1
    requires forall k: nat :: k < i ==> (Bit(x, k) ==> Bit(x', k)) && (Bit(y, k) ==> Bit(y', k))
    ensures CarryAt(x, y, c, i) <= CarryAt(x', y', c', i)
    decreases i
  {
    if i != 0 {
      assert Bit(x, 0) ==> Bit(x', 0);
      assert Bit(y, 0) ==> Bit(y', 0);
      forall k: nat | k < i - 1
        ensures (Bit(x / 2, k) ==> Bit(x' / 2, k)) && (Bit(y / 2, k) ==> Bit(y' / 2, k))
      {
        assert Bit(x, k + 1) ==> Bit(x', k + 1);
        assert Bit(y, k + 1) ==> Bit(y', k + 1);
      }
      CarryMonotone(x / 2, y / 2, x' / 2, y' / 2, (x % 2 + y % 2 + c) / 2, (x' % 2 + y' % 2 + c') / 2, i - 1);
    }
  }

  /** Numbers with no bit in common add without a carry. */
  lemma {:induction false} DisjointSum(x: nat, y: nat, i: nat)
    requires forall k: nat :: k <= i ==> !(Bit(x, k) && Bit(y, k))
    ensures Bit(x + y, i) == (Bit(x, i) || Bit(y, i))
    decreases i
  {
    assert !(Bit(x, 0) && Bit(y, 0));
    if i != 0 {
      forall k: nat | k <= i - 1
        ensures !(Bit(x / 2, k) && Bit(y / 2, k))
      {
        assert !(Bit(x, k + 1) && Bit(y, k + 1));
      }
      assert (x + y) / 2 == x / 2 + y / 2;
      DisjointSum(x / 2, y / 2, i - 1);
    }
  }

  /** ... and so their sum stays within the same number of bits. */
  lemma {:induction false} DisjointBound(x: nat, y: nat, n: nat)
    requires x < Pow2(n) && y < Pow2(n)
    requires forall k: nat :: k < n ==> !(Bit(x, k) && Bit(y, k))
    ensures x + y < Pow2(n)
    decreases n
  {
    if n != 0 {
      assert !(Bit(x, 0) && Bit(y, 0));
      forall k: nat | k < n - 1
        ensures !(Bit(x / 2, k) && Bit(y / 2, k))
      {
        assert !(Bit(x, k + 1) && Bit(y, k + 1));
      }
      DisjointBound(x / 2, y / 2, n - 1);
    }
  }

  // ----- shifts -----

  function ShiftLeft(x: u64, k: nat): u64 { Wrap64(x * Pow2(k)) }
  function ShiftRight(x: u64, k: nat): u64 { QuotientBound(x, Pow2(k)); x / Pow2(k) }

  lemma QuotientBound(x: int, p: int)
    requires p >= 1
    ensures 0 <= x ==> 0 <= x / p <= x
    ensures x < 0 ==> x <= x / p < 0
  {
    QuotientWithin(x, p, x / p, x % p);
  }

  lemma MulSign(a: int, b: int)
    requires a >= 0 && b >= 0
    ensures a * b >= 0
  {
  }

  lemma QuotientWithin(x: int, p: int, q: int, r: int)
    requires p >= 1 && x == q * p + r && 0 <= r < p
    ensures 0 <= x ==> 0 <= q <= x
    ensures x < 0 ==> x <= q < 0
  {
    if q >= 0 {
      MulSign(q, p - 1);
      assert q * (p - 1) == q * p - q;
    } else {
      MulSign(-q - 1, p - 1);
      assert (-q - 1) * (p - 1) == q - q * p - p + 1;
    }
  }

  /** Shifts move bits. */
  lemma {:induction false} BitShiftRight(x: nat, k: nat, y: nat, i: nat)
    requires y == x / Pow2(k)
    ensures Bit(y, i) == Bit(x, i + k)
    decreases k
  {
    if k > 0 {
      DivDiv(x, 2, Pow2(k - 1));
      BitShiftRight(x / 2, k - 1, y, i);
    }
  }

  lemma DivDiv(v: nat, a: nat, b: nat)
    requires a > 0 && b > 0
    ensures a * b > 0 && v / a / b == v / (a * b)
  {
    var q, r := v / a / b, v / a % b;
    assert v / a == q * b + r;
    assert v == a * (q * b + r) + v % a;
    MulSign(a - 1, b - 1 - r);
    assert (a - 1) * (b - 1 - r) >= 0;
    assert a * (b - 1 - r) >= 0 by { MulSign(a, b - 1 - r); }
    var rest := a * r + v % a;
    assert 0 <= rest < a * b by { MulSign(a, r); assert a * (b - 1 - r) == a * b - a - a * r; }
    assert v == q * (a * b) + rest by { assert a * (q * b + r) == q * (a * b) + a * r; }
    assert a * b > 0 by { MulSign(a - 1, b - 1); assert (a - 1) * (b - 1) == a * b - a - b + 1; }
    ModUnique(v, a * b, q, rest);
  }

  lemma {:induction false} BitShiftLeft(x: nat, k: nat, i: nat)
    ensures Bit(x * Pow2(k), i) == (i >= k && Bit(x, i - k))
    decreases k
  {
    if k > 0 {
      var y := x * Pow2(k - 1);
      assert x * Pow2(k) == 2 * y;
      if i > 0 { BitShiftLeft(x, k - 1, i - 1); }
    }
  }

  /** Arithmetic shift: floor division of the signed reading. */
  function ShiftRightArith(x: u64, k: nat): u64 { Wrap64(Signed(x) / Pow2(k)) }
}
