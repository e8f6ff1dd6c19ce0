/** The integer operations of the interpreter: two's complement, wrapping, with division
    that truncates toward zero. */
module Arithmetic {
  import opened Values
  import opened Decoder

  datatype Computed = Value(v: JValue) | DivideByZero | BadOperands

  function Abs(x: int): nat {
    if x < 0 then -x else x
  }

  /** Division toward zero. */
  function Quotient(x: int, y: int): int
    requires y != 0
  {
    if (x < 0) == (y < 0) then Abs(x) / Abs(y) else -(Abs(x) / Abs(y))
  }

  /** The remainder that goes with it: it has the sign of the dividend. */
  function Remainder(x: int, y: int): int
    requires y != 0
  {
    if x < 0 then -(Abs(x) % Abs(y)) else Abs(x) % Abs(y)
  }

  function Combine(op: Binop, a: int, b: int): (bit: nat)
    ensures bit < 2
  {
    match op
    case And => if a == 1 && b == 1 then 1 else 0
    case Or => if a == 1 || b == 1 then 1 else 0
    case _ => if a != b then 1 else 0
  }

  /** Combines two numbers bit by bit, over the lowest n bits of their two's complement. */
  function Bitwise(op: Binop, x: int, y: int, n: nat): (r: nat)
    decreases n
  {
    if n == 0 then 0 else Combine(op, x % 2, y % 2) + 2 * Bitwise(op, x / 2, y / 2, n - 1)
  }

  /** The exact result of an operation on numbers of the given width, before it wraps. */
  function Exact(op: Binop, x: int, y: int, width: nat): int
    requires width > 0
    requires op in {Div, Rem} ==> y != 0
  {
    match op
    case Add => x + y
    case Sub => x - y
    case Mul => x * y
    case Div => Quotient(x, y)
    case Rem => Remainder(x, y)
    case And => Bitwise(op, x, y, width)
    case Or => Bitwise(op, x, y, width)
    case Xor => Bitwise(op, x, y, width)
    case Shl => x * Pow2(y % width)
    case Shr => x / Pow2(y % width)
    case Ushr => x % Pow2(width) / Pow2(y % width)
  }

  const INT_BITS: nat := 32
  const LONG_BITS: nat := 64

  /** `binop`: both operands int, or both long. */
  function Compute(op: Binop, a: JValue, b: JValue): Computed {
    match (a, b)
    case (Int(x), Int(y)) =>
      if op in {Div, Rem} && y == 0 then DivideByZero
      else Value(Int(Wrap32(Exact(op, x, y, INT_BITS))))
    case (Long(x), Long(y)) =>
      if op in {Div, Rem} && y == 0 then DivideByZero
      else Value(Long(Wrap64(Exact(op, x, y, LONG_BITS))))
    case _ => BadOperands
  }

  // ---- what the operations mean ----

  lemma Divided(x: int, y: int)
    requires y != 0
    ensures x == y * Quotient(x, y) + Remainder(x, y)
    ensures Abs(Remainder(x, y)) < Abs(y)
    ensures x >= 0 ==> Remainder(x, y) >= 0
    ensures x <= 0 ==> Remainder(x, y) <= 0
  {
    var p, q := Abs(x), Abs(y);
    assert p == q * (p / q) + p % q;
    SignedProduct(y, p / q);
  }

  lemma SignedProduct(y: int, k: int)
    ensures y < 0 ==> y * k == -(Abs(y) * k) && y * -k == Abs(y) * k
    ensures y >= 0 ==> y * k == Abs(y) * k && y * -k == -(Abs(y) * k)
  {
  }

  /** Division in the registers: quotient and remainder of the operands, the remainder smaller
      than the divisor and with the sign of the dividend; only the least number divided by -1
      wraps. */
  predicate Divides(x: int, y: int, q: int, r: int) {
    && x == y * q + r
    && Abs(r) < Abs(y)
    && (x >= 0 ==> r >= 0) && (x <= 0 ==> r <= 0)
  }

  lemma DivisionExact(x: I32, y: I32)
    requires y != 0 && (x > -0x8000_0000 || y != -1)
    ensures exists q: I32, r: I32 :: Divides(x, y, q, r)
              && Compute(Div, Int(x), Int(y)) == Value(Int(q)) && Compute(Rem, Int(x), Int(y)) == Value(Int(r))
  {
    Divided(x, y);
    QuotientFits(x, y, 0x8000_0000);
    var q: I32, r: I32 := Quotient(x, y), Remainder(x, y);
    assert Divides(x, y, q, r);
  }

  lemma LongDivisionExact(x: I64, y: I64)
    requires y != 0 && (x > -0x8000_0000_0000_0000 || y != -1)
    ensures exists q: I64, r: I64 :: Divides(x, y, q, r)
              && Compute(Div, Long(x), Long(y)) == Value(Long(q))
              && Compute(Rem, Long(x), Long(y)) == Value(Long(r))
  {
    Divided(x, y);
    QuotientFits(x, y, 0x8000_0000_0000_0000);
    var q: I64, r: I64 := Quotient(x, y), Remainder(x, y);
    assert Divides(x, y, q, r);
  }

  lemma {:induction false} Grows(q: nat, d: nat)
    requires q > 0
    ensures d <= q * d && (q > 1 && d > 0 ==> d < q * d)
  {
    if q > 1 {
      Grows(q - 1, d);
      assert q * d == d + (q - 1) * d;
    }
  }

  lemma NatQuotient(p: nat, q: nat)
    requires q > 0
    ensures p / q <= p && (p > 0 && q > 1 ==> p / q < p) && p % q <= p
  {
    Grows(q, p / q);
    assert p == q * (p / q) + p % q;
  }

  lemma QuotientFits(x: int, y: int, m: int)
    requires y != 0 && m > 1 && -m <= x < m && -m <= y < m && (x > -m || y != -1)
    ensures -m <= Quotient(x, y) < m && -m <= Remainder(x, y) < m
  {
    NatQuotient(Abs(x), Abs(y));
    if Abs(y) == 1 {
      assert Abs(x) / Abs(y) == Abs(x) && Abs(x) % Abs(y) == 0;
    }
  }

  /** Operands of two kinds, and anything but ints and longs, are refused: also a long shifted
      by an int, the only operands that the instruction set gives shl-long, shr-long and
      ushr-long. */
  lemma OperandsExact(op: Binop, a: JValue, b: JValue)
    ensures Compute(op, a, b) == BadOperands <==> !(a.Int? && b.Int?) && !(a.Long? && b.Long?)
    ensures Compute(op, a, b) == DivideByZero
       <==> (op == Div || op == Rem) && ((a.Int? && b == Int(0)) || (a.Long? && b == Long(0)))
  {
  }

  /** The one quotient that does not fit wraps to itself. */
  lemma MinByMinusOne()
    ensures Compute(Div, Int(-0x8000_0000), Int(-1)) == Value(Int(-0x8000_0000))
    ensures Compute(Rem, Int(-0x8000_0000), Int(-1)) == Value(Int(0))
    ensures Compute(Div, Long(-0x8000_0000_0000_0000), Long(-1)) == Value(Long(-0x8000_0000_0000_0000))
    ensures Compute(Rem, Long(-0x8000_0000_0000_0000), Long(-1)) == Value(Long(0))
  {
  }

  /** Wrapping is the representative of the residue class in the signed range. */
  lemma WrapUnique(x: int, y: I32, k: int)
    requires x == y + k * 0x1_0000_0000
    ensures Wrap32(x) == y
  {
    Multiple(y + 0x8000_0000, k);
  }

  lemma Multiple(r: int, k: int)
    requires 0 <= r < 0x1_0000_0000
    ensures (r + k * 0x1_0000_0000) % 0x1_0000_0000 == r
  {
  }

  /** Bit i of the two's complement. */
  function Bit(x: int, i: nat): int {
    x / Pow2(i) % 2
  }

  lemma HalfDiv(x: int, p: nat)
    requires p > 0
    ensures x / (2 * p) == x / 2 / p
  {
    var h := x / 2;
    var q, r := h / p, h % p;
    assert x == (2 * p) * q + (x % 2 + 2 * r);
    DivUnique(x, 2 * p, q, x % 2 + 2 * r);
  }

  lemma DivUnique(x: int, m: nat, q: int, r: int)
    requires m > 0 && 0 <= r < m && x == m * q + r
    ensures x / m == q
  {
    ModUnique(x, m, q, r);
    var d := x / m - q;
    if d != 0 {
      AtLeast(m, d);
    }
  }

  /** Bit i of the combination is the combination of bits i. */
  lemma {:induction false} BitwiseAt(op: Binop, x: int, y: int, n: nat, i: nat)
    ensures Bit(Bitwise(op, x, y, n), i) == if i < n then Combine(op, Bit(x, i), Bit(y, i)) else 0
    decreases n
  {
    if n > 0 {
      var first, rest := Combine(op, x % 2, y % 2), Bitwise(op, x / 2, y / 2, n - 1);
      assert (first + 2 * rest) / 2 == rest && (first + 2 * rest) % 2 == first;
      if i > 0 {
        BitwiseAt(op, x / 2, y / 2, n - 1, i - 1);
        HalfDiv(first + 2 * rest, Pow2(i - 1));
        HalfDiv(x, Pow2(i - 1));
        HalfDiv(y, Pow2(i - 1));
      }
    }
  }

  lemma {:induction false} BitAbove(x: int, k: int, n: nat, i: nat)
    requires i < n
    ensures Bit(x + k * Pow2(n), i) == Bit(x, i)
    decreases i
  {
    var half := k * Pow2(n - 1);
    var y := x + 2 * half;
    assert k * Pow2(n) == 2 * half;
    assert y / 2 == x / 2 + half;
    if i > 0 {
      BitAbove(x / 2, k, n - 1, i - 1);
      HalfDiv(y, Pow2(i - 1));
      HalfDiv(x, Pow2(i - 1));
    }
  }

  lemma WrapKeepsBits(z: int, i: nat)
    ensures i < 32 ==> Bit(Wrap32(z), i) == Bit(z, i)
    ensures i < 64 ==> Bit(Wrap64(z), i) == Bit(z, i)
  {
    Powers();
    if i < 32 {
      BitAbove(z, -((z + 0x8000_0000) / 0x1_0000_0000), 32, i);
    }
    if i < 64 {
      BitAbove(z, -((z + 0x8000_0000_0000_0000) / 0x1_0000_0000_0000_0000), 64, i);
    }
  }

  /** What and, or and xor make of two bits. */
  predicate Combines(op: Binop, a: bool, b: bool, r: bool) {
    match op
    case And => r == (a && b)
    case Or => r == (a || b)
    case _ => r == (a != b)
  }

  /** So it is in the registers: every bit of the result of and, or and xor is the operation
      on the bits of the operands, the sign bit included. */
  lemma BitsCombine(op: Binop, x: I32, y: I32, i: nat)
    requires op in {And, Or, Xor} && i < 32
    ensures exists r: I32 :: Compute(op, Int(x), Int(y)) == Value(Int(r))
                          && Combines(op, Bit(x, i) == 1, Bit(y, i) == 1, Bit(r, i) == 1)
  {
    BitwiseAt(op, x, y, 32, i);
    WrapKeepsBits(Bitwise(op, x, y, 32), i);
  }

  lemma LongBitsCombine(op: Binop, x: I64, y: I64, i: nat)
    requires op in {And, Or, Xor} && i < 64
    ensures exists r: I64 :: Compute(op, Long(x), Long(y)) == Value(Long(r))
                          && Combines(op, Bit(x, i) == 1, Bit(y, i) == 1, Bit(r, i) == 1)
  {
    BitwiseAt(op, x, y, 64, i);
    WrapKeepsBits(Bitwise(op, x, y, 64), i);
  }

  // ---- sums, products and shifts ----

  lemma AsMultiple(x: int, p: nat) returns (k: int)
    requires p > 0
    ensures x % p == x + k * p
  {
    k := -(x / p);
    assert x == p * (x / p) + x % p && k * p == -(p * (x / p));
  }

  lemma WrapCongruent(z: int)
    ensures (Wrap32(z) - z) % 0x1_0000_0000 == 0
    ensures (Wrap64(z) - z) % 0x1_0000_0000_0000_0000 == 0
  {
    var k := AsMultiple(z + 0x8000_0000, 0x1_0000_0000);
    ModUnique(Wrap32(z) - z, 0x1_0000_0000, k, 0);
    var m := AsMultiple(z + 0x8000_0000_0000_0000, 0x1_0000_0000_0000_0000);
    ModUnique(Wrap64(z) - z, 0x1_0000_0000_0000_0000, m, 0);
  }

  /** The number that an addition, subtraction or multiplication stands for. */
  function Plainly(op: Binop, x: int, y: int): int {
    if op == Add then x + y else if op == Sub then x - y else x * y
  }

  /** The result of an addition, subtraction or multiplication is the int in the residue class
      of the exact one. */
  lemma SumsWrap(op: Binop, x: I32, y: I32)
    requires op in {Add, Sub, Mul}
    ensures exists r: I32 :: Compute(op, Int(x), Int(y)) == Value(Int(r))
              && (r - Plainly(op, x, y)) % 0x1_0000_0000 == 0
  {
    var r := Wrap32(Exact(op, x, y, INT_BITS));
    WrapCongruent(Exact(op, x, y, INT_BITS));
    assert Compute(op, Int(x), Int(y)) == Value(Int(r));
  }

  lemma LongSumsWrap(op: Binop, x: I64, y: I64)
    requires op in {Add, Sub, Mul}
    ensures exists r: I64 :: Compute(op, Long(x), Long(y)) == Value(Long(r))
              && (r - Plainly(op, x, y)) % 0x1_0000_0000_0000_0000 == 0
  {
    var r := Wrap64(Exact(op, x, y, LONG_BITS));
    WrapCongruent(Exact(op, x, y, LONG_BITS));
    assert Compute(op, Long(x), Long(y)) == Value(Long(r));
  }

  lemma {:induction false} PowSum(m: nat, n: nat)
    ensures Pow2(m + n) == Pow2(m) * Pow2(n)
  {
    if m > 0 {
      PowSum(m - 1, n);
      assert Pow2(m + n) == 2 * Pow2((m - 1) + n);
      assert 2 * (Pow2(m - 1) * Pow2(n)) == (2 * Pow2(m - 1)) * Pow2(n);
    }
  }

  lemma DivDiv(x: int, p: nat, q: nat)
    requires p > 0 && q > 0
    ensures p * q > 0 && x / p / q == x / (p * q)
  {
    var y := x / p;
    var r := x % p + p * (y % q);
    assert x == p * y + x % p && y == q * (y / q) + y % q;
    assert p * (q * (y / q)) == (p * q) * (y / q);
    assert x == (p * q) * (y / q) + r;
    assert p * (y % q) <= p * (q - 1);
    assert p * (q - 1) == p * q - p;
    DivUnique(x, p * q, y / q, r);
  }

  /** Bit i after a shift down by k is bit i + k. */
  lemma BitDown(x: int, k: nat, i: nat)
    ensures Bit(x / Pow2(k), i) == Bit(x, i + k)
  {
    PowSum(k, i);
    DivDiv(x, Pow2(k), Pow2(i));
  }

  /** After a shift up by k it is bit i - k, and zero below that. */
  lemma {:induction false} BitUp(x: int, k: nat, i: nat)
    ensures Bit(x * Pow2(k), i) == if i < k then 0 else Bit(x, i - k)
    decreases k
  {
    if k == 0 {
      assert Pow2(0) == 1;
    } else {
      var y := x * Pow2(k - 1);
      assert x * Pow2(k) == 2 * y;
      if i == 0 {
        assert 2 * y / Pow2(0) == 2 * y;
      } else {
        HalfDiv(2 * y, Pow2(i - 1));
        BitUp(x, k - 1, i - 1);
      }
    }
  }

  lemma {:induction false} PowGrows(m: nat, n: nat)
    requires m <= n
    ensures Pow2(m) <= Pow2(n)
    decreases n
  {
    if m < n {
      PowGrows(m, n - 1);
    }
  }

  lemma SmallQuotient(x: int, p: nat)
    requires p > 0 && x + p >= 0 && x < p
    ensures x / p == if x < 0 then -1 else 0
  {
    DivUnique(x, p, if x < 0 then -1 else 0, if x < 0 then x + p else x);
  }

  /** Beyond its width a number has its sign in every bit. */
  lemma SignBits(x: int, n: nat, i: nat)
    requires n > 0 && x + Pow2(n - 1) >= 0 && x < Pow2(n - 1) && i >= n - 1
    ensures Bit(x, i) == if x < 0 then 1 else 0
  {
    PowGrows(n - 1, i);
    SmallQuotient(x, Pow2(i));
  }

  /** A number reduced to n bits keeps those bits and has no others. */
  lemma LowBits(x: int, n: nat, i: nat)
    ensures Bit(x % Pow2(n), i) == if i < n then Bit(x, i) else 0
  {
    if i < n {
      var k := AsMultiple(x, Pow2(n));
      BitAbove(x, k, n, i);
    } else {
      PowGrows(n, i);
      SmallQuotient(x % Pow2(n), Pow2(i));
    }
  }

  /** Bit i of a number of the given width after a shift by k. Shifting up brings in zeros;
      shifting down brings in the sign, the unsigned one zeros. */
  function ShiftedBit(op: Binop, x: int, k: nat, width: nat, i: nat): int
    requires width > 0
  {
    match op
    case Shl => if i < k then 0 else Bit(x, i - k)
    case Shr => Bit(x, if i + k < width then i + k else width - 1)
    case _ => if i + k < width then Bit(x, i + k) else 0
  }

  /** The bits of a shift result before it wraps; the distance is taken modulo the width. */
  lemma ShiftExact(op: Binop, x: int, y: int, width: nat, i: nat)
    requires width > 0 && op in {Shl, Shr, Ushr} && i < width
    requires x + Pow2(width - 1) >= 0 && x < Pow2(width - 1)
    ensures var k := y % width;
      Bit(Exact(op, x, y, width), i) == ShiftedBit(op, x, k, width, i)
  {
    var k := y % width;
    if op == Shl {
      BitUp(x, k, i);
    } else if op == Shr {
      BitDown(x, k, i);
      SignBits(x, width, width - 1);
      if i + k >= width {
        SignBits(x, width, i + k);
      }
    } else {
      BitDown(x % Pow2(width), k, i);
      LowBits(x, width, i + k);
    }
  }

  /** So in the registers: every bit of a shifted int. */
  lemma ShiftBits(op: Binop, x: I32, y: I32, i: nat)
    requires op in {Shl, Shr, Ushr} && i < 32
    ensures exists r: I32 :: Compute(op, Int(x), Int(y)) == Value(Int(r))
              && Bit(r, i) == ShiftedBit(op, x, y % 32, 32, i)
  {
    HalfPowers();
    ShiftExact(op, x, y, 32, i);
    WrapKeepsBits(Exact(op, x, y, 32), i);
  }

  lemma LongShiftBits(op: Binop, x: I64, y: I64, i: nat)
    requires op in {Shl, Shr, Ushr} && i < 64
    ensures exists r: I64 :: Compute(op, Long(x), Long(y)) == Value(Long(r))
              && Bit(r, i) == ShiftedBit(op, x, y % 64, 64, i)
  {
    HalfPowers();
    ShiftExact(op, x, y, 64, i);
    WrapKeepsBits(Exact(op, x, y, 64), i);
  }

  lemma HalfPowers()
    ensures Pow2(31) == 0x8000_0000 && Pow2(63) == 0x8000_0000_0000_0000
  {
    Powers();
    assert Pow2(32) == 2 * Pow2(31) && Pow2(64) == 2 * Pow2(63);
  }

  lemma Powers()
    ensures Pow2(32) == 0x1_0000_0000 && Pow2(64) == 0x1_0000_0000_0000_0000
  {
    assert Pow2(8) == 0x100 && Pow2(16) == 0x100 * Pow2(8) && Pow2(24) == 0x100 * Pow2(16);
    assert Pow2(32) == 0x100 * Pow2(24) && Pow2(40) == 0x100 * Pow2(32);
    assert Pow2(48) == 0x100 * Pow2(40) && Pow2(56) == 0x100 * Pow2(48);
  }

  lemma ModUnique(x: int, m: nat, q: int, r: int)
    requires m > 0 && 0 <= r < m && x == m * q + r
    ensures x % m == r
  {
    var d := x / m - q;
    assert m * d == r - x % m;
    if d != 0 {
      AtLeast(m, d);
    }
  }

  lemma AtLeast(m: int, d: int)
    requires m > 0 && d != 0
    ensures m * d >= m || m * d <= -m
  {
  }
}
