/** Multiplication in GF(2^128) with the GCM polynomial, as `mul` computes it:
    a 128-bit word is the sequence of its bits, most significant first, so bit 0
    of the sequence is the coefficient of x^0 in the GCM convention. */
module Gf128 {
  import opened Seqs

  type Bits = seq<bool>

  type Block = b: Bits | |b| == 128 witness seq(128, _ => false)

  function Zeros(n: nat): (r: Bits)
    ensures |r| == n
    ensures forall i :: 0 <= i < n ==> !r[i]
  {
    seq(n, _ => false)
  }

  const ZERO: Block := Zeros(128)

  /** The multiplicative unit: the polynomial 1, that is the word 1 << 127. */
  const ONE: Block := [true] + Zeros(127)

  /** 0xe1 << 120: the polynomial 1 + x + x^2 + x^7, which equals x^128. */
  const POLY: Block := [true, true, true, false, false, false, false, true] + Zeros(120)

  function Xor(a: Bits, b: Bits): (r: Bits)
    requires |a| == |b|
    ensures |r| == |a|
  {
    if a == [] then [] else [a[0] != b[0]] + Xor(a[1..], b[1..])
  }

  /** The machine shift by one towards the low end. */
  function ShiftRight(v: Block): Block {
    [false] + v[..127]
  }

  /** One turn of `v`: shift right and reduce, i.e. multiply by x. */
  function TimesX(v: Block): Block {
    if v[127] then Xor(ShiftRight(v), POLY) else ShiftRight(v)
  }

  /** The sum of v * x^i over the set bits i of `bits`. */
  function Combine(bits: Bits, v: Block): Block {
    if bits == [] then ZERO
    else Xor(if bits[0] then v else ZERO, Combine(bits[1..], TimesX(v)))
  }

  function Product(x: Block, y: Block): Block {
    Combine(x, y)
  }

  function Power(h: Block, n: nat): Block {
    if n == 0 then ONE else Product(h, Power(h, n - 1))
  }

  /** What one iteration of the loop does to the accumulated sum. */
  lemma CombineStep(z: Block, x: Block, k: nat, v: Block)
    requires k < 128
    ensures Xor(z, Combine(x[k..], v))
         == Xor(if x[k] then Xor(z, v) else z, Combine(x[k + 1..], TimesX(v)))
  {
    var rest := Combine(x[k + 1..], TimesX(v));
    DropDrop(x, k, 1);
    XorSwap(z, if x[k] then v else ZERO, rest);
    XorZero(z);
  }

  lemma CombineDone(z: Block, x: Block, v: Block)
    ensures Xor(z, Combine(x[128..], v)) == z
  {
    XorZero(z);
  }

  method Mul(x: Block, y: Block) returns (z: Block)
    ensures z == Product(x, y)
  {
    z := ZERO;
    var v := y;
    Empty(x);
    XorZero(Product(x, y));
    for i := 128 downto 0
      invariant Xor(z, Combine(x[128 - i..], v)) == Product(x, y)
    {
      CombineStep(z, x, 127 - i, v);
      if x[127 - i] {
        z := Xor(z, v);
      }
      ghost var turned := TimesX(v);
      var lsb := v[127];
      v := ShiftRight(v);
      if lsb {
        v := Xor(v, POLY);
      }
      assert v == turned;
    }
    CombineDone(z, x, v);
  }

  // ---- xor is a commutative group operation ----

  lemma {:induction false} XorAt(a: Bits, b: Bits)
    requires |a| == |b|
    ensures forall i :: 0 <= i < |a| ==> Xor(a, b)[i] == (a[i] != b[i])
  {
    if a != [] {
      XorAt(a[1..], b[1..]);
    }
  }

  lemma {:induction false} XorSelf(a: Bits)
    ensures Xor(a, Zeros(|a|)) == a && Xor(Zeros(|a|), a) == a && Xor(a, a) == Zeros(|a|)
  {
    if a != [] {
      assert Zeros(|a|)[1..] == Zeros(|a| - 1);
      XorSelf(a[1..]);
      assert Zeros(|a|) == [false] + Zeros(|a| - 1);
    }
  }

  lemma XorZero(a: Block)
    ensures Xor(a, ZERO) == a && Xor(ZERO, a) == a && Xor(a, a) == ZERO
  {
    XorSelf(a);
  }

  lemma {:induction false} XorComm(a: Bits, b: Bits)
    requires |a| == |b|
    ensures Xor(a, b) == Xor(b, a)
  {
    if a != [] {
      XorComm(a[1..], b[1..]);
    }
  }

  lemma {:induction false} XorAssoc(a: Bits, b: Bits, c: Bits)
    requires |a| == |b| == |c|
    ensures Xor(Xor(a, b), c) == Xor(a, Xor(b, c))
  {
    if a != [] {
      XorAssoc(a[1..], b[1..], c[1..]);
    }
  }

  lemma XorSwap(a: Bits, b: Bits, c: Bits)
    requires |a| == |b| == |c|
    ensures Xor(Xor(a, b), c) == Xor(a, Xor(b, c))
    ensures Xor(a, Xor(b, c)) == Xor(b, Xor(a, c))
  {
    XorAssoc(a, b, c);
    XorAssoc(b, a, c);
    XorComm(a, b);
  }

  lemma XorMiddle(a: Bits, b: Bits, c: Bits, d: Bits)
    requires |a| == |b| == |c| == |d|
    ensures Xor(Xor(a, b), Xor(c, d)) == Xor(Xor(a, c), Xor(b, d))
  {
    XorAssoc(a, b, Xor(c, d));
    XorSwap(b, c, d);
    XorAssoc(a, c, Xor(b, d));
  }

  lemma {:induction false} XorAppend(a: Bits, b: Bits, c: Bits, d: Bits)
    requires |a| == |b| && |c| == |d|
    ensures Xor(a + c, b + d) == Xor(a, b) + Xor(c, d)
  {
    if a == [] {
      Empty(c);
      Empty(d);
      Empty(Xor(c, d));
    } else {
      DropLeft(a, c, 1);
      DropLeft(b, d, 1);
      XorAppend(a[1..], b[1..], c, d);
      Assoc([a[0] != b[0]], Xor(a[1..], b[1..]), Xor(c, d));
    }
  }

  // ---- linearity ----

  lemma ShiftLinear(u: Block, v: Block)
    ensures ShiftRight(Xor(u, v)) == Xor(ShiftRight(u), ShiftRight(v))
    ensures Xor(u, v)[127] == (u[127] != v[127])
  {
    XorAt(u, v);
    Split(u, 127);
    Split(v, 127);
    XorAppend(u[..127], v[..127], u[127..], v[127..]);
    Parts(Xor(u[..127], v[..127]), Xor(u[127..], v[127..]));
    XorAppend([false], [false], u[..127], v[..127]);
  }

  lemma TimesXLinear(u: Block, v: Block)
    ensures TimesX(Xor(u, v)) == Xor(TimesX(u), TimesX(v))
  {
    var (a, b) := (ShiftRight(u), ShiftRight(v));
    ShiftLinear(u, v);
    XorSwap(a, b, POLY);
    XorMiddle(a, POLY, b, POLY);
    XorZero(POLY);
    XorZero(Xor(a, b));
    XorAssoc(a, POLY, b);
    XorComm(POLY, b);
  }

  lemma TimesXZero()
    ensures TimesX(ZERO) == ZERO
  {
    assert ShiftRight(ZERO) == ZERO;
  }

  lemma {:induction false} CombineZero(bits: Bits)
    ensures Combine(bits, ZERO) == ZERO
  {
    if bits != [] {
      TimesXZero();
      CombineZero(bits[1..]);
      XorZero(ZERO);
    }
  }

  lemma {:induction false} CombineLinearRight(bits: Bits, u: Block, v: Block)
    ensures Combine(bits, Xor(u, v)) == Xor(Combine(bits, u), Combine(bits, v))
  {
    if bits == [] {
      XorZero(ZERO);
    } else {
      TimesXLinear(u, v);
      CombineLinearRight(bits[1..], TimesX(u), TimesX(v));
      XorMiddle(if bits[0] then u else ZERO, Combine(bits[1..], TimesX(u)),
                if bits[0] then v else ZERO, Combine(bits[1..], TimesX(v)));
      XorZero(ZERO);
    }
  }

  lemma {:induction false} CombineLinearLeft(a: Bits, b: Bits, v: Block)
    requires |a| == |b|
    ensures Combine(Xor(a, b), v) == Xor(Combine(a, v), Combine(b, v))
  {
    if a == [] {
      XorZero(ZERO);
    } else {
      CombineLinearLeft(a[1..], b[1..], TimesX(v));
      XorMiddle(if a[0] then v else ZERO, Combine(a[1..], TimesX(v)),
                if b[0] then v else ZERO, Combine(b[1..], TimesX(v)));
      XorZero(v);
      XorZero(ZERO);
    }
  }

  lemma ProductLinear(x: Block, y: Block, z: Block)
    ensures Product(Xor(x, y), z) == Xor(Product(x, z), Product(y, z))
    ensures Product(z, Xor(x, y)) == Xor(Product(z, x), Product(z, y))
  {
    CombineLinearLeft(x, y, z);
    CombineLinearRight(z, x, y);
  }

  lemma {:induction false} CombineTimesX(bits: Bits, v: Block)
    ensures Combine(bits, TimesX(v)) == TimesX(Combine(bits, v))
  {
    if bits == [] {
      TimesXZero();
    } else {
      CombineTimesX(bits[1..], TimesX(v));
      TimesXLinear(if bits[0] then v else ZERO, Combine(bits[1..], TimesX(v)));
      TimesXZero();
    }
  }

  // ---- the product is commutative and associative, with unit ONE ----

  lemma {:induction false} CombineExchange(a: Bits, b: Bits, v: Block)
    ensures Combine(a, Combine(b, v)) == Combine(b, Combine(a, v))
  {
    if b == [] {
      CombineZero(a);
    } else {
      var first := if b[0] then v else ZERO;
      CombineLinearRight(a, first, Combine(b[1..], TimesX(v)));
      CombineExchange(a, b[1..], TimesX(v));
      CombineTimesX(a, v);
      CombineZero(a);
    }
  }

  /** x^i, for i below 128, is the word with the single bit i set. */
  function Unit(i: nat): Block
    requires i < 128
  {
    Zeros(i) + [true] + Zeros(127 - i)
  }

  lemma UnitTurn(i: nat)
    requires i < 127
    ensures TimesX(Unit(i)) == Unit(i + 1)
  {
  }

  lemma UnitPrefix(x: Block, i: nat)
    requires i < 128
    ensures Xor(if x[i] then Unit(i) else ZERO, Zeros(i + 1) + x[i + 1..]) == Zeros(i) + x[i..]
  {
    var sum := Zeros(i + 1) + x[i + 1..];
    XorAt(Unit(i), sum);
    XorZero(sum);
    if x[i] {
      assert Xor(Unit(i), sum) == Zeros(i) + x[i..];
    } else {
      assert sum == Zeros(i) + x[i..];
    }
  }

  lemma {:induction false} CombineUnit(x: Block, i: nat)
    requires i < 128
    ensures Combine(x[i..], Unit(i)) == Zeros(i) + x[i..]
    decreases 128 - i
  {
    assert x[i..][1..] == x[i + 1..];
    UnitPrefix(x, i);
    if i < 127 {
      UnitTurn(i);
      CombineUnit(x, i + 1);
    } else {
      assert Zeros(128) + x[128..] == ZERO;
    }
  }

  lemma ProductUnit(x: Block)
    ensures Product(x, ONE) == x && Product(ONE, x) == x
  {
    assert ONE == Unit(0);
    assert x[0..] == x && Zeros(0) + x == x;
    CombineUnit(x, 0);
    ProductComm(ONE, x);
  }

  lemma ProductComm(x: Block, y: Block)
    ensures Product(x, y) == Product(y, x)
  {
    assert ONE == Unit(0);
    assert x[0..] == x && y[0..] == y && Zeros(0) + x == x && Zeros(0) + y == y;
    CombineUnit(x, 0);
    CombineUnit(y, 0);
    CombineExchange(x, y, ONE);
  }

  lemma ProductAssoc(x: Block, y: Block, z: Block)
    ensures Product(Product(x, y), z) == Product(x, Product(y, z))
  {
    ProductComm(Product(x, y), z);
    CombineExchange(z, x, y);
    ProductComm(z, y);
  }

  /** Turning x^127 once more gives the reduction polynomial: x^128 = x^7 + x^2 + x + 1. */
  lemma Reduction()
    ensures forall i | 0 <= i < 128 :: TimesX(Unit(127))[i] == (i == 0 || i == 1 || i == 2 || i == 7)
  {
    assert ShiftRight(Unit(127)) == ZERO;
    XorZero(POLY);
  }
}
