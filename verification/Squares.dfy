/** Squaring in GF(2^128): additive, and computed by spreading the bits. */
module Squares {
  import opened Gf128
  import opened Seqs

  function Square(v: Block): Block {
    Product(v, v)
  }

  lemma SquareLinear(u: Block, v: Block)
    ensures Square(Xor(u, v)) == Xor(Square(u), Square(v))
  {
    ProductLinear(u, v, Xor(u, v));
    ProductLinear(u, v, u);
    ProductLinear(u, v, v);
    ProductComm(u, v);
    XorSwap(Product(u, u), Product(u, v), Xor(Product(u, v), Product(v, v)));
    XorAssoc(Product(u, v), Product(u, v), Product(v, v));
    XorZero(Product(u, v));
    XorZero(Product(v, v));
  }

  lemma ProductTurn(u: Block, v: Block)
    ensures Product(TimesX(u), v) == TimesX(Product(u, v))
  {
    ProductComm(TimesX(u), v);
    CombineTimesX(v, u);
    ProductComm(u, v);
  }

  lemma SquareTurn(v: Block)
    ensures Square(TimesX(v)) == TimesX(TimesX(Square(v)))
  {
    ProductTurn(v, TimesX(v));
    CombineTimesX(v, v);
  }

  lemma SquareZero()
    ensures Square(ZERO) == ZERO
  {
    CombineZero(ZERO);
  }

  /** Every exponent doubled. */
  function Doubled(bits: Bits): (r: Bits)
    ensures |r| == 2 * |bits|
  {
    if bits == [] then [] else [bits[0], false] + Doubled(bits[1..])
  }

  lemma {:induction false} DoubledAppend(a: Bits, b: Bits)
    ensures Doubled(a + b) == Doubled(a) + Doubled(b)
  {
    if a == [] {
      Empty(b);
      Empty(Doubled(b));
    } else {
      DropLeft(a, b, 1);
      DoubledAppend(a[1..], b);
      Assoc([a[0], false], Doubled(a[1..]), Doubled(b));
    }
  }

  /** The square of a sum of powers is the sum of their squares. */
  lemma {:induction false} SquareCombine(bits: Bits, v: Block)
    ensures Square(Combine(bits, v)) == Combine(Doubled(bits), Square(v))
  {
    if bits == [] {
      SquareZero();
    } else {
      var first, rest := if bits[0] then v else ZERO, Combine(bits[1..], TimesX(v));
      SquareLinear(first, rest);
      SquareZero();
      SquareCombine(bits[1..], TimesX(v));
      SquareTurn(v);
      CombineTwo(bits[0], Doubled(bits[1..]), Square(v));
    }
  }

  lemma CombineTwo(b: bool, tail: Bits, v: Block)
    ensures Combine([b, false] + tail, v) == Xor(if b then v else ZERO, Combine(tail, TimesX(TimesX(v))))
  {
    var bits := [b, false] + tail;
    assert bits[1..] == [false] + tail && bits[1..][1..] == tail;
    XorZero(Combine(tail, TimesX(TimesX(v))));
  }

  function Turns(v: Block, n: nat): Block
    decreases n
  {
    if n == 0 then v else Turns(TimesX(v), n - 1)
  }

  lemma {:induction false} CombineAppend(a: Bits, b: Bits, v: Block)
    ensures Combine(a + b, v) == Xor(Combine(a, v), Combine(b, Turns(v, |a|)))
  {
    if a == [] {
      Empty(b);
      XorZero(Combine(b, v));
    } else {
      DropLeft(a, b, 1);
      CombineAppend(a[1..], b, TimesX(v));
      XorAssoc(if a[0] then v else ZERO, Combine(a[1..], TimesX(v)), Combine(b, Turns(v, |a|)));
    }
  }

  lemma {:induction false} TurnsOfUnit(i: nat, n: nat)
    requires i + n < 128
    ensures Turns(Unit(i), n) == Unit(i + n)
    decreases n
  {
    if n > 0 {
      UnitTurn(i);
      TurnsOfUnit(i + 1, n - 1);
    }
  }

  lemma {:induction false} TurnsLast(v: Block, n: nat)
    ensures Turns(v, n + 1) == TimesX(Turns(v, n))
    decreases n
  {
    if n > 0 {
      TurnsLast(TimesX(v), n - 1);
    }
  }

  lemma TurnsOfOne()
    ensures Turns(ONE, 128) == POLY
  {
    assert ONE == Unit(0);
    TurnsOfUnit(0, 127);
    TurnsLast(ONE, 127);
    assert ShiftRight(Unit(127)) == ZERO;
    XorZero(POLY);
  }

  lemma {:induction false} CombineZeros(n: nat, v: Block)
    ensures Combine(Zeros(n), v) == ZERO
  {
    if n > 0 {
      assert Zeros(n)[1..] == Zeros(n - 1);
      CombineZeros(n - 1, TimesX(v));
      XorZero(ZERO);
    }
  }

  /** v times the reduction polynomial. */
  function TimesPoly(v: Block): Block {
    Xor(v, Xor(Turns(v, 1), Xor(Turns(v, 2), Turns(v, 7))))
  }

  lemma CombineBit(tail: Bits, v: Block)
    ensures Combine([true] + tail, v) == Xor(v, Combine(tail, TimesX(v)))
  {
    Parts([true], tail);
  }

  lemma ProductPoly(v: Block)
    ensures Product(v, POLY) == TimesPoly(v)
  {
    ProductComm(v, POLY);
    var rest := [true] + Zeros(120);
    assert Zeros(4) + rest == [false, false, false, false, true] + Zeros(120);
    assert POLY == [true] + ([true] + ([true] + (Zeros(4) + rest)));
    var v3 := TimesX(TimesX(TimesX(v)));
    CombineBit([true] + ([true] + (Zeros(4) + rest)), v);
    CombineBit([true] + (Zeros(4) + rest), TimesX(v));
    CombineBit(Zeros(4) + rest, TimesX(TimesX(v)));
    CombineAppend(Zeros(4), rest, v3);
    CombineZeros(4, v3);
    CombineBit(Zeros(120), Turns(v3, 4));
    CombineZeros(120, TimesX(Turns(v3, 4)));
    XorZero(Turns(v3, 4));
    assert Turns(v, 1) == TimesX(v) && Turns(v, 2) == TimesX(TimesX(v));
    assert Turns(v, 3) == v3;
    TurnsAdd(v, 3, 4);
  }

  lemma {:induction false} TurnsAdd(v: Block, m: nat, n: nat)
    ensures Turns(Turns(v, m), n) == Turns(v, m + n)
    decreases m
  {
    if m > 0 {
      TurnsAdd(TimesX(v), m - 1, n);
    }
  }

  /** The square from the two halves of a word: the lower exponents double within the word,
      the upper ones are reduced by x^128 = 1 + x + x^2 + x^7. */
  lemma SquareHalves(low: Bits, high: Bits)
    requires |low| == |high| == 64
    ensures Square(low + high) == Xor(Doubled(low), TimesPoly(Doubled(high)))
  {
    var v: Block := low + high;
    assert ONE == Unit(0) && v[0..] == v && Zeros(0) + v == v;
    CombineUnit(v, 0);
    ProductUnit(ONE);
    SquareCombine(v, ONE);
    DoubledAppend(low, high);
    CombineAppend(Doubled(low), Doubled(high), ONE);
    TurnsOfOne();
    ProductPoly(Doubled(high));
    var d: Block := Doubled(low);
    assert d[0..] == d && Zeros(0) + d == d;
    CombineUnit(d, 0);
  }
}
