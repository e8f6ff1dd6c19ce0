/** Blocks as 128-bit machine words, on which products by x and squares can be evaluated. */
module Words {
  import opened Gf128
  import opened Seqs
  import opened Squares

  type Word128 = bv128

  /** The lowest n bits, most significant first. */
  function BitsOfWord(v: Word128, n: nat): (r: Bits)
    ensures |r| == n
    decreases n
  {
    if n == 0 then [] else BitsOfWord(v >> 1, n - 1) + [v & 1 == 1]
  }

  function BlockOf(v: Word128): Block {
    BitsOfWord(v, 128)
  }

  // ---- xor ----

  /** The lowest n bits of `w` are the xor of those of `u` and `v`. */
  predicate XorBits(u: Word128, v: Word128, w: Word128, n: nat)
    decreases n
  {
    n == 0 || ((w & 1 == 1 <==> (u & 1 == 1) != (v & 1 == 1)) && XorBits(u >> 1, v >> 1, w >> 1, n - 1))
  }

  lemma LastBitXor(u: Word128, v: Word128, w: Word128)
    requires w == u ^ v
    ensures w >> 1 == (u >> 1) ^ (v >> 1)
    ensures w & 1 == 1 <==> (u & 1 == 1) != (v & 1 == 1)
  {
  }

  lemma {:induction false} XorHolds(u: Word128, v: Word128, w: Word128, n: nat)
    requires w == u ^ v
    ensures XorBits(u, v, w, n)
    decreases n
  {
    if n > 0 {
      LastBitXor(u, v, w);
      XorHolds(u >> 1, v >> 1, w >> 1, n - 1);
    }
  }

  lemma {:induction false} BitsXor(u: Word128, v: Word128, w: Word128, n: nat)
    requires XorBits(u, v, w, n)
    ensures BitsOfWord(w, n) == Xor(BitsOfWord(u, n), BitsOfWord(v, n))
    decreases n
  {
    if n > 0 {
      BitsXor(u >> 1, v >> 1, w >> 1, n - 1);
      XorSnoc(BitsOfWord(u >> 1, n - 1), BitsOfWord(v >> 1, n - 1), u & 1 == 1, v & 1 == 1);
    }
  }

  lemma XorSnoc(a: Bits, b: Bits, c: bool, d: bool)
    requires |a| == |b|
    ensures Xor(a + [c], b + [d]) == Xor(a, b) + [c != d]
  {
    XorAppend(a, b, [c], [d]);
  }

  // ---- shifts ----

  function Shifted(v: Word128, n: nat): Word128
    decreases n
  {
    if n == 0 then v else Shifted(v >> 1, n - 1)
  }

  lemma {:induction false} ShiftedTwice(v: Word128, m: nat, n: nat)
    ensures Shifted(Shifted(v, m), n) == Shifted(v, m + n)
    decreases m
  {
    if m > 0 {
      ShiftedTwice(v >> 1, m - 1, n);
    }
  }

  lemma ShiftedBy2(v: Word128)
    ensures Shifted(v, 2) == v >> 2
  {
  }

  lemma ShiftedBy4(v: Word128)
    ensures Shifted(v, 4) == v >> 4
  {
    ShiftedBy2(v);
    ShiftedBy2(v >> 2);
    ShiftedTwice(v, 2, 2);
  }

  lemma ShiftedByte(v: Word128, w: Word128)
    requires w == v >> 8
    ensures Shifted(v, 8) == w
  {
    ShiftedBy4(v);
    ShiftedBy4(v >> 4);
    ShiftedTwice(v, 4, 4);
  }

  lemma ShiftedPair(u: Word128, v: Word128, w: Word128, n: nat)
    requires Shifted(u, n) == v && Shifted(v, n) == w
    ensures Shifted(u, 2 * n) == w
  {
    ShiftedTwice(u, n, n);
  }

  lemma ShiftedWord(v: Word128, w: Word128)
    requires w == v >> 32
    ensures Shifted(v, 32) == w
  {
    var v1 := v >> 8;
    var v2 := v1 >> 8;
    var v3 := v2 >> 8;
    ShiftedByte(v, v1);
    ShiftedByte(v1, v2);
    ShiftedByte(v2, v3);
    ShiftedByte(v3, w);
    ShiftedPair(v, v1, v2, 8);
    ShiftedPair(v2, v3, w, 8);
    ShiftedPair(v, v2, w, 16);
  }

  lemma ShiftedHalf(v: Word128, w: Word128)
    requires w == v >> 64
    ensures Shifted(v, 64) == w
  {
    var v1 := v >> 32;
    ShiftedWord(v, v1);
    ShiftedWord(v1, w);
    ShiftedPair(v, v1, w, 32);
  }

  lemma ShiftedOut(v: Word128)
    ensures Shifted(v, 128) == 0
  {
    var w := v >> 64;
    ShiftedHalf(v, w);
    ShiftedHalf(w, 0);
    ShiftedPair(v, w, 0, 64);
  }

  /** The bits of a word are those above a place and those below it. */
  lemma {:induction false} BitsSplit(v: Word128, m: nat, n: nat)
    ensures BitsOfWord(v, m + n) == BitsOfWord(Shifted(v, n), m) + BitsOfWord(v, n)
    decreases n
  {
    if n == 0 {
      Empty(BitsOfWord(v, m));
    } else {
      BitsSplit(v >> 1, m, n - 1);
      Assoc(BitsOfWord(Shifted(v, n), m), BitsOfWord(v >> 1, n - 1), [v & 1 == 1]);
    }
  }

  lemma BlockShifted(v: Word128)
    ensures BlockOf(v >> 1) == ShiftRight(BlockOf(v))
    ensures BlockOf(v)[127] == (v & 1 == 1)
  {
    var h := v >> 1;
    ShiftedOut(v);
    assert Shifted(h, 127) == Shifted(v, 128);
    BitsSplit(h, 1, 127);
    assert BitsOfWord(0, 1) == [false];
    Parts(BitsOfWord(h, 127), [v & 1 == 1]);
  }

  // ---- zero bits ----

  lemma LowZeros(v: Word128)
    requires v & 0xff == 0
    ensures BitsOfWord(v, 8) == Zeros(8)
  {
    var v2 := v >> 2;
    var v4 := v >> 4;
    var v6 := v >> 6;
    assert BitsOfWord(v6, 2) == [false, false];
    assert BitsOfWord(v4, 4) == [false, false] + [false, false];
    assert BitsOfWord(v2, 6) == BitsOfWord(v4, 4) + [false, false];
    assert BitsOfWord(v, 8) == BitsOfWord(v2, 6) + [false, false];
  }

  lemma ZeroByte(v: Word128, w: Word128, n: nat)
    requires w == v >> 8 && v & 0xff == 0
    ensures BitsOfWord(v, n + 8) == BitsOfWord(w, n) + Zeros(8)
  {
    ShiftedByte(v, w);
    BitsSplit(v, n, 8);
    LowZeros(v);
  }

  /** Zero bytes below a head. */
  lemma MoreTail(v: Word128, w: Word128, head: Bits, n: nat)
    requires w == v >> 8 && v & 0xff == 0 && BitsOfWord(w, |head| + n) == head + Zeros(n)
    ensures BitsOfWord(v, |head| + n + 8) == head + Zeros(n + 8)
  {
    ZeroByte(v, w, |head| + n);
    Assoc(head, Zeros(n), Zeros(8));
    assert Zeros(n) + Zeros(8) == Zeros(n + 8);
  }

  // ---- one turn of the multiplication loop ----

  const POLY_WORD: Word128 := 0xe100_0000_0000_0000_0000_0000_0000_0000

  function TimesXWord(v: Word128): Word128 {
    if v & 1 == 1 then (v >> 1) ^ POLY_WORD else v >> 1
  }

  lemma BlockXor(u: Word128, v: Word128, w: Word128)
    requires w == u ^ v
    ensures BlockOf(w) == Xor(BlockOf(u), BlockOf(v))
  {
    XorHolds(u, v, w, 128);
    BitsXor(u, v, w, 128);
  }

  lemma PolyHead()
    ensures BitsOfWord(0xe1, 8) == [true, true, true, false, false, false, false, true]
  {
    assert BitsOfWord(3, 2) == [true, true];
    assert BitsOfWord(0xe, 4) == [true, true] + [true, false];
    assert BitsOfWord(0x38, 6) == ([true, true] + [true, false]) + [false, false];
  }

  lemma PolyTail(head: Bits)
    requires head == [true, true, true, false, false, false, false, true]
    ensures BitsOfWord(0xe1_0000_0000_00, 48) == head + Zeros(40)
  {
    PolyHead();
    assert head + Zeros(0) == head;
    MoreTail(0xe100, 0xe1, head, 0);
    MoreTail(0xe10000, 0xe100, head, 8);
    MoreTail(0xe1000000, 0xe10000, head, 16);
    MoreTail(0xe100000000, 0xe1000000, head, 24);
    MoreTail(0xe10000000000, 0xe100000000, head, 32);
  }

  lemma PolyMore(head: Bits)
    requires head == [true, true, true, false, false, false, false, true]
    ensures BitsOfWord(0xe100_0000_0000_0000_0000_00, 88) == head + Zeros(80)
  {
    PolyTail(head);
    MoreTail(0xe1000000000000, 0xe10000000000, head, 40);
    MoreTail(0xe100000000000000, 0xe1000000000000, head, 48);
    MoreTail(0xe10000000000000000, 0xe100000000000000, head, 56);
    MoreTail(0xe1000000000000000000, 0xe10000000000000000, head, 64);
    MoreTail(0xe100000000000000000000, 0xe1000000000000000000, head, 72);
  }

  lemma PolyBlock()
    ensures BlockOf(POLY_WORD) == POLY
  {
    var head := [true, true, true, false, false, false, false, true];
    PolyMore(head);
    MoreTail(0xe10000000000000000000000, 0xe100000000000000000000, head, 80);
    MoreTail(0xe1000000000000000000000000, 0xe10000000000000000000000, head, 88);
    MoreTail(0xe100000000000000000000000000, 0xe1000000000000000000000000, head, 96);
    MoreTail(0xe10000000000000000000000000000, 0xe100000000000000000000000000, head, 104);
    MoreTail(POLY_WORD, 0xe10000000000000000000000000000, head, 112);
  }

  lemma TurnBlock(v: Word128)
    ensures BlockOf(TimesXWord(v)) == TimesX(BlockOf(v))
  {
    BlockShifted(v);
    PolyBlock();
    if v & 1 == 1 {
      BlockXor(v >> 1, POLY_WORD, TimesXWord(v));
    }
  }

  function TurnsWord(v: Word128, n: nat): Word128
    decreases n
  {
    if n == 0 then v else TurnsWord(TimesXWord(v), n - 1)
  }

  lemma {:induction false} TurnsBlock(v: Word128, n: nat)
    ensures BlockOf(TurnsWord(v, n)) == Turns(BlockOf(v), n)
    decreases n
  {
    if n > 0 {
      TurnBlock(v);
      TurnsBlock(TimesXWord(v), n - 1);
    }
  }

  // ---- squares ----

  /** Moves bit p of the lower half to place 2p + 1. */
  function Spread(v: Word128): Word128 {
    var a := v & 0xffff_ffff_ffff_ffff;
    var b := (a | (a << 32)) & 0x0000_0000_ffff_ffff_0000_0000_ffff_ffff;
    var c := (b | (b << 16)) & 0x0000_ffff_0000_ffff_0000_ffff_0000_ffff;
    var d := (c | (c << 8)) & 0x00ff_00ff_00ff_00ff_00ff_00ff_00ff_00ff;
    var e := (d | (d << 4)) & 0x0f0f_0f0f_0f0f_0f0f_0f0f_0f0f_0f0f_0f0f;
    var f := (e | (e << 2)) & 0x3333_3333_3333_3333_3333_3333_3333_3333;
    ((f << 1) | (f << 2)) & 0xaaaa_aaaa_aaaa_aaaa_aaaa_aaaa_aaaa_aaaa
  }

  predicate InLowerHalf(v: Word128) {
    v & 0xffff_ffff_ffff_ffff_0000_0000_0000_0000 == 0
  }

  lemma SpreadNext(v: Word128)
    requires InLowerHalf(v)
    ensures Spread(v >> 1) == Spread(v) >> 2
  {
  }

  lemma SpreadEnd(v: Word128)
    ensures Spread(v) & 1 == 0
    ensures (Spread(v) >> 1) & 1 == v & 1
  {
  }

  lemma HalfSmall(v: Word128)
    requires InLowerHalf(v)
    ensures InLowerHalf(v >> 1)
  {
  }

  /** `f` puts the bits of a word in the lower half at the odd places, with zeros between. */
  ghost predicate Stretches(f: Word128 -> Word128) {
    forall v :: InLowerHalf(v) ==>
      && InLowerHalf(v >> 1)
      && f(v) & 1 == 0
      && (f(v) >> 1) & 1 == v & 1
      && f(v) >> 2 == f(v >> 1)
  }

  predicate Gapped(d: Word128, v: Word128, n: nat)
    decreases n
  {
    n == 0 || (d & 1 == 0 && (d >> 1) & 1 == v & 1 && Gapped(d >> 2, v >> 1, n - 1))
  }

  lemma {:induction false} StretchedGapped(f: Word128 -> Word128, v: Word128, n: nat)
    requires Stretches(f) && InLowerHalf(v)
    ensures Gapped(f(v), v, n)
    decreases n
  {
    if n > 0 {
      StretchedGapped(f, v >> 1, n - 1);
    }
  }

  lemma TwoBits(d: Word128, n: nat)
    ensures BitsOfWord(d, n + 2) == (BitsOfWord(d >> 2, n) + [(d >> 1) & 1 == 1]) + [d & 1 == 1]
  {
  }

  lemma {:induction false} GappedBits(d: Word128, v: Word128, n: nat)
    requires Gapped(d, v, n)
    ensures BitsOfWord(d, 2 * n) == Doubled(BitsOfWord(v, n))
    decreases n
  {
    if n > 0 {
      var front, last := BitsOfWord(v >> 1, n - 1), v & 1 == 1;
      GappedBits(d >> 2, v >> 1, n - 1);
      DoubledAppend(front, [last]);
      assert Doubled([last]) == [last] + [false];
      Assoc(Doubled(front), [last], [false]);
      TwoBits(d, 2 * (n - 1));
    }
  }

  lemma SpreadStretches()
    ensures Stretches(Spread)
  {
    forall v | InLowerHalf(v)
      ensures InLowerHalf(v >> 1)
      ensures Spread(v) & 1 == 0
      ensures (Spread(v) >> 1) & 1 == v & 1
      ensures Spread(v) >> 2 == Spread(v >> 1)
    {
      HalfSmall(v);
      SpreadEnd(v);
      SpreadNext(v);
    }
  }

  lemma SpreadBlock(v: Word128)
    requires InLowerHalf(v)
    ensures BlockOf(Spread(v)) == Doubled(BitsOfWord(v, 64))
  {
    SpreadStretches();
    StretchedGapped(Spread, v, 64);
    GappedBits(Spread(v), v, 64);
  }

  lemma ZeroHalf(v: Word128)
    requires v & 0xffff_ffff_ffff_ffff == 0
    ensures BitsOfWord(v, 64) == Zeros(64)
  {
    ZeroWord(v);
    ZeroWord(v >> 32);
    ShiftedWord(v, v >> 32);
    BitsSplit(v, 32, 32);
    assert Zeros(32) + Zeros(32) == Zeros(64);
  }

  lemma ZeroWord(v: Word128)
    requires v & 0xffff_ffff == 0
    ensures BitsOfWord(v, 32) == Zeros(32)
  {
    var v1 := v >> 8;
    var v2 := v1 >> 8;
    var v3 := v2 >> 8;
    LowZeros(v3);
    assert Zeros(0) + Zeros(8) == Zeros(8) && Zeros(0) + Zeros(16) == Zeros(16);
    assert Zeros(0) + Zeros(24) == Zeros(24) && Zeros(0) + Zeros(32) == Zeros(32);
    MoreTail(v2, v3, Zeros(0), 8);
    MoreTail(v1, v2, Zeros(0), 16);
    MoreTail(v, v1, Zeros(0), 24);
  }

  lemma Joined(up: Word128, low: Word128, v: Word128)
    requires up == (v >> 64) << 64 && low == v & 0xffff_ffff_ffff_ffff
    ensures XorBits(up, low, v, 64) && up & 0xffff_ffff_ffff_ffff == 0
  {
    XorHolds(up, low, v, 64);
  }

  /** The two halves of a word, each in the lower half of its own. */
  lemma Halves(v: Word128, high: Word128, low: Word128)
    requires high == v >> 64 && low == v & 0xffff_ffff_ffff_ffff
    ensures BlockOf(v) == BitsOfWord(high, 64) + BitsOfWord(low, 64)
  {
    var up := high << 64;
    ShiftedHalf(v, high);
    BitsSplit(v, 64, 64);
    Joined(up, low, v);
    ZeroHalf(up);
    BitsXor(up, low, v, 64);
    XorSelf(BitsOfWord(low, 64));
  }

  function XorWord(u: Word128, v: Word128): Word128 {
    u ^ v
  }

  lemma XorBlock(u: Word128, v: Word128)
    ensures BlockOf(XorWord(u, v)) == Xor(BlockOf(u), BlockOf(v))
  {
    BlockXor(u, v, XorWord(u, v));
  }

  /** The square of a word, from its two halves. */
  function SquareOf(high: Word128, low: Word128): Word128 {
    var c := Spread(low);
    XorWord(Spread(high), XorWord(c, XorWord(TurnsWord(c, 1), XorWord(TurnsWord(c, 2), TurnsWord(c, 7)))))
  }

  function SquareWord(v: Word128): Word128 {
    SquareOf(v >> 64, v & 0xffff_ffff_ffff_ffff)
  }

  lemma PolyTimes(c: Word128, t: Word128)
    requires t == XorWord(c, XorWord(TurnsWord(c, 1), XorWord(TurnsWord(c, 2), TurnsWord(c, 7))))
    ensures BlockOf(t) == TimesPoly(BlockOf(c))
  {
    var t1, t2, t7 := TurnsWord(c, 1), TurnsWord(c, 2), TurnsWord(c, 7);
    TurnsBlock(c, 1);
    TurnsBlock(c, 2);
    TurnsBlock(c, 7);
    XorBlock(t2, t7);
    XorBlock(t1, XorWord(t2, t7));
    XorBlock(c, XorWord(t1, XorWord(t2, t7)));
  }

  lemma SquareParts(high: Word128, low: Word128)
    requires InLowerHalf(high) && InLowerHalf(low)
    ensures BlockOf(SquareOf(high, low)) == Square(BitsOfWord(high, 64) + BitsOfWord(low, 64))
  {
    var a, c := Spread(high), Spread(low);
    var t := XorWord(c, XorWord(TurnsWord(c, 1), XorWord(TurnsWord(c, 2), TurnsWord(c, 7))));
    PolyTimes(c, t);
    XorBlock(a, t);
    SpreadBlock(high);
    SpreadBlock(low);
    SquareHalves(BitsOfWord(high, 64), BitsOfWord(low, 64));
  }

  lemma SquareBlock(v: Word128)
    ensures BlockOf(SquareWord(v)) == Square(BlockOf(v))
  {
    var high, low := v >> 64, v & 0xffff_ffff_ffff_ffff;
    Halves(v, high, low);
    SquareParts(high, low);
  }

  // ---- the word of the unit ----

  lemma OneBlock(v: Word128)
    requires v == 0x8000_0000_0000_0000_0000_0000_0000_0000
    ensures BlockOf(v) == ONE
  {
    var high, word := v >> 64, v >> 96;
    ShiftedHalf(v, high);
    BitsSplit(v, 64, 64);
    ZeroHalf(v);
    ShiftedWord(high, word);
    BitsSplit(high, 32, 32);
    ZeroWord(high);
    OneWord();
    assert (([true] + Zeros(31)) + Zeros(32)) + Zeros(64) == ONE;
  }

  /** The word 1 is the highest power. */
  lemma LastBlock(v: Word128)
    requires v == 1
    ensures BlockOf(v) == Unit(127)
  {
    assert v >> 1 == 0;
    ZeroBits(v >> 1, 127);
    Empty(Unit(127));
    assert Unit(127) == Zeros(127) + [true];
  }

  lemma {:induction false} ZeroBits(v: Word128, n: nat)
    requires v == 0
    ensures BitsOfWord(v, n) == Zeros(n)
    decreases n
  {
    if n > 0 {
      ZeroBits(v >> 1, n - 1);
      assert Zeros(n) == Zeros(n - 1) + [false];
    }
  }

  lemma OneWord()
    ensures BitsOfWord(0x8000_0000, 32) == [true] + Zeros(31)
  {
    var head := [true] + Zeros(7);
    assert head + Zeros(0) == head && head + Zeros(24) == [true] + Zeros(31);
    OneByte();
    MoreTail(0x8000, 0x80, head, 0);
    MoreTail(0x80_0000, 0x8000, head, 8);
    MoreTail(0x8000_0000, 0x80_0000, head, 16);
  }

  lemma OneByte()
    ensures BitsOfWord(0x80, 8) == [true] + Zeros(7)
  {
    assert BitsOfWord(2, 2) == [true, false];
    assert BitsOfWord(8, 4) == [true, false] + [false, false];
    assert BitsOfWord(0x20, 6) == ([true, false] + [false, false]) + [false, false];
  }
}
