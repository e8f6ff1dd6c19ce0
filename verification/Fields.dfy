/** GF(2^128) is a field: no product of nonzero blocks is zero. The map v -> v^2 + v takes
    x^127 through 128 independent blocks, the last of which is 1, to 0. Hence only 0 and 1 are
    their own squares, and every ideal but the zero one contains 1. */
module Fields {
  import opened Gf128
  import opened Seqs
  import opened Spans
  import opened Squares
  import opened Iterates
  import opened Orbits

  // ---- additive maps whose orbit ends at 1 and 0 ----

  predicate AddsAt(f: Block -> Block, u: Block, v: Block) {
    f(Xor(u, v)) == Xor(f(u), f(v))
  }

  ghost predicate Additive(f: Block -> Block) {
    f(ZERO) == ZERO && forall u: Block, v: Block :: AddsAt(f, u, v)
  }

  /** The map is additive, takes 1 to 0, and takes `w` to 1 in n - 1 steps. */
  ghost predicate Ends(f: Block -> Block, w: Block, n: nat)
    decreases n
  {
    if n <= 1 then n == 1 && w == ONE && f(ONE) == ZERO && Additive(f) else Ends(f, f(w), n - 1)
  }

  lemma {:induction false} EndsMeans(f: Block -> Block, w: Block, n: nat)
    requires Ends(f, w, n)
    ensures n > 0 && Iterate<Block>(f, w, n - 1) == ONE && f(ONE) == ZERO && Additive(f)
    decreases n
  {
    if n > 1 {
      EndsMeans(f, f(w), n - 1);
    }
  }

  lemma {:induction false} EndsFrom(f: Block -> Block, w: Block, n: nat)
    requires Additive(f) && f(ONE) == ZERO && n > 0 && Iterate<Block>(f, w, n - 1) == ONE
    ensures Ends(f, w, n)
    decreases n
  {
    if n > 1 {
      EndsFrom(f, f(w), n - 1);
    }
  }

  predicate ZeroOrOne(v: Block) {
    v == ZERO || v == ONE
  }

  function Orbit(f: Block -> Block, v: Block, n: nat): (r: seq<Bits>)
    ensures |r| == n && AllLen(r, 128)
    decreases n
  {
    if n == 0 then [] else [v] + Orbit(f, f(v), n - 1)
  }

  lemma {:induction false} IterateAdditive(f: Block -> Block, u: Block, v: Block, n: nat)
    requires Additive(f)
    ensures Iterate<Block>(f, Xor(u, v), n) == Xor(Iterate<Block>(f, u, n), Iterate<Block>(f, v, n))
    ensures Iterate<Block>(f, ZERO, n) == ZERO
    decreases n
  {
    if n > 0 {
      assert AddsAt(f, u, v);
      IterateAdditive(f, f(u), f(v), n - 1);
    }
  }

  /** The sum of the chosen points of an orbit. */
  function Picked(mask: Bits, f: Block -> Block, v: Block): Block {
    Sum(mask, Orbit(f, v, |mask|), 128)
  }

  lemma PickedFirst(mask: Bits, f: Block -> Block, v: Block)
    requires mask != []
    ensures Picked(mask, f, v) == Xor(if mask[0] then v else ZERO, Picked(mask[1..], f, f(v)))
  {
    Parts([v], Orbit(f, f(v), |mask| - 1));
  }

  /** What ends at zero after n steps, does so in every combination of its orbit. */
  lemma {:induction false} PickedEnds(mask: Bits, f: Block -> Block, v: Block, n: nat)
    requires Additive(f) && Iterate<Block>(f, v, n) == ZERO
    ensures Iterate<Block>(f, Picked(mask, f, v), n) == ZERO
    decreases |mask|
  {
    IterateAdditive(f, ZERO, ZERO, n);
    if mask != [] {
      PickedFirst(mask, f, v);
      IterateAdd<Block>(f, v, 1, n);
      IterateAdd<Block>(f, v, n, 1);
      assert Iterate<Block>(f, v, 1) == f(v) && Iterate<Block>(f, ZERO, 1) == ZERO;
      PickedEnds(mask[1..], f, f(v), n);
      IterateAdditive(f, if mask[0] then v else ZERO, Picked(mask[1..], f, f(v)), n);
      XorZero(ZERO);
    }
  }

  /** A combination with the first point of the orbit reaches 1, one step before 0. */
  lemma PickedReaches(mask: Bits, f: Block -> Block, w: Block)
    requires mask != [] && mask[0] && Ends(f, w, |mask|)
    ensures Iterate<Block>(f, Picked(mask, f, w), |mask| - 1) == ONE
  {
    var n := |mask| - 1;
    EndsMeans(f, w, |mask|);
    PickedFirst(mask, f, w);
    IterateAdd<Block>(f, w, n, 1);
    IterateAdd<Block>(f, w, 1, n);
    assert Iterate<Block>(f, ONE, 1) == ZERO && Iterate<Block>(f, w, 1) == f(w);
    PickedEnds(mask[1..], f, f(w), n);
    IterateAdditive(f, w, Picked(mask[1..], f, f(w)), n);
    XorZero(ONE);
  }

  lemma LeadingPoint(mask: Bits, f: Block -> Block, w: Block)
    requires mask != [] && mask[0] && Ends(f, w, |mask|)
    ensures Picked(mask, f, w) != ZERO
    ensures f(Picked(mask, f, w)) == ZERO ==> Picked(mask, f, w) == ONE
  {
    EndsMeans(f, w, |mask|);
    PickedReaches(mask, f, w);
    UnitNotZero();
    IterateAdditive(f, ZERO, ZERO, |mask| - 1);
    if |mask| > 1 {
      IterateAdditive(f, ZERO, ZERO, |mask| - 2);
    }
  }

  /** So the points of the orbit are independent, and of their combinations only 0 and 1 are
      taken to 0. */
  lemma {:induction false} OrbitIndependent(mask: Bits, f: Block -> Block, w: Block)
    requires Ends(f, w, |mask|)
    ensures Picked(mask, f, w) == ZERO ==> true !in mask
    ensures f(Picked(mask, f, w)) == ZERO ==> ZeroOrOne(Picked(mask, f, w))
    decreases |mask|
  {
    if mask[0] {
      LeadingPoint(mask, f, w);
    } else {
      PickedFirst(mask, f, w);
      XorZero(Picked(mask[1..], f, f(w)));
      NoneLeft(mask);
      if |mask| > 1 {
        OrbitIndependent(mask[1..], f, f(w));
      }
    }
  }

  lemma NoneLeft(mask: Bits)
    requires mask != [] && !mask[0]
    ensures true !in mask[1..] ==> true !in mask
  {
    assert forall i :: 1 <= i < |mask| ==> mask[i] == mask[1..][i - 1];
  }

  lemma UnitNotZero()
    ensures ONE != ZERO
  {
    assert ONE[0] && !ZERO[0];
  }

  /** Every block is a combination of the 128 points. */
  lemma OrbitSpans(f: Block -> Block, w: Block, v: Block) returns (mask: Bits)
    requires Ends(f, w, 128)
    ensures |mask| == 128 && v == Picked(mask, f, w)
  {
    var points := Orbit(f, w, 128);
    var all := Dependent(points + [v], 128);
    mask := all[..128];
    SumLast(mask, all[128], points, v);
    LastChoice(all);
    XorEqual(Picked(mask, f, w), v);
    XorZero(Picked(mask, f, w));
    OrbitIndependent(mask, f, w);
  }

  lemma LastChoice(all: Bits)
    requires |all| == 129 && true in all
    ensures all == all[..128] + [all[128]]
    ensures all[128] || true in all[..128]
  {
    var i :| 0 <= i < 129 && all[i];
    assert i < 128 ==> all[..128][i];
  }

  lemma XorEqual(u: Block, v: Block)
    ensures u == v <==> Xor(u, v) == ZERO
  {
    XorAssoc(u, v, v);
    XorZero(u);
    XorZero(v);
  }

  lemma SumLast(mask: Bits, q: bool, vs: seq<Bits>, v: Block)
    requires |mask| == |vs| && AllLen(vs, 128)
    ensures AllLen(vs + [v], 128)
    ensures Sum(mask + [q], vs + [v], 128) == Xor(Sum(mask, vs, 128), if q then v else ZERO)
  {
    SumInsert(mask, vs, |vs|, q, v, 128);
    Empty(vs);
    Empty(mask);
    Empty([v]);
    Empty([q]);
    XorComm(if q then v else ZERO, Sum(mask, vs, 128));
  }

  /** Only 0 and 1 are taken to 0, and every block ends there. */
  lemma KernelIsTwo(f: Block -> Block, w: Block, v: Block)
    requires Ends(f, w, 128)
    ensures f(v) == ZERO ==> ZeroOrOne(v)
    ensures Iterate<Block>(f, v, 128) == ZERO
  {
    var mask := OrbitSpans(f, w, v);
    EndsMeans(f, w, 128);
    OrbitIndependent(mask, f, w);
    IterateAdd<Block>(f, w, 127, 1);
    assert Iterate<Block>(f, ONE, 1) == ZERO;
    PickedEnds(mask, f, w, 128);
  }

  // ---- the field ----

  lemma DiffLinear(u: Block, v: Block)
    ensures Diff(Xor(u, v)) == Xor(Diff(u), Diff(v))
  {
    SquareLinear(u, v);
    XorMiddle(Square(u), Square(v), u, v);
  }

  lemma DiffOfUnits()
    ensures Diff(ZERO) == ZERO && Diff(ONE) == ZERO
  {
    SquareZero();
    XorZero(ZERO);
    ProductUnit(ONE);
    XorZero(ONE);
  }

  lemma DiffAdditive()
    ensures Additive(Diff) && Diff(ONE) == ZERO
  {
    DiffOfUnits();
    forall u: Block, v: Block
      ensures AddsAt(Diff, u, v)
    {
      DiffLinear(u, v);
    }
  }

  /** v -> v^2 + v is such a map. */
  lemma DiffEnds(w: Block)
    requires Iterate<Block>(Diff, w, 127) == ONE
    ensures Ends(Diff, w, 128)
  {
    DiffAdditive();
    EndsFrom(Diff, w, 128);
  }

  lemma DiffKernel(v: Block)
    ensures Diff(v) == ZERO ==> ZeroOrOne(v)
    ensures Iterate<Block>(Diff, v, 128) == ZERO
  {
    var w := BlockOrbit();
    DiffEnds(w);
    KernelIsTwo(Diff, w, v);
  }

  /** Only 0 and 1 are their own squares. */
  lemma OwnSquare(v: Block)
    ensures Square(v) == v <==> ZeroOrOne(v)
  {
    DiffKernel(v);
    XorEqual(Square(v), v);
    SquareZero();
    ProductUnit(ONE);
  }

  lemma DiffKeeps(a: Block, b: Block)
    requires Product(a, b) == ZERO
    ensures Product(Diff(a), b) == ZERO
  {
    ProductLinear(Square(a), a, b);
    ProductAssoc(a, a, b);
    CombineZero(a);
    XorZero(ZERO);
  }

  /** An ideal that holds a nonzero block holds 1: the last nonzero block on its way to 0. */
  lemma {:induction false} DivisorOfZero(a: Block, b: Block, n: nat)
    requires Product(a, b) == ZERO && a != ZERO && Iterate<Block>(Diff, a, n) == ZERO
    ensures b == ZERO
    decreases n
  {
    if Diff(a) == ZERO {
      DiffKernel(a);
      ProductUnit(b);
    } else {
      DiffKeeps(a, b);
      DivisorOfZero(Diff(a), b, n - 1);
    }
  }

  /** A product is zero exactly when one of its factors is. */
  lemma NoZeroDivisors(a: Block, b: Block)
    ensures Product(a, b) == ZERO <==> a == ZERO || b == ZERO
  {
    CombineZero(a);
    ProductComm(a, b);
    CombineZero(b);
    if Product(a, b) == ZERO && a != ZERO {
      DiffKernel(a);
      DivisorOfZero(a, b, 128);
    }
  }
}
