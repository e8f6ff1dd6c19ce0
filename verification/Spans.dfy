/** Linear dependence of bit vectors: more vectors than places always have a sum of some of
    them that is zero (Gaussian elimination). */
module Spans {
  import opened Gf128
  import opened Seqs

  predicate AllLen(vs: seq<Bits>, m: nat) {
    forall i :: 0 <= i < |vs| ==> |vs[i]| == m
  }

  /** The sum of the chosen vectors. */
  function Sum(mask: Bits, vs: seq<Bits>, m: nat): (r: Bits)
    requires |mask| == |vs| && AllLen(vs, m)
    ensures |r| == m
    decreases |vs|
  {
    if vs == [] then Zeros(m) else Xor(if mask[0] then vs[0] else Zeros(m), Sum(mask[1..], vs[1..], m))
  }

  /** Adds `p` to every vector whose first place is set. */
  function Clear(vs: seq<Bits>, p: Bits, m: nat): (r: seq<Bits>)
    requires m > 0 && AllLen(vs, m) && |p| == m && p[0]
    ensures |r| == |vs| && AllLen(r, m)
    ensures forall i :: 0 <= i < |r| ==> !r[i][0]
    decreases |vs|
  {
    if vs == [] then [] else [if vs[0][0] then Xor(vs[0], p) else vs[0]] + Clear(vs[1..], p, m)
  }

  /** How often, modulo 2, a chosen vector has its first place set. */
  function Parity(mask: Bits, vs: seq<Bits>, m: nat): bool
    requires |mask| == |vs| && m > 0 && AllLen(vs, m)
    decreases |vs|
  {
    if vs == [] then false else (mask[0] && vs[0][0]) != Parity(mask[1..], vs[1..], m)
  }

  lemma {:induction false} SumClear(mask: Bits, vs: seq<Bits>, p: Bits, m: nat)
    requires |mask| == |vs| && m > 0 && AllLen(vs, m) && |p| == m && p[0]
    ensures Sum(mask, Clear(vs, p, m), m)
         == Xor(Sum(mask, vs, m), if Parity(mask, vs, m) then p else Zeros(m))
    decreases |vs|
  {
    if vs == [] {
      XorSelf(Zeros(m));
    } else {
      var head, tail := vs[0], vs[1..];
      SumClear(mask[1..], tail, p, m);
      var cleared := if head[0] then Xor(head, p) else head;
      Parts([cleared], Clear(tail, p, m));
      var one, rest := if mask[0] then head else Zeros(m), Sum(mask[1..], tail, m);
      var add := if Parity(mask[1..], tail, m) then p else Zeros(m);
      var extra := if mask[0] && head[0] then p else Zeros(m);
      XorSelf(one);
      XorSelf(p);
      XorSelf(Zeros(m));
      assert (if mask[0] then cleared else Zeros(m)) == Xor(one, extra);
      XorMiddle(one, extra, rest, add);
      assert Xor(extra, add) == if Parity(mask, vs, m) then p else Zeros(m);
    }
  }

  function Tails(vs: seq<Bits>, m: nat): (r: seq<Bits>)
    requires m > 0 && AllLen(vs, m)
    ensures |r| == |vs| && AllLen(r, m - 1)
    decreases |vs|
  {
    if vs == [] then [] else [vs[0][1..]] + Tails(vs[1..], m)
  }

  lemma {:induction false} SumTails(mask: Bits, vs: seq<Bits>, m: nat)
    requires |mask| == |vs| && m > 0 && AllLen(vs, m)
    requires forall i :: 0 <= i < |vs| ==> !vs[i][0]
    ensures Sum(mask, vs, m) == [false] + Sum(mask, Tails(vs, m), m - 1)
    decreases |vs|
  {
    assert Zeros(m) == [false] + Zeros(m - 1);
    if vs != [] {
      SumTails(mask[1..], vs[1..], m);
      Parts([vs[0][1..]], Tails(vs[1..], m));
      var one := if mask[0] then vs[0] else Zeros(m);
      assert one == [false] + one[1..];
      Parts([false], Sum(mask[1..], Tails(vs[1..], m), m - 1));
      assert one[1..] == if mask[0] then vs[0][1..] else Zeros(m - 1);
    }
  }

  /** One more vector, anywhere in the list. */
  lemma {:induction false} SumInsert(mask: Bits, vs: seq<Bits>, k: nat, q: bool, x: Bits, m: nat)
    requires |mask| == |vs| && AllLen(vs, m) && k <= |vs| && |x| == m
    ensures AllLen(vs[..k] + ([x] + vs[k..]), m)
    ensures Sum(mask[..k] + ([q] + mask[k..]), vs[..k] + ([x] + vs[k..]), m)
         == Xor(if q then x else Zeros(m), Sum(mask, vs, m))
    decreases k
  {
    var inserted, chosen := vs[..k] + ([x] + vs[k..]), mask[..k] + ([q] + mask[k..]);
    assert AllLen(inserted, m);
    if k == 0 {
      assert inserted == [x] + vs && chosen == [q] + mask;
      Parts([x], vs);
      Parts([q], mask);
    } else {
      SumInsert(mask[1..], vs[1..], k - 1, q, x, m);
      assert inserted[1..] == vs[1..][..k - 1] + ([x] + vs[1..][k - 1..]);
      assert chosen[1..] == mask[1..][..k - 1] + ([q] + mask[1..][k - 1..]);
      XorSwap(if mask[0] then vs[0] else Zeros(m), if q then x else Zeros(m), Sum(mask[1..], vs[1..], m));
    }
  }

  /** m + 1 vectors of m places are dependent. */
  lemma {:induction false} Dependent(vs: seq<Bits>, m: nat) returns (mask: Bits)
    requires |vs| == m + 1 && AllLen(vs, m)
    ensures |mask| == m + 1 && true in mask && Sum(mask, vs, m) == Zeros(m)
    decreases m
  {
    if m == 0 {
      mask := [true];
    } else {
      var k: nat := 0;
      while k < m && !vs[k][0]
        invariant k <= m && forall i :: 0 <= i < k ==> !vs[i][0]
      {
        k := k + 1;
      }
      var rest := vs[..k] + vs[k + 1..];
      var cleared := if vs[k][0] then Clear(rest, vs[k], m) else rest;
      var before := Dependent(Tails(cleared, m), m - 1);
      SumTails(before, cleared, m);
      assert [false] + Zeros(m - 1) == Zeros(m);
      var q := vs[k][0] && Parity(before, rest, m);
      if vs[k][0] {
        SumClear(before, rest, vs[k], m);
      }
      mask := before[..k] + ([q] + before[k..]);
      SumInsert(before, rest, k, q, vs[k], m);
      Parts(vs[..k], vs[k + 1..]);
      assert rest[..k] + ([vs[k]] + rest[k..]) == vs;
      XorComm(Sum(before, rest, m), if q then vs[k] else Zeros(m));
      XorSelf(Sum(before, rest, m));
      Kept(before, k, q);
    }
  }

  lemma Kept(mask: Bits, k: nat, q: bool)
    requires k <= |mask| && true in mask
    ensures true in mask[..k] + ([q] + mask[k..])
  {
    var i :| 0 <= i < |mask| && mask[i];
    var j := if i < k then i else i + 1;
    assert (mask[..k] + ([q] + mask[k..]))[j];
  }
}
