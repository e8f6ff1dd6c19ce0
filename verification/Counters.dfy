/** The counter blocks of section 6.2 of NIST SP 800-38D. */
module Counters {
  import opened Gf128
  import opened Bytes
  import opened Seqs
  import opened Values

  /** The number in the low 32 bits. */
  function Low(j: Block): nat {
    NatOf(j[96..])
  }

  /** Section 6.2: the low 32 bits incremented modulo 2^32. */
  function Inc32(j: Block): Block {
    j[..96] + BitsOf((Low(j) + 1) % 0x1_0000_0000, 32)
  }

  function Counter(j0: Block, n: nat): Block {
    if n == 0 then j0 else Inc32(Counter(j0, n - 1))
  }

  lemma LowBound(j: Block)
    ensures Low(j) < 0x1_0000_0000
  {
    Pow2Of32();
    NatBound(j[96..]);
  }

  lemma IncLow(j: Block)
    ensures Inc32(j)[..96] == j[..96]
    ensures Low(Inc32(j)) == (Low(j) + 1) % 0x1_0000_0000
  {
    var next := (Low(j) + 1) % 0x1_0000_0000;
    Parts(j[..96], BitsOf(next, 32));
    Pow2Of32();
    NatOfBits(next, 32);
  }

  lemma {:induction false} CounterHigh(j0: Block, n: nat)
    ensures Counter(j0, n)[..96] == j0[..96]
  {
    if n > 0 {
      CounterHigh(j0, n - 1);
      IncLow(Counter(j0, n - 1));
    }
  }

  lemma ModNext(a: nat, n: nat, prev: nat, next: nat)
    requires n > 0
    requires prev == (a + (n - 1)) % 0x1_0000_0000 && next == (prev + 1) % 0x1_0000_0000
    ensures next == (a + n) % 0x1_0000_0000
  {
  }

  lemma {:induction false} CounterLow(j0: Block, n: nat)
    ensures Low(Counter(j0, n)) == (Low(j0) + n) % 0x1_0000_0000
  {
    if n == 0 {
      LowBound(j0);
    } else {
      CounterLow(j0, n - 1);
      IncLow(Counter(j0, n - 1));
      ModNext(Low(j0), n, Low(Counter(j0, n - 1)), Low(Counter(j0, n)));
    }
  }

  lemma ModEqual(a: nat, m: nat, n: nat)
    ensures (a + m) % 0x1_0000_0000 == (a + n) % 0x1_0000_0000 <==> (m - n) % 0x1_0000_0000 == 0
  {
  }

  lemma SameParts(a: Block, b: Block)
    requires a[..96] == b[..96] && Low(a) == Low(b)
    ensures a == b
  {
    BitsOfNat(a[96..]);
    BitsOfNat(b[96..]);
    Split(a, 96);
    Split(b, 96);
  }

  /** Counter blocks share the upper 96 bits of J0 and repeat exactly with period 2^32. */
  lemma CountersRepeat(j0: Block, m: nat, n: nat)
    ensures Counter(j0, m)[..96] == j0[..96]
    ensures Counter(j0, m) == Counter(j0, n) <==> (m - n) % 0x1_0000_0000 == 0
  {
    CounterHigh(j0, m);
    CounterHigh(j0, n);
    CounterLow(j0, m);
    CounterLow(j0, n);
    ModEqual(Low(j0), m, n);
    if (m - n) % 0x1_0000_0000 == 0 {
      SameParts(Counter(j0, m), Counter(j0, n));
    }
  }

  lemma SmallNonzero(d: nat)
    requires 0 < d < 0x1_0000_0000
    ensures d % 0x1_0000_0000 != 0
  {
  }

  /** Within the block bound of section 5.2.1.1, `seal` never encrypts the same counter
      block twice, and never J0 itself (number 0), which masks the tag. */
  lemma CountersDistinct(j0: Block, blocks: nat, m: nat, n: nat)
    requires blocks <= 0x1_0000_0000 - 2
    requires 0 <= m < n <= blocks
    ensures Counter(j0, m) != Counter(j0, n)
  {
    SmallNonzero(n - m);
    CountersRepeat(j0, n, m);
  }
}
