/** Bytes and big-endian numbers as bit sequences, and the padding of section 7.1
    of NIST SP 800-38D. */
module Bytes {
  import opened Gf128
  import opened Seqs
  import opened Values

  type Byte = b: Bits | |b| == 8 witness seq(8, _ => false)

  const ZERO_BYTE: Byte := Zeros(8)

  /** The bit string of a byte string. */
  function Flat(data: seq<Byte>): (r: Bits)
    ensures |r| == 8 * |data|
  {
    if data == [] then [] else data[0] + Flat(data[1..])
  }

  /** Cuts a bit string back into bytes (`to_be_bytes`). */
  function Cut(bits: Bits): (r: seq<Byte>)
    requires |bits| % 8 == 0
    ensures |r| == |bits| / 8
    decreases |bits|
  {
    if bits == [] then [] else [bits[..8]] + Cut(bits[8..])
  }

  function ZeroBytes(n: nat): (r: seq<Byte>)
    ensures |r| == n
  {
    seq(n, _ => ZERO_BYTE)
  }

  function XorBytes(a: seq<Byte>, b: seq<Byte>): (r: seq<Byte>)
    requires |a| == |b|
    ensures |r| == |a|
  {
    if a == [] then [] else [Xor(a[0], b[0])] + XorBytes(a[1..], b[1..])
  }

  lemma {:induction false} FlatAppend(a: seq<Byte>, b: seq<Byte>)
    ensures Flat(a + b) == Flat(a) + Flat(b)
  {
    if a == [] {
      Empty(b);
      Empty(Flat(b));
    } else {
      DropLeft(a, b, 1);
      FlatAppend(a[1..], b);
      Assoc(a[0], Flat(a[1..]), Flat(b));
    }
  }

  lemma {:induction false} FlatZeros(n: nat)
    ensures Flat(ZeroBytes(n)) == Zeros(8 * n)
  {
    if n > 0 {
      assert ZeroBytes(n)[1..] == ZeroBytes(n - 1);
      FlatZeros(n - 1);
      assert Zeros(8) + Zeros(8 * (n - 1)) == Zeros(8 * n);
    }
  }

  lemma {:induction false} FlatXor(a: seq<Byte>, b: seq<Byte>)
    requires |a| == |b|
    ensures Flat(XorBytes(a, b)) == Xor(Flat(a), Flat(b))
  {
    if a != [] {
      FlatXor(a[1..], b[1..]);
      XorAppend(a[0], b[0], Flat(a[1..]), Flat(b[1..]));
    }
  }

  lemma {:induction false} FlatCut(bits: Bits)
    requires |bits| % 8 == 0
    ensures Flat(Cut(bits)) == bits
    decreases |bits|
  {
    if bits != [] {
      FlatCut(bits[8..]);
      Split(bits, 8);
    }
  }

  // ---- big-endian numbers ----

  function NatOf(bits: Bits): nat {
    if bits == [] then 0
    else 2 * NatOf(bits[..|bits| - 1]) + (if bits[|bits| - 1] then 1 else 0)
  }

  lemma {:induction false} NatBound(bits: Bits)
    ensures NatOf(bits) < Pow2(|bits|)
  {
    if bits != [] {
      NatBound(bits[..|bits| - 1]);
    }
  }

  /** The low `k` bits of `n`, most significant first. */
  function BitsOf(n: nat, k: nat): (r: Bits)
    ensures |r| == k
  {
    if k == 0 then [] else BitsOf(n / 2, k - 1) + [n % 2 == 1]
  }

  lemma {:induction false} BitsOfNat(bits: Bits)
    ensures BitsOf(NatOf(bits), |bits|) == bits
  {
    if bits != [] {
      BitsOfNat(bits[..|bits| - 1]);
    }
  }

  lemma {:induction false} NatOfBits(n: nat, k: nat)
    requires n < Pow2(k)
    ensures NatOf(BitsOf(n, k)) == n
  {
    if k > 0 {
      NatOfBits(n / 2, k - 1);
      assert BitsOf(n, k)[..k - 1] == BitsOf(n / 2, k - 1);
    }
  }

  lemma {:induction false} Pow2Add(a: nat, b: nat)
    ensures Pow2(a + b) == Pow2(a) * Pow2(b)
  {
    if a > 0 {
      Pow2Add(a - 1, b);
    }
  }

  lemma Pow2Of32()
    ensures Pow2(32) == 0x1_0000_0000
  {
    assert Pow2(8) == 256;
    Pow2Add(8, 8);
    Pow2Add(16, 16);
  }

  lemma Pow2Of64()
    ensures Pow2(64) == 0x1_0000_0000_0000_0000
  {
    Pow2Of32();
    Pow2Add(32, 32);
  }

  // ---- blocks ----

  /** The bits cut into 128-bit blocks, with the least number of zero bits that fills the
      last block (section 7.1 of NIST SP 800-38D, step 4). */
  function BlocksOf(bits: Bits): seq<Block>
    decreases |bits|
  {
    if bits == [] then []
    else if |bits| <= 128 then [bits + Zeros(128 - |bits|)]
    else [bits[..128]] + BlocksOf(bits[128..])
  }

  /** The number of zero bytes that fill up the last block; none after a whole one. */
  function PadBytes(len: nat): nat {
    (16 - len % 16) % 16
  }

  lemma PadBytesPeriod(len: nat)
    requires len >= 16
    ensures PadBytes(len) == PadBytes(len - 16)
  {
  }

  lemma PadBytesSmall(len: nat)
    requires 0 < len <= 16
    ensures PadBytes(len) == 16 - len
  {
  }

  lemma PaddedTail(data: seq<Byte>)
    ensures Flat(data + ZeroBytes(PadBytes(|data|))) == Flat(data) + Zeros(8 * PadBytes(|data|))
  {
    FlatAppend(data, ZeroBytes(PadBytes(|data|)));
    FlatZeros(PadBytes(|data|));
  }

  lemma BlocksOfBlock(block: Block, rest: Bits)
    ensures BlocksOf(block + rest) == [block] + BlocksOf(rest)
  {
    Empty(block);
    Empty([block]);
    Parts(block, rest);
    assert Zeros(0) == [];
  }

  lemma LastField(data: seq<Byte>, rest: Bits)
    requires 0 < |data| <= 16
    ensures BlocksOf(Flat(data) + Zeros(8 * PadBytes(|data|)) + rest)
         == BlocksOf(Flat(data)) + BlocksOf(rest)
  {
    PadBytesSmall(|data|);
    BlocksOfBlock(Flat(data) + Zeros(8 * PadBytes(|data|)), rest);
  }

  lemma FirstOfField(data: seq<Byte>, rest: Bits)
    requires |data| > 16
    ensures BlocksOf(Flat(data) + rest)
         == [Flat(data[..16])] + BlocksOf(Flat(data[16..]) + rest)
  {
    Split(data, 16);
    FlatAppend(data[..16], data[16..]);
    Assoc(Flat(data[..16]), Flat(data[16..]), rest);
    BlocksOfBlock(Flat(data[..16]), Flat(data[16..]) + rest);
  }

  lemma {:induction false} PaddedField(data: seq<Byte>, rest: Bits)
    ensures BlocksOf(Flat(data) + Zeros(8 * PadBytes(|data|)) + rest)
         == BlocksOf(Flat(data)) + BlocksOf(rest)
    decreases |data|
  {
    if data == [] {
      assert Zeros(0) == [];
      Empty<bool>([]);
      Empty(rest);
      Empty(BlocksOf(rest));
    } else if |data| <= 16 {
      LastField(data, rest);
    } else {
      var tail, pad := data[16..], Zeros(8 * PadBytes(|data|));
      PadBytesPeriod(|data|);
      Assoc(Flat(data), pad, rest);
      Assoc(Flat(tail), pad, rest);
      FirstOfField(data, pad + rest);
      PaddedField(tail, rest);
      FirstOfField(data, []);
      Empty(Flat(data));
      Empty(Flat(tail));
      Assoc([Flat(data[..16])], BlocksOf(Flat(tail)), BlocksOf(rest));
    }
  }

  /** A zero-padded field contributes whole blocks of its own. */
  lemma BlocksOfField(data: seq<Byte>, rest: Bits)
    ensures BlocksOf(Flat(data + ZeroBytes(PadBytes(|data|))) + rest)
         == BlocksOf(Flat(data)) + BlocksOf(rest)
  {
    PaddedTail(data);
    PaddedField(data, rest);
  }
}
