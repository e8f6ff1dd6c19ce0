/** The initial counter block (step 2 of section 7.1 of NIST SP 800-38D), as the standard
    words it and as it is coded. */
module Nonces {
  import opened Gf128
  import opened Fields
  import opened Hashing
  import opened Bytes
  import opened Seqs
  import opened Values

  /** The length in bits of a string of n bytes, as a big-endian 64-bit number. */
  function LenBits(n: nat): (r: Bits)
    ensures |r| == 64
  {
    BitsOf(8 * n % 0x1_0000_0000_0000_0000, 64)
  }

  /** Section 7.1, step 2. */
  function NistJ0(h: Block, iv: seq<Byte>): Block {
    if |iv| == 12 then Flat(iv) + Zeros(31) + [true]
    else GhashBlocks(h, ZERO, BlocksOf(Flat(iv)) + [Zeros(64) + LenBits(|iv|)])
  }

  /** What the code hashes for other lengths: the 64 zero bits before the length are
      missing, and the final half block is padded on the right instead. */
  function CodeJ0(h: Block, iv: seq<Byte>): Block {
    if |iv| == 12 then Flat(iv) + Zeros(31) + [true]
    else GhashBlocks(h, ZERO, BlocksOf(Flat(iv)) + [LenBits(|iv|) + Zeros(64)])
  }

  lemma GhashLast(h: Block, y: Block, blocks: seq<Block>, b: Block)
    ensures GhashBlocks(h, y, blocks + [b]) == Product(Xor(GhashBlocks(h, y, blocks), b), h)
  {
    GhashSplit(h, y, blocks, [b]);
    Empty([b]);
    GhashNext(h, GhashBlocks(h, y, blocks), b, []);
  }

  lemma LastBlocksAgree(h: Block, y: Block, a: Block, b: Block)
    ensures Product(Xor(y, a), h) == Product(Xor(y, b), h) <==> Product(Xor(a, b), h) == ZERO
  {
    XorEqual(Product(Xor(y, a), h), Product(Xor(y, b), h));
    ProductLinear(Xor(y, a), Xor(y, b), h);
    XorMiddle(y, a, y, b);
    XorZero(y);
    XorZero(Xor(a, b));
  }

  /** J0 conforms to the standard exactly when the nonce has 12 bytes or the hash key
      annihilates the difference of the two final blocks. */
  lemma J0Conforms(h: Block, iv: seq<Byte>)
    ensures CodeJ0(h, iv) == NistJ0(h, iv)
       <==> |iv| == 12 || Product(LenBits(|iv|) + LenBits(|iv|), h) == ZERO
  {
    var p, len := BlocksOf(Flat(iv)), LenBits(|iv|);
    var a: Block, b: Block := len + Zeros(64), Zeros(64) + len;
    GhashLast(h, ZERO, p, a);
    GhashLast(h, ZERO, p, b);
    LastBlocksAgree(h, GhashBlocks(h, ZERO, p), a, b);
    XorAppend(len, Zeros(64), Zeros(64), len);
    XorSelf(len);
  }

  lemma {:induction false} ZeroNat(n: nat)
    ensures NatOf(Zeros(n)) == 0
  {
    if n > 0 {
      assert Zeros(n)[..n - 1] == Zeros(n - 1);
      ZeroNat(n - 1);
    }
  }

  lemma LenZero(n: nat)
    ensures LenBits(n) == Zeros(64) <==> 8 * n % 0x1_0000_0000_0000_0000 == 0
  {
    ZeroNat(64);
    Pow2Of64();
    NatOfBits(8 * n % 0x1_0000_0000_0000_0000, 64);
    BitsOfNat(Zeros(64));
  }

  lemma TwiceZero(len: Bits)
    requires |len| == 64
    ensures len + len == ZERO <==> len == Zeros(64)
  {
    Parts(len, len);
    assert ZERO[..64] == Zeros(64) && Zeros(64) + Zeros(64) == ZERO;
  }

  /** The coded value is the prescribed one exactly when the nonce has 12 bytes, or its bit
      length is a multiple of 2^64, or the hash key is zero: for every other nonce, under
      every nonzero hash key, the two differ. */
  lemma J0Exact(h: Block, iv: seq<Byte>)
    ensures CodeJ0(h, iv) == NistJ0(h, iv)
       <==> |iv| == 12 || 8 * |iv| % 0x1_0000_0000_0000_0000 == 0 || h == ZERO
  {
    var len := LenBits(|iv|);
    J0Conforms(h, iv);
    NoZeroDivisors(len + len, h);
    TwiceZero(len);
    LenZero(|iv|);
  }
}
