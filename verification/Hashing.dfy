/** GHASH (section 6.4 of NIST SP 800-38D): on blocks, and on byte strings in chunks as the
    code computes it. */
module Hashing {
  import opened Gf128
  import opened Fields
  import opened Bytes
  import opened Seqs

  /** Section 6.4, from accumulator `y`. */
  function GhashBlocks(h: Block, y: Block, blocks: seq<Block>): Block
    decreases |blocks|
  {
    if blocks == [] then y
    else GhashBlocks(h, Product(Xor(y, blocks[0]), h), blocks[1..])
  }

  /** What the byte-level hash of the code computes: GHASH of the zero-padded bits. */
  function Hash(h: Block, data: seq<Byte>): Block {
    GhashBlocks(h, ZERO, BlocksOf(Flat(data)))
  }

  lemma NextChunk(data: seq<Byte>, n: nat)
    requires n == if |data| < 16 then |data| else 16
    requires data != []
    ensures BlocksOf(Flat(data))
         == [Flat(data[..n]) + Zeros(128 - 8 * n)] + BlocksOf(Flat(data[n..]))
  {
    var head, tail := data[..n], data[n..];
    Split(data, n);
    FlatAppend(head, tail);
    if n == 16 {
      BlocksOfBlock(Flat(head), Flat(tail));
      assert Zeros(0) == [];
      Empty(Flat(head));
    } else {
      Empty(Flat(head));
      Empty([Flat(head) + Zeros(128 - 8 * n)]);
    }
  }

  lemma GhashNext(h: Block, y: Block, b: Block, rest: seq<Block>)
    ensures GhashBlocks(h, y, [b] + rest) == GhashBlocks(h, Product(Xor(y, b), h), rest)
  {
    Parts([b], rest);
  }

  /** What is left to hash after one more chunk. */
  lemma HashChunk(h: Block, y: Block, data: seq<Byte>, i: nat, n: nat)
    requires i < |data| && n == if |data| - i < 16 then |data| - i else 16
    ensures GhashBlocks(h, y, BlocksOf(Flat(data[i..])))
         == GhashBlocks(h, Product(Xor(y, Flat(data[i..i + n]) + Zeros(128 - 8 * n)), h), BlocksOf(Flat(data[i + n..])))
  {
    NextChunk(data[i..], n);
    DropDrop(data, i, n);
    GhashNext(h, y, Flat(data[i..i + n]) + Zeros(128 - 8 * n), BlocksOf(Flat(data[i + n..])));
  }

  method Ghash(h: Block, data: seq<Byte>) returns (y: Block)
    ensures y == Hash(h, data)
  {
    y := ZERO;
    var i := 0;
    Empty(data);
    while i < |data|
      invariant 0 <= i <= |data|
      invariant GhashBlocks(h, y, BlocksOf(Flat(data[i..]))) == Hash(h, data)
    {
      var n := if |data| - i < 16 then |data| - i else 16;
      var chunk := data[i..i + n];
      HashChunk(h, y, data, i, n);
      var b := Flat(chunk) + Zeros(128 - 8 * n);
      y := Mul(Xor(y, b), h);
      i := i + n;
    }
  }

  lemma {:induction false} GhashSplit(h: Block, y: Block, a: seq<Block>, b: seq<Block>)
    ensures GhashBlocks(h, y, a + b) == GhashBlocks(h, GhashBlocks(h, y, a), b)
    decreases |a|
  {
    if a == [] {
      Empty(b);
    } else {
      DropLeft(a, b, 1);
      GhashSplit(h, Product(Xor(y, a[0]), h), a[1..], b);
    }
  }

  function XorBlocks(a: seq<Block>, b: seq<Block>): (r: seq<Block>)
    requires |a| == |b|
    ensures |r| == |a|
  {
    if a == [] then [] else [Xor(a[0], b[0])] + XorBlocks(a[1..], b[1..])
  }

  lemma {:induction false} GhashLinear(h: Block, y: Block, z: Block, a: seq<Block>, b: seq<Block>)
    requires |a| == |b|
    ensures GhashBlocks(h, Xor(y, z), XorBlocks(a, b))
         == Xor(GhashBlocks(h, y, a), GhashBlocks(h, z, b))
    decreases |a|
  {
    if a != [] {
      XorMiddle(y, z, a[0], b[0]);
      ProductLinear(Xor(y, a[0]), Xor(z, b[0]), h);
      GhashLinear(h, Product(Xor(y, a[0]), h), Product(Xor(z, b[0]), h), a[1..], b[1..]);
    }
  }

  lemma {:induction false} BlocksOfXor(a: Bits, b: Bits)
    requires |a| == |b|
    ensures |BlocksOf(a)| == |BlocksOf(b)|
    ensures BlocksOf(Xor(a, b)) == XorBlocks(BlocksOf(a), BlocksOf(b))
    decreases |a|
  {
    if a == [] {
    } else if |a| <= 128 {
      var pad := Zeros(128 - |a|);
      XorAppend(a, b, pad, pad);
      XorSelf(pad);
    } else {
      Split(a, 128);
      Split(b, 128);
      XorAppend(a[..128], b[..128], a[128..], b[128..]);
      Parts(Xor(a[..128], b[..128]), Xor(a[128..], b[128..]));
      BlocksOfXor(a[128..], b[128..]);
    }
  }

  /** The hash of the xor of two inputs of the same length is the xor of their hashes. */
  lemma HashLinear(h: Block, a: seq<Byte>, b: seq<Byte>)
    requires |a| == |b|
    ensures Hash(h, XorBytes(a, b)) == Xor(Hash(h, a), Hash(h, b))
  {
    FlatXor(a, b);
    BlocksOfXor(Flat(a), Flat(b));
    XorZero(ZERO);
    GhashLinear(h, ZERO, ZERO, BlocksOf(Flat(a)), BlocksOf(Flat(b)));
  }

  /** Filling the last block with zero bytes does not change the hash. */
  lemma HashZeroPadded(h: Block, data: seq<Byte>)
    ensures Hash(h, data + ZeroBytes(PadBytes(|data|))) == Hash(h, data)
  {
    BlocksOfField(data, []);
    Empty(Flat(data + ZeroBytes(PadBytes(|data|))));
    Empty(BlocksOf(Flat(data)));
  }

  /** The polynomial X_1 h^m + ... + X_m h. */
  function Polynomial(h: Block, blocks: seq<Block>): Block {
    if blocks == [] then ZERO
    else Xor(Product(blocks[0], Power(h, |blocks|)), Polynomial(h, blocks[1..]))
  }

  lemma {:induction false} GhashHorner(h: Block, y: Block, blocks: seq<Block>)
    ensures GhashBlocks(h, y, blocks)
         == Xor(Product(y, Power(h, |blocks|)), Polynomial(h, blocks))
    decreases |blocks|
  {
    if blocks == [] {
      ProductUnit(y);
      XorZero(y);
    } else {
      var m, x := |blocks|, blocks[0];
      GhashHorner(h, Product(Xor(y, x), h), blocks[1..]);
      ProductAssoc(Xor(y, x), h, Power(h, m - 1));
      ProductLinear(y, x, Power(h, m));
      XorSwap(Product(y, Power(h, m)), Product(x, Power(h, m)), Polynomial(h, blocks[1..]));
    }
  }

  /** GHASH of a byte string is the value at `h` of the polynomial whose coefficients
      are its blocks (Horner's rule). */
  lemma HashIsPolynomial(h: Block, data: seq<Byte>)
    ensures Hash(h, data) == Polynomial(h, BlocksOf(Flat(data)))
  {
    var blocks := BlocksOf(Flat(data));
    var p := Power(h, |blocks|);
    GhashHorner(h, ZERO, blocks);
    ProductLinear(ZERO, ZERO, p);
    XorZero(ZERO);
    XorZero(Product(ZERO, p));
    XorZero(Polynomial(h, blocks));
  }

  /** Under a nonzero key the hash forgets nothing: from two different sums, or after two
      different blocks, the same further blocks lead to different hashes. */
  lemma {:induction false} GhashInjective(h: Block, y: Block, z: Block, blocks: seq<Block>)
    ensures GhashBlocks(h, y, blocks) == GhashBlocks(h, z, blocks) <==> y == z || (h == ZERO && blocks != [])
    decreases |blocks|
  {
    if blocks != [] {
      var b := blocks[0];
      GhashInjective(h, Product(Xor(y, b), h), Product(Xor(z, b), h), blocks[1..]);
      ProductsEqual(Xor(y, b), Xor(z, b), h);
      XorMiddle(y, b, z, b);
      XorZero(b);
      XorZero(Xor(y, z));
      XorEqual(y, z);
      XorEqual(Xor(y, b), Xor(z, b));
    }
  }

  lemma ProductsEqual(u: Block, v: Block, h: Block)
    ensures Product(u, h) == Product(v, h) <==> u == v || h == ZERO
  {
    ProductLinear(u, v, h);
    NoZeroDivisors(Xor(u, v), h);
    XorEqual(u, v);
    XorEqual(Product(u, h), Product(v, h));
  }

  /** An error in a single block is always seen, unless the hash key is zero. */
  lemma ErrorSeen(h: Block, before: seq<Block>, a: Block, b: Block, after: seq<Block>)
    ensures GhashBlocks(h, ZERO, before + ([a] + after)) == GhashBlocks(h, ZERO, before + ([b] + after))
       <==> a == b || h == ZERO
  {
    var y := GhashBlocks(h, ZERO, before);
    GhashSplit(h, ZERO, before, [a] + after);
    GhashSplit(h, ZERO, before, [b] + after);
    GhashNext(h, y, a, after);
    GhashNext(h, y, b, after);
    GhashInjective(h, Product(Xor(y, a), h), Product(Xor(y, b), h), after);
    ProductsEqual(Xor(y, a), Xor(y, b), h);
    XorMiddle(y, a, y, b);
    XorZero(y);
    XorZero(Xor(a, b));
    XorEqual(a, b);
    XorEqual(Xor(y, a), Xor(y, b));
  }
}
