/** Sealed data bit by bit, as sections 6.2, 6.4, 6.5 and 7.1 of NIST SP 800-38D describe it. */
module Conformance {
  import opened Gf128
  import opened Hashing
  import opened Counters
  import opened Nonces
  import opened Bytes
  import opened AesGcm
  import opened Seqs
  import opened Values

  /** The j-th counter block after J: the upper 96 bits stay, the lower 32 count modulo 2^32. */
  function NthBlock(j: Block, n: nat): Block {
    j[..96] + BitsOf((NatOf(j[96..]) + n) % 0x1_0000_0000, 32)
  }

  lemma CounterIsNth(j: Block, n: nat)
    ensures Counter(j, n) == NthBlock(j, n)
  {
    var c, low := Counter(j, n), (NatOf(j[96..]) + n) % 0x1_0000_0000;
    CounterHigh(j, n);
    CounterLow(j, n);
    BitsOfNat(c[96..]);
    Split(c, 96);
  }

  lemma {:induction false} XorAt(a: Bits, b: Bits, k: nat)
    requires |a| == |b| && k < |a|
    ensures Xor(a, b)[k] == (a[k] != b[k])
  {
    if k > 0 {
      XorAt(a[1..], b[1..], k - 1);
    }
  }

  lemma {:induction false} FlatTake(data: seq<Byte>, n: nat)
    requires n <= |data|
    ensures Flat(data[..n]) == Flat(data)[..8 * n] && Flat(data[n..]) == Flat(data)[8 * n..]
  {
    Split(data, n);
    FlatAppend(data[..n], data[n..]);
    Parts(Flat(data[..n]), Flat(data[n..]));
  }

  /** One chunk, masked with a block. */
  lemma ChunkAt(chunk: seq<Byte>, key: Block, k: nat)
    requires |chunk| <= 16 && k < 8 * |chunk|
    ensures Flat(XorBytes(chunk, Cut(key)[..|chunk|]))[k] == (Flat(chunk)[k] != key[k])
  {
    var mask := Cut(key)[..|chunk|];
    FlatCut(key);
    FlatTake(Cut(key), |chunk|);
    FlatXor(chunk, mask);
    XorAt(Flat(chunk), Flat(mask), k);
  }

  /** The stream over a first chunk and a rest, bit by bit. */
  lemma StreamFirst(cipher: Block -> Block, j: Block, b: nat, data: seq<Byte>, n: nat, k: nat)
    requires n == (if |data| < 16 then |data| else 16) && k < 8 * |data|
    ensures Flat(Stream(cipher, j, b, data))[k]
         == if k < 8 * n then Flat(data)[k] != cipher(Counter(j, b + 1))[k]
            else Flat(Stream(cipher, j, b + 1, data[n..]))[k - 8 * n]
  {
    var key := cipher(Counter(j, b + 1));
    var first, rest := XorBytes(data[..n], Cut(key)[..n]), Stream(cipher, j, b + 1, data[n..]);
    StreamStep(cipher, j, b, data, n);
    FlatAppend(first, rest);
    FlatTake(data, n);
    if k < 8 * n {
      ChunkAt(data[..n], key, k);
    }
  }

  lemma StreamRest(cipher: Block -> Block, j: Block, b: nat, data: seq<Byte>, k: nat)
    requires 128 <= k < 8 * |data|
    ensures Flat(Stream(cipher, j, b, data))[k] == Flat(Stream(cipher, j, b + 1, data[16..]))[k - 128]
    ensures Flat(data)[k] == Flat(data[16..])[k - 128]
  {
    StreamFirst(cipher, j, b, data, 16, k);
    FlatTake(data, 16);
  }

  lemma {:induction false} StreamAt(cipher: Block -> Block, j: Block, b: nat, data: seq<Byte>, q: nat, r: nat, k: nat)
    requires r < 128 && k == 128 * q + r && k < 8 * |data|
    ensures Flat(Stream(cipher, j, b, data))[k] == (Flat(data)[k] != cipher(NthBlock(j, b + 1 + q))[r])
    decreases q
  {
    if q == 0 {
      StreamFirst(cipher, j, b, data, if |data| < 16 then |data| else 16, k);
      CounterIsNth(j, b + 1);
    } else {
      StreamRest(cipher, j, b, data, k);
      StreamAt(cipher, j, b + 1, data[16..], q - 1, r, k - 128);
      assert b + 1 + 1 + (q - 1) == b + 1 + q;
    }
  }

  /** Section 6.5: bit k of the output is bit k of the input, changed by bit k modulo 128 of
      the encryption of the counter block with number k div 128, the first being number 1. */
  lemma StreamBit(cipher: Block -> Block, j: Block, data: seq<Byte>, k: nat)
    requires k < 8 * |data|
    ensures Flat(Stream(cipher, j, 0, data))[k] == (Flat(data)[k] != cipher(NthBlock(j, 1 + k / 128))[k % 128])
  {
    StreamAt(cipher, j, 0, data, k / 128, k % 128, k);
  }

  /** Section 7.1, step 4: the number of zero bits after a string of n bits. */
  function PadBits(n: nat): nat {
    (128 - n % 128) % 128
  }

  /** Section 7.1, step 5: the bit string that is hashed for the tag. */
  function HashInput(a: Bits, c: Bits): Bits {
    a + Zeros(PadBits(|a|)) + (c + Zeros(PadBits(|c|)))
    + BitsOf(|a| % 0x1_0000_0000_0000_0000, 64) + BitsOf(|c| % 0x1_0000_0000_0000_0000, 64)
  }

  lemma PadSmall(n: nat)
    requires n < 16
    ensures 8 * PadBytes(n) == PadBits(8 * n)
  {
    if n > 0 {
      PadBytesSmall(n);
    }
  }

  lemma PadBitsPeriod(n: nat)
    requires n >= 128
    ensures PadBits(n) == PadBits(n - 128)
  {
  }

  lemma {:induction false} PadScales(n: nat)
    ensures 8 * PadBytes(n) == PadBits(8 * n)
  {
    if n < 16 {
      PadSmall(n);
    } else {
      PadScales(n - 16);
      PadBytesPeriod(n);
      PadBitsPeriod(8 * n);
    }
  }

  lemma PaddedBits(data: seq<Byte>)
    ensures Flat(data + ZeroBytes(PadBytes(|data|))) == Flat(data) + Zeros(PadBits(|Flat(data)|))
  {
    PaddedTail(data);
    PadScales(|data|);
  }

  lemma HashInputBlocks(aad: seq<Byte>, ct: seq<Byte>)
    ensures BlocksOf(HashInput(Flat(aad), Flat(ct))) == TagInput(aad, ct)
  {
    var left, right := aad + ZeroBytes(PadBytes(|aad|)), ct + ZeroBytes(PadBytes(|ct|));
    var lenA, lenC := Cut(LenBits(|aad|)), Cut(LenBits(|ct|));
    TagBuffer(aad, ct);
    FlatAppend(left + right + lenA, lenC);
    FlatAppend(left + right, lenA);
    FlatAppend(left, right);
    FlatCut(LenBits(|aad|));
    FlatCut(LenBits(|ct|));
    PaddedBits(aad);
    PaddedBits(ct);
  }

  /** Section 7.1, for the initial counter block j: c is the plaintext under the key stream
      from the block after j on, and t is the hash of the input for the tag, changed by the
      encryption of j itself. */
  predicate Encrypts(cipher: Block -> Block, h: Block, j: Block, a: Bits, plain: Bits, c: Bits, t: Bits) {
    && |c| == |plain| && |t| == 128
    && (forall k :: 0 <= k < |c| ==> c[k] == (plain[k] != cipher(NthBlock(j, 1 + k / 128))[k % 128]))
    && (forall k :: 0 <= k < 128 ==>
          t[k] == (GhashBlocks(h, ZERO, BlocksOf(HashInput(a, c)))[k] != cipher(j)[k]))
  }

  /** There is one ciphertext and one tag. */
  lemma EncryptsOnce(cipher: Block -> Block, h: Block, j: Block, a: Bits, plain: Bits,
                     c: Bits, t: Bits, c2: Bits, t2: Bits)
    requires Encrypts(cipher, h, j, a, plain, c, t) && Encrypts(cipher, h, j, a, plain, c2, t2)
    ensures c == c2 && t == t2
  {
    assert forall k :: 0 <= k < |c| ==> c[k] == c2[k];
    assert c == c2;
  }

  lemma TagBits(g: Gcm, iv: seq<Byte>, aad: seq<Byte>, ct: seq<Byte>, k: nat)
    requires k < 128
    ensures Flat(AuthTag(g, iv, aad, ct))[k]
         == (GhashBlocks(g.h, ZERO, BlocksOf(HashInput(Flat(aad), Flat(ct))))[k] != g.cipher(CodeJ0(g.h, iv))[k])
  {
    var hash: Block, mask: Block := GhashBlocks(g.h, ZERO, TagInput(aad, ct)), g.cipher(CodeJ0(g.h, iv));
    HashInputBlocks(aad, ct);
    FlatCut(Xor(hash, mask));
    XorAt(hash, mask, k);
  }

  /** What `seal` returns is the ciphertext and the tag of the standard for the initial counter
      block of the code, bit by bit; nothing else is, and for the block that the standard
      prescribes it is so whenever the two blocks agree (`J0Exact` says when). */
  lemma SealConforms(g: Gcm, iv: seq<Byte>, aad: seq<Byte>, plain: seq<Byte>, data: seq<Byte>)
    requires |data| == |plain| + 16
    ensures data == Sealed(g, iv, aad, plain)
       <==> Encrypts(g.cipher, g.h, CodeJ0(g.h, iv), Flat(aad), Flat(plain),
                     Flat(data)[..8 * |plain|], Flat(data)[8 * |plain|..])
    ensures CodeJ0(g.h, iv) == NistJ0(g.h, iv) ==>
      (data == Sealed(g, iv, aad, plain)
       <==> Encrypts(g.cipher, g.h, NistJ0(g.h, iv), Flat(aad), Flat(plain),
                     Flat(data)[..8 * |plain|], Flat(data)[8 * |plain|..]))
  {
    var j := CodeJ0(g.h, iv);
    var sealed := Sealed(g, iv, aad, plain);
    SealedParts(g, iv, aad, plain);
    if Encrypts(g.cipher, g.h, j, Flat(aad), Flat(plain), Flat(data)[..8 * |plain|], Flat(data)[8 * |plain|..]) {
      EncryptsOnce(g.cipher, g.h, j, Flat(aad), Flat(plain),
                   Flat(data)[..8 * |plain|], Flat(data)[8 * |plain|..],
                   Flat(sealed)[..8 * |plain|], Flat(sealed)[8 * |plain|..]);
      Split(Flat(data), 8 * |plain|);
      Split(Flat(sealed), 8 * |plain|);
      FlatInjective(data, sealed);
    }
  }

  lemma {:induction false} FlatInjective(a: seq<Byte>, b: seq<Byte>)
    requires |a| == |b| && Flat(a) == Flat(b)
    ensures a == b
  {
    if a != [] {
      Parts(a[0], Flat(a[1..]));
      Parts(b[0], Flat(b[1..]));
      FlatInjective(a[1..], b[1..]);
      Split(a, 1);
      Split(b, 1);
    }
  }

  lemma SealedParts(g: Gcm, iv: seq<Byte>, aad: seq<Byte>, plain: seq<Byte>)
    ensures var s := Flat(Sealed(g, iv, aad, plain));
      && |Sealed(g, iv, aad, plain)| == |plain| + 16
      && Encrypts(g.cipher, g.h, CodeJ0(g.h, iv), Flat(aad), Flat(plain), s[..8 * |plain|], s[8 * |plain|..])
  {
    var ct := Stream(g.cipher, CodeJ0(g.h, iv), 0, plain);
    var tag := AuthTag(g, iv, aad, ct);
    FlatAppend(ct, tag);
    Parts(Flat(ct), Flat(tag));
    StreamEncrypts(g, iv, aad, plain, ct, tag);
  }

  lemma StreamEncrypts(g: Gcm, iv: seq<Byte>, aad: seq<Byte>, plain: seq<Byte>, ct: seq<Byte>, tag: seq<Byte>)
    requires ct == Stream(g.cipher, CodeJ0(g.h, iv), 0, plain) && tag == AuthTag(g, iv, aad, ct)
    ensures Encrypts(g.cipher, g.h, CodeJ0(g.h, iv), Flat(aad), Flat(plain), Flat(ct), Flat(tag))
  {
    var j := CodeJ0(g.h, iv);
    forall k | 0 <= k < 8 * |plain|
      ensures Flat(ct)[k] == (Flat(plain)[k] != g.cipher(NthBlock(j, 1 + k / 128))[k % 128])
    {
      StreamBit(g.cipher, j, plain, k);
    }
    forall k | 0 <= k < 128
      ensures Flat(tag)[k]
           == (GhashBlocks(g.h, ZERO, BlocksOf(HashInput(Flat(aad), Flat(ct))))[k] != g.cipher(j)[k])
    {
      TagBits(g, iv, aad, ct, k);
    }
  }
}
