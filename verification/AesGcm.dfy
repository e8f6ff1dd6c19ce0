/** The AES-GCM mode layer. AES itself is an arbitrary function on blocks. The reference
    definitions (`GhashBlocks`, `NistJ0`, `TagInput`) follow sections 6.4 and 7.1 of NIST
    SP 800-38D on bit strings; the code works on bytes and chunks. */
module AesGcm {
  import opened Wrappers
  import opened Gf128
  import opened Hashing
  import opened Counters
  import opened Nonces
  import opened Bytes
  import opened Seqs
  import opened Values

  datatype GcmError = TooShort | TagMismatch

  // ---- the tag input ----

  /** Section 7.1, step 5: the associated data and the ciphertext, each filled up with zeros
      to whole blocks, then the two bit lengths as 64-bit numbers. */
  function TagInput(aad: seq<Byte>, ct: seq<Byte>): seq<Block> {
    BlocksOf(Flat(aad)) + BlocksOf(Flat(ct)) + [LenBits(|aad|) + LenBits(|ct|)]
  }

  lemma FlatFour(a: seq<Byte>, b: seq<Byte>, c: seq<Byte>, d: seq<Byte>)
    ensures Flat(a + b + c + d) == Flat(a) + (Flat(b) + (Flat(c) + Flat(d)))
  {
    FlatAppend(a + b + c, d);
    FlatAppend(a + b, c);
    FlatAppend(a, b);
    Assoc(Flat(a) + Flat(b), Flat(c), Flat(d));
    Assoc(Flat(a), Flat(b), Flat(c) + Flat(d));
  }

  lemma TwoFields(aad: seq<Byte>, ct: seq<Byte>, lens: Block)
    ensures BlocksOf(Flat(aad + ZeroBytes(PadBytes(|aad|)))
                   + (Flat(ct + ZeroBytes(PadBytes(|ct|))) + lens))
         == BlocksOf(Flat(aad)) + BlocksOf(Flat(ct)) + [lens]
  {
    BlocksOfField(aad, Flat(ct + ZeroBytes(PadBytes(|ct|))) + lens);
    BlocksOfField(ct, lens);
    BlocksOfBlock(lens, []);
    Empty(lens);
    Empty([lens]);
    Assoc(BlocksOf(Flat(aad)), BlocksOf(Flat(ct)), [lens]);
  }

  /** The byte buffer `tag` builds is, as blocks, the string the standard prescribes. */
  lemma TagBuffer(aad: seq<Byte>, ct: seq<Byte>)
    ensures BlocksOf(Flat(aad + ZeroBytes(PadBytes(|aad|)) + (ct + ZeroBytes(PadBytes(|ct|)))
                        + Cut(LenBits(|aad|)) + Cut(LenBits(|ct|)))) == TagInput(aad, ct)
  {
    FlatFour(aad + ZeroBytes(PadBytes(|aad|)), ct + ZeroBytes(PadBytes(|ct|)),
             Cut(LenBits(|aad|)), Cut(LenBits(|ct|)));
    FlatCut(LenBits(|aad|));
    FlatCut(LenBits(|ct|));
    TwoFields(aad, ct, LenBits(|aad|) + LenBits(|ct|));
  }

  // ---- sealing and opening ----

  /** The inner loop, which xors the bytes of one chunk into the key stream. */
  method Mask(block: Block, chunk: seq<Byte>) returns (ks: seq<Byte>)
    requires |chunk| <= 16
    ensures |ks| == 16
    ensures ks[..|chunk|] == XorBytes(chunk, Cut(block)[..|chunk|])
  {
    ks := Cut(block);
    Empty(chunk);
    for o := 0 to |chunk|
      invariant |ks| == 16
      invariant ks[o..] == Cut(block)[o..]
      invariant ks[..o] + XorBytes(chunk[o..], Cut(block)[o..|chunk|])
             == XorBytes(chunk, Cut(block)[..|chunk|])
    {
      XorComm(ks[o], chunk[o]);
      ks := ks[o := Xor(ks[o], chunk[o])];
      MaskStep(ks, chunk, Cut(block), o);
    }
    Empty(ks[..|chunk|]);
  }

  lemma MaskStep(ks: seq<Byte>, chunk: seq<Byte>, key: seq<Byte>, o: nat)
    requires o < |chunk| <= |key| == |ks|
    requires ks[o] == Xor(chunk[o], key[o])
    ensures ks[..o + 1] + XorBytes(chunk[o + 1..], key[o + 1..|chunk|])
         == ks[..o] + XorBytes(chunk[o..], key[o..|chunk|])
  {
    assert chunk[o..][1..] == chunk[o + 1..];
    assert key[o..|chunk|][1..] == key[o + 1..|chunk|];
    assert ks[..o + 1] == ks[..o] + [ks[o]];
    Assoc(ks[..o], [ks[o]], XorBytes(chunk[o + 1..], key[o + 1..|chunk|]));
  }

  lemma {:induction false} XorBytesTwice(data: seq<Byte>, key: seq<Byte>)
    requires |data| == |key|
    ensures XorBytes(XorBytes(data, key), key) == data
  {
    if data != [] {
      XorAssoc(data[0], key[0], key[0]);
      XorSelf(key[0]);
      XorSelf(data[0]);
      XorBytesTwice(data[1..], key[1..]);
    }
  }

  /** Section 6.5 (GCTR) from block number `b` on: chunk i is masked with the
      encryption of counter block number i, counted from 1. */
  function Stream(cipher: Block -> Block, j0: Block, b: nat, data: seq<Byte>): (r: seq<Byte>)
    ensures |r| == |data|
    decreases |data|
  {
    var key := Cut(cipher(Counter(j0, b + 1)));
    if |data| <= 16 then XorBytes(data, key[..|data|])
    else XorBytes(data[..16], key) + Stream(cipher, j0, b + 1, data[16..])
  }

  lemma StreamStep(cipher: Block -> Block, j0: Block, b: nat, data: seq<Byte>, n: nat)
    requires n == if |data| < 16 then |data| else 16
    ensures Stream(cipher, j0, b, data)
         == XorBytes(data[..n], Cut(cipher(Counter(j0, b + 1)))[..n]) + Stream(cipher, j0, b + 1, data[n..])
  {
    var key := Cut(cipher(Counter(j0, b + 1)));
    Empty(data);
    Empty(key);
    Empty(XorBytes(data[..n], key[..n]));
  }

  lemma {:induction false} StreamInvolution(cipher: Block -> Block, j0: Block, b: nat, data: seq<Byte>)
    ensures Stream(cipher, j0, b, Stream(cipher, j0, b, data)) == data
    decreases |data|
  {
    var key := Cut(cipher(Counter(j0, b + 1)));
    if |data| <= 16 {
      XorBytesTwice(data, key[..|data|]);
    } else {
      Parts(XorBytes(data[..16], key), Stream(cipher, j0, b + 1, data[16..]));
      XorBytesTwice(data[..16], key);
      StreamInvolution(cipher, j0, b + 1, data[16..]);
      Split(data, 16);
    }
  }

  /** A context never changes once it is built, so it is a value. */
  datatype Gcm = Gcm(cipher: Block -> Block, h: Block)

  /** Section 7.1, steps 5 and 6: GHASH of the tag input, masked with E(J0). */
  function AuthTag(g: Gcm, iv: seq<Byte>, aad: seq<Byte>, ct: seq<Byte>): (r: seq<Byte>)
    ensures |r| == 16
  {
    var hash: Block, mask: Block := GhashBlocks(g.h, ZERO, TagInput(aad, ct)), g.cipher(CodeJ0(g.h, iv));
    Cut(Xor(hash, mask))
  }

  function Sealed(g: Gcm, iv: seq<Byte>, aad: seq<Byte>, plain: seq<Byte>): seq<Byte> {
    var ct := Stream(g.cipher, CodeJ0(g.h, iv), 0, plain);
    ct + AuthTag(g, iv, aad, ct)
  }

  function Opened(g: Gcm, iv: seq<Byte>, aad: seq<Byte>, data: seq<Byte>): Result<seq<Byte>, GcmError> {
    if |data| < 16 then Err(TooShort)
    else
      var ct := data[..|data| - 16];
      if AuthTag(g, iv, aad, ct) == data[|data| - 16..] then Ok(Stream(g.cipher, CodeJ0(g.h, iv), 0, ct))
      else Err(TagMismatch)
  }

  method J0(g: Gcm, iv: seq<Byte>) returns (j: Block)
    ensures j == CodeJ0(g.h, iv)
  {
    if |iv| == 12 {
      return Flat(iv) + Zeros(31) + [true];
    }
    var buf := iv;
    buf := buf + ZeroBytes(PadBytes(|iv|));
    buf := buf + Cut(LenBits(|iv|));
    j := Ghash(g.h, buf);
    FlatAppend(iv + ZeroBytes(PadBytes(|iv|)), Cut(LenBits(|iv|)));
    FlatCut(LenBits(|iv|));
    BlocksOfField(iv, LenBits(|iv|));
  }

  method Tag(g: Gcm, iv: seq<Byte>, aad: seq<Byte>, ct: seq<Byte>) returns (tag: seq<Byte>)
    ensures tag == AuthTag(g, iv, aad, ct)
  {
    var left, right := aad + ZeroBytes(PadBytes(|aad|)), ct + ZeroBytes(PadBytes(|ct|));
    var lenA, lenC := LenBits(|aad|), LenBits(|ct|);
    var buf := left + right + Cut(lenA) + Cut(lenC);
    var s := Ghash(g.h, buf);
    TagBuffer(aad, ct);
    var j := J0(g, iv);
    tag := Cut(Xor(s, g.cipher(j)));
  }

  /** The chunk loop that `seal` and `open` share. */
  method Ctr(g: Gcm, j0: Block, data: seq<Byte>) returns (outp: seq<Byte>)
    ensures outp == Stream(g.cipher, j0, 0, data)
  {
    var counter := j0;
    outp := [];
    var i := 0;
    ghost var b := 0;
    Empty(data);
    while i < |data|
      invariant 0 <= i <= |data|
      invariant counter == Counter(j0, b)
      invariant outp + Stream(g.cipher, j0, b, data[i..]) == Stream(g.cipher, j0, 0, data)
    {
      var n := if |data| - i < 16 then |data| - i else 16;
      counter := Inc32(counter);
      var ks := Mask(g.cipher(counter), data[i..i + n]);
      StreamStep(g.cipher, j0, b, data[i..], n);
      DropDrop(data, i, n);
      Assoc(outp, ks[..n], Stream(g.cipher, j0, b + 1, data[i + n..]));
      outp := outp + ks[..n];
      i := i + n;
      b := b + 1;
    }
  }

  method Seal(g: Gcm, iv: seq<Byte>, aad: seq<Byte>, plain: seq<Byte>) returns (outp: seq<Byte>)
    ensures outp == Sealed(g, iv, aad, plain)
  {
    var j := J0(g, iv);
    outp := Ctr(g, j, plain);
    var tag := Tag(g, iv, aad, outp);
    outp := outp + tag;
  }

  method Open(g: Gcm, iv: seq<Byte>, aad: seq<Byte>, data: seq<Byte>)
    returns (r: Result<seq<Byte>, GcmError>)
    ensures r == Opened(g, iv, aad, data)
  {
    if |data| < 16 {
      return Err(TooShort);
    }
    var ct, tag := data[..|data| - 16], data[|data| - 16..];
    var j := J0(g, iv);
    var outp := Ctr(g, j, ct);
    var expected := Tag(g, iv, aad, ct);
    r := if expected == tag then Ok(outp) else Err(TagMismatch);
  }

  /** Opening what was sealed returns the plaintext, for every length. */
  lemma RoundTrip(g: Gcm, iv: seq<Byte>, aad: seq<Byte>, plain: seq<Byte>)
    ensures Opened(g, iv, aad, Sealed(g, iv, aad, plain)) == Ok(plain)
  {
    var ct := Stream(g.cipher, CodeJ0(g.h, iv), 0, plain);
    Parts(ct, AuthTag(g, iv, aad, ct));
    StreamInvolution(g.cipher, CodeJ0(g.h, iv), 0, plain);
  }

  /** The converse: `open` accepts nothing but what `seal` produces. */
  lemma OpenedWasSealed(g: Gcm, iv: seq<Byte>, aad: seq<Byte>, data: seq<Byte>)
    ensures match Opened(g, iv, aad, data)
            case Ok(plain) => data == Sealed(g, iv, aad, plain)
            case Err(TooShort) => |data| < 16
            case Err(TagMismatch) => forall plain :: data != Sealed(g, iv, aad, plain)
  {
    if |data| >= 16 {
      var ct := data[..|data| - 16];
      Split(data, |data| - 16);
      StreamInvolution(g.cipher, CodeJ0(g.h, iv), 0, ct);
      forall plain | data == Sealed(g, iv, aad, plain)
        ensures Opened(g, iv, aad, data) == Ok(plain)
      {
        RoundTrip(g, iv, aad, plain);
      }
    }
  }

  lemma MaskedEqual(u: Block, v: Block, mask: Block)
    ensures Cut(Xor(u, mask)) == Cut(Xor(v, mask)) <==> u == v
  {
    FlatCut(Xor(u, mask));
    FlatCut(Xor(v, mask));
    if Xor(u, mask) == Xor(v, mask) {
      XorAssoc(u, mask, mask);
      XorAssoc(v, mask, mask);
      XorZero(mask);
      XorZero(u);
      XorZero(v);
    }
  }

  /** Data whose tag input was changed in one block, with the tag it had before, is accepted
      only if the change is none or the hash key is zero. */
  lemma ErrorRejected(g: Gcm, iv: seq<Byte>, aad: seq<Byte>, ct: seq<Byte>, aad2: seq<Byte>,
                      ct2: seq<Byte>, before: seq<Block>, a: Block, b: Block, after: seq<Block>)
    requires TagInput(aad, ct) == before + ([a] + after)
    requires TagInput(aad2, ct2) == before + ([b] + after)
    ensures Opened(g, iv, aad2, ct2 + AuthTag(g, iv, aad, ct)).Ok? <==> a == b || g.h == ZERO
  {
    Parts(ct2, AuthTag(g, iv, aad, ct));
    ErrorSeen(g.h, before, a, b, after);
    var mask: Block := g.cipher(CodeJ0(g.h, iv));
    MaskedEqual(GhashBlocks(g.h, ZERO, TagInput(aad, ct)), GhashBlocks(g.h, ZERO, TagInput(aad2, ct2)), mask);
  }
}
