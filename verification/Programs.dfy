/** Whole programs: instructions and inline data, each in any of its forms, and the proof that
    the linear sweep recovers exactly the instructions. */
module Programs {
  import opened Wrappers
  import opened Seqs
  import opened Values
  import opened Decoder
  import opened Assembler
  import Cursors

  // ---- inline data ----

  function TableWords(vs: seq<I32>): (r: seq<Word>)
    ensures |r| == 2 * |vs|
    decreases |vs|
  {
    if vs == [] then []
    else TableWords(vs[..|vs| - 1]) + [Low(vs[|vs| - 1]), High(vs[|vs| - 1])]
  }

  /** The offsets of switch targets, relative to the switch. */
  function Offsets(pc: nat, targets: seq<I32>): (r: seq<I32>)
    ensures |r| == |targets|
    decreases |targets|
  {
    if targets == [] then []
    else Offsets(pc, targets[..|targets| - 1]) + [Wrap32(targets[|targets| - 1] - pc)]
  }

  /** The bytes of numbers of k bytes each, low byte first. */
  function NumBytes(vs: seq<nat>, k: nat): seq<Cursors.Octet>
    decreases |vs|
  {
    if vs == [] then [] else Cursors.LeBytes(vs[0], k) + NumBytes(vs[1..], k)
  }

  lemma {:induction false} NumBytesLength(vs: seq<nat>, k: nat)
    ensures |NumBytes(vs, k)| == k * |vs|
    decreases |vs|
  {
    if vs != [] {
      NumBytesLength(vs[1..], k);
      assert k * |vs| == k + k * (|vs| - 1);
    }
  }

  /** Two bytes to a code unit, low byte first; the last high byte may be unused. */
  predicate HoldBytes(ws: seq<Word>, raw: seq<Cursors.Octet>) {
    && |ws| == (|raw| + 1) / 2
    && forall k :: 0 <= k < |raw| ==> raw[k] == if k % 2 == 0 then ws[k / 2] % 256 else ws[k / 2] / 256
  }

  function ElementWidth(data: FillArray): nat {
    match data
    case Bytes(_) => 1
    case Shorts(_) => 2
    case Ints(_) => 4
    case Wides(_) => 8
  }

  function ElementsOf(data: FillArray): seq<nat> {
    match data
    case Bytes(v) => v
    case Shorts(v) => v
    case Ints(v) => v
    case Wides(v) => v
  }

  predicate DataFits(data: FillArray) {
    && |ElementsOf(data)| < 0x1_0000_0000
    && forall k :: 0 <= k < |ElementsOf(data)| ==> ElementsOf(data)[k] < Cursors.Pow256(ElementWidth(data))
  }

  /** The instructions that own inline data, and the data's limits. */
  predicate OwnsData(i: Insn) {
    match i
    case PackedSwitch(d, payload, _, targets) => Reg8(d) && Address(payload) && |targets| < 0x1_0000
    case SparseSwitch(d, payload, keys, targets) =>
      Reg8(d) && Address(payload) && |keys| == |targets| < 0x1_0000
    case FillArrayData(d, payload, data) => Reg8(d) && Address(payload) && DataFits(data)
    case _ => false
  }

  function DataCode(i: Insn): nat {
    match i
    case PackedSwitch(_, _, _, _) => 0x2b
    case SparseSwitch(_, _, _, _) => 0x2c
    case _ => 0x26
  }

  /** Their own words. */
  function OwnerWords(i: Insn, pc: nat): (r: seq<Word>)
    requires OwnsData(i)
    ensures |r| == 3
  {
    [Byte(DataCode(i), i.d), Low(Wrap32(i.payload - pc)), High(Wrap32(i.payload - pc))]
  }

  function PackedWords(pc: nat, first: I32, targets: seq<I32>): (r: seq<Word>)
    requires |targets| < 0x1_0000
    ensures |r| == 4 + 2 * |targets|
  {
    [0x0100, |targets|, Low(first), High(first)] + TableWords(Offsets(pc, targets))
  }

  function SparseWords(pc: nat, keys: seq<I32>, targets: seq<I32>): (r: seq<Word>)
    requires |keys| < 0x1_0000
    ensures |r| == 2 + 2 * |keys| + 2 * |targets|
  {
    [0x0200, |keys|] + (TableWords(keys) + TableWords(Offsets(pc, targets)))
  }

  predicate FillWords(ws: seq<Word>, width: nat, vs: seq<nat>)
    requires width < 0x1_0000
  {
    && |ws| >= 4
    && ws[..4] == [0x0300, width, Low(|vs|), High(|vs|)]
    && HoldBytes(ws[4..], NumBytes(vs, width))
  }

  /** The words are the inline data of the instruction at `pc`. */
  predicate DataForm(i: Insn, pc: nat, ws: seq<Word>)
    requires OwnsData(i)
  {
    match i
    case PackedSwitch(_, _, first, targets) => ws == PackedWords(pc, first, targets)
    case SparseSwitch(_, _, keys, targets) => ws == SparseWords(pc, keys, targets)
    case FillArrayData(_, _, data) => FillWords(ws, ElementWidth(data), ElementsOf(data))
  }

  // ---- reading it back ----

  lemma HoldsParts(code: seq<Word>, pc: nat, a: seq<Word>, b: seq<Word>)
    ensures Holds(code, pc, a + b) <==> Holds(code, pc, a) && Holds(code, pc + |a|, b)
  {
    if pc + |a| + |b| <= |code| {
      var s := code[pc..pc + |a| + |b|];
      assert s[..|a|] == code[pc..pc + |a|] && s[|a|..] == code[pc + |a|..pc + |a| + |b|];
      Parts(a, b);
      Split(s, |a|);
    }
  }

  lemma HoldsPair(code: seq<Word>, pc: nat, a: Word, b: Word)
    ensures Holds(code, pc, [a, b]) <==> pc + 2 <= |code| && code[pc] == a && code[pc + 1] == b
  {
    if pc + 2 <= |code| {
      assert code[pc..pc + 2] == [code[pc], code[pc + 1]];
    }
  }

  lemma HoldsFour(code: seq<Word>, pc: nat, a: Word, b: Word, c: Word, d: Word)
    ensures Holds(code, pc, [a, b, c, d])
       <==> pc + 4 <= |code| && code[pc] == a && code[pc + 1] == b && code[pc + 2] == c && code[pc + 3] == d
  {
    if pc + 4 <= |code| {
      assert code[pc..pc + 4] == [code[pc], code[pc + 1], code[pc + 2], code[pc + 3]];
    }
  }

  /** A table of 32-bit values is read as exactly the values whose words stand there. */
  lemma {:induction false} TableExact(code: seq<Word>, at: nat, vs: seq<I32>)
    ensures Holds(code, at, TableWords(vs)) <==> at + 2 * |vs| <= |code| && Table(code, at, |vs|) == vs
    decreases |vs|
  {
    if vs == [] {
      if at <= |code| {
        assert code[at..at + 0] == TableWords(vs);
      }
    } else {
      var n := |vs| - 1;
      HoldsParts(code, at, TableWords(vs[..n]), [Low(vs[n]), High(vs[n])]);
      TableExact(code, at, vs[..n]);
      HoldsPair(code, at + 2 * n, Low(vs[n]), High(vs[n]));
      HalvesOf(vs[n]);
      assert vs == vs[..n] + [vs[n]];
      if at + 2 * |vs| <= |code| {
        HalvesBack(code[at + 2 * n], code[at + 2 * n + 1]);
        LastOf(Table(code, at, n), Signed32(code[at + 2 * n], code[at + 2 * n + 1]), vs[..n], vs[n]);
      }
    }
  }

  lemma LastOf<T>(a: seq<T>, x: T, b: seq<T>, y: T)
    ensures a + [x] == b + [y] <==> a == b && x == y
  {
    if a + [x] == b + [y] {
      assert |a| == |b| && (a + [x])[|a|] == x && (b + [y])[|b|] == y;
      Parts(a, [x]);
      Parts(b, [y]);
    }
  }

  lemma TargetsSnoc(pc: nat, offs: seq<I32>, off: I32)
    ensures SwitchTargets(pc, offs + [off]) == SwitchTargets(pc, offs) + [SwitchTarget(pc, off)]
  {
    Parts(offs, [off]);
  }

  lemma OffsetsSnoc(pc: nat, targets: seq<I32>, t: I32)
    ensures Offsets(pc, targets + [t]) == Offsets(pc, targets) + [Wrap32(t - pc)]
  {
    Parts(targets, [t]);
  }

  lemma {:induction false} TargetsBack(pc: nat, targets: seq<I32>)
    ensures SwitchTargets(pc, Offsets(pc, targets)) == targets
    decreases |targets|
  {
    if targets != [] {
      var n := |targets| - 1;
      TargetsBack(pc, targets[..n]);
      TargetsSnoc(pc, Offsets(pc, targets[..n]), Wrap32(targets[n] - pc));
      WrapBack(pc, targets[n]);
      assert targets == targets[..n] + [targets[n]];
    }
  }

  lemma {:induction false} OffsetsBack(pc: nat, offs: seq<I32>)
    ensures Offsets(pc, SwitchTargets(pc, offs)) == offs
    decreases |offs|
  {
    if offs != [] {
      var n := |offs| - 1;
      OffsetsBack(pc, offs[..n]);
      OffsetsSnoc(pc, SwitchTargets(pc, offs[..n]), SwitchTarget(pc, offs[n]));
      WrapBack(pc, offs[n]);
      assert offs == offs[..n] + [offs[n]];
    }
  }

  lemma WrapBack(pc: nat, t: I32)
    ensures Wrap32(pc + Wrap32(t - pc)) == t && Wrap32(Wrap32(pc + t) - pc) == t
  {
  }

  lemma {:induction false} ElementsBack(vs: seq<nat>, k: nat)
    requires k in {2, 4, 8} && forall j :: 0 <= j < |vs| ==> vs[j] < Cursors.Pow256(k)
    ensures Elements(NumBytes(vs, k), k) == vs
    decreases |vs|
  {
    if vs != [] {
      var one, rest := Cursors.LeBytes(vs[0], k), NumBytes(vs[1..], k);
      assert NumBytes(vs, k) == one + rest;
      Parts(one, rest);
      Cursors.LeRoundTrip(vs[0], k);
      ElementsBack(vs[1..], k);
      assert vs == [vs[0]] + vs[1..];
    }
  }

  lemma FirstByte(b: Cursors.Octet, v: nat)
    ensures (b + 256 * v) % 256 == b && (b + 256 * v) / 256 == v
  {
  }

  lemma {:induction false} LeBytesOf(bs: seq<Cursors.Octet>)
    ensures Cursors.LeBytes(Cursors.LeValue(bs), |bs|) == bs
  {
    if bs != [] {
      LeBytesOf(bs[1..]);
      FirstByte(bs[0], Cursors.LeValue(bs[1..]));
      assert bs == [bs[0]] + bs[1..];
    }
  }

  lemma {:induction false} NumBytesBack(raw: seq<Cursors.Octet>, k: nat)
    requires k in {2, 4, 8} && |raw| % k == 0
    ensures NumBytes(Elements(raw, k), k) == raw
    decreases |raw|
  {
    if |raw| >= k {
      NumBytesBack(raw[k..], k);
      LeBytesOf(raw[..k]);
      assert Elements(raw, k)[1..] == Elements(raw[k..], k);
      assert raw == raw[..k] + raw[k..];
    }
  }

  lemma {:induction false} BytesBack(vs: seq<nat>)
    requires forall j :: 0 <= j < |vs| ==> vs[j] < Cursors.Pow256(1)
    ensures NumBytes(vs, 1) == vs
    decreases |vs|
  {
    if vs != [] {
      BytesBack(vs[1..]);
      assert Cursors.LeBytes(vs[0], 1) == [vs[0]] by {
        assert Cursors.Pow256(1) == 256;
        assert Cursors.LeBytes(vs[0] / 256, 0) == [];
      }
      assert vs == [vs[0]] + vs[1..];
    }
  }

  lemma {:induction false} RawByteAt(code: seq<Word>, at: nat, n: nat, k: nat)
    requires at + (n + 1) / 2 <= |code| && k < n
    ensures RawBytes(code, at, n)[k] == if k % 2 == 0 then code[at + k / 2] % 256 else code[at + k / 2] / 256
    decreases n
  {
    if k < n - 1 {
      RawByteAt(code, at, n - 1, k);
    }
  }

  /** Bytes are read as exactly those that the code units hold. */
  lemma RawExact(code: seq<Word>, at: nat, raw: seq<Cursors.Octet>)
    requires at + (|raw| + 1) / 2 <= |code|
    ensures HoldBytes(code[at..at + (|raw| + 1) / 2], raw) <==> RawBytes(code, at, |raw|) == raw
  {
    var ws, read := code[at..at + (|raw| + 1) / 2], RawBytes(code, at, |raw|);
    forall k | 0 <= k < |raw|
      ensures read[k] == if k % 2 == 0 then ws[k / 2] % 256 else ws[k / 2] / 256
    {
      RawByteAt(code, at, |raw|, k);
    }
  }

  lemma PackedFrom(code: seq<Word>, pc: nat, d: nat, at: nat, n: nat)
    requires at + 4 + 2 * n <= |code| && code[at] == 0x0100 && code[at + 1] == n
    ensures Packed(code, pc, d, at)
         == Ok(PackedSwitch(d, at, Signed32(code[at + 2], code[at + 3]), SwitchTargets(pc, Table(code, at + 4, n))))
  {
  }

  lemma PackedExact(code: seq<Word>, pc: nat, d: nat, at: nat, first: I32, targets: seq<I32>)
    requires |targets| < 0x1_0000
    ensures Holds(code, at, PackedWords(pc, first, targets))
       <==> Packed(code, pc, d, at) == Ok(PackedSwitch(d, at, first, targets))
  {
    var offs := Offsets(pc, targets);
    HoldsParts(code, at, [0x0100, |targets|, Low(first), High(first)], TableWords(offs));
    HoldsFour(code, at, 0x0100, |targets|, Low(first), High(first));
    TableExact(code, at + 4, offs);
    TargetsBack(pc, targets);
    HalvesOf(first);
    if at + 4 + 2 * |targets| <= |code| && code[at] == 0x0100 && code[at + 1] == |targets| {
      PackedFrom(code, pc, d, at, |targets|);
      HalvesBack(code[at + 2], code[at + 3]);
      OffsetsBack(pc, Table(code, at + 4, |targets|));
    }
  }

  lemma SparseFrom(code: seq<Word>, pc: nat, d: nat, at: nat, n: nat)
    requires at + 2 + 4 * n <= |code| && code[at] == 0x0200 && code[at + 1] == n
    ensures Sparse(code, pc, d, at)
         == Ok(SparseSwitch(d, at, Table(code, at + 2, n), SwitchTargets(pc, Table(code, at + 2 + 2 * n, n))))
  {
  }

  lemma SparseShape(code: seq<Word>, pc: nat, d: nat, at: nat, keys: seq<I32>, targets: seq<I32>)
    requires |keys| == |targets|
    ensures var n := |keys|;
      Sparse(code, pc, d, at) == Ok(SparseSwitch(d, at, keys, targets))
      <==> && at + 2 + 4 * n <= |code| && code[at] == 0x0200 && code[at + 1] == n
           && Table(code, at + 2, n) == keys && SwitchTargets(pc, Table(code, at + 2 + 2 * n, n)) == targets
  {
    var n := |keys|;
    if at + 2 + 4 * n <= |code| && code[at] == 0x0200 && code[at + 1] == n {
      SparseFrom(code, pc, d, at, n);
    }
  }

  lemma HeadedParts(code: seq<Word>, at: nat, x: Word, y: Word, a: seq<Word>, b: seq<Word>)
    ensures Holds(code, at, [x, y] + (a + b))
       <==> at + 2 <= |code| && code[at] == x && code[at + 1] == y && Holds(code, at + 2, a)
            && Holds(code, at + 2 + |a|, b)
  {
    HoldsParts(code, at, [x, y], a + b);
    HoldsParts(code, at + 2, a, b);
    HoldsPair(code, at, x, y);
  }

  lemma SparseHeld(code: seq<Word>, at: nat, keys: seq<I32>, offs: seq<I32>)
    requires |keys| == |offs| < 0x1_0000
    ensures var n := |keys|;
      Holds(code, at, [0x0200, n] + (TableWords(keys) + TableWords(offs)))
      <==> && at + 2 + 4 * n <= |code| && code[at] == 0x0200 && code[at + 1] == n
           && Table(code, at + 2, n) == keys && Table(code, at + 2 + 2 * n, n) == offs
  {
    var n := |keys|;
    HeadedParts(code, at, 0x0200, n, TableWords(keys), TableWords(offs));
    TableExact(code, at + 2, keys);
    TableExact(code, at + 2 + 2 * n, offs);
  }

  lemma SparseExact(code: seq<Word>, pc: nat, d: nat, at: nat, keys: seq<I32>, targets: seq<I32>)
    requires |keys| == |targets| < 0x1_0000
    ensures Holds(code, at, SparseWords(pc, keys, targets))
       <==> Sparse(code, pc, d, at) == Ok(SparseSwitch(d, at, keys, targets))
  {
    var n := |keys|;
    SparseHeld(code, at, keys, Offsets(pc, targets));
    SparseShape(code, pc, d, at, keys, targets);
    TargetsBack(pc, targets);
    if at + 2 + 4 * n <= |code| {
      OffsetsBack(pc, Table(code, at + 2 + 2 * n, n));
    }
  }

  /** The elements that a width makes of raw bytes. */
  function Grouped(raw: seq<Cursors.Octet>, width: nat): FillArray
    requires width in {1, 2, 4, 8}
  {
    match width
    case 1 => Bytes(raw)
    case 2 => Shorts(Elements(raw, 2))
    case 4 => Ints(Elements(raw, 4))
    case _ => Wides(Elements(raw, 8))
  }

  lemma FillFrom(code: seq<Word>, at: nat, width: nat, count: nat)
    requires width in {1, 2, 4, 8} && at + 4 + (width * count + 1) / 2 <= |code|
    requires code[at] == 0x0300 && code[at + 1] == width
    requires (code[at + 2] as int) + 0x1_0000 * (code[at + 3] as int) == count
    ensures FillData(code, at) == Ok(Grouped(RawBytes(code, at + 4, width * count), width))
  {
    assert count * width == width * count;
  }

  lemma GroupedBack(vs: seq<nat>, data: FillArray)
    requires DataFits(data) && vs == ElementsOf(data)
    ensures Grouped(NumBytes(vs, ElementWidth(data)), ElementWidth(data)) == data
  {
    if data.Bytes? {
      BytesBack(vs);
    } else {
      ElementsBack(vs, ElementWidth(data));
    }
  }

  lemma BytesOfGrouped(raw: seq<Cursors.Octet>, width: nat, count: nat)
    requires width in {1, 2, 4, 8} && |raw| == width * count && count < 0x1_0000_0000
    ensures var data := Grouped(raw, width);
      && DataFits(data) && ElementWidth(data) == width && |ElementsOf(data)| == count
      && NumBytes(ElementsOf(data), width) == raw
  {
    if width == 1 {
      assert Cursors.Pow256(1) == 256 * Cursors.Pow256(0);
      BytesBack(raw);
    } else {
      ElementsSmall(raw, width);
      assert |raw| % width == 0;
      NumBytesBack(raw, width);
    }
  }

  lemma {:induction false} ElementsSmall(raw: seq<Cursors.Octet>, k: nat)
    requires k in {2, 4, 8}
    ensures forall j :: 0 <= j < |Elements(raw, k)| ==> Elements(raw, k)[j] < Cursors.Pow256(k)
    decreases |raw|
  {
    if |raw| >= k {
      var rest := Elements(raw[k..], k);
      Cursors.LeBound(raw[..k]);
      ElementsSmall(raw[k..], k);
      assert forall j :: 1 <= j < |rest| + 1 ==> Elements(raw, k)[j] == rest[j - 1];
    }
  }

  lemma FillRead(code: seq<Word>, at: nat, ws: seq<Word>, width: nat, vs: seq<nat>, raw: seq<Cursors.Octet>)
    requires width < 0x1_0000 && raw == NumBytes(vs, width) && FillWords(ws, width, vs) && Holds(code, at, ws)
    ensures at + 4 + (|raw| + 1) / 2 <= |code| && RawBytes(code, at + 4, |raw|) == raw
    ensures code[at] == 0x0300 && code[at + 1] == width && code[at + 2] == Low(|vs|) && code[at + 3] == High(|vs|)
  {
    Split(ws, 4);
    HoldsParts(code, at, ws[..4], ws[4..]);
    HoldsFour(code, at, 0x0300, width, Low(|vs|), High(|vs|));
    RawExact(code, at + 4, raw);
  }

  /** Array data is decoded from every form of its words. */
  lemma FillDecodes(code: seq<Word>, data: FillArray, at: nat, ws: seq<Word>)
    requires DataFits(data) && FillWords(ws, ElementWidth(data), ElementsOf(data)) && Holds(code, at, ws)
    ensures FillData(code, at) == Ok(data)
  {
    var vs, k := ElementsOf(data), ElementWidth(data);
    NumBytesLength(vs, k);
    FillRead(code, at, ws, k, vs, NumBytes(vs, k));
    UnsignedBack(|vs|);
    FillFrom(code, at, k, |vs|);
    GroupedBack(vs, data);
  }

  lemma FirstFour(code: seq<Word>, at: nat, end: nat)
    requires at + 4 <= end <= |code|
    ensures code[at..end][..4] == [code[at], code[at + 1], code[at + 2], code[at + 3]]
    ensures code[at..end][4..] == code[at + 4..end]
  {
  }

  lemma FillMade(code: seq<Word>, at: nat, width: nat, vs: seq<nat>, raw: seq<Cursors.Octet>)
    requires width < 0x1_0000 && raw == NumBytes(vs, width) && at + 4 + (|raw| + 1) / 2 <= |code|
    requires code[at] == 0x0300 && code[at + 1] == width && code[at + 2] == Low(|vs|) && code[at + 3] == High(|vs|)
    requires RawBytes(code, at + 4, |raw|) == raw
    ensures FillWords(code[at..at + 4 + (|raw| + 1) / 2], width, vs)
  {
    RawExact(code, at + 4, raw);
    FirstFour(code, at, at + 4 + (|raw| + 1) / 2);
  }

  lemma FillStands(code: seq<Word>, at: nat, width: nat, count: nat, raw: seq<Cursors.Octet>)
    requires width in {1, 2, 4, 8} && count < 0x1_0000_0000 && |raw| == width * count
    requires at + 4 + (|raw| + 1) / 2 <= |code| && RawBytes(code, at + 4, |raw|) == raw
    requires code[at] == 0x0300 && code[at + 1] == width && code[at + 2] == Low(count) && code[at + 3] == High(count)
    ensures var data := Grouped(raw, width);
      && DataFits(data) && ElementWidth(data) == width
      && FillWords(code[at..at + 4 + (|raw| + 1) / 2], width, ElementsOf(data))
  {
    BytesOfGrouped(raw, width, count);
    FillMade(code, at, width, ElementsOf(Grouped(raw, width)), raw);
  }

  /** What array data is decoded from. */
  lemma FillSource(code: seq<Word>, at: nat) returns (width: nat, count: nat, raw: seq<Cursors.Octet>)
    requires FillData(code, at).Ok?
    ensures width in {1, 2, 4, 8} && count < 0x1_0000_0000 && |raw| == width * count
    ensures at + 4 + (|raw| + 1) / 2 <= |code| && RawBytes(code, at + 4, |raw|) == raw
    ensures code[at] == 0x0300 && code[at + 1] == width && code[at + 2] == Low(count) && code[at + 3] == High(count)
    ensures FillData(code, at).value == Grouped(raw, width)
    ensures PayloadWords(FillData(code, at).value) == (|raw| + 1) / 2
  {
    FillOkWidth(code, at);
    var low: nat, high: nat := code[at + 2], code[at + 3];
    width, count := code[at + 1], low + 0x1_0000 * high;
    UnsignedHalves(low, high);
    assert count * width == width * count;
    raw := RawBytes(code, at + 4, width * count);
    FillFrom(code, at, width, count);
    PayloadWordsOf(raw, width, count);
  }

  /** And what is decoded stands there in such a form. */
  lemma FillDecoded(code: seq<Word>, at: nat)
    requires FillData(code, at).Ok?
    ensures var data := FillData(code, at).value;
      && DataFits(data) && at + 4 + PayloadWords(data) <= |code|
      && FillWords(code[at..at + 4 + PayloadWords(data)], ElementWidth(data), ElementsOf(data))
  {
    var width, count, raw := FillSource(code, at);
    FillStands(code, at, width, count, raw);
  }

  lemma FillOkWidth(code: seq<Word>, at: nat)
    requires FillData(code, at).Ok?
    ensures at + 4 <= |code| && code[at] == 0x0300 && code[at + 1] in {1, 2, 4, 8}
    ensures var count: nat := (code[at + 2] as int) + 0x1_0000 * (code[at + 3] as int);
      at + 4 + (count * code[at + 1] + 1) / 2 <= |code|
  {
  }

  lemma PayloadWordsOf(raw: seq<Cursors.Octet>, width: nat, count: nat)
    requires width in {1, 2, 4, 8} && |raw| == width * count
    ensures PayloadWords(Grouped(raw, width)) == (|raw| + 1) / 2
  {
  }

  // ---- instructions with data ----

  lemma FormSpan(i: Insn, pc: nat, ws: seq<Word>)
    requires OwnsData(i) && DataForm(i, pc, ws)
    ensures ws != [] && PayloadSpan(i) == Some((i.payload, i.payload + |ws|))
  {
    if i.FillArrayData? {
      FillSize(i.data, ws);
    }
  }

  lemma FillSize(data: FillArray, ws: seq<Word>)
    requires FillWords(ws, ElementWidth(data), ElementsOf(data))
    ensures |ws| == 4 + PayloadWords(data)
  {
    NumBytesLength(ElementsOf(data), ElementWidth(data));
    assert |ws| == 4 + |ws[4..]|;
  }

  function Sized(r: Result<Insn, DexError>, next: nat): Result<(Insn, nat), DexError> {
    if r.Ok? then Ok((r.value, next)) else Err(r.error)
  }

  lemma DecodesData(code: seq<Word>, pc: nat, op: nat)
    requires pc + 2 < |code| && Op(code[pc]) == op
    ensures var at := Target(pc, Signed32(code[pc + 1], code[pc + 2]));
      && (op == 0x2b ==> Decode(code, pc) == Sized(Packed(code, pc, A8(code[pc]), at), pc + 3))
      && (op == 0x2c ==> Decode(code, pc) == Sized(Sparse(code, pc, A8(code[pc]), at), pc + 3))
      && (op == 0x26 && FillData(code, at).Ok? ==>
            Decode(code, pc) == Ok((FillArrayData(A8(code[pc]), at, FillData(code, at).value), pc + 3)))
      && (op == 0x26 && FillData(code, at).Err? ==> Decode(code, pc).Err?)
  {
  }

  /** Only three opcodes own data. */
  lemma OwnerCode(code: seq<Word>, pc: nat)
    requires Decode(code, pc).Ok? && PayloadSpan(Decode(code, pc).value.0).Some?
    ensures pc + 2 < |code| && Op(code[pc]) in {0x26, 0x2b, 0x2c}
  {
  }

  lemma OwnerFields(code: seq<Word>, i: Insn, pc: nat)
    requires OwnsData(i)
    ensures Holds(code, pc, OwnerWords(i, pc))
       <==> pc + 3 <= |code| && Op(code[pc]) == DataCode(i) && A8(code[pc]) == i.d
            && Target(pc, Signed32(code[pc + 1], code[pc + 2])) == i.payload
  {
    if pc + 3 <= |code| {
      assert code[pc..pc + 3] == [code[pc], code[pc + 1], code[pc + 2]];
      UnaryFields(DataCode(i), i.d, code[pc]);
      FarBranchExact(pc, i.payload, code[pc + 1], code[pc + 2]);
    }
  }

  /** An instruction is decoded from its words and every form of its data. */
  lemma OwnerDecodes(code: seq<Word>, i: Insn, pc: nat, data: seq<Word>)
    requires OwnsData(i) && DataForm(i, pc, data)
    requires Holds(code, pc, OwnerWords(i, pc)) && Holds(code, i.payload, data)
    ensures Decode(code, pc) == Ok((i, pc + 3))
  {
    OwnerFields(code, i, pc);
    DecodesData(code, pc, DataCode(i));
    match i {
      case PackedSwitch(d, at, first, targets) => PackedExact(code, pc, d, at, first, targets);
      case SparseSwitch(d, at, keys, targets) => SparseExact(code, pc, d, at, keys, targets);
      case FillArrayData(_, at, elements) => FillDecodes(code, elements, at, data);
    }
  }

  lemma HeldSlice(code: seq<Word>, at: nat, ws: seq<Word>)
    requires Holds(code, at, ws)
    ensures at + |ws| <= |code| && code[at..at + |ws|] == ws
  {
  }

  /** The data of the instruction stand in their place, in one of their forms. */
  predicate DataStands(code: seq<Word>, i: Insn, pc: nat) {
    PayloadSpan(i).Some? ==>
      var (start, end) := PayloadSpan(i).value;
      start <= end <= |code| && OwnsData(i) && DataForm(i, pc, code[start..end])
  }

  lemma SwitchStands(code: seq<Word>, i: Insn, pc: nat)
    requires i.PackedSwitch? || i.SparseSwitch?
    requires Reg8(i.d) && Address(i.payload) && |i.targets| < 0x1_0000
    requires i.PackedSwitch? ==> Packed(code, pc, i.d, i.payload) == Ok(i)
    requires i.SparseSwitch? ==> |i.keys| == |i.targets| && Sparse(code, pc, i.d, i.payload) == Ok(i)
    ensures DataStands(code, i, pc)
  {
    match i {
      case PackedSwitch(d, at, first, targets) =>
        PackedExact(code, pc, d, at, first, targets);
        HeldSlice(code, at, PackedWords(pc, first, targets));
      case SparseSwitch(d, at, keys, targets) =>
        SparseExact(code, pc, d, at, keys, targets);
        HeldSlice(code, at, SparseWords(pc, keys, targets));
    }
  }

  lemma ArrayStands(code: seq<Word>, d: nat, at: nat, pc: nat)
    requires Reg8(d) && Address(at) && FillData(code, at).Ok?
    ensures DataStands(code, FillArrayData(d, at, FillData(code, at).value), pc)
  {
    FillDecoded(code, at);
  }

  lemma PackedCode(code: seq<Word>, pc: nat, d: nat, at: nat)
    requires Packed(code, pc, d, at).Ok?
    ensures var i := Packed(code, pc, d, at).value;
      i.PackedSwitch? && i.d == d && i.payload == at && |i.targets| < 0x1_0000
  {
  }

  lemma SparseCode(code: seq<Word>, pc: nat, d: nat, at: nat)
    requires Sparse(code, pc, d, at).Ok?
    ensures var i := Sparse(code, pc, d, at).value;
      i.SparseSwitch? && i.d == d && i.payload == at && |i.keys| == |i.targets| < 0x1_0000
  {
  }

  /** And what is decoded stands there: its own words, and its data. */
  lemma OwnerDecoded(code: seq<Word>, pc: nat)
    requires Decode(code, pc).Ok? && PayloadSpan(Decode(code, pc).value.0).Some?
    ensures var (i, next) := Decode(code, pc).value;
      OwnsData(i) && next == pc + 3 && Holds(code, pc, OwnerWords(i, pc)) && DataStands(code, i, pc)
  {
    var i := Decode(code, pc).value.0;
    OwnerCode(code, pc);
    var d, at := A8(code[pc]), Target(pc, Signed32(code[pc + 1], code[pc + 2]));
    WordFields(code[pc]);
    TargetAt(pc, Signed32(code[pc + 1], code[pc + 2]));
    DecodesData(code, pc, Op(code[pc]));
    if Op(code[pc]) == 0x26 {
      ArrayStands(code, d, at, pc);
    } else if Op(code[pc]) == 0x2b {
      PackedCode(code, pc, d, at);
      SwitchStands(code, i, pc);
    } else {
      SparseCode(code, pc, d, at);
      SwitchStands(code, i, pc);
    }
    OwnerFields(code, i, pc);
  }

  /** The words of an instruction at its address. */
  predicate Written(i: Insn, pc: nat, words: seq<Word>) {
    IsForm(i, pc, words) || (OwnsData(i) && words == OwnerWords(i, pc))
  }

  /** The inverse of decoding, with inline data: an instruction is decoded exactly where its
      words stand in one of its forms and its data in theirs. */
  lemma DecodeWritten(code: seq<Word>, i: Insn, pc: nat, next: nat)
    ensures Decode(code, pc) == Ok((i, next))
       <==> pc < next <= |code| && Written(i, pc, code[pc..next]) && DataStands(code, i, pc)
  {
    if PayloadSpan(i) == None {
      DecodeExact(code, i, pc, next);
    } else {
      if Decode(code, pc) == Ok((i, next)) {
        OwnerDecoded(code, pc);
      }
      if pc < next <= |code| && Written(i, pc, code[pc..next]) && DataStands(code, i, pc) {
        WrittenOwner(code, i, pc, next);
      }
    }
  }

  lemma OwnerNotForm(i: Insn, pc: nat, ws: seq<Word>)
    requires PayloadSpan(i).Some?
    ensures !IsForm(i, pc, ws)
  {
  }

  lemma WrittenOwner(code: seq<Word>, i: Insn, pc: nat, next: nat)
    requires pc < next <= |code| && Written(i, pc, code[pc..next]) && DataStands(code, i, pc) && PayloadSpan(i).Some?
    ensures Decode(code, pc) == Ok((i, next))
  {
    var (start, end) := PayloadSpan(i).value;
    OwnerNotForm(i, pc, code[pc..next]);
    FormSpan(i, pc, code[start..end]);
    OwnerDecodes(code, i, pc, code[start..end]);
  }

  // ---- whole programs ----

  /** What stands at some address of a program: an instruction, or inline data. */
  datatype Item = Instr(insn: Insn, words: seq<Word>) | Inline(words: seq<Word>)

  /** Where item k stands. */
  function Start(program: seq<Item>, k: nat): nat
    requires k <= |program|
  {
    if k == 0 then 0 else Start(program, k - 1) + |program[k - 1].words|
  }

  /** The words of the first k items. */
  function WordsTo(program: seq<Item>, k: nat): (r: seq<Word>)
    requires k <= |program|
    ensures |r| == Start(program, k)
  {
    if k == 0 then [] else WordsTo(program, k - 1) + program[k - 1].words
  }

  function WordsOf(program: seq<Item>): seq<Word> {
    WordsTo(program, |program|)
  }

  /** The instructions from item k on, in order. */
  function InsnsFrom(program: seq<Item>, k: nat): seq<Insn>
    requires k <= |program|
    decreases |program| - k
  {
    if k == |program| then []
    else if program[k].Inline? then InsnsFrom(program, k + 1)
    else [program[k].insn] + InsnsFrom(program, k + 1)
  }

  /** Their index: each instruction with its address and size. */
  function Listing(program: seq<Item>, k: nat): Decoded
    requires k <= |program|
    decreases |program| - k
  {
    if k == |program| then Decoded([], [], [], Start(program, k))
    else if program[k].Inline? then Listing(program, k + 1)
    else Prepend(program[k].insn, Start(program, k), |program[k].words|, Listing(program, k + 1))
  }

  /** Item j is the inline data of an instruction at `pc`. */
  predicate DataAt(program: seq<Item>, j: nat, i: Insn, pc: nat)
    requires j < |program|
  {
    OwnsData(i) && Start(program, j) == i.payload && program[j].Inline? && DataForm(i, pc, program[j].words)
  }

  /** Item k is an instruction written at its address, whose inline data, if it owns any, is
      some later item; or it is the inline data of some earlier instruction. Nothing is said
      of the order of the data, of what stands between them, or of code after them. */
  ghost predicate Laid(program: seq<Item>, k: nat)
    requires k < |program|
  {
    match program[k]
    case Instr(i, words) =>
      && Written(i, Start(program, k), words)
      && (OwnsData(i) ==>
            exists j :: k < j < |program| && DataAt(program, j, i, Start(program, k)))
    case Inline(_) =>
      exists j :: 0 <= j < k && program[j].Instr? && DataAt(program, k, program[j].insn, Start(program, j))
  }

  // ---- the sweep ----

  lemma SweepSkips(code: seq<Word>, pc: nat, skips: seq<Span>)
    requires Forward(skips) && pc < |code| && SkipAt(skips, pc).Some?
    ensures SkipAt(skips, pc).value.1 > pc
    ensures Sweep(code, pc, skips) == Sweep(code, SkipAt(skips, pc).value.1, skips)
  {
  }

  lemma SweepTakes(code: seq<Word>, pc: nat, skips: seq<Span>, insn: Insn, next: nat, rest: Decoded)
    requires Forward(skips) && pc < |code| && SkipAt(skips, pc).None? && Decode(code, pc) == Ok((insn, next))
    requires Forward(Recorded(skips, insn)) && Sweep(code, next, Recorded(skips, insn)) == Ok(rest)
    ensures Sweep(code, pc, skips) == Ok(Prepend(insn, pc, next - pc, rest))
  {
  }

  // ---- programs as the sweep meets them ----

  function SpanOf(program: seq<Item>, k: nat): Span
    requires k < |program|
  {
    (Start(program, k), Start(program, k) + |program[k].words|)
  }

  /** Item j fills the span. */
  predicate Fills(program: seq<Item>, j: nat, span: Span)
    requires j < |program|
  {
    program[j].Inline? && span == SpanOf(program, j)
  }

  /** Item j is an instruction that owns the span. */
  predicate Owner(program: seq<Item>, j: nat, span: Span)
    requires j < |program|
  {
    program[j].Instr? && PayloadSpan(program[j].insn) == Some(span)
  }

  /** What the sweep needs to know of item k. */
  ghost predicate Met(code: seq<Word>, program: seq<Item>, k: nat)
    requires k < |program|
  {
    && program[k].words != []
    && match program[k]
       case Instr(i, words) =>
         && Decode(code, Start(program, k)) == Ok((i, Start(program, k) + |words|))
         && (PayloadSpan(i).Some? ==> exists j :: k < j < |program| && Fills(program, j, PayloadSpan(i).value))
       case Inline(words) =>
         exists j :: 0 <= j < k && Owner(program, j, SpanOf(program, k))
  }

  ghost predicate AllMet(code: seq<Word>, program: seq<Item>) {
    forall k :: 0 <= k < |program| ==> Met(code, program, k)
  }

  lemma {:induction false} StartGrows(code: seq<Word>, program: seq<Item>, j: nat, k: nat)
    requires AllMet(code, program) && j < k <= |program|
    ensures Start(program, j) < Start(program, k)
  {
    assert Met(code, program, k - 1);
    if j < k - 1 {
      StartGrows(code, program, j, k - 1);
    }
  }

  /** The spans of the instructions among the first k items. */
  function Skips(program: seq<Item>, k: nat): seq<Span>
    requires k <= |program|
  {
    if k == 0 then []
    else if program[k - 1].Inline? then Skips(program, k - 1)
    else Recorded(Skips(program, k - 1), program[k - 1].insn)
  }

  lemma {:induction false} SkipsExact(program: seq<Item>, k: nat, span: Span)
    requires k <= |program|
    ensures span in Skips(program, k) <==> exists j :: 0 <= j < k && Owner(program, j, span)
  {
    if k > 0 {
      SkipsExact(program, k - 1, span);
      assert Owner(program, k - 1, span) ==> span in Skips(program, k);
    }
  }

  /** A span that starts where item k does is filled by item k. */
  lemma SpanHere(code: seq<Word>, program: seq<Item>, k: nat, span: Span)
    requires AllMet(code, program) && k < |program| && span in Skips(program, k) && span.0 == Start(program, k)
    ensures Fills(program, k, span)
  {
    SkipsExact(program, k, span);
    var j :| 0 <= j < k && Owner(program, j, span);
    assert Met(code, program, j);
    var there :| j < there < |program| && Fills(program, there, span);
    if there < k {
      StartGrows(code, program, there, k);
    } else if there > k {
      StartGrows(code, program, k, there);
    }
  }

  /** Where the sweep meets inline data it skips it, and nothing else. */
  lemma SkipsInline(code: seq<Word>, program: seq<Item>, k: nat)
    requires AllMet(code, program) && k < |program|
    ensures SkipAt(Skips(program, k), Start(program, k))
         == if program[k].Inline? then Some(SpanOf(program, k)) else None
  {
    assert Met(code, program, k);
    SkipsExact(program, k, SpanOf(program, k));
    var skip := SkipAt(Skips(program, k), Start(program, k));
    if skip.Some? {
      SpanHere(code, program, k, skip.value);
    }
  }

  lemma SkipsForward(code: seq<Word>, program: seq<Item>, k: nat)
    requires AllMet(code, program) && k <= |program|
    ensures Forward(Skips(program, k))
  {
    var skips := Skips(program, k);
    forall n | 0 <= n < |skips|
      ensures skips[n].0 < skips[n].1
    {
      SkipsExact(program, k, skips[n]);
      var j :| 0 <= j < k && Owner(program, j, skips[n]);
      assert Met(code, program, j);
      var there :| j < there < |program| && Fills(program, there, skips[n]);
      assert Met(code, program, there);
    }
  }

  /** The sweep from item k on, with the spans of what came before. */
  predicate Swept(code: seq<Word>, program: seq<Item>, k: nat)
    requires k <= |program|
  {
    && Forward(Skips(program, k))
    && Sweep(code, Start(program, k), Skips(program, k)) == Ok(Listing(program, k))
  }

  lemma InlineSwept(code: seq<Word>, program: seq<Item>, k: nat)
    requires k < |program| && program[k].Inline? && Start(program, k) < |code| && Swept(code, program, k + 1)
    requires SkipAt(Skips(program, k), Start(program, k)) == Some(SpanOf(program, k))
    ensures Swept(code, program, k)
  {
    SweepSkips(code, Start(program, k), Skips(program, k));
  }

  lemma InstrSwept(code: seq<Word>, program: seq<Item>, k: nat)
    requires k < |program| && program[k].Instr? && Start(program, k) < |code| && Swept(code, program, k + 1)
    requires Forward(Skips(program, k)) && SkipAt(Skips(program, k), Start(program, k)) == None
    requires Decode(code, Start(program, k)) == Ok((program[k].insn, Start(program, k + 1)))
    ensures Swept(code, program, k)
  {
    SweepTakes(code, Start(program, k), Skips(program, k), program[k].insn, Start(program, k + 1),
               Listing(program, k + 1));
  }

  lemma {:induction false} SweepItems(code: seq<Word>, program: seq<Item>, k: nat)
    requires AllMet(code, program) && k <= |program| && |code| == Start(program, |program|)
    ensures Swept(code, program, k)
    decreases |program| - k
  {
    SkipsForward(code, program, k);
    if k < |program| {
      StartGrows(code, program, k, |program|);
      SkipsInline(code, program, k);
      SweepItems(code, program, k + 1);
      if program[k].Inline? {
        InlineSwept(code, program, k);
      } else {
        assert Met(code, program, k);
        InstrSwept(code, program, k);
      }
    }
  }

  lemma {:induction false} ListingInsns(program: seq<Item>, k: nat)
    requires k <= |program|
    ensures Listing(program, k).insns == InsnsFrom(program, k)
    decreases |program| - k
  {
    if k < |program| {
      ListingInsns(program, k + 1);
    }
  }

  // ---- from the layout to the sweep ----

  lemma {:induction false} ItemHeld(program: seq<Item>, k: nat, n: nat)
    requires k < n <= |program|
    ensures Holds(WordsTo(program, n), Start(program, k), program[k].words)
    decreases n - k
  {
    var words := program[k].words;
    if k == n - 1 {
      Parts(WordsTo(program, k), words);
    } else {
      ItemHeld(program, k, n - 1);
      var before := WordsTo(program, n - 1);
      DropLeft(before, program[n - 1].words, Start(program, k));
      assert (before + program[n - 1].words)[Start(program, k)..Start(program, k) + |words|] == words;
    }
  }

  lemma DataFills(program: seq<Item>, j: nat, i: Insn, pc: nat)
    requires j < |program| && DataAt(program, j, i, pc)
    ensures program[j].words != [] && PayloadSpan(i) == Some(SpanOf(program, j))
    ensures Fills(program, j, SpanOf(program, j))
  {
    FormSpan(i, pc, program[j].words);
  }

  lemma OwnerMet(program: seq<Item>, k: nat, j: nat)
    requires k < |program| && j < |program|
    requires program[k].Instr? && Written(program[k].insn, Start(program, k), program[k].words)
    requires DataAt(program, j, program[k].insn, Start(program, k))
    ensures program[k].words != []
    ensures Decode(WordsOf(program), Start(program, k)) == Ok((program[k].insn, Start(program, k) + |program[k].words|))
  {
    var code, i, pc := WordsOf(program), program[k].insn, Start(program, k);
    ItemHeld(program, k, |program|);
    ItemHeld(program, j, |program|);
    if IsForm(i, pc, program[k].words) {
      FormDecodes(code, i, pc, program[k].words);
      FormSpan(i, pc, program[j].words);
    } else {
      OwnerDecodes(code, i, pc, program[j].words);
    }
  }

  lemma {:induction false} PlainMet(program: seq<Item>, k: nat)
    requires k < |program| && program[k].Instr? && Written(program[k].insn, Start(program, k), program[k].words)
    requires !OwnsData(program[k].insn)
    ensures program[k].words != [] && PayloadSpan(program[k].insn) == None
    ensures Decode(WordsOf(program), Start(program, k)) == Ok((program[k].insn, Start(program, k) + |program[k].words|))
  {
    ItemHeld(program, k, |program|);
    FormDecodes(WordsOf(program), program[k].insn, Start(program, k), program[k].words);
  }

  lemma InstrMet(program: seq<Item>, k: nat)
    requires k < |program| && Laid(program, k) && program[k].Instr?
    ensures Met(WordsOf(program), program, k)
  {
    var i, pc := program[k].insn, Start(program, k);
    if OwnsData(i) {
      var j :| k < j < |program| && DataAt(program, j, i, pc);
      OwnerMet(program, k, j);
      DataFills(program, j, i, pc);
    } else {
      PlainMet(program, k);
    }
  }

  lemma InlineMet(program: seq<Item>, k: nat)
    requires k < |program| && Laid(program, k) && program[k].Inline?
    ensures Met(WordsOf(program), program, k)
  {
    var j :| 0 <= j < k && program[j].Instr? && DataAt(program, k, program[j].insn, Start(program, j));
    DataFills(program, k, program[j].insn, Start(program, j));
    assert Owner(program, j, SpanOf(program, k));
  }

  /** For every program, however its switch tables and array data are spread among the code
      behind their instructions, with or without padding: the sweep recovers the
      instructions, each at its address and with its size, and nothing else. */
  lemma SweepAssembled(program: seq<Item>)
    requires forall k :: 0 <= k < |program| ==> Laid(program, k)
    ensures Sweep(WordsOf(program), 0, []) == Ok(Listing(program, 0))
    ensures Listing(program, 0).insns == InsnsFrom(program, 0)
  {
    var code := WordsOf(program);
    forall k | 0 <= k < |program|
      ensures Met(WordsOf(program), program, k)
    {
      if program[k].Instr? {
        InstrMet(program, k);
      } else {
        InlineMet(program, k);
      }
    }
    SweepItems(code, program, 0);
    ListingInsns(program, 0);
  }

  lemma DecodeOne(code: seq<Word>, pc: nat, w: Word)
    requires pc < |code| && code[pc] == w && Size(Op(w)) == Some(1)
    ensures Decode(code, pc) == Ok((Operands1(pc, w, Op(w)), pc + 1))
  {
  }

  lemma DecodeTwo(code: seq<Word>, pc: nat, w: Word, v: Word)
    requires pc + 1 < |code| && code[pc] == w && code[pc + 1] == v && Size(Op(w)) == Some(2)
    ensures Decode(code, pc) == Ok((Operands2(pc, w, v, Op(w)), pc + 2))
  {
  }

  lemma DecodeThree(code: seq<Word>, pc: nat, w: Word, v: Word, u: Word, i: Insn)
    requires pc + 2 < |code| && code[pc] == w && code[pc + 1] == v && code[pc + 2] == u
    requires Size(Op(w)) == Some(3) && Operands3(code, pc, w, v, u, Op(w)) == Ok(i)
    ensures Decode(code, pc) == Ok((i, pc + 3))
  {
  }

  /** The sweep of code without inline data, one instruction after another. */
  lemma SweepNext(code: seq<Word>, pc: nat, i: Insn, next: nat, rest: Decoded, whole: Decoded)
    requires pc < |code| && Decode(code, pc) == Ok((i, next)) && PayloadSpan(i) == None
    requires Sweep(code, next, []) == Ok(rest)
    requires whole.insns == [i] + rest.insns && whole.units == [pc] + rest.units
    requires whole.sizes == [next - pc] + rest.sizes && whole.words == rest.words
    ensures Sweep(code, pc, []) == Ok(whole)
  {
    var none: seq<Span> := [];
    assert SkipAt(none, pc) == None && Recorded(none, i) == none;
    SweepTakes(code, pc, none, i, next, rest);
  }

  lemma SweepEnd(code: seq<Word>)
    ensures Sweep(code, |code|, []) == Ok(Decoded([], [], [], |code|))
  {
  }
}
