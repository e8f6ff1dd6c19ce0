/** The instruction decoder: one instruction at a code-unit address, and the linear sweep
    that turns a code item into the index the interpreter searches. */
module Decoder {
  import opened Wrappers
  import opened Seqs
  import opened Values
  import Cursors

  /** A 16-bit code unit. */
  type Word = x: int | 0 <= x < 0x1_0000

  datatype DexError = PastEnd | Short | BadPayload | SwitchOob | FillOob | BadWidth | UnknownOpcode

  /** Argument registers of an invoke: up to five packed ones, or a range. */
  datatype Args = Args(count: nat, regs: seq<nat>, range: bool, base: nat) {

    /** Out of the packed registers the source panics. */
    function RegAt(i: nat): Option<nat> {
      if range then Some(base + i)
      else if i < |regs| then Some(regs[i])
      else None
    }
  }

  datatype InvokeKind = Virtual | Super | Direct | Static | Interface

  datatype IfOp = Eq | Ne | Lt | Ge | Gt | Le

  datatype Binop = Add | Sub | Mul | Div | Rem | And | Or | Xor | Shl | Shr | Ushr

  datatype LitOp = Bin(op: Binop) | Rsub

  datatype FillArray = Bytes(b: seq<nat>) | Shorts(s: seq<nat>) | Ints(i: seq<nat>) | Wides(w: seq<nat>)

  /** The instructions whose meaning is modelled; `Other` keeps the opcode of the rest. */
  datatype Insn =
    | Nop
    | Move(d: nat, s: nat)
    | MoveWide(d: nat, s: nat)
    | MoveResult(d: nat)
    | MoveException(d: nat)
    | ReturnVoid
    | Return(v: nat)
    | Const(d: nat, lit: I32)
    | ConstHigh16(d: nat, lit: I32)
    | ConstWide(d: nat, wide: I64)
    | NewInstance(d: nat, ty: nat)
    | FillArrayData(d: nat, payload: nat, data: FillArray)
    | Throw(v: nat)
    | Goto(t: nat)
    | PackedSwitch(d: nat, payload: nat, first: I32, targets: seq<I32>)
    | SparseSwitch(d: nat, payload: nat, keys: seq<I32>, targets: seq<I32>)
    | If(cmp: IfOp, a: nat, b: nat, t: nat)
    | IfZ(cmp: IfOp, a: nat, t: nat)
    | IGet(d: nat, obj: nat, field: nat)
    | IPut(src: nat, obj: nat, field: nat, isObj: bool)
    | Invoke(kind: InvokeKind, callee: nat, args: Args)
    | BinOp(op: Binop, d: nat, a: nat, b: nat)
    | BinopLit(lop: LitOp, d: nat, a: nat, lit: I32)
    | Other(opcode: nat, words: seq<Word>)

  // ---- fields of a code unit ----

  function Op(w: Word): nat { w % 256 }
  function A8(w: Word): nat { w / 256 }
  function A4(w: Word): nat { w / 256 % 16 }
  function B4(w: Word): nat { w / 4096 }

  function Signed4(n: nat): I32
    requires n < 16
  {
    if n < 8 then n else n - 16
  }

  function Signed8(n: nat): I32
    requires n < 256
  {
    if n < 128 then n else n - 256
  }

  function Signed16(w: Word): I32 {
    if w < 0x8000 then w else w - 0x1_0000
  }

  function Signed32(lo: Word, hi: Word): I32 {
    if hi < 0x8000 then lo + 0x1_0000 * hi else lo + 0x1_0000 * hi - 0x1_0000_0000
  }

  /** A branch target: offsets are relative, the sum is truncated to 32 bits. */
  function Target(pc: nat, off: int): nat {
    (pc + off) % 0x1_0000_0000
  }

  /** The length in code units of an instruction. */
  function Size(op: nat): (r: Option<nat>)
    ensures r.Some? ==> 1 <= r.value <= 5
  {
    if op in {0x02, 0x05, 0x08} then Some(2)
    else if op in {0x03, 0x06, 0x09} then Some(3)
    else if op <= 0x12 then Some(1)
    else if op in {0x14, 0x17, 0x1b} then Some(3)
    else if op == 0x18 then Some(5)
    else if op in {0x1d, 0x1e, 0x21} then Some(1)
    else if op <= 0x23 then Some(2)
    else if op <= 0x26 then Some(3)
    else if op <= 0x28 then Some(1)
    else if op == 0x29 then Some(2)
    else if op <= 0x2c then Some(3)
    else if op <= 0x3d then Some(2)
    else if op <= 0x43 then None
    else if op <= 0x6d then Some(2)
    else if op <= 0x72 then Some(3)
    else if op == 0x73 then None
    else if op <= 0x78 then Some(3)
    else if op <= 0x7a then None
    else if op <= 0x8f then Some(1)
    else if op <= 0xaf then Some(2)
    else if op <= 0xcf then Some(1)
    else if op <= 0xe2 then Some(2)
    else if op == 0xff then Some(2)
    else None
  }

  // ---- payload tables ----

  /** Consecutive 32-bit values, low half first. */
  function Table(code: seq<Word>, at: nat, n: nat): (r: seq<I32>)
    requires at + 2 * n <= |code|
    ensures |r| == n
    decreases n
  {
    if n == 0 then []
    else Table(code, at, n - 1) + [Signed32(code[at + 2 * n - 2], code[at + 2 * n - 1])]
  }

  /** The 32-bit pattern of a branch target, as the source stores it. */
  function SwitchTarget(pc: nat, off: I32): I32 {
    Wrap32(pc + off)
  }

  function SwitchTargets(pc: nat, offs: seq<I32>): (r: seq<I32>)
    ensures |r| == |offs|
    decreases |offs|
  {
    if offs == [] then []
    else SwitchTargets(pc, offs[..|offs| - 1]) + [SwitchTarget(pc, offs[|offs| - 1])]
  }

  function Packed(code: seq<Word>, pc: nat, d: nat, payload: nat): (r: Result<Insn, DexError>)
    ensures r.Ok? ==> r.value.PackedSwitch? && r.value.payload == payload
    ensures r.Ok? ==> payload + 4 + 2 * |r.value.targets| <= |code|
  {
    if payload >= |code| || code[payload] != 0x0100 then Err(BadPayload)
    else if payload + 3 >= |code| then Err(SwitchOob)
    else
      var size: nat := code[payload + 1];
      if payload + 4 + 2 * size > |code| then Err(SwitchOob)
      else Ok(PackedSwitch(d, payload, Signed32(code[payload + 2], code[payload + 3]),
                           SwitchTargets(pc, Table(code, payload + 4, size))))
  }

  function Sparse(code: seq<Word>, pc: nat, d: nat, payload: nat): (r: Result<Insn, DexError>)
    ensures r.Ok? ==> r.value.SparseSwitch? && r.value.payload == payload
    ensures r.Ok? ==> payload + 2 + 4 * |r.value.keys| <= |code|
    ensures r.Ok? ==> |r.value.keys| == |r.value.targets|
  {
    if payload >= |code| || code[payload] != 0x0200 then Err(BadPayload)
    else if payload + 1 >= |code| then Err(SwitchOob)
    else
      var size: nat := code[payload + 1];
      if payload + 2 + 4 * size > |code| then Err(SwitchOob)
      else Ok(SparseSwitch(d, payload, Table(code, payload + 2, size),
                           SwitchTargets(pc, Table(code, payload + 2 + 2 * size, size))))
  }

  /** The bytes of an array payload, two to a code unit, low byte first. */
  function RawBytes(code: seq<Word>, start: nat, n: nat): (r: seq<Cursors.Octet>)
    requires start + (n + 1) / 2 <= |code|
    ensures |r| == n
    decreases n
  {
    if n == 0 then []
    else
      var w := code[start + (n - 1) / 2];
      RawBytes(code, start, n - 1) + [if n % 2 == 1 then Op(w) else A8(w)]
  }

  /** Groups of k bytes, as little-endian numbers. */
  function Elements(raw: seq<Cursors.Octet>, k: nat): (r: seq<nat>)
    requires k in {2, 4, 8}
    ensures k == 2 ==> |r| == |raw| / 2
    ensures k == 4 ==> |r| == |raw| / 4
    ensures k == 8 ==> |r| == |raw| / 8
    decreases |raw|
  {
    if |raw| < k then [] else [Cursors.LeValue(raw[..k])] + Elements(raw[k..], k)
  }

  function FillData(code: seq<Word>, payload: nat): (r: Result<FillArray, DexError>)
    ensures r.Ok? ==> payload + 4 + PayloadWords(r.value) <= |code|
  {
    if payload >= |code| || code[payload] != 0x0300 then Err(BadPayload)
    else if payload + 3 >= |code| then Err(FillOob)
    else
      var width: nat := code[payload + 1];
      var low: nat, high: nat := code[payload + 2], code[payload + 3];
      var bytes: nat := (low + 0x1_0000 * high) * width;
      if payload + 4 + (bytes + 1) / 2 > |code| then Err(FillOob)
      else
        var raw := RawBytes(code, payload + 4, bytes);
        match width
        case 1 => Ok(Bytes(raw))
        case 2 => Ok(Shorts(Elements(raw, 2)))
        case 4 => Ok(Ints(Elements(raw, 4)))
        case 8 => Ok(Wides(Elements(raw, 8)))
        case _ => Err(BadWidth)
  }

  function PayloadWords(data: FillArray): nat {
    match data
    case Bytes(v) => (|v| + 1) / 2
    case Shorts(v) => |v|
    case Ints(v) => 2 * |v|
    case Wides(v) => 4 * |v|
  }

  // ---- one instruction ----

  function InvokeKindOf(op: nat): InvokeKind {
    match op
    case 0x6e => Virtual
    case 0x6f => Super
    case 0x70 => Direct
    case 0x71 => Static
    case _ => Interface
  }

  function IfOpOf(k: nat): IfOp {
    match k
    case 0 => Eq
    case 1 => Ne
    case 2 => Lt
    case 3 => Ge
    case 4 => Gt
    case _ => Le
  }

  function BinopOf(k: nat): Binop {
    match k
    case 0 => Add
    case 1 => Sub
    case 2 => Mul
    case 3 => Div
    case 4 => Rem
    case 5 => And
    case 6 => Or
    case 7 => Xor
    case 8 => Shl
    case 9 => Shr
    case _ => Ushr
  }

  /** The operation of an opcode in a block of int, long, float and double operations. */
  function BlockOp(k: nat): Binop {
    if k < 11 then BinopOf(k)
    else if k < 22 then BinopOf(k - 11)
    else if k < 27 then BinopOf(k - 22)
    else BinopOf(k - 27)
  }

  function LitOpOf(k: nat): LitOp {
    if k == 1 then Rsub else Bin(BinopOf(k))
  }

  /** Format 35c: the count and the fifth register in the first word, four registers in
      the third. */
  function Args35c(w0: Word, w2: Word): Args {
    Args(B4(w0), [w2 % 16, w2 / 16 % 16, w2 / 256 % 16, w2 / 4096, A4(w0)], false, 0)
  }

  function ArgsRange(w0: Word, w2: Word): Args {
    Args(A8(w0), [0, 0, 0, 0, 0], true, w2)
  }

  /** One word: registers in nibbles, or one register and a byte. */
  function Operands1(pc: nat, w0: Word, op: nat): Insn {
    if op == 0x00 then Nop
    else if op in {0x01, 0x07} then Move(A4(w0), B4(w0))
    else if op == 0x04 then MoveWide(A4(w0), B4(w0))
    else if op in {0x0a, 0x0b, 0x0c} then MoveResult(A8(w0))
    else if op == 0x0d then MoveException(A8(w0))
    else if op == 0x0e then ReturnVoid
    else if op in {0x0f, 0x10, 0x11} then Return(A8(w0))
    else if op == 0x12 then Const(A4(w0), Signed4(B4(w0)))
    else if op == 0x27 then Throw(A8(w0))
    else if op == 0x28 then Goto(Target(pc, Signed8(A8(w0))))
    else if 0xb0 <= op <= 0xcf then BinOp(BlockOp(op - 0xb0), A4(w0), A4(w0), B4(w0))
    else Other(op, [w0])
  }

  function Operands2(pc: nat, w0: Word, w1: Word, op: nat): Insn {
    if op in {0x02, 0x08} then Move(A8(w0), w1)
    else if op == 0x05 then MoveWide(A8(w0), w1)
    else if op == 0x13 then Const(A8(w0), Signed16(w1))
    else if op == 0x15 then ConstHigh16(A8(w0), Signed16(w1) * 0x1_0000)
    else if op == 0x16 then ConstWide(A8(w0), Signed16(w1))
    else if op == 0x22 then NewInstance(A8(w0), w1)
    else if op == 0x29 then Goto(Target(pc, Signed16(w1)))
    else if 0x32 <= op <= 0x37 then If(IfOpOf(op - 0x32), A4(w0), B4(w0), Target(pc, Signed16(w1)))
    else if 0x38 <= op <= 0x3d then IfZ(IfOpOf(op - 0x38), A8(w0), Target(pc, Signed16(w1)))
    else if 0x52 <= op <= 0x58 then IGet(A4(w0), B4(w0), w1)
    else if 0x59 <= op <= 0x5f then IPut(A4(w0), B4(w0), w1, op == 0x5b)
    else if 0x90 <= op <= 0xaf then BinOp(BlockOp(op - 0x90), A8(w0), Op(w1), A8(w1))
    else if 0xd0 <= op <= 0xd7 then BinopLit(LitOpOf(op - 0xd0), A4(w0), B4(w0), Signed16(w1))
    else if 0xd8 <= op <= 0xe2 then BinopLit(LitOpOf(op - 0xd8), A8(w0), Op(w1), Signed8(A8(w1)))
    else Other(op, [w0, w1])
  }

  function Operands3(code: seq<Word>, pc: nat, w0: Word, w1: Word, w2: Word, op: nat)
    : (r: Result<Insn, DexError>)
  {
    var off := Signed32(w1, w2);
    if op in {0x03, 0x09} then Ok(Move(Op(w2), w1))
    else if op == 0x06 then Ok(MoveWide(Op(w2), w1))
    else if op == 0x14 then Ok(Const(A8(w0), off))
    else if op == 0x17 then Ok(ConstWide(A8(w0), w1 + 0x1_0000 * w2))
    else if op == 0x26 then
      var payload := Target(pc, off);
      var data := FillData(code, payload);
      if data.Ok? then Ok(FillArrayData(A8(w0), payload, data.value)) else Err(data.error)
    else if op == 0x2a then Ok(Goto(Target(pc, off)))
    else if op == 0x2b then Packed(code, pc, A8(w0), Target(pc, off))
    else if op == 0x2c then Sparse(code, pc, A8(w0), Target(pc, off))
    else if 0x6e <= op <= 0x72 then Ok(Invoke(InvokeKindOf(op), w1, Args35c(w0, w2)))
    else if 0x74 <= op <= 0x78 then Ok(Invoke(InvokeKindOf(op - 6), w1, ArgsRange(w0, w2)))
    else Ok(Other(op, [w0, w1, w2]))
  }

  function Signed64(w1: Word, w2: Word, w3: Word, w4: Word): I64 {
    w1 + 0x1_0000 * w2 + 0x1_0000_0000 * w3 + 0x1_0000_0000_0000 * (Signed16(w4) as int)
  }

  /** Decodes the instruction at `pc`; the second result is the address after it. */
  function Decode(code: seq<Word>, pc: nat): (r: Result<(Insn, nat), DexError>)
    ensures r.Ok? ==> pc < r.value.1 <= |code|
  {
    if pc >= |code| then Err(PastEnd)
    else
      var w0 := code[pc];
      var op := Op(w0);
      var size := Size(op);
      if size.None? then Err(UnknownOpcode)
      else
        var next := pc + size.value;
        if next > |code| then Err(Short)
        else
          match size.value
          case 1 => Ok((Operands1(pc, w0, op), next))
          case 2 => Ok((Operands2(pc, w0, code[pc + 1], op), next))
          case 3 =>
            var insn := Operands3(code, pc, w0, code[pc + 1], code[pc + 2], op);
            if insn.Ok? then Ok((insn.value, next)) else Err(insn.error)
          case _ =>
            Ok((ConstWide(A8(w0), Signed64(code[pc + 1], code[pc + 2], code[pc + 3], code[pc + 4])), next))
  }

  /** Opcodes that stand for no instruction. */
  predicate Reserved(op: nat) {
    0x3e <= op <= 0x43 || op == 0x73 || op in {0x79, 0x7a} || 0xe3 <= op <= 0xfe
  }

  /** Where decoding fails: past the end; at a reserved opcode; in an instruction that is cut
      off; and at inline data that is not what the instruction says, or is itself cut off, or
      has elements of a width that there is not. */
  lemma Refusals(code: seq<Word>, pc: nat)
    ensures Decode(code, pc) == Err(PastEnd) <==> pc >= |code|
    ensures pc < |code| ==> (Decode(code, pc) == Err(UnknownOpcode) <==> Reserved(code[pc] % 256))
    ensures pc < |code| && !Reserved(code[pc] % 256) ==>
      && Size(code[pc] % 256).Some?
      && (Decode(code, pc) == Err(Short) <==> pc + Size(code[pc] % 256).value > |code|)
      && (Decode(code, pc).Err? && Decode(code, pc) != Err(Short) ==> code[pc] % 256 in {0x26, 0x2b, 0x2c})
  {
  }

  /** An instruction with inline data at an address: what the data must be. */
  lemma DataRefusals(code: seq<Word>, pc: nat, d: nat, at: nat)
    ensures Packed(code, pc, d, at) == Err(BadPayload) <==> at >= |code| || code[at] != 0x0100
    ensures Sparse(code, pc, d, at) == Err(BadPayload) <==> at >= |code| || code[at] != 0x0200
    ensures FillData(code, at) == Err(BadPayload) <==> at >= |code| || code[at] != 0x0300
    ensures at < |code| && code[at] == 0x0100 ==>
      (Packed(code, pc, d, at).Err? <==> at + 4 > |code| || at + 4 + 2 * (code[at + 1] as int) > |code|)
    ensures at < |code| && code[at] == 0x0200 ==>
      (Sparse(code, pc, d, at).Err? <==> at + 2 > |code| || at + 2 + 4 * (code[at + 1] as int) > |code|)
    ensures at + 1 < |code| && FillData(code, at) == Err(BadWidth) ==> code[at + 1] !in {1, 2, 4, 8}
    ensures at + 1 < |code| && FillData(code, at).Ok? ==> code[at + 1] in {1, 2, 4, 8}
  {
  }

  /** The inline data an instruction owns: first unit, and the unit after the last. */
  function PayloadSpan(insn: Insn): Option<(nat, nat)> {
    match insn
    case PackedSwitch(_, payload, _, targets) => Some((payload, payload + 4 + 2 * |targets|))
    case SparseSwitch(_, payload, keys, _) => Some((payload, payload + 2 + 4 * |keys|))
    case FillArrayData(_, payload, data) => Some((payload, payload + 4 + PayloadWords(data)))
    case _ => None
  }

  lemma SpanInBounds(code: seq<Word>, pc: nat)
    requires Decode(code, pc).Ok? && PayloadSpan(Decode(code, pc).value.0).Some?
    ensures var (start, end) := PayloadSpan(Decode(code, pc).value.0).value; start < end <= |code|
  {
  }

  // ---- the payload loops ----

  lemma {:induction false} TableAt(code: seq<Word>, at: nat, n: nat, i: nat)
    requires at + 2 * n <= |code| && i < n
    ensures Table(code, at, n)[i] == Signed32(code[at + 2 * i], code[at + 2 * i + 1])
    decreases n
  {
    if i < n - 1 {
      TableAt(code, at, n - 1, i);
    }
  }

  lemma {:induction false} SwitchTargetsAt(pc: nat, offs: seq<I32>, i: nat)
    requires i < |offs|
    ensures SwitchTargets(pc, offs)[i] == SwitchTarget(pc, offs[i])
    decreases |offs|
  {
    if i < |offs| - 1 {
      SwitchTargetsAt(pc, offs[..|offs| - 1], i);
    }
  }

  /** Entry i of a packed switch is the i-th offset of its table, taken from the switch
      itself; the key of entry i is `first + i`. */
  lemma PackedEntry(code: seq<Word>, pc: nat, d: nat, payload: nat, i: nat)
    requires Packed(code, pc, d, payload).Ok?
    requires i < |Packed(code, pc, d, payload).value.targets|
    ensures var at := payload + 4 + 2 * i;
      Packed(code, pc, d, payload).value.targets[i]
      == SwitchTarget(pc, Signed32(code[at], code[at + 1]))
  {
    var size: nat := code[payload + 1];
    TableAt(code, payload + 4, size, i);
    SwitchTargetsAt(pc, Table(code, payload + 4, size), i);
  }

  /** Key i of a sparse switch goes with target i: the keys come first, the targets
      follow in the same order. */
  lemma SparseEntry(code: seq<Word>, pc: nat, d: nat, payload: nat, i: nat)
    requires Sparse(code, pc, d, payload).Ok? && i < |Sparse(code, pc, d, payload).value.keys|
    ensures var r := Sparse(code, pc, d, payload).value;
      var key, target := payload + 2 + 2 * i, payload + 2 + 2 * (|r.keys| + i);
      && r.keys[i] == Signed32(code[key], code[key + 1])
      && r.targets[i] == SwitchTarget(pc, Signed32(code[target], code[target + 1]))
  {
    var size: nat := code[payload + 1];
    TableAt(code, payload + 2, size, i);
    TableAt(code, payload + 2 + 2 * size, size, i);
    SwitchTargetsAt(pc, Table(code, payload + 2 + 2 * size, size), i);
  }

  /** The packed-switch arm of `decode`. */
  method DecodePacked(code: seq<Word>, pc: nat, d: nat, payload: nat) returns (r: Result<Insn, DexError>)
    ensures r == Packed(code, pc, d, payload)
  {
    if payload >= |code| || code[payload] != 0x0100 {
      return Err(BadPayload);
    }
    if payload + 1 >= |code| || payload + 2 >= |code| || payload + 3 >= |code| {
      return Err(SwitchOob);
    }
    var size: nat := code[payload + 1];
    var first := Signed32(code[payload + 2], code[payload + 3]);
    var targets: seq<I32> := [];
    for i := 0 to size
      invariant payload + 4 + 2 * i <= |code|
      invariant targets == SwitchTargets(pc, Table(code, payload + 4, i))
    {
      if payload + 4 + i * 2 >= |code| || payload + 5 + i * 2 >= |code| {
        return Err(SwitchOob);
      }
      var off := Signed32(code[payload + 4 + i * 2], code[payload + 5 + i * 2]);
      Parts(Table(code, payload + 4, i), [off]);
      targets := targets + [SwitchTarget(pc, off)];
    }
    r := Ok(PackedSwitch(d, payload, first, targets));
  }

  /** The sparse-switch arm of `decode`. */
  method DecodeSparse(code: seq<Word>, pc: nat, d: nat, payload: nat) returns (r: Result<Insn, DexError>)
    ensures r == Sparse(code, pc, d, payload)
  {
    if payload >= |code| || code[payload] != 0x0200 {
      return Err(BadPayload);
    }
    if payload + 1 >= |code| {
      return Err(SwitchOob);
    }
    var tables := SparseTables(code, pc, payload, code[payload + 1]);
    if tables.None? {
      return Err(SwitchOob);
    }
    r := Ok(SparseSwitch(d, payload, tables.value.0, tables.value.1));
  }

  /** Its loop over the keys and the targets. */
  method SparseTables(code: seq<Word>, pc: nat, payload: nat, size: nat) returns (r: Option<(seq<I32>, seq<I32>)>)
    requires payload + 2 <= |code|
    ensures r == if payload + 2 + 4 * size > |code| then None
                 else Some((Table(code, payload + 2, size),
                            SwitchTargets(pc, Table(code, payload + 2 + 2 * size, size))))
  {
    var keys: seq<I32> := [];
    var targets: seq<I32> := [];
    for i := 0 to size
      invariant SparseSoFar(code, pc, payload, size, i, keys, targets)
    {
      var key := IntAt(code, payload + 2 + i * 2);
      var off := IntAt(code, payload + 2 + (size + i) * 2);
      if key.None? || off.None? {
        return None;
      }
      SparseNext(code, pc, payload, size, i, keys, targets);
      keys := keys + [key.value];
      targets := targets + [SwitchTarget(pc, off.value)];
    }
    SparseEnd(code, pc, payload, size, keys, targets);
    r := Some((keys, targets));
  }

  lemma SparseEnd(code: seq<Word>, pc: nat, payload: nat, size: nat, keys: seq<I32>, targets: seq<I32>)
    requires payload + 2 <= |code| && SparseSoFar(code, pc, payload, size, size, keys, targets)
    ensures payload + 2 + 4 * size <= |code| && keys == Table(code, payload + 2, size)
    ensures targets == SwitchTargets(pc, Table(code, payload + 2 + 2 * size, size))
  {
  }

  /** Two code units as a 32-bit value, unless they lie past the end. */
  function IntAt(code: seq<Word>, at: nat): (r: Option<I32>)
    ensures r.Some? <==> at + 2 <= |code|
  {
    if at + 1 < |code| then Some(Signed32(code[at], code[at + 1])) else None
  }

  predicate SparseSoFar(code: seq<Word>, pc: nat, payload: nat, size: nat, i: nat,
                        keys: seq<I32>, targets: seq<I32>) {
    && i <= size
    && payload + 2 + 2 * i <= |code|
    && keys == Table(code, payload + 2, i)
    && if i == 0 then targets == []
       else
         && payload + 2 + 2 * size + 2 * i <= |code|
         && targets == SwitchTargets(pc, Table(code, payload + 2 + 2 * size, i))
  }

  lemma SparseNext(code: seq<Word>, pc: nat, payload: nat, size: nat, i: nat,
                   keys: seq<I32>, targets: seq<I32>)
    requires SparseSoFar(code, pc, payload, size, i, keys, targets)
    requires i < size && payload + 2 + 2 * (size + i) + 2 <= |code|
    ensures var key := IntAt(code, payload + 2 + 2 * i).value;
      var off := IntAt(code, payload + 2 + 2 * (size + i)).value;
      SparseSoFar(code, pc, payload, size, i + 1, keys + [key], targets + [SwitchTarget(pc, off)])
  {
    var half := payload + 2 + 2 * size;
    Parts(Table(code, half, i), [IntAt(code, half + 2 * i).value]);
  }

  /** `decode_fill_array_data`. */
  method DecodeFillArrayData(code: seq<Word>, payload: nat) returns (r: Result<FillArray, DexError>)
    ensures r == FillData(code, payload)
  {
    if payload >= |code| || code[payload] != 0x0300 {
      return Err(BadPayload);
    }
    if payload + 3 >= |code| {
      return Err(FillOob);
    }
    var width: nat := code[payload + 1];
    var low: nat, high: nat := code[payload + 2], code[payload + 3];
    var bytes: nat := (low + 0x1_0000 * high) * width;
    var start := payload + 4;
    var raw: seq<Cursors.Octet> := [];
    for i := 0 to bytes
      invariant start + (i + 1) / 2 <= |code|
      invariant raw == RawBytes(code, start, i)
    {
      if start + i / 2 >= |code| {
        return Err(FillOob);
      }
      var w := code[start + i / 2];
      raw := raw + [if i % 2 == 0 then Op(w) else A8(w)];
    }
    match width {
      case 1 => r := Ok(Bytes(raw));
      case 2 =>
        var v := Regroup(raw, 2);
        r := Ok(Shorts(v));
      case 4 =>
        var v := Regroup(raw, 4);
        r := Ok(Ints(v));
      case 8 =>
        var v := Regroup(raw, 8);
        r := Ok(Wides(v));
      case _ => r := Err(BadWidth);
    }
  }

  /** The loops that combine the raw bytes into elements. */
  method Regroup(raw: seq<Cursors.Octet>, k: nat) returns (v: seq<nat>)
    requires k in {2, 4, 8}
    ensures v == Elements(raw, k)
  {
    v := [];
    var rest := raw;
    while |rest| >= k
      invariant Elements(raw, k) == v + Elements(rest, k)
      decreases |rest|
    {
      Assoc(v, [Cursors.LeValue(rest[..k])], Elements(rest[k..], k));
      v := v + [Cursors.LeValue(rest[..k])];
      rest := rest[k..];
    }
    Empty(v);
  }

  /** `decode`, with the payload arms as loops. */
  method DecodeAt(code: seq<Word>, pc: nat) returns (r: Result<(Insn, nat), DexError>)
    ensures r == Decode(code, pc)
  {
    if pc + 2 < |code| && Op(code[pc]) in {0x26, 0x2b, 0x2c} {
      var w0 := code[pc];
      var payload := Target(pc, Signed32(code[pc + 1], code[pc + 2]));
      var insn: Result<Insn, DexError>;
      if Op(w0) == 0x2b {
        insn := DecodePacked(code, pc, A8(w0), payload);
      } else if Op(w0) == 0x2c {
        insn := DecodeSparse(code, pc, A8(w0), payload);
      } else {
        var data := DecodeFillArrayData(code, payload);
        insn := if data.Ok? then Ok(FillArrayData(A8(w0), payload, data.value)) else Err(data.error);
      }
      return if insn.Ok? then Ok((insn.value, pc + 3)) else Err(insn.error);
    }
    r := Decode(code, pc);
  }

  // ---- the linear sweep ----

  datatype Decoded = Decoded(insns: seq<Insn>, units: seq<nat>, sizes: seq<nat>, words: nat) {

    predicate Parallel() {
      |insns| == |units| == |sizes|
    }
  }

  function Prepend(insn: Insn, unit: nat, size: nat, d: Decoded): Decoded {
    Decoded([insn] + d.insns, [unit] + d.units, [size] + d.sizes, d.words)
  }

  type Span = (nat, nat)

  /** The first recorded span that starts at `pc`. */
  function SkipAt(skips: seq<Span>, pc: nat): (r: Option<Span>)
    ensures r.Some? ==> r.value in skips && r.value.0 == pc
    ensures r.None? ==> forall k :: 0 <= k < |skips| ==> skips[k].0 != pc
  {
    if skips == [] then None
    else if skips[0].0 == pc then Some(skips[0])
    else
      var r := SkipAt(skips[1..], pc);
      assert forall k :: 1 <= k < |skips| ==> skips[k] == skips[1..][k - 1];
      r
  }

  predicate Forward(skips: seq<Span>) {
    forall k :: 0 <= k < |skips| ==> skips[k].0 < skips[k].1
  }

  function Recorded(skips: seq<Span>, insn: Insn): seq<Span> {
    var span := PayloadSpan(insn);
    if span.Some? then skips + [span.value] else skips
  }

  lemma RecordedForward(code: seq<Word>, pc: nat, skips: seq<Span>)
    requires Decode(code, pc).Ok? && Forward(skips)
    ensures Forward(Recorded(skips, Decode(code, pc).value.0))
  {
    if PayloadSpan(Decode(code, pc).value.0).Some? {
      SpanInBounds(code, pc);
    }
  }

  /** What the sweep makes of the code from `pc` on. Every turn moves forward: a recorded
      span is never empty, and neither is an instruction. */
  function Sweep(code: seq<Word>, pc: nat, skips: seq<Span>): (r: Result<Decoded, DexError>)
    requires Forward(skips)
    ensures r.Ok? ==> r.value.Parallel() && r.value.words == |code|
    decreases |code| - pc
  {
    if pc >= |code| then Ok(Decoded([], [], [], |code|))
    else
      var skip := SkipAt(skips, pc);
      if skip.Some? then Sweep(code, skip.value.1, skips)
      else
        var one := Decode(code, pc);
        if one.Err? then Err(one.error)
        else
          RecordedForward(code, pc, skips);
          var rest := Sweep(code, one.value.1, Recorded(skips, one.value.0));
          if rest.Err? then rest
          else Ok(Prepend(one.value.0, pc, one.value.1 - pc, rest.value))
  }

  function Append(a: Decoded, b: Decoded): Decoded {
    Decoded(a.insns + b.insns, a.units + b.units, a.sizes + b.sizes, b.words)
  }

  lemma AppendFirst(d: Decoded)
    ensures Append(Decoded([], [], [], d.words), d) == d
  {
    Empty(d.insns);
    Empty(d.units);
    Empty(d.sizes);
  }

  lemma AppendStep(a: Decoded, insn: Insn, unit: nat, size: nat, b: Decoded)
    ensures Append(a, Prepend(insn, unit, size, b))
         == Append(Decoded(a.insns + [insn], a.units + [unit], a.sizes + [size], a.words), b)
  {
    Assoc(a.insns, [insn], b.insns);
    Assoc(a.units, [unit], b.units);
    Assoc(a.sizes, [size], b.sizes);
  }

  /** The search of the skip list. */
  method FindSkip(skips: seq<Span>, pc: nat) returns (r: Option<Span>)
    ensures r == SkipAt(skips, pc)
  {
    for k := 0 to |skips|
      invariant SkipAt(skips, pc) == SkipAt(skips[k..], pc)
    {
      if skips[k].0 == pc {
        return Some(skips[k]);
      }
      DropDrop(skips, k, 1);
    }
    r := None;
  }

  /** The sweep's result from what has been collected and what is still ahead. */
  function Collected(code: seq<Word>, d: Decoded, pc: nat, skips: seq<Span>): Result<Decoded, DexError>
    requires Forward(skips)
  {
    var rest := Sweep(code, pc, skips);
    if rest.Err? then rest else Ok(Append(d, rest.value))
  }

  lemma CollectedNext(code: seq<Word>, d: Decoded, pc: nat, skips: seq<Span>)
    requires Forward(skips) && pc < |code| && SkipAt(skips, pc).None?
    ensures var one := Decode(code, pc);
      if one.Err? then Collected(code, d, pc, skips) == Err(one.error)
      else
        && pc < one.value.1
        && Forward(Recorded(skips, one.value.0))
        && Collected(code, d, pc, skips)
           == Collected(code, Decoded(d.insns + [one.value.0], d.units + [pc], d.sizes + [one.value.1 - pc], d.words),
                        one.value.1, Recorded(skips, one.value.0))
  {
    var one := Decode(code, pc);
    if one.Ok? {
      RecordedForward(code, pc, skips);
      var rest := Sweep(code, one.value.1, Recorded(skips, one.value.0));
      if rest.Ok? {
        AppendStep(d, one.value.0, pc, one.value.1 - pc, rest.value);
      }
    }
  }

  lemma CollectedStarts(code: seq<Word>)
    ensures Collected(code, Decoded([], [], [], |code|), 0, []) == Sweep(code, 0, [])
  {
    if Sweep(code, 0, []).Ok? {
      AppendFirst(Sweep(code, 0, []).value);
    }
  }

  lemma CollectedSkips(code: seq<Word>, d: Decoded, pc: nat, skips: seq<Span>)
    requires Forward(skips) && pc < |code| && SkipAt(skips, pc).Some?
    ensures var next := SkipAt(skips, pc).value.1;
      pc < next && Collected(code, d, pc, skips) == Collected(code, d, next, skips)
  {
  }

  lemma CollectedEnds(code: seq<Word>, d: Decoded, pc: nat, skips: seq<Span>)
    requires Forward(skips) && pc >= |code| && d.words == |code|
    ensures Collected(code, d, pc, skips) == Ok(d)
  {
    Empty(d.insns);
    Empty(d.units);
    Empty(d.sizes);
  }

  /** `decode_all`. */
  method DecodeAll(code: seq<Word>) returns (r: Result<Decoded, DexError>)
    ensures r == Sweep(code, 0, [])
  {
    var v: seq<Insn>, u: seq<nat>, s: seq<nat> := [], [], [];
    var skips: seq<Span> := [];
    var pc := 0;
    CollectedStarts(code);
    while pc < |code|
      invariant Forward(skips)
      invariant Collected(code, Decoded(v, u, s, |code|), pc, skips) == Sweep(code, 0, [])
      decreases |code| - pc
    {
      var skip := FindSkip(skips, pc);
      if skip.Some? {
        CollectedSkips(code, Decoded(v, u, s, |code|), pc, skips);
        pc := skip.value.1;
      } else {
        CollectedNext(code, Decoded(v, u, s, |code|), pc, skips);
        var one := DecodeAt(code, pc);
        if one.Err? {
          return Err(one.error);
        }
        var (insn, next) := one.value;
        var span := PayloadSpan(insn);
        if span.Some? {
          skips := skips + [span.value];
        }
        var size: nat := next - pc;
        u, s := u + [pc], s + [size];
        pc := next;
        v := v + [insn];
      }
    }
    CollectedEnds(code, Decoded(v, u, s, |code|), pc, skips);
    r := Ok(Decoded(v, u, s, |code|));
  }
}
