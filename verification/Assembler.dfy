/** The formats of the instruction set: for every instruction, the code units that may stand
    for it, in each of its forms; and the proof that decoding is exactly the inverse. */
module Assembler {
  import opened Wrappers
  import opened Values
  import opened Decoder

  // ---- building code units ----

  /** B|A|op: two nibbles above the opcode. */
  function Nibbles(op: nat, a: nat, b: nat): Word
    requires op < 256 && a < 16 && b < 16
  {
    op + 256 * a + 4096 * b
  }

  /** AA|op: a byte above the opcode. */
  function Byte(op: nat, a: nat): Word
    requires op < 256 && a < 256
  {
    op + 256 * a
  }

  function FourRegs(c: nat, d: nat, e: nat, f: nat): Word
    requires c < 16 && d < 16 && e < 16 && f < 16
  {
    c + 16 * d + 256 * e + 4096 * f
  }

  function Low(x: int): Word { x % 0x1_0000 }
  function High(x: int): Word { x / 0x1_0000 % 0x1_0000 }

  // ---- the opcode tables ----

  function BinopCode(op: Binop): nat {
    match op
    case Add => 0
    case Sub => 1
    case Mul => 2
    case Div => 3
    case Rem => 4
    case And => 5
    case Or => 6
    case Xor => 7
    case Shl => 8
    case Shr => 9
    case Ushr => 10
  }

  /** The operation of an opcode in a block that starts at `base`: eleven operations on int,
      eleven on long, five on float and five on double. */
  predicate InBlock(base: nat, opcode: nat, op: Binop) {
    var c := BinopCode(op);
    || opcode == base + c
    || opcode == base + 11 + c
    || (c < 5 && (opcode == base + 22 + c || opcode == base + 27 + c))
  }

  function IfCode(op: IfOp): nat {
    match op
    case Eq => 0
    case Ne => 1
    case Lt => 2
    case Ge => 3
    case Gt => 4
    case Le => 5
  }

  function KindCode(kind: InvokeKind): nat {
    match kind
    case Virtual => 0
    case Super => 1
    case Direct => 2
    case Static => 3
    case Interface => 4
  }

  function LitCode(lop: LitOp): nat {
    match lop
    case Bin(op) => BinopCode(op)
    case Rsub => 1
  }

  /** The opcodes, by length, of the instructions whose meaning is not spelled out. */
  predicate Kept(op: nat, size: nat) {
    match size
    case 1 => op in {0x1d, 0x1e, 0x21} || 0x7b <= op <= 0x8f
    case 2 => op in {0x19, 0x1a, 0x1c, 0x1f, 0x20, 0x23, 0xff} || 0x2d <= op <= 0x31 || 0x44 <= op <= 0x51
              || 0x60 <= op <= 0x6d
    case 3 => op in {0x1b, 0x24, 0x25}
    case _ => false
  }

  predicate Reg4(r: nat) { r < 16 }
  predicate Reg8(r: nat) { r < 256 }

  /** Addresses have 32 bits, and a branch leads around their end. */
  predicate Address(t: nat) { t < 0x1_0000_0000 }

  /** The target is within the given distance, which is given as its two's complement. */
  predicate Near(pc: nat, t: nat, reach: nat) {
    Address(t) && -(reach as int) <= Wrap32(t - pc) < reach
  }

  // ---- the forms ----

  predicate Unary(op: nat, a: nat, w: Word)
    requires op < 256
  {
    Reg8(a) && w == Byte(op, a)
  }

  predicate Binary(op: nat, a: nat, b: nat, w: Word)
    requires op < 256
  {
    Reg4(a) && Reg4(b) && w == Nibbles(op, a, b)
  }

  /** Forms of one code unit. Where a format leaves bits unused, they are arbitrary. */
  predicate Form1(i: Insn, pc: nat, w: Word) {
    match i
    case Nop => w % 256 == 0x00
    case Move(d, s) => Binary(0x01, d, s, w) || Binary(0x07, d, s, w)
    case MoveWide(d, s) => Binary(0x04, d, s, w)
    case MoveResult(d) => Unary(0x0a, d, w) || Unary(0x0b, d, w) || Unary(0x0c, d, w)
    case MoveException(d) => Unary(0x0d, d, w)
    case ReturnVoid => w % 256 == 0x0e
    case Return(v) => Unary(0x0f, v, w) || Unary(0x10, v, w) || Unary(0x11, v, w)
    case Const(d, lit) => -8 <= lit < 8 && Binary(0x12, d, lit % 16, w)
    case Throw(v) => Unary(0x27, v, w)
    case Goto(t) => Near(pc, t, 0x80) && Unary(0x28, Wrap32(t - pc) % 256, w)
    case BinOp(op, d, a, b) => d == a && InBlock(0xb0, w % 256, op) && Binary(w % 256, a, b, w)
    case Other(op, words) => words == [w] && w % 256 == op && Kept(op, 1)
    case _ => false
  }

  /** Forms of two code units. */
  predicate Form2(i: Insn, pc: nat, w: Word, v: Word) {
    match i
    case Move(d, s) => (Unary(0x02, d, w) || Unary(0x08, d, w)) && v == s
    case MoveWide(d, s) => Unary(0x05, d, w) && v == s
    case Const(d, lit) => -0x8000 <= lit < 0x8000 && Unary(0x13, d, w) && v == Low(lit)
    case ConstHigh16(d, lit) => lit % 0x1_0000 == 0 && Unary(0x15, d, w) && v == High(lit)
    case ConstWide(d, wide) => -0x8000 <= wide < 0x8000 && Unary(0x16, d, w) && v == Low(wide)
    case NewInstance(d, ty) => Unary(0x22, d, w) && v == ty
    case Goto(t) => Near(pc, t, 0x8000) && w % 256 == 0x29 && v == Low(Wrap32(t - pc))
    case If(cmp, a, b, t) => Near(pc, t, 0x8000) && Binary(0x32 + IfCode(cmp), a, b, w) && v == Low(Wrap32(t - pc))
    case IfZ(cmp, a, t) => Near(pc, t, 0x8000) && Unary(0x38 + IfCode(cmp), a, w) && v == Low(Wrap32(t - pc))
    case IGet(d, obj, field) => 0x52 <= w % 256 <= 0x58 && Binary(w % 256, d, obj, w) && v == field
    case IPut(src, obj, field, isObj) =>
      0x59 <= w % 256 <= 0x5f && (w % 256 == 0x5b <==> isObj) && Binary(w % 256, src, obj, w) && v == field
    case BinOp(op, d, a, b) =>
      InBlock(0x90, w % 256, op) && Unary(w % 256, d, w) && Reg8(a) && Reg8(b) && v == Byte(a, b)
    case BinopLit(lop, d, a, lit) => ShortLit(lop, d, a, lit, w, v) || LongLit(lop, d, a, lit, w, v)
    case Other(op, words) => words == [w, v] && w % 256 == op && Kept(op, 2)
    case _ => false
  }

  /** A literal of 8 bits, with registers of 8 bits. The operation numbered 1 is the reversed
      subtraction; a plain one is an addition of the negative. */
  predicate ShortLit(lop: LitOp, d: nat, a: nat, lit: I32, w: Word, v: Word) {
    && lop != Bin(Sub) && -128 <= lit < 128
    && Unary(0xd8 + LitCode(lop), d, w) && Reg8(a) && v == Byte(a, lit % 256)
  }

  /** One of 16 bits, with registers of 4 bits, for the operations other than shifts. */
  predicate LongLit(lop: LitOp, d: nat, a: nat, lit: I32, w: Word, v: Word) {
    && lop != Bin(Sub) && LitCode(lop) < 8 && -0x8000 <= lit < 0x8000
    && Binary(0xd0 + LitCode(lop), d, a, w) && v == Low(lit)
  }

  /** Five registers of 4 bits: the fifth beside the count, the others in the third unit. */
  predicate FiveRegs(op: nat, args: Args, w: Word, u: Word)
    requires op < 256
  {
    && !args.range && args.base == 0 && |args.regs| == 5
    && Reg4(args.regs[0]) && Reg4(args.regs[1]) && Reg4(args.regs[2]) && Reg4(args.regs[3])
    && Binary(op, args.regs[4], args.count, w)
    && u == FourRegs(args.regs[0], args.regs[1], args.regs[2], args.regs[3])
  }

  predicate RangeRegs(op: nat, args: Args, w: Word, u: Word)
    requires op < 256
  {
    args.range && args.regs == [0, 0, 0, 0, 0] && Unary(op, args.count, w) && u == args.base
  }

  /** Forms of three code units. The 16-bit moves are as the code reads them, with the two
      registers exchanged. */
  predicate Form3(i: Insn, pc: nat, w: Word, v: Word, u: Word) {
    match i
    case Move(d, s) => w % 256 in {0x03, 0x09} && v == s && u % 256 == d
    case MoveWide(d, s) => w % 256 == 0x06 && v == s && u % 256 == d
    case Const(d, lit) => Unary(0x14, d, w) && v == Low(lit) && u == High(lit)
    case ConstWide(d, wide) =>
      0 <= wide < 0x1_0000_0000 && Unary(0x17, d, w) && v == Low(wide) && u == High(wide)
    case Goto(t) =>
      Address(t) && w % 256 == 0x2a && v == Low(Wrap32(t - pc)) && u == High(Wrap32(t - pc))
    case Invoke(kind, callee, args) =>
      v == callee && (FiveRegs(0x6e + KindCode(kind), args, w, u) || RangeRegs(0x74 + KindCode(kind), args, w, u))
    case Other(op, words) => words == [w, v, u] && w % 256 == op && Kept(op, 3)
    case _ => false
  }

  /** The one form of five code units. */
  predicate Form5(i: Insn, ws: seq<Word>)
    requires |ws| == 5
  {
    && i.ConstWide? && Unary(0x18, i.d, ws[0])
    && ws[1..] == [Low(i.wide), High(i.wide), Low(i.wide / 0x1_0000_0000), High(i.wide / 0x1_0000_0000)]
  }

  /** The code units are a form of the instruction at address `pc`. */
  predicate IsForm(i: Insn, pc: nat, ws: seq<Word>) {
    || (|ws| == 1 && Form1(i, pc, ws[0]))
    || (|ws| == 2 && Form2(i, pc, ws[0], ws[1]))
    || (|ws| == 3 && Form3(i, pc, ws[0], ws[1], ws[2]))
    || (|ws| == 5 && Form5(i, ws))
  }

  // ---- fields and words ----

  lemma NibblesFields(op: nat, a: nat, b: nat)
    requires op < 256 && a < 16 && b < 16
    ensures var w := Nibbles(op, a, b); Op(w) == op && A4(w) == a && B4(w) == b
  {
  }

  lemma ByteFields(op: nat, a: nat)
    requires op < 256 && a < 256
    ensures Op(Byte(op, a)) == op && A8(Byte(op, a)) == a
  {
  }

  /** A code unit is made of its fields. */
  lemma WordFields(w: Word)
    ensures Op(w) < 256 && A8(w) < 256 && A4(w) < 16 && B4(w) < 16
    ensures w == Byte(Op(w), A8(w)) == Nibbles(Op(w), A4(w), B4(w))
  {
    assert w == 256 * (w / 256) + w % 256 && w / 256 == 16 * (w / 4096) + w / 256 % 16;
  }

  lemma HalvesOf(x: I32)
    ensures Signed32(Low(x), High(x)) == x
  {
  }

  lemma HalvesBack(v: Word, u: Word)
    ensures Low(Signed32(v, u)) == v && High(Signed32(v, u)) == u
  {
  }

  lemma UnsignedHalves(v: Word, u: Word)
    ensures var x := v + 0x1_0000 * u; 0 <= x < 0x1_0000_0000 && Low(x) == v && High(x) == u
  {
  }

  lemma UnsignedBack(x: int)
    requires 0 <= x < 0x1_0000_0000
    ensures Low(x) + 0x1_0000 * High(x) == x
  {
  }

  lemma FourRegsFields(c: nat, d: nat, e: nat, f: nat)
    requires c < 16 && d < 16 && e < 16 && f < 16
    ensures var w := FourRegs(c, d, e, f);
      w % 16 == c && w / 16 % 16 == d && w / 256 % 16 == e && w / 4096 == f
  {
    var w := FourRegs(c, d, e, f);
    assert w == 16 * (d + 16 * e + 256 * f) + c;
    assert w / 16 == d + 16 * e + 256 * f == 16 * (e + 16 * f) + d;
    assert w / 256 == e + 16 * f;
  }

  lemma FourRegsBack(w: Word)
    ensures w == FourRegs(w % 16, w / 16 % 16, w / 256 % 16, w / 4096)
  {
    assert w == 16 * (w / 16) + w % 16 && w / 16 == 16 * (w / 256) + w / 16 % 16;
    assert w / 256 == 16 * (w / 4096) + w / 256 % 16;
  }

  lemma BinopFields(op: Binop)
    ensures BinopCode(op) < 11 && BinopOf(BinopCode(op)) == op
  {
  }

  lemma LitFields(lop: LitOp)
    requires lop != Bin(Sub)
    ensures LitCode(lop) < 11 && LitOpOf(LitCode(lop)) == lop
  {
    if lop.Bin? {
      BinopFields(lop.op);
    }
  }

  lemma LitBack(k: nat)
    requires k < 11
    ensures LitOpOf(k) != Bin(Sub) && LitCode(LitOpOf(k)) == k
  {
  }

  lemma IfFields(op: IfOp)
    ensures IfCode(op) < 6 && IfOpOf(IfCode(op)) == op
  {
  }

  lemma IfBack(k: nat)
    requires k < 6
    ensures IfCode(IfOpOf(k)) == k
  {
  }

  lemma KindBack(op: nat)
    requires 0x6e <= op <= 0x72
    ensures 0x6e + KindCode(InvokeKindOf(op)) == op
  {
  }

  /** The decoder's block operation is the one of the table. */
  lemma BlockExact(base: nat, opcode: nat, op: Binop)
    requires base <= opcode < base + 32
    ensures InBlock(base, opcode, op) <==> BlockOp(opcode - base) == op
  {
    BinopFields(op);
  }

  lemma OffsetTo(pc: nat, t: nat)
    requires Address(t)
    ensures Target(pc, Wrap32(t - pc)) == t
  {
  }

  lemma TargetAt(pc: nat, off: I32)
    ensures Address(Target(pc, off)) && Wrap32(Target(pc, off) - pc) == off
  {
  }

  lemma LowSigned(x: int)
    requires -0x8000 <= x < 0x8000
    ensures Signed16(Low(x)) == x
  {
  }

  lemma LowBack(v: Word)
    ensures -0x8000 <= Signed16(v) < 0x8000 && Low(Signed16(v)) == v
  {
  }

  lemma HighSigned(x: I32)
    requires x % 0x1_0000 == 0
    ensures Signed16(High(x)) * 0x1_0000 == x
  {
  }

  lemma HighBack(v: Word)
    ensures var x := Signed16(v) * 0x1_0000; x % 0x1_0000 == 0 && High(x) == v
  {
  }

  lemma Literal8(lit: int)
    requires -128 <= lit < 128
    ensures Signed8(lit % 256) == lit
  {
  }

  lemma Literal8Back(n: nat)
    requires n < 256
    ensures -128 <= Signed8(n) < 128 && Signed8(n) % 256 == n
  {
  }

  lemma Literal4(lit: int)
    requires -8 <= lit < 8
    ensures Signed4(lit % 16) == lit
  {
  }

  lemma Literal4Back(n: nat)
    requires n < 16
    ensures -8 <= Signed4(n) < 8 && Signed4(n) % 16 == n
  {
  }

  lemma UnaryFields(op: nat, a: nat, w: Word)
    requires op < 256
    ensures Unary(op, a, w) <==> Op(w) == op && A8(w) == a
  {
    WordFields(w);
    if Reg8(a) {
      ByteFields(op, a);
    }
  }

  lemma BinaryFields(op: nat, a: nat, b: nat, w: Word)
    requires op < 256
    ensures Binary(op, a, b, w) <==> Op(w) == op && A4(w) == a && B4(w) == b
  {
    WordFields(w);
    if Reg4(a) && Reg4(b) {
      NibblesFields(op, a, b);
    }
  }

  lemma BranchExact(pc: nat, t: nat, v: Word)
    ensures Near(pc, t, 0x8000) && v == Low(Wrap32(t - pc)) <==> Target(pc, Signed16(v)) == t
  {
    LowBack(v);
    TargetAt(pc, Signed16(v));
    if Near(pc, t, 0x8000) {
      LowSigned(Wrap32(t - pc));
      OffsetTo(pc, t);
    }
  }

  lemma FarBranchExact(pc: nat, t: nat, v: Word, u: Word)
    ensures Address(t) && v == Low(Wrap32(t - pc)) && u == High(Wrap32(t - pc)) <==> Target(pc, Signed32(v, u)) == t
  {
    HalvesBack(v, u);
    TargetAt(pc, Signed32(v, u));
    if Address(t) {
      HalvesOf(Wrap32(t - pc));
      OffsetTo(pc, t);
    }
  }

  lemma ShortTarget(pc: nat, t: nat, n: nat)
    requires n < 256
    ensures Near(pc, t, 0x80) && Wrap32(t - pc) % 256 == n <==> Target(pc, Signed8(n)) == t
  {
    Literal8Back(n);
    TargetAt(pc, Signed8(n));
    if Near(pc, t, 0x80) {
      Literal8(Wrap32(t - pc));
      OffsetTo(pc, t);
    }
  }

  lemma ShortBranchExact(pc: nat, t: nat, w: Word)
    ensures Near(pc, t, 0x80) && Unary(0x28, Wrap32(t - pc) % 256, w)
       <==> Op(w) == 0x28 && Target(pc, Signed8(A8(w))) == t
  {
    WordFields(w);
    UnaryFields(0x28, Wrap32(t - pc) % 256, w);
    ShortTarget(pc, t, A8(w));
  }

  // ---- decoding is exactly the inverse ----

  lemma Reads1(i: Insn, pc: nat, w: Word)
    requires Form1(i, pc, w)
    ensures Size(Op(w)) == Some(1) && Operands1(pc, w, Op(w)) == i
  {
    match i {
      case Move(d, s) =>
        BinaryFields(0x01, d, s, w);
        BinaryFields(0x07, d, s, w);
      case MoveWide(d, s) => BinaryFields(0x04, d, s, w);
      case MoveResult(d) =>
        UnaryFields(0x0a, d, w);
        UnaryFields(0x0b, d, w);
        UnaryFields(0x0c, d, w);
      case MoveException(d) => UnaryFields(0x0d, d, w);
      case Return(v) =>
        UnaryFields(0x0f, v, w);
        UnaryFields(0x10, v, w);
        UnaryFields(0x11, v, w);
      case Const(d, lit) =>
        BinaryFields(0x12, d, lit % 16, w);
        Literal4(lit);
      case Throw(v) => UnaryFields(0x27, v, w);
      case Goto(t) => ShortBranchExact(pc, t, w);
      case BinOp(op, _, a, b) =>
        BinopFields(op);
        BlockExact(0xb0, Op(w), op);
        BinaryFields(Op(w), a, b, w);
      case _ =>
    }
  }

  lemma MakesShort(pc: nat, w: Word)
    requires Size(Op(w)) == Some(1) && Op(w) <= 0x12
    ensures Form1(Operands1(pc, w, Op(w)), pc, w)
  {
    WordFields(w);
    Literal4Back(B4(w));
  }

  lemma MakesGoto(pc: nat, w: Word)
    requires Op(w) == 0x28
    ensures Form1(Operands1(pc, w, Op(w)), pc, w)
  {
    var t := Target(pc, Signed8(A8(w)));
    assert Operands1(pc, w, 0x28) == Goto(t);
    ShortBranchExact(pc, t, w);
    GotoForm(pc, t, w);
  }

  lemma GotoForm(pc: nat, t: nat, w: Word)
    requires Near(pc, t, 0x80) && Unary(0x28, Wrap32(t - pc) % 256, w)
    ensures Form1(Goto(t), pc, w)
  {
  }

  lemma MakesTwoAddress(pc: nat, w: Word)
    requires 0xb0 <= Op(w) <= 0xcf
    ensures Form1(Operands1(pc, w, Op(w)), pc, w)
  {
    WordFields(w);
    BlockExact(0xb0, Op(w), BlockOp(Op(w) - 0xb0));
  }

  lemma Makes1(pc: nat, w: Word)
    requires Size(Op(w)) == Some(1)
    ensures Form1(Operands1(pc, w, Op(w)), pc, w)
  {
    WordFields(w);
    if Op(w) <= 0x12 {
      MakesShort(pc, w);
    } else if Op(w) == 0x28 {
      MakesGoto(pc, w);
    } else if 0xb0 <= Op(w) <= 0xcf {
      MakesTwoAddress(pc, w);
    }
  }

  lemma ReadsLit(lop: LitOp, d: nat, a: nat, lit: I32, pc: nat, w: Word, v: Word)
    requires ShortLit(lop, d, a, lit, w, v) || LongLit(lop, d, a, lit, w, v)
    ensures Size(Op(w)) == Some(2) && Operands2(pc, w, v, Op(w)) == BinopLit(lop, d, a, lit)
  {
    LitFields(lop);
    if ShortLit(lop, d, a, lit, w, v) {
      UnaryFields(0xd8 + LitCode(lop), d, w);
      ByteFields(a, lit % 256);
      Literal8(lit);
    } else {
      BinaryFields(0xd0 + LitCode(lop), d, a, w);
      LowSigned(lit);
    }
  }

  lemma ReadsBinOp(op: Binop, d: nat, a: nat, b: nat, pc: nat, w: Word, v: Word)
    requires InBlock(0x90, Op(w), op) && Unary(Op(w), d, w) && Reg8(a) && Reg8(b) && v == Byte(a, b)
    ensures Size(Op(w)) == Some(2) && Operands2(pc, w, v, Op(w)) == BinOp(op, d, a, b)
  {
    BinopFields(op);
    BlockExact(0x90, Op(w), op);
    UnaryFields(Op(w), d, w);
    ByteFields(a, b);
  }

  lemma ReadsBranch(i: Insn, pc: nat, w: Word, v: Word)
    requires i.Goto? || i.If? || i.IfZ?
    requires Form2(i, pc, w, v)
    ensures Size(Op(w)) == Some(2) && Operands2(pc, w, v, Op(w)) == i
  {
    BranchExact(pc, i.t, v);
    match i {
      case If(cmp, a, b, _) =>
        IfFields(cmp);
        BinaryFields(0x32 + IfCode(cmp), a, b, w);
      case IfZ(cmp, a, _) =>
        IfFields(cmp);
        UnaryFields(0x38 + IfCode(cmp), a, w);
      case _ =>
    }
  }

  lemma ReadsConst(i: Insn, pc: nat, w: Word, v: Word)
    requires i.Const? || i.ConstHigh16? || i.ConstWide?
    requires Form2(i, pc, w, v)
    ensures Size(Op(w)) == Some(2) && Operands2(pc, w, v, Op(w)) == i
  {
    match i {
      case Const(d, lit) =>
        UnaryFields(0x13, d, w);
        LowSigned(lit);
      case ConstHigh16(d, lit) =>
        UnaryFields(0x15, d, w);
        HighSigned(lit);
      case ConstWide(d, wide) =>
        UnaryFields(0x16, d, w);
        LowSigned(wide);
    }
  }

  lemma ReadsRegs(i: Insn, pc: nat, w: Word, v: Word)
    requires i.Move? || i.MoveWide? || i.NewInstance? || i.IGet? || i.IPut?
    requires Form2(i, pc, w, v)
    ensures Size(Op(w)) == Some(2) && Operands2(pc, w, v, Op(w)) == i
  {
    WordFields(w);
    match i {
      case Move(d, _) =>
        UnaryFields(0x02, d, w);
        UnaryFields(0x08, d, w);
      case MoveWide(d, _) => UnaryFields(0x05, d, w);
      case NewInstance(d, _) => UnaryFields(0x22, d, w);
      case IGet(d, obj, _) => BinaryFields(Op(w), d, obj, w);
      case IPut(src, obj, _, _) => BinaryFields(Op(w), src, obj, w);
    }
  }

  lemma ReadsOther(op: nat, words: seq<Word>, pc: nat, w: Word, v: Word)
    requires words == [w, v] && Op(w) == op && Kept(op, 2)
    ensures Size(op) == Some(2) && Operands2(pc, w, v, op) == Other(op, words)
  {
  }

  lemma Reads2(i: Insn, pc: nat, w: Word, v: Word)
    requires Form2(i, pc, w, v)
    ensures Size(Op(w)) == Some(2) && Operands2(pc, w, v, Op(w)) == i
  {
    if i.BinOp? {
      ReadsBinOp(i.op, i.d, i.a, i.b, pc, w, v);
    } else if i.BinopLit? {
      ReadsLit(i.lop, i.d, i.a, i.lit, pc, w, v);
    } else if i.Other? {
      ReadsOther(i.opcode, i.words, pc, w, v);
    } else if i.Goto? || i.If? || i.IfZ? {
      ReadsBranch(i, pc, w, v);
    } else if i.Const? || i.ConstHigh16? || i.ConstWide? {
      ReadsConst(i, pc, w, v);
    } else {
      ReadsRegs(i, pc, w, v);
    }
  }

  lemma MakesLow(pc: nat, w: Word, v: Word)
    requires Size(Op(w)) == Some(2) && Op(w) < 0x30
    ensures Form2(Operands2(pc, w, v, Op(w)), pc, w, v)
  {
    WordFields(w);
    LowBack(v);
    HighBack(v);
    BranchExact(pc, Target(pc, Signed16(v)), v);
  }

  lemma IfForm(cmp: IfOp, a: nat, b: nat, t: nat, pc: nat, w: Word, v: Word)
    requires Target(pc, Signed16(v)) == t && Op(w) == 0x32 + IfCode(cmp) && A4(w) == a && B4(w) == b
    ensures Form2(If(cmp, a, b, t), pc, w, v)
  {
    IfFields(cmp);
    BranchExact(pc, t, v);
    BinaryFields(0x32 + IfCode(cmp), a, b, w);
  }

  lemma IfZForm(cmp: IfOp, a: nat, t: nat, pc: nat, w: Word, v: Word)
    requires Target(pc, Signed16(v)) == t && Op(w) == 0x38 + IfCode(cmp) && A8(w) == a
    ensures Form2(IfZ(cmp, a, t), pc, w, v)
  {
    IfFields(cmp);
    BranchExact(pc, t, v);
    UnaryFields(0x38 + IfCode(cmp), a, w);
  }

  lemma MakesIf(pc: nat, w: Word, v: Word)
    requires 0x32 <= Op(w) <= 0x3d
    ensures Form2(Operands2(pc, w, v, Op(w)), pc, w, v)
  {
    if Op(w) <= 0x37 {
      IfBack(Op(w) - 0x32);
      IfForm(IfOpOf(Op(w) - 0x32), A4(w), B4(w), Target(pc, Signed16(v)), pc, w, v);
    } else {
      IfBack(Op(w) - 0x38);
      IfZForm(IfOpOf(Op(w) - 0x38), A8(w), Target(pc, Signed16(v)), pc, w, v);
    }
  }

  lemma MakesBinOp(pc: nat, w: Word, v: Word)
    requires 0x90 <= Op(w) <= 0xaf
    ensures Form2(Operands2(pc, w, v, Op(w)), pc, w, v)
  {
    WordFields(w);
    WordFields(v);
    BlockExact(0x90, Op(w), BlockOp(Op(w) - 0x90));
  }

  lemma MakesLit(pc: nat, w: Word, v: Word)
    requires 0xd0 <= Op(w) <= 0xe2
    ensures Form2(Operands2(pc, w, v, Op(w)), pc, w, v)
  {
    WordFields(w);
    WordFields(v);
    if Op(w) < 0xd8 {
      LitBack(Op(w) - 0xd0);
      LowBack(v);
    } else {
      LitBack(Op(w) - 0xd8);
      Literal8Back(A8(v));
    }
  }

  lemma Makes2(pc: nat, w: Word, v: Word)
    requires Size(Op(w)) == Some(2)
    ensures Form2(Operands2(pc, w, v, Op(w)), pc, w, v)
  {
    var op := Op(w);
    WordFields(w);
    if op < 0x30 {
      MakesLow(pc, w, v);
    } else if 0x32 <= op <= 0x3d {
      MakesIf(pc, w, v);
    } else if 0x90 <= op <= 0xaf {
      MakesBinOp(pc, w, v);
    } else if 0xd0 <= op <= 0xe2 {
      MakesLit(pc, w, v);
    }
  }

  lemma ReadsInvoke(code: seq<Word>, pc: nat, kind: InvokeKind, callee: nat, args: Args, w: Word, v: Word, u: Word)
    requires v == callee
    requires FiveRegs(0x6e + KindCode(kind), args, w, u) || RangeRegs(0x74 + KindCode(kind), args, w, u)
    ensures Size(Op(w)) == Some(3) && Operands3(code, pc, w, v, u, Op(w)) == Ok(Invoke(kind, callee, args))
  {
    WordFields(w);
    if args.range {
      UnaryFields(0x74 + KindCode(kind), args.count, w);
    } else {
      BinaryFields(0x6e + KindCode(kind), args.regs[4], args.count, w);
      FourRegsFields(args.regs[0], args.regs[1], args.regs[2], args.regs[3]);
      assert Args35c(w, u) == args;
    }
  }

  lemma Reads3(code: seq<Word>, i: Insn, pc: nat, w: Word, v: Word, u: Word)
    requires Form3(i, pc, w, v, u)
    ensures Size(Op(w)) == Some(3) && Operands3(code, pc, w, v, u, Op(w)) == Ok(i)
  {
    match i {
      case Const(d, lit) =>
        UnaryFields(0x14, d, w);
        HalvesOf(lit);
      case ConstWide(d, wide) =>
        UnaryFields(0x17, d, w);
        UnsignedBack(wide);
      case Goto(t) => FarBranchExact(pc, t, v, u);
      case Invoke(kind, callee, args) => ReadsInvoke(code, pc, kind, callee, args, w, v, u);
      case _ =>
    }
  }

  lemma MakesInvoke(code: seq<Word>, pc: nat, w: Word, v: Word, u: Word)
    requires 0x6e <= Op(w) <= 0x72 || 0x74 <= Op(w) <= 0x78
    ensures Operands3(code, pc, w, v, u, Op(w)).Ok?
    ensures Form3(Operands3(code, pc, w, v, u, Op(w)).value, pc, w, v, u)
  {
    WordFields(w);
    FourRegsBack(u);
    KindBack(if Op(w) <= 0x72 then Op(w) else Op(w) - 6);
  }

  lemma Makes3(code: seq<Word>, pc: nat, w: Word, v: Word, u: Word)
    requires Size(Op(w)) == Some(3) && Operands3(code, pc, w, v, u, Op(w)).Ok?
    requires PayloadSpan(Operands3(code, pc, w, v, u, Op(w)).value) == None
    ensures Form3(Operands3(code, pc, w, v, u, Op(w)).value, pc, w, v, u)
  {
    var op := Op(w);
    WordFields(w);
    if op >= 0x6e {
      MakesInvoke(code, pc, w, v, u);
    } else if op == 0x2a {
      FarBranchExact(pc, Target(pc, Signed32(v, u)), v, u);
    } else {
      HalvesBack(v, u);
      UnsignedHalves(v, u);
    }
  }

  lemma QuartersOf(x: I64)
    ensures Signed64(Low(x), High(x), Low(x / 0x1_0000_0000), High(x / 0x1_0000_0000)) == x
  {
    var y, z := x / 0x1_0000_0000, x % 0x1_0000_0000;
    LowHalf(x, y, z);
    HalvesOf(y);
  }

  lemma LowHalf(x: int, y: int, z: int)
    requires x == 0x1_0000_0000 * y + z && 0 <= z < 0x1_0000_0000
    ensures Low(x) + 0x1_0000 * High(x) == z
  {
    assert x / 0x1_0000 == 0x1_0000 * y + z / 0x1_0000;
    assert x % 0x1_0000 == z % 0x1_0000;
  }

  lemma QuartersBack(w1: Word, w2: Word, w3: Word, w4: Word)
    ensures var x := Signed64(w1, w2, w3, w4);
      Low(x) == w1 && High(x) == w2 && Low(x / 0x1_0000_0000) == w3 && High(x / 0x1_0000_0000) == w4
  {
    var x := Signed64(w1, w2, w3, w4);
    var y, z: int := Signed32(w3, w4), w1 + 0x1_0000 * w2;
    assert x == 0x1_0000_0000 * y + z && 0 <= z < 0x1_0000_0000;
    assert x / 0x1_0000_0000 == y;
    HalvesBack(w3, w4);
    LowHalf(x, y, z);
    UnsignedHalves(w1, w2);
    assert x % 0x1_0000 == z % 0x1_0000;
  }

  // ---- the code as a whole ----

  /** The words stand in the code at an address. */
  predicate Holds(code: seq<Word>, pc: nat, ws: seq<Word>) {
    pc + |ws| <= |code| && code[pc..pc + |ws|] == ws
  }

  lemma HeldAt(code: seq<Word>, pc: nat, ws: seq<Word>, k: nat)
    requires Holds(code, pc, ws) && k < |ws|
    ensures pc + k < |code| && code[pc + k] == ws[k]
  {
    assert code[pc..pc + |ws|][k] == code[pc + k];
  }

  /** Every form of an instruction decodes to it, wherever in a program it stands. */
  lemma FormDecodes(code: seq<Word>, i: Insn, pc: nat, ws: seq<Word>)
    requires IsForm(i, pc, ws) && Holds(code, pc, ws)
    ensures PayloadSpan(i) == None && Decode(code, pc) == Ok((i, pc + |ws|))
  {
    HeldAt(code, pc, ws, 0);
    if |ws| == 1 {
      Reads1(i, pc, ws[0]);
    } else if |ws| == 2 {
      HeldAt(code, pc, ws, 1);
      Reads2(i, pc, ws[0], ws[1]);
    } else if |ws| == 3 {
      HeldAt(code, pc, ws, 1);
      HeldAt(code, pc, ws, 2);
      Reads3(code, i, pc, ws[0], ws[1], ws[2]);
    } else {
      WideDecodes(code, i, pc, ws);
    }
  }

  lemma WideDecodes(code: seq<Word>, i: Insn, pc: nat, ws: seq<Word>)
    requires |ws| == 5 && Form5(i, ws) && Holds(code, pc, ws)
    ensures Decode(code, pc) == Ok((i, pc + 5))
  {
    HeldAt(code, pc, ws, 0);
    HeldAt(code, pc, ws, 1);
    HeldAt(code, pc, ws, 2);
    HeldAt(code, pc, ws, 3);
    HeldAt(code, pc, ws, 4);
    assert ws[1..][0] == ws[1] && ws[1..][1] == ws[2] && ws[1..][2] == ws[3] && ws[1..][3] == ws[4];
    UnaryFields(0x18, i.d, ws[0]);
    QuartersOf(i.wide);
  }

  /** Whatever decodes stands there in one of its forms, unless it owns inline data. */
  lemma DecodedForm(code: seq<Word>, pc: nat)
    requires Decode(code, pc).Ok? && PayloadSpan(Decode(code, pc).value.0) == None
    ensures var (i, next) := Decode(code, pc).value; IsForm(i, pc, code[pc..next])
  {
    var (i, next) := Decode(code, pc).value;
    var w, ws := code[pc], code[pc..next];
    var size := Size(Op(w)).value;
    assert |ws| == size && ws[0] == w;
    if size == 1 {
      Makes1(pc, w);
    } else if size == 2 {
      assert ws[1] == code[pc + 1];
      Makes2(pc, w, ws[1]);
    } else if size == 3 {
      assert ws[1] == code[pc + 1] && ws[2] == code[pc + 2];
      Makes3(code, pc, w, ws[1], ws[2]);
    } else {
      WordFields(w);
      QuartersBack(code[pc + 1], code[pc + 2], code[pc + 3], code[pc + 4]);
    }
  }

  /** So decoding gives an instruction exactly where one of its forms stands. */
  lemma DecodeExact(code: seq<Word>, i: Insn, pc: nat, next: nat)
    requires PayloadSpan(i) == None
    ensures Decode(code, pc) == Ok((i, next)) <==> pc < next <= |code| && IsForm(i, pc, code[pc..next])
  {
    if Decode(code, pc) == Ok((i, next)) {
      DecodedForm(code, pc);
    }
    if pc < next <= |code| && IsForm(i, pc, code[pc..next]) {
      FormDecodes(code, i, pc, code[pc..next]);
    }
  }

  // ---- where the forms are not those of the instruction set ----

  /** move/16 names its destination in the second code unit and its source in the third. The
      code takes them the other way round, and eight bits of one of them: that is the same
      move exactly when both registers are the same and below 256. */
  lemma Move16Exchanged(code: seq<Word>, pc: nat, d: Word, s: Word)
    requires pc + 3 <= |code| && code[pc] % 256 in {0x03, 0x09} && code[pc + 1] == d && code[pc + 2] == s
    ensures Decode(code, pc) == Ok((Move(d, s), pc + 3)) <==> d == s < 256
  {
    FormDecodes(code, Move(s % 256, d), pc, code[pc..pc + 3]);
  }

  /** const-wide/32 stands for a signed number. The code does not extend the sign: that is
      the number exactly when it is not negative. */
  lemma ConstWide32Unsigned(code: seq<Word>, pc: nat, lit: I32)
    requires pc + 3 <= |code| && code[pc] % 256 == 0x17 && code[pc + 1] == Low(lit) && code[pc + 2] == High(lit)
    ensures Decode(code, pc) == Ok((ConstWide(code[pc] / 256, lit), pc + 3)) <==> lit >= 0
  {
    var wide := Low(lit) + 0x1_0000 * High(lit);
    WordFields(code[pc]);
    UnsignedHalves(Low(lit), High(lit));
    HalvesOf(lit);
    FormDecodes(code, ConstWide(code[pc] / 256, wide), pc, code[pc..pc + 3]);
  }
}
