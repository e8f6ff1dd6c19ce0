/** What single instructions do, stated by their effects and by how they undo or complete
    each other. */
module Instructions {
  import opened Wrappers
  import opened Seqs
  import opened Values
  import opened Heap
  import opened Decoder
  import opened Interpreter
  import opened Arithmetic

  // ---- registers ----

  /** The registers an instruction of this model may write. */
  predicate Writes(insn: Insn, r: nat) {
    match insn
    case Move(d, _) => r == d
    case MoveWide(d, _) => r == d || r == d + 1
    case MoveResult(d) => r == d
    case MoveException(d) => r == d
    case Const(d, _) => r == d
    case ConstHigh16(d, _) => r == d
    case ConstWide(d, _) => r == d
    case NewInstance(d, _) => r == d
    case IGet(d, _, _) => r == d
    case BinOp(_, d, _, _) => r == d
    case BinopLit(_, d, _, _) => r == d
    case FillArrayData(_, _, _) => true
    case Other(_, _) => true
    case _ => false
  }

  /** All other registers keep their values, and their number stays the same. */
  lemma OthersKept(p: Program, f: Frame, insn: Insn, next: nat, h: Store, b: nat, r: nat)
    requires !Writes(insn, r) && !insn.FillArrayData? && !insn.Other?
    ensures var g := Exec(p, f, insn, next, h, b).frame;
      |g.regs| == |f.regs| && (r < |f.regs| ==> g.regs[r] == f.regs[r])
  {
  }

  /** A move copies. A wide move copies its first half, and its second half exactly when the
      first write has not overwritten it with another value. */
  lemma MovesCopy(p: Program, f: Frame, d: nat, s: nat, next: nat, h: Store, b: nat)
    requires d + 1 < |f.regs| && s + 1 < |f.regs|
    ensures Exec(p, f, Move(d, s), next, h, b).frame.regs[d] == f.regs[s]
    ensures var g := Exec(p, f, MoveWide(d, s), next, h, b).frame;
      && g.regs[d] == f.regs[s]
      && (g.regs[d + 1] == f.regs[s + 1] <==> d != s + 1 || f.regs[s] == f.regs[s + 1])
  {
  }

  /** A constant is sign-extended by its format alone and written as it is; a result or a
      caught exception is taken over, the exception only once. A register that the frame does
      not have is an error. */
  lemma Loads(p: Program, f: Frame, d: nat, lit: I32, wide: I64, next: nat, h: Store, b: nat)
    ensures Written(f, d, Int(lit), next, h, b, Exec(p, f, Const(d, lit), next, h, b))
    ensures Written(f, d, Long(wide), next, h, b, Exec(p, f, ConstWide(d, wide), next, h, b))
    ensures Written(f, d, f.result, next, h, b, Exec(p, f, MoveResult(d), next, h, b))
    ensures var caught := if f.pending == None then Null else f.pending.value;
      Written(f.(pending := None), d, caught, next, h, b, Exec(p, f, MoveException(d), next, h, b))
  {
  }

  predicate Written(f: Frame, d: nat, v: JValue, next: nat, h: Store, b: nat, s: Stepped) {
    && s.store == h && s.left == b
    && if d < |f.regs| then
         && s.flow == Next(next)
         && s.frame == Frame(f.body, f.dex, f.code, f.tries, s.frame.regs, f.pc, f.errPc, f.result, f.pending)
         && |s.frame.regs| == |f.regs|
         && forall r :: 0 <= r < |f.regs| ==> s.frame.regs[r] == if r == d then v else f.regs[r]
       else s.frame == f && s.flow == Fail(Panic)
  }

  /** A field access on an object reads or writes the field's slot. It ends the run when the
      class of the object does not have the field, and as a panic when the object does not
      exist, has too few slots, or the register to write is missing. */
  lemma FieldRead(p: Program, f: Frame, d: nat, obj: nat, field: nat, next: nat, h: Store, b: nat, id: nat)
    requires obj < |f.regs| && f.regs[obj] == Obj(id)
    ensures var s := Exec(p, f, IGet(d, obj, field), next, h, b);
      if id >= |h.objects| then s.flow == Fail(Panic)
      else
        var o, off := h.objects[id], p.fieldOf(f.dex, field, h.objects[id].cls);
        && (s.flow == Fail(Unresolved) <==> off == None)
        && (s.flow == Next(next) <==> off.Some? && off.value < |o.fields| && d < |f.regs|)
        && (s.flow == Next(next) ==> Written(f, d, o.fields[off.value], next, h, b, s))
        && (s.flow != Next(next) ==> s.flow in [Fail(Unresolved), Fail(Panic)])
  {
  }

  /** The exception class that a descriptor stands for; class 0 when there is none. */
  function ClassOr0(p: Program, desc: string): nat {
    match p.classByDesc(desc)
    case Some(c) => c
    case None => 0
  }

  // ---- arithmetic ----

  /** The result of an operation on the values of registers a and c, in this order, is written;
      a division by zero, and operands that are not of one width, raise an
      ArithmeticException with the text of the case. */
  lemma BinOpDoes(p: Program, f: Frame, op: Binop, d: nat, a: nat, c: nat, next: nat, h: Store, b: nat)
    requires d < |f.regs| && a < |f.regs| && c < |f.regs|
    ensures var s := Exec(p, f, BinOp(op, d, a, c), next, h, b);
      match Compute(op, f.regs[a], f.regs[c])
      case Value(v) => s == Stepped(f.(regs := f.regs[d := v]), h, b, Next(next))
      case DivideByZero => RaisesArithmetic(p, f, h, b, s, "/ by zero")
      case BadOperands => RaisesArithmetic(p, f, h, b, s, "bad binop operands")
  {
  }

  predicate RaisesArithmetic(p: Program, f: Frame, h: Store, b: nat, s: Stepped, text: string) {
    && s.frame == f && s.left == b && s.flow == Raise(Obj(h.Slot(0)))
    && s.store == h.Alloc(JObject(ClassOr0(p, "Ljava/lang/ArithmeticException;"), [], Some(Throwable(text, Null))))
  }

  /** With a literal, the literal is the second operand; in the reversed subtraction the first. */
  lemma LiteralDoes(p: Program, f: Frame, lop: LitOp, d: nat, a: nat, lit: I32, next: nat, h: Store, b: nat)
    requires d < |f.regs| && a < |f.regs|
    ensures var s := Exec(p, f, BinopLit(lop, d, a, lit), next, h, b);
      match (match lop case Bin(op) => Compute(op, f.regs[a], Int(lit)) case Rsub => Compute(Sub, Int(lit), f.regs[a]))
      case Value(v) => s == Stepped(f.(regs := f.regs[d := v]), h, b, Next(next))
      case DivideByZero => RaisesArithmetic(p, f, h, b, s, "/ by zero")
      case BadOperands => RaisesArithmetic(p, f, h, b, s, "bad binop operands")
  {
  }

  // ---- branches ----

  /** A test of two ints, from the numbers themselves. */
  lemma IntBranch(p: Program, f: Frame, op: IfOp, a: nat, c: nat, t: nat, next: nat, h: Store, b: nat,
                  x: I32, y: I32)
    requires a < |f.regs| && c < |f.regs| && f.regs[a] == Int(x) && f.regs[c] == Int(y)
    ensures var taken := match op
              case Eq => x == y
              case Ne => x != y
              case Lt => x < y
              case Ge => x >= y
              case Gt => x > y
              case Le => x <= y;
      Exec(p, f, If(op, a, c, t), next, h, b) == Stepped(f, h, b, if taken then Jump(t) else Next(next))
  {
  }

  /** A test of an int with zero. */
  lemma IntBranchZero(p: Program, f: Frame, op: IfOp, a: nat, t: nat, next: nat, h: Store, b: nat, x: I32)
    requires a < |f.regs| && f.regs[a] == Int(x)
    ensures var taken := match op
              case Eq => x == 0
              case Ne => x != 0
              case Lt => x < 0
              case Ge => x >= 0
              case Gt => x > 0
              case Le => x <= 0;
      Exec(p, f, IfZ(op, a, t), next, h, b) == Stepped(f, h, b, if taken then Jump(t) else Next(next))
  {
  }

  /** On references, equality is identity, and only null is zero; the ordered tests fail. */
  lemma ObjectBranch(p: Program, f: Frame, op: IfOp, a: nat, c: nat, t: nat, next: nat, h: Store, b: nat,
                     x: nat, y: JValue)
    requires a < |f.regs| && c < |f.regs| && f.regs[a] == Obj(x) && f.regs[c] == y && (y.Obj? || y == Null)
    ensures Exec(p, f, If(op, a, c, t), next, h, b).flow
         == if (op == Eq && y == Obj(x)) || (op == Ne && y != Obj(x)) then Jump(t) else Next(next)
    ensures Exec(p, f, IfZ(op, c, t), next, h, b).flow
         == if (op == Eq && y == Null) || (op == Ne && y != Null) then Jump(t) else Next(next)
  {
  }

  /** A switch goes to the target of the entry it finds, otherwise on. */
  lemma SwitchGoes(p: Program, f: Frame, insn: Insn, next: nat, h: Store, b: nat, x: I32)
    requires insn.PackedSwitch? || (insn.SparseSwitch? && |insn.keys| <= |insn.targets|)
    requires insn.d < |f.regs| && f.regs[insn.d] == Int(x)
    ensures var i := SwitchEntry(insn, x);
      Exec(p, f, insn, next, h, b)
      == Stepped(f, h, b, if i.None? then Next(next)
                          else
                            var target: int := insn.targets[i.value];
                            Jump(if target >= 0 then target else target + 0x1_0000_0000_0000_0000))
  {
  }

  /** The tests come in complementary pairs, the ordered ones on ints. */
  lemma TestsComplement(a: JValue, b: JValue)
    ensures Compares(Eq, a, b) <==> !Compares(Ne, a, b)
    ensures ComparesZero(Eq, a) <==> !ComparesZero(Ne, a)
    ensures a.Int? && b.Int? ==> (Compares(Lt, a, b) <==> !Compares(Ge, a, b))
    ensures a.Int? && b.Int? ==> (Compares(Gt, a, b) <==> !Compares(Le, a, b))
    ensures a.Int? && b.Int? ==> (Compares(Lt, a, b) <==> Compares(Gt, b, a))
    ensures a.Int? ==> forall op :: ComparesZero(op, a) <==> Compares(op, a, Int(0))
  {
  }

  /** A packed switch takes entry i exactly for the key that lies i after the first one, in
      wrapping arithmetic. */
  lemma PackedHits(insn: Insn, v: I32, i: nat)
    requires insn.PackedSwitch? && |insn.targets| <= 0x1_0000
    ensures SwitchEntry(insn, v) == Some(i) <==> i < |insn.targets| && v == Wrap32(insn.first + i)
  {
  }

  predicate Ascending(keys: seq<I32>, lo: nat, hi: nat)
    requires hi <= |keys|
  {
    forall i, j :: lo <= i < j < hi ==> keys[i] < keys[j]
  }

  /** Among ascending keys the search ends at the key that is looked for. */
  lemma {:induction false} NarrowFinds(keys: seq<I32>, base: nat, size: nat, k: nat)
    requires base <= k < base + size <= |keys| && Ascending(keys, base, base + size)
    ensures Narrow(keys, keys[k], base, size) == k
    decreases size
  {
    if size > 1 {
      var mid := base + size / 2;
      NarrowFinds(keys, if k < mid then base else mid, size - size / 2, k);
    }
  }

  /** A key found at its own index is on the side of the middle where the search goes on. */
  lemma NarrowSide(keys: seq<I32>, base: nat, size: nat, k: nat)
    requires base <= k < base + size <= |keys| && size > 1
    requires Narrow(keys, keys[k], base, size) == k
    ensures var half := size / 2;
      && (keys[base + half] > keys[k] <==> k < base + half)
      && Narrow(keys, keys[k], if k < base + half then base else base + half, size - half) == k
  {
  }

  /** Conversely, two keys that are found at their own indices are in order. */
  lemma {:induction false} FoundOrdered(keys: seq<I32>, base: nat, size: nat, i: nat, j: nat)
    requires base <= i < j < base + size <= |keys|
    requires Narrow(keys, keys[i], base, size) == i && Narrow(keys, keys[j], base, size) == j
    ensures keys[i] < keys[j]
    decreases size
  {
    var mid := base + size / 2;
    NarrowSide(keys, base, size, i);
    NarrowSide(keys, base, size, j);
    if j < mid {
      FoundOrdered(keys, base, size - size / 2, i, j);
    } else if i >= mid {
      FoundOrdered(keys, mid, size - size / 2, i, j);
    }
  }

  /** Every key of a sparse switch leads to its own entry exactly when the keys are strictly
      ascending; the decoder does not check that. */
  lemma SparseReaches(insn: Insn)
    requires insn.SparseSwitch?
    ensures (forall i: nat :: i < |insn.keys| ==> SwitchEntry(insn, insn.keys[i]) == Some(i))
       <==> Ascending(insn.keys, 0, |insn.keys|)
  {
    var keys := insn.keys;
    if keys != [] {
      if Ascending(keys, 0, |keys|) {
        forall i: nat | i < |keys|
          ensures SwitchEntry(insn, keys[i]) == Some(i)
        {
          NarrowFinds(keys, 0, |keys|, i);
        }
      }
      if forall i: nat :: i < |keys| ==> SwitchEntry(insn, keys[i]) == Some(i) {
        forall i, j | 0 <= i < j < |keys|
          ensures keys[i] < keys[j]
        {
          assert SwitchEntry(insn, keys[i]) == Some(i) && SwitchEntry(insn, keys[j]) == Some(j);
          FoundOrdered(keys, 0, |keys|, i, j);
        }
      }
    }
  }

  /** With ascending keys, as the format asks for, entry i is taken exactly for key i. */
  lemma SparseHits(insn: Insn, v: I32, i: nat)
    requires insn.SparseSwitch? && Ascending(insn.keys, 0, |insn.keys|)
    ensures SwitchEntry(insn, v) == Some(i) <==> i < |insn.keys| && insn.keys[i] == v
  {
    if i < |insn.keys| && insn.keys[i] == v {
      NarrowFinds(insn.keys, 0, |insn.keys|, i);
    }
  }

  /** Two keys out of order: the larger one is missed. */
  lemma SparseMisses(insn: Insn)
    requires insn.SparseSwitch? && insn.keys == [5, 3]
    ensures SwitchEntry(insn, 5) == None && SwitchEntry(insn, 3) == Some(1)
  {
  }

  // ---- objects ----

  /** new-instance makes an object of the class, with null fields, in a slot that was not
      live; no live object changes. The new object is live if no slot is free twice. */
  lemma InstanceIsNew(p: Program, f: Frame, d: nat, ty: nat, next: nat, h: Store, b: nat)
    requires d < |f.regs| && p.classOf(f.dex, ty).Some?
    ensures var s := Exec(p, f, NewInstance(d, ty), next, h, b);
      var cls := p.classOf(f.dex, ty).value;
      && s.flow == Next(next)
      && s.frame.regs[d].Obj?
      && !h.Arena().Live(s.frame.regs[d].id) && s.frame.regs[d].id < |s.store.objects|
      && (Distinct(h.free) ==> s.store.Arena().Live(s.frame.regs[d].id))
      && s.store.objects[s.frame.regs[d].id] == JObject(cls, Nulls(p.slots(cls)), None)
      && Extends(h.Arena(), s.store.Arena())
  {
    var cls := p.classOf(f.dex, ty).value;
    AllocExtends(h.Arena(), JObject(cls, Nulls(p.slots(cls)), None));
  }

  /** A field access without an object raises a new NullPointerException and changes nothing
      that is live. */
  lemma NullAccess(p: Program, f: Frame, obj: nat, x: nat, field: nat, isObj: bool, next: nat,
                   h: Store, b: nat)
    requires obj < |f.regs| && !f.regs[obj].Obj?
    ensures var get := Exec(p, f, IGet(x, obj, field), next, h, b);
      var put := Exec(p, f, IPut(x, obj, field, isObj), next, h, b);
      && get == put
      && h.Slot(0) < |get.store.objects|
      && get.store.objects[h.Slot(0)]
         == JObject(ClassOr0(p, "Ljava/lang/NullPointerException;"), [], Some(Throwable("", Null)))
      && get.flow == Raise(Obj(h.Slot(0)))
      && get.frame == f && get.left == b
      && !h.Arena().Live(h.Slot(0)) && Extends(h.Arena(), get.store.Arena())
      && (Distinct(h.free) ==> get.store.Arena().Live(h.Slot(0)))
  {
    var cls := p.classByDesc(NPE);
    AllocExtends(h.Arena(), JObject(if cls.Some? then cls.value else 0, [], Some(Throwable("", Null))));
  }

  /** A throw of a null reference and an instance call on one raise the same exception as a
      field access; any other value that is thrown is raised itself. */
  lemma NullRaises(p: Program, f: Frame, obj: nat, next: nat, h: Store, b: nat,
                   kind: InvokeKind, callee: nat, args: Args)
    requires obj < |f.regs|
    ensures f.regs[obj] in [Null, Int(0)] ==>
      Exec(p, f, Throw(obj), next, h, b) == Exec(p, f, IGet(0, obj, 0), next, h, b)
    ensures f.regs[obj] !in [Null, Int(0)] ==>
      Exec(p, f, Throw(obj), next, h, b) == Stepped(f, h, b, Raise(f.regs[obj]))
    ensures (f.regs[obj] in [Null, Int(0)] && kind != Static && p.methodRef(f.dex, callee).Some?
             && args.RegAt(0) == Some(obj)) ==>
      Exec(p, f, Invoke(kind, callee, args), next, h, b) == Exec(p, f, IGet(0, obj, 0), next, h, b)
  {
  }

  /** The value an object field keeps: null for a null reference, the value itself when its
      class takes no box. */
  predicate Plain(p: Program, f: Frame, field: nat, isObj: bool, v: JValue) {
    isObj ==> !v.IsNullRef() && BoxOf(p.fieldDesc(f.dex, field), v).None?
  }

  /** iget after iput finds what was put; every other field and object is as before. */
  lemma PutThenGet(p: Program, f: Frame, src: nat, obj: nat, field: nat, isObj: bool, next: nat,
                   d: nat, h: Store, b: nat)
    requires src < |f.regs| && obj < |f.regs| && d < |f.regs| && f.regs[obj].Obj?
    requires FieldSlot(p, f, h, f.regs[obj].id, field).Ok?
    requires Plain(p, f, field, isObj, f.regs[src])
    ensures var id := f.regs[obj].id;
      var slot := FieldSlot(p, f, h, id, field).value;
      var put := Exec(p, f, IPut(src, obj, field, isObj), next, h, b);
      && put.flow == Next(next) && put.frame == f
      && |put.store.objects| == |h.objects| && put.store.free == h.free && put.store.tables == h.tables
      && (forall i :: 0 <= i < |h.objects| && i != id ==> put.store.objects[i] == h.objects[i])
      && (forall i :: 0 <= i < |h.objects[id].fields| && i != slot
            ==> put.store.objects[id].fields[i] == h.objects[id].fields[i])
      && Exec(p, f, IGet(d, obj, field), next, put.store, b).frame.regs[d] == f.regs[src]
  {
  }

  /** The box of a primitive value for a field of a wrapper class: the bits of the wrapper's
      width, a boolean by whether the int is zero; none for any other class. */
  predicate Boxes(desc: string, v: JValue, box: Native) {
    match v
    case Int(i) =>
      || (desc == "Ljava/lang/Integer;" && box == IntBox(i))
      || (desc == "Ljava/lang/Boolean;" && box == BoolBox(i != 0))
      || (desc == "Ljava/lang/Character;" && box.CharBox? && box.c < 0x1_0000 && (i - box.c) % 0x1_0000 == 0)
      || (desc == "Ljava/lang/Byte;" && box.ByteBox? && -0x80 <= box.i < 0x80 && (i - box.i) % 0x100 == 0)
      || (desc == "Ljava/lang/Short;" && box.ShortBox? && -0x8000 <= box.i < 0x8000 && (i - box.i) % 0x1_0000 == 0)
    case Long(l) => desc == "Ljava/lang/Long;" && box == LongBox(l)
    case _ => false
  }

  /** A primitive value put into an object field of its wrapper class is boxed: the field names
      a new object of that class with that box, and nothing else that is live changes. */
  lemma BoxedPut(p: Program, f: Frame, src: nat, obj: nat, field: nat, next: nat, h: Store, b: nat, box: Native,
                 cls: nat)
    requires src < |f.regs| && obj < |f.regs| && f.regs[obj].Obj? && f.regs[src] != Int(0)
    requires FieldSlot(p, f, h, f.regs[obj].id, field).Ok? && h.Arena().Live(f.regs[obj].id)
    requires Boxes(p.fieldDesc(f.dex, field), f.regs[src], box) && p.classByDesc(p.fieldDesc(f.dex, field)) == Some(cls)
    ensures var id, made := f.regs[obj].id, h.Slot(0);
      var slot := FieldSlot(p, f, h, id, field).value;
      var s := Exec(p, f, IPut(src, obj, field, true), next, h, b);
      && s.flow == Next(next) && s.frame == f
      && !h.Arena().Live(made) && id < |s.store.objects| && made < |s.store.objects|
      && s.store.objects[id]
         == JObject(h.objects[id].cls, h.objects[id].fields[slot := Obj(made)], h.objects[id].native)
      && s.store.objects[made] == JObject(cls, [], Some(box))
      && forall i: nat :: h.Arena().Live(i) && i != id ==> i < |s.store.objects| && s.store.objects[i] == h.objects[i]
  {
    var id, slot := f.regs[obj].id, FieldSlot(p, f, h, f.regs[obj].id, field).value;
    BoxIs(p.fieldDesc(f.dex, field), f.regs[src], box);
    AllocExtends(h.Arena(), JObject(cls, [], Some(box)));
    var g := h.Alloc(JObject(cls, [], Some(box)));
    assert g.objects[id] == h.objects[id] && id != h.Slot(0);
    assert Exec(p, f, IPut(src, obj, field, true), next, h, b)
        == Stepped(f, StoreField(g, id, slot, Obj(h.Slot(0))), b, Next(next));
  }

  lemma BoxIs(desc: string, v: JValue, box: Native)
    requires Boxes(desc, v, box)
    ensures BoxOf(desc, v) == Some(box)
  {
    if v.Int? {
      Representative(v.i, if box.CharBox? then box.c else 0, 0x1_0000, 0);
      Representative(v.i, if box.ByteBox? then box.i else 0, 0x100, 0x80);
      Representative(v.i, if box.ShortBox? then box.i else 0, 0x1_0000, 0x8000);
    }
  }

  /** The one number of a residue class in a range. */
  lemma Representative(x: int, r: int, m: nat, low: nat)
    requires m in {0x100, 0x1_0000}
    ensures -(low as int) <= r < m - low && (x - r) % m == 0 ==> (x + low) % m - low == r
  {
  }

  /** A null reference is stored as null, also when the register holds the integer zero. */
  lemma PutNull(p: Program, f: Frame, src: nat, obj: nat, field: nat, next: nat, d: nat,
                h: Store, b: nat)
    requires src < |f.regs| && obj < |f.regs| && d < |f.regs| && f.regs[obj].Obj?
    requires FieldSlot(p, f, h, f.regs[obj].id, field).Ok? && f.regs[src].IsNullRef()
    ensures var put := Exec(p, f, IPut(src, obj, field, true), next, h, b);
      Exec(p, f, IGet(d, obj, field), next, put.store, b).frame.regs[d] == Null
  {
  }
}
