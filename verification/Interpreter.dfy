/** The interpreter as a transition system: frames, one instruction, calls, and the search
    for a handler. */
module Interpreter {
  import opened Wrappers
  import opened Values
  import opened Heap
  import opened Decoder
  import opened CodeIndex
  import opened Arithmetic

  // ---- the state a run changes ----

  /** What the machine keeps outside the arena: static fields, held monitors, pooled and
      interned strings, and how far each class is initialized. */
  datatype Tables = Tables(statics: seq<seq<JValue>>, monitors: map<nat, nat>,
                           pooled: map<(nat, nat), nat>, interned: map<string, nat>, initialized: seq<nat>)

  datatype Memory = Memory(objects: seq<JObject>, free: seq<nat>, tables: Tables) {

    function Arena(): State {
      State(objects, free)
    }

    predicate InRange() {
      Arena().InRange()
    }

    function Slot(k: nat): nat {
      Arena().Slot(k)
    }

    function Alloc(o: JObject): Memory
      requires InRange()
    {
      var g := Arena().Alloc(o);
      Memory(g.objects, g.free, tables)
    }
  }

  /** A memory whose free list names slots. */
  type Store = h: Memory | h.InRange() witness Memory([], [], Tables([], map[], map[], map[], []))

  /** An index as the linear sweep leaves it. */
  type Code = d: Decoded | d.Parallel() && Increasing(d.units) witness Decoded([], [], [], 0)

  // ---- programs ----

  datatype Handler = Handler(ty: nat, addr: nat)

  datatype TryItem = TryItem(start: nat, count: nat, handlers: seq<Handler>, catchAll: Option<nat>) {

    predicate Covers(addr: nat) {
      start <= addr < start + count
    }
  }

  /** A method with code: the dex its ids refer to, register counts, parameters. */
  datatype Body = Body(dex: nat, registers: nat, ins: nat, params: seq<string>, code: Code,
                       tries: seq<TryItem>)

  datatype MethodRef = MethodRef(params: seq<string>, isInit: bool)

  datatype Target = Host(native: nat) | Bytecode(body: nat)

  /** `Fault` is an error that ends the run; `Panic` stands for the checks of the host
      language: an index out of range, a value of the wrong variant. */
  datatype Failure =
    | OutOfBudget
    | PastEndOfCode
    | Unresolved
    | NoPendingException
    | Fault(code: nat)
    | Panic

  datatype Resolution = Resolved(target: Target, store: Store, left: nat)
                      | ResolveFailed(store: Store, left: nat)

  datatype HostResult = HostOk(v: JValue, store: Store, left: nat)
                      | HostThrow(ex: nat, store: Store, left: nat)
                      | HostFatal(code: nat, store: Store, left: nat)

  datatype OtherResult = OtherNext(regs: seq<JValue>, result: JValue, store: Store, left: nat)
                       | OtherThrow(ex: JValue, store: Store, left: nat)
                       | OtherFatal(code: nat, store: Store, left: nat)

  /** What a run depends on and does not change: the methods, and everything outside the
      engine. Host methods, resolution (which may initialize a class) and the instructions
      not spelled out here are arbitrary; they may change the heap and the tables, and run
      bytecode of their own, which uses up budget. */
  datatype Program = Program(
    bodies: seq<Body>,
    methodRef: (nat, nat) -> Option<MethodRef>,
    resolve: (InvokeKind, nat, nat, nat, Option<nat>, Store, nat) -> Resolution,
    host: (nat, seq<JValue>, Store, nat) -> HostResult,
    other: (Insn, nat, seq<JValue>, JValue, Store, nat) -> OtherResult,
    classOf: (nat, nat) -> Option<nat>,
    classByDesc: string -> Option<nat>,
    slots: nat -> nat,
    fieldOf: (nat, nat, nat) -> Option<nat>,
    fieldDesc: (nat, nat) -> string,
    assignable: (nat, nat) -> Option<bool>)

  /** Nothing outside the engine adds to the budget. */
  function Clip(left: nat, budget: nat): (r: nat)
    ensures r <= budget
  {
    if left <= budget then left else budget
  }

  // ---- frames ----

  datatype Frame = Frame(body: nat, dex: nat, code: Code, tries: seq<TryItem>, regs: seq<JValue>,
                         pc: nat, errPc: nat, result: JValue, pending: Option<JValue>) {

    function Reg(i: nat): Option<JValue> {
      if i < |regs| then Some(regs[i]) else None
    }
  }

  /** The arguments are the last registers of a frame; surplus arguments are dropped. None
      when there are fewer registers than incoming words. */
  function MakeRegs(args: seq<JValue>, ins: nat, registers: nat): (r: Option<seq<JValue>>)
    ensures r.Some? <==> ins <= registers
    ensures r.Some? ==> |r.value| == registers
  {
    if ins > registers then None
    else
      var kept := if |args| < ins then args else args[..ins];
      Some(Nulls(registers - ins) + kept + Nulls(ins - |kept|))
  }

  function Nulls(n: nat): (r: seq<JValue>)
    ensures |r| == n
    ensures forall i :: 0 <= i < n ==> r[i] == Null
  {
    if n == 0 then [] else Nulls(n - 1) + [Null]
  }

  function NewFrame(p: Program, body: nat, args: seq<JValue>): Option<Frame> {
    if body >= |p.bodies| then None
    else
      var b := p.bodies[body];
      var regs := MakeRegs(args, b.ins, b.registers);
      if regs.None? then None
      else Some(Frame(body, b.dex, b.code, b.tries, regs.value, 0, 0, Null, None))
  }

  // ---- arguments of a call ----

  predicate IsWide(desc: string) {
    desc == "J" || desc == "D"
  }

  /** Registers a parameter takes. */
  function Width(desc: string): nat {
    if IsWide(desc) then 2 else 1
  }

  /** The register that holds the i-th argument word. */
  function ArgWord(regs: seq<JValue>, args: Args, i: nat): Option<JValue> {
    var r := args.RegAt(i);
    if r.Some? && r.value < |regs| then Some(regs[r.value]) else None
  }

  /** The arguments of a host method: one value for each parameter. */
  function HostArgs(regs: seq<JValue>, args: Args, i: nat, params: seq<string>): Option<seq<JValue>>
    decreases |params|
  {
    if params == [] then Some([])
    else
      var v := ArgWord(regs, args, i);
      var rest := HostArgs(regs, args, i + Width(params[0]), params[1..]);
      if v.None? || rest.None? then None else Some([v.value] + rest.value)
  }

  /** The arguments of a bytecode method: wide values twice, so that they fill the two
      registers of the callee. */
  function CodeArgs(regs: seq<JValue>, args: Args, i: nat, params: seq<string>): Option<seq<JValue>>
    decreases |params|
  {
    if params == [] then Some([])
    else
      var v := ArgWord(regs, args, i);
      var rest := CodeArgs(regs, args, i + Width(params[0]), params[1..]);
      if v.None? || rest.None? then None
      else if IsWide(params[0]) then Some([v.value, v.value] + rest.value)
      else Some([v.value] + rest.value)
  }

  // ---- one instruction ----

  datatype Flow =
    | Next(pc: nat)
    | Jump(pc: nat)
    | Ret(v: JValue)
    | Call(isStatic: bool, ref: MethodRef, target: Target, args: Args, retPc: nat)
    | Raise(ex: JValue)
    | Fail(why: Failure)

  datatype Stepped = Stepped(frame: Frame, store: Store, left: nat, flow: Flow)

  /** A new exception object of a class given by descriptor; a class that cannot be found
      is replaced by class 0. */
  function Throwing(p: Program, f: Frame, h: Store, b: nat, desc: string, message: string): Stepped {
    var cls := p.classByDesc(desc);
    var o := JObject(if cls.Some? then cls.value else 0, [], Some(Throwable(message, Null)));
    Stepped(f, h.Alloc(o), b, Raise(Obj(h.Slot(0))))
  }

  const NPE := "Ljava/lang/NullPointerException;"
  const ARITHMETIC := "Ljava/lang/ArithmeticException;"

  function ThrowNpe(p: Program, f: Frame, h: Store, b: nat): Stepped {
    Throwing(p, f, h, b, NPE, "")
  }

  function Panicked(f: Frame, h: Store, b: nat): Stepped {
    Stepped(f, h, b, Fail(Panic))
  }

  function Failing(f: Frame, h: Store, b: nat, why: Failure): Stepped {
    Stepped(f, h, b, Fail(why))
  }

  function Write(f: Frame, d: nat, v: JValue, next: nat, h: Store, b: nat): Stepped {
    if d < |f.regs| then Stepped(f.(regs := f.regs[d := v]), h, b, Next(next))
    else Panicked(f, h, b)
  }

  /** `as_int`: null counts as zero. */
  function AsInt(v: JValue): Option<I32> {
    match v
    case Int(i) => Some(i)
    case Null => Some(0)
    case _ => None
  }

  /** A switch target, as an address: negative values become far too large ones. */
  function AsAddress(t: I32): nat {
    if t >= 0 then t else t + 0x1_0000_0000_0000_0000
  }

  /** The binary search of the host library: halves the range until one entry is left; an
      entry equal to the key stays in the upper half. */
  function Narrow(keys: seq<I32>, v: I32, base: nat, size: nat): (i: nat)
    requires 0 < size && base + size <= |keys|
    ensures base <= i < base + size
    decreases size
  {
    if size == 1 then base
    else
      var mid := base + size / 2;
      Narrow(keys, v, if keys[mid] > v then base else mid, size - size / 2)
  }

  function FindKey(keys: seq<I32>, v: I32): (r: Option<nat>)
    ensures r.Some? ==> r.value < |keys| && keys[r.value] == v
  {
    if keys == [] then None
    else
      var i := Narrow(keys, v, 0, |keys|);
      if keys[i] == v then Some(i) else None
  }

  predicate Compares(op: IfOp, a: JValue, b: JValue) {
    match op
    case Eq => a == b
    case Ne => a != b
    case Lt => a.Int? && b.Int? && a.i < b.i
    case Ge => a.Int? && b.Int? && a.i >= b.i
    case Gt => a.Int? && b.Int? && a.i > b.i
    case Le => a.Int? && b.Int? && a.i <= b.i
  }

  predicate IsZero(v: JValue) {
    v == Int(0) || v == Long(0) || v == Null
  }

  predicate ComparesZero(op: IfOp, v: JValue) {
    match op
    case Eq => IsZero(v)
    case Ne => !IsZero(v)
    case Lt => v.Int? && v.i < 0
    case Ge => v.Int? && v.i >= 0
    case Gt => v.Int? && v.i > 0
    case Le => v.Int? && v.i <= 0
  }

  function ExecMoveWide(f: Frame, d: nat, s: nat, next: nat, h: Store, b: nat): Stepped {
    if d + 1 < |f.regs| && s + 1 < |f.regs|
    then
      var first := f.regs[d := f.regs[s]];
      Stepped(f.(regs := first[d + 1 := first[s + 1]]), h, b, Next(next))
    else Panicked(f, h, b)
  }

  /** The entry of a switch for a value. In a packed switch the difference to the first
      key wraps; in a sparse switch the keys are searched as if they were in order. */
  function SwitchEntry(insn: Insn, v: I32): (r: Option<nat>)
    requires insn.PackedSwitch? || insn.SparseSwitch?
  {
    if insn.PackedSwitch? then
      var i := Wrap32(v - insn.first);
      if 0 <= i < |insn.targets| then Some(i) else None
    else FindKey(insn.keys, v)
  }

  function ExecSwitch(f: Frame, insn: Insn, next: nat, h: Store, b: nat): Stepped
    requires insn.PackedSwitch? || insn.SparseSwitch?
  {
    if insn.d >= |f.regs| || AsInt(f.regs[insn.d]).None? then Panicked(f, h, b)
    else
      var i := SwitchEntry(insn, AsInt(f.regs[insn.d]).value);
      if i.None? then Stepped(f, h, b, Next(next))
      else if i.value < |insn.targets| then Stepped(f, h, b, Jump(AsAddress(insn.targets[i.value])))
      else Panicked(f, h, b)
  }

  function ExecNewInstance(p: Program, f: Frame, d: nat, ty: nat, next: nat, h: Store, b: nat): Stepped {
    var cls := p.classOf(f.dex, ty);
    if cls.None? then Failing(f, h, b, Unresolved)
    else
      var o := JObject(cls.value, Nulls(p.slots(cls.value)), None);
      Write(f, d, Obj(h.Slot(0)), next, h.Alloc(o), b)
  }

  /** The field slot an access names, in the class of the object at hand. */
  function FieldSlot(p: Program, f: Frame, h: Store, id: nat, field: nat): Result<nat, Failure> {
    if id >= |h.objects| then Err(Panic)
    else
      var off := p.fieldOf(f.dex, field, h.objects[id].cls);
      if off.None? then Err(Unresolved)
      else if off.value >= |h.objects[id].fields| then Err(Panic)
      else Ok(off.value)
  }

  function ExecIGet(p: Program, f: Frame, d: nat, obj: nat, field: nat, next: nat, h: Store, b: nat): Stepped {
    if obj >= |f.regs| then Panicked(f, h, b)
    else if !f.regs[obj].Obj? then ThrowNpe(p, f, h, b)
    else
      var id := f.regs[obj].id;
      var slot := FieldSlot(p, f, h, id, field);
      if slot.Err? then Failing(f, h, b, slot.error)
      else Write(f, d, h.objects[id].fields[slot.value], next, h, b)
  }

  /** The box that an object field of a wrapper class gets for a primitive value. */
  function BoxOf(desc: string, v: JValue): Option<Native> {
    match v
    case Int(i) =>
      if desc == "Ljava/lang/Integer;" then Some(IntBox(i))
      else if desc == "Ljava/lang/Boolean;" then Some(BoolBox(i != 0))
      else if desc == "Ljava/lang/Character;" then Some(CharBox(i % 0x1_0000))
      else if desc == "Ljava/lang/Byte;" then Some(ByteBox((i + 128) % 256 - 128))
      else if desc == "Ljava/lang/Short;" then Some(ShortBox((i + 0x8000) % 0x1_0000 - 0x8000))
      else None
    case Long(l) => if desc == "Ljava/lang/Long;" then Some(LongBox(l)) else None
    case _ => None
  }

  function StoreField(h: Store, id: nat, slot: nat, v: JValue): Store
    requires id < |h.objects| && slot < |h.objects[id].fields|
  {
    var o := h.objects[id];
    h.(objects := h.objects[id := o.(fields := o.fields[slot := v])])
  }

  function ExecIPut(p: Program, f: Frame, src: nat, obj: nat, field: nat, isObj: bool, next: nat, h: Store, b: nat)
    : Stepped
  {
    if obj >= |f.regs| then Panicked(f, h, b)
    else if !f.regs[obj].Obj? then ThrowNpe(p, f, h, b)
    else
      var id := f.regs[obj].id;
      var slot := FieldSlot(p, f, h, id, field);
      if slot.Err? then Failing(f, h, b, slot.error)
      else if src >= |f.regs| then Panicked(f, h, b)
      else
        var v := f.regs[src];
        var desc := p.fieldDesc(f.dex, field);
        if isObj && v.IsNullRef() then Stepped(f, StoreField(h, id, slot.value, Null), b, Next(next))
        else if isObj && BoxOf(desc, v).Some? then
          var cls := p.classByDesc(desc);
          if cls.None? then Failing(f, h, b, Unresolved)
          else
            var g := h.Alloc(JObject(cls.value, [], BoxOf(desc, v)));
            if slot.value < |g.objects[id].fields|
            then Stepped(f, StoreField(g, id, slot.value, Obj(h.Slot(0))), b, Next(next))
            else Panicked(f, g, b)
        else Stepped(f, StoreField(h, id, slot.value, v), b, Next(next))
  }

  function ExecInvoke(p: Program, f: Frame, kind: InvokeKind, callee: nat, args: Args, next: nat, h: Store, b: nat)
    : (r: Stepped)
    ensures r.left <= b
  {
    var ref := p.methodRef(f.dex, callee);
    if ref.None? then Failing(f, h, b, Unresolved)
    else if kind == Static then ExecResolve(p, f, kind, callee, ref.value, None, args, next, h, b)
    else
      var recv := ArgWord(f.regs, args, 0);
      if recv.None? then Panicked(f, h, b)
      else if recv.value.IsNullRef() then ThrowNpe(p, f, h, b)
      else if !recv.value.Obj? then Panicked(f, h, b)
      else ExecResolve(p, f, kind, callee, ref.value, Some(recv.value.id), args, next, h, b)
  }

  function ExecResolve(p: Program, f: Frame, kind: InvokeKind, callee: nat, ref: MethodRef,
                       recv: Option<nat>, args: Args, next: nat, h: Store, b: nat): (r: Stepped)
    ensures r.left <= b
  {
    match p.resolve(kind, f.dex, callee, f.body, recv, h, b)
    case ResolveFailed(g, left) => Failing(f, g, Clip(left, b), Unresolved)
    case Resolved(target, g, left) =>
      Stepped(f, g, Clip(left, b), Call(kind == Static, ref, target, args, next))
  }

  function ExecCompute(p: Program, f: Frame, op: Binop, d: nat, x: Option<JValue>, y: Option<JValue>,
                       next: nat, h: Store, b: nat): Stepped
  {
    if x.None? || y.None? then Panicked(f, h, b)
    else
      match Compute(op, x.value, y.value)
      case Value(v) => Write(f, d, v, next, h, b)
      case DivideByZero => Throwing(p, f, h, b, ARITHMETIC, "/ by zero")
      case BadOperands => Throwing(p, f, h, b, ARITHMETIC, "bad binop operands")
  }

  function ExecOther(p: Program, f: Frame, insn: Insn, next: nat, h: Store, b: nat): (r: Stepped)
    ensures r.left <= b
  {
    match p.other(insn, f.dex, f.regs, f.result, h, b)
    case OtherNext(regs, result, g, left) =>
      Stepped(f.(regs := regs, result := result), g, Clip(left, b), Next(next))
    case OtherThrow(ex, g, left) => Stepped(f, g, Clip(left, b), Raise(ex))
    case OtherFatal(code, g, left) => Failing(f, g, Clip(left, b), Fault(code))
  }

  /** The body of the instruction match in `step`. */
  function Exec(p: Program, f: Frame, insn: Insn, next: nat, h: Store, b: nat): (r: Stepped)
    ensures r.left <= b
  {
    match insn
    case Nop => Stepped(f, h, b, Next(next))
    case Move(d, s) => if s < |f.regs| then Write(f, d, f.regs[s], next, h, b) else Panicked(f, h, b)
    case MoveWide(d, s) => ExecMoveWide(f, d, s, next, h, b)
    case MoveResult(d) => Write(f, d, f.result, next, h, b)
    case MoveException(d) =>
      Write(f.(pending := None), d, if f.pending.Some? then f.pending.value else Null, next, h, b)
    case ReturnVoid => Stepped(f, h, b, Ret(Null))
    case Return(v) => if v < |f.regs| then Stepped(f, h, b, Ret(f.regs[v])) else Panicked(f, h, b)
    case Const(d, lit) => Write(f, d, Int(lit), next, h, b)
    case ConstHigh16(d, lit) => Write(f, d, Int(Wrap32(lit * 0x1_0000)), next, h, b)
    case ConstWide(d, wide) => Write(f, d, Long(wide), next, h, b)
    case NewInstance(d, ty) => ExecNewInstance(p, f, d, ty, next, h, b)
    case Throw(v) =>
      if v >= |f.regs| then Panicked(f, h, b)
      else if f.regs[v].IsNullRef() then ThrowNpe(p, f, h, b)
      else Stepped(f, h, b, Raise(f.regs[v]))
    case Goto(t) => Stepped(f, h, b, Jump(t))
    case PackedSwitch(_, _, _, _) => ExecSwitch(f, insn, next, h, b)
    case SparseSwitch(_, _, _, _) => ExecSwitch(f, insn, next, h, b)
    case If(op, a, c, t) =>
      if a >= |f.regs| || c >= |f.regs| then Panicked(f, h, b)
      else Stepped(f, h, b, if Compares(op, f.regs[a], f.regs[c]) then Jump(t) else Next(next))
    case IfZ(op, a, t) =>
      if a >= |f.regs| then Panicked(f, h, b)
      else Stepped(f, h, b, if ComparesZero(op, f.regs[a]) then Jump(t) else Next(next))
    case IGet(d, obj, field) => ExecIGet(p, f, d, obj, field, next, h, b)
    case IPut(src, obj, field, isObj) => ExecIPut(p, f, src, obj, field, isObj, next, h, b)
    case Invoke(kind, callee, args) => ExecInvoke(p, f, kind, callee, args, next, h, b)
    case BinOp(op, d, a, c) => ExecCompute(p, f, op, d, f.Reg(a), f.Reg(c), next, h, b)
    case BinopLit(Bin(op), d, a, lit) => ExecCompute(p, f, op, d, f.Reg(a), Some(Int(lit)), next, h, b)
    case BinopLit(Rsub, d, a, lit) => ExecCompute(p, f, Sub, d, Some(Int(lit)), f.Reg(a), next, h, b)
    case FillArrayData(_, _, _) => ExecOther(p, f, insn, next, h, b)
    case Other(_, _) => ExecOther(p, f, insn, next, h, b)
  }

  /** `step`: finds the instruction at `pc` in the index and executes it. */
  function Step(p: Program, f: Frame, h: Store, b: nat): (r: Stepped)
    ensures r.left <= b
  {
    if f.pc >= f.code.words then Failing(f, h, b, PastEndOfCode)
    else
      var i := IndexOf(f.code.units, f.pc);
      if i < |f.code.units|
      then Exec(p, f.(errPc := f.pc), f.code.insns[i], f.pc + f.code.sizes[i], h, b)
      else Panicked(f, h, b)
  }

  /** The literal of const/high16 is shifted by the decoder and again here, so that the
      instruction loads zero; that is the value its format stands for only when the literal
      is zero. */
  lemma ConstHigh16Loads(p: Program, f: Frame, d: nat, w: Word, next: nat, h: Store, b: nat)
    requires d < |f.regs|
    ensures var s := Exec(p, f, Operands2(0, 0x15 + 0x100 * (d % 256), w, 0x15), next, h, b);
      d < 256 ==>
        && s.flow == Next(next)
        && s.frame.regs[d] == Int(0)
        && (s.frame.regs[d] == Int(Signed16(w) * 0x1_0000) <==> w == 0)
  {
  }

  // ---- looking for a handler ----

  datatype Search = Found(addr: nat) | NotFound | SearchFailed(why: Failure)

  /** Whether a handler's type catches an exception. The handler's class is resolved
      first, even for an exception that is not an object. */
  function Catches(p: Program, dex: nat, h: Store, ty: nat, exc: JValue): Result<bool, Failure> {
    var cls := p.classOf(dex, ty);
    if cls.None? then Err(Unresolved)
    else if !exc.Obj? then Ok(false)
    else if exc.id >= |h.objects| then Err(Panic)
    else
      var answer := p.assignable(h.objects[exc.id].cls, cls.value);
      if answer.Some? then Ok(answer.value) else Err(Unresolved)
  }

  function SearchHandlers(p: Program, dex: nat, h: Store, handlers: seq<Handler>, exc: JValue): Search {
    if handlers == [] then NotFound
    else
      match Catches(p, dex, h, handlers[0].ty, exc)
      case Err(why) => SearchFailed(why)
      case Ok(true) => Found(handlers[0].addr)
      case Ok(false) => SearchHandlers(p, dex, h, handlers[1..], exc)
  }

  /** The typed handlers of a try, then its catch-all. */
  function SearchTry(p: Program, dex: nat, h: Store, t: TryItem, exc: JValue): Search {
    var typed := SearchHandlers(p, dex, h, t.handlers, exc);
    if typed == NotFound && t.catchAll.Some? then Found(t.catchAll.value) else typed
  }

  function SearchTries(p: Program, dex: nat, h: Store, tries: seq<TryItem>, addr: nat, exc: JValue): Search {
    if tries == [] then NotFound
    else if !tries[0].Covers(addr) then SearchTries(p, dex, h, tries[1..], addr, exc)
    else
      var here := SearchTry(p, dex, h, tries[0], exc);
      if here == NotFound then SearchTries(p, dex, h, tries[1..], addr, exc) else here
  }

  /** The address of the instruction that raised: the index entry for `errPc`. */
  function RaisedAt(f: Frame): nat {
    var i := IndexOf(f.code.units, f.errPc);
    if i < |f.code.units| then f.code.units[i] else 0
  }

  function HandlerIn(p: Program, f: Frame, h: Store, exc: JValue): Search {
    SearchTries(p, f.dex, h, f.tries, RaisedAt(f), exc)
  }

  datatype Unwound = Caught(frames: seq<Frame>) | Escaped | UnwindFailed(why: Failure)

  /** The exception a frame deals with: its own pending one before the carried one. */
  function Delivered(f: Frame, carried: Option<JValue>): Option<JValue> {
    if f.pending.Some? then f.pending else carried
  }

  /** `unwind`: the last frame is the innermost. */
  function Unwind(p: Program, frames: seq<Frame>, h: Store, carried: Option<JValue>): (r: Unwound)
    ensures r.Caught? ==> r.frames != []
    decreases |frames|
  {
    if frames == [] then Escaped
    else
      var rest, f := frames[..|frames| - 1], frames[|frames| - 1];
      var exc := Delivered(f, carried);
      if exc.None? then UnwindFailed(NoPendingException)
      else
        match HandlerIn(p, f, h, exc.value)
        case Found(addr) => Caught(rest + [f.(pc := addr, pending := exc)])
        case NotFound => Unwind(p, rest, h, exc)
        case SearchFailed(why) => UnwindFailed(why)
  }

  // ---- runs ----

  datatype Outcome = Returned(v: JValue) | Uncaught(ex: nat) | Failed(why: Failure)

  datatype Config = Running(frames: seq<Frame>, store: Store, left: nat)
                  | Halted(outcome: Outcome, store: Store, left: nat)

  /** `<init>` of a host class returns a new object; its payload moves to the receiver. */
  function CarryPayload(h: Store, ref: MethodRef, recv: Option<JValue>, v: JValue): Store {
    if ref.isInit && recv.Some? && recv.value.Obj? && v.Obj?
       && v.id < |h.objects| && h.objects[v.id].native.Some? && recv.value.id < |h.objects|
    then
      var o := h.objects[recv.value.id];
      h.(objects := h.objects[recv.value.id := o.(native := h.objects[v.id].native)])
    else h
  }

  /** What a call comes to: the caller goes on, or raises, or waits for a callee. */
  datatype Called =
    | Continues(frame: Frame, store: Store, left: nat)
    | Raises(frame: Frame, ex: nat, store: Store, left: nat)
    | Enters(frame: Frame, callee: Frame, store: Store, left: nat)
    | CallFails(why: Failure, store: Store, left: nat)

  function Prefixed(recv: Option<JValue>, args: seq<JValue>): seq<JValue> {
    if recv.Some? then [recv.value] + args else args
  }

  function CallHost(p: Program, f: Frame, c: Flow, recv: Option<JValue>, h: Store, b: nat): (r: Called)
    requires c.Call? && c.target.Host?
    ensures r.left <= b
    ensures r.Raises? ==> r.frame.pending == Some(Obj(r.ex))
  {
    var args := HostArgs(f.regs, c.args, if recv.Some? then 1 else 0, c.ref.params);
    if args.None? then CallFails(Panic, h, b)
    else
      match p.host(c.target.native, Prefixed(recv, args.value), h, b)
      case HostOk(v, g, left) =>
        Continues(f.(result := v, pc := c.retPc), CarryPayload(g, c.ref, recv, v), Clip(left, b))
      case HostThrow(ex, g, left) => Raises(f.(pc := c.retPc, pending := Some(Obj(ex))), ex, g, Clip(left, b))
      case HostFatal(code, g, left) => CallFails(Fault(code), g, Clip(left, b))
  }

  function CallCode(p: Program, f: Frame, c: Flow, recv: Option<JValue>, h: Store, b: nat): (r: Called)
    requires c.Call? && c.target.Bytecode?
    ensures r.left <= b && !r.Raises?
    ensures r.Enters? ==> r.frame == f.(pc := c.retPc)
  {
    if c.target.body >= |p.bodies| then CallFails(Panic, h, b)
    else
      var args := CodeArgs(f.regs, c.args, if recv.Some? then 1 else 0, p.bodies[c.target.body].params);
      if args.None? then CallFails(Panic, h, b)
      else
        var callee := NewFrame(p, c.target.body, Prefixed(recv, args.value));
        if callee.None? then CallFails(Panic, h, b)
        else Enters(f.(pc := c.retPc), callee.value, h, b)
  }

  /** The call arm of `run_loop`. */
  function DoCall(p: Program, f: Frame, c: Flow, h: Store, b: nat): (r: Called)
    requires c.Call?
    ensures r.left <= b
    ensures r.Raises? ==> r.frame.pending == Some(Obj(r.ex))
  {
    var recv := if c.isStatic then None else ArgWord(f.regs, c.args, 0);
    if !c.isStatic && recv.None? then CallFails(Panic, h, b)
    else if c.target.Host? then CallHost(p, f, c, recv, h, b)
    else CallCode(p, f, c, recv, h, b)
  }

  /** The id an uncaught exception is reported with. */
  function Reported(ex: JValue): nat {
    if ex.Obj? then ex.id else 0
  }

  /** Unwinds, and goes on in the handler or ends. */
  function RaiseIn(p: Program, frames: seq<Frame>, carried: Option<JValue>, first: JValue, h: Store, b: nat)
    : (r: Config)
    ensures r.left == b
  {
    match Unwind(p, frames, h, carried)
    case Caught(fs) => Running(fs, h, b)
    case Escaped => Halted(Uncaught(Reported(first)), h, b)
    case UnwindFailed(why) => Halted(Failed(why), h, b)
  }

  /** The value goes to the caller's result register. */
  function ReturnTo(frames: seq<Frame>, v: JValue, h: Store, b: nat): (r: Config)
    ensures r.left == b
  {
    if frames == [] then Halted(Returned(v), h, b)
    else
      var n := |frames| - 1;
      Running(frames[..n] + [frames[n].(result := v)], h, b)
  }

  /** What one executed instruction makes of the stack. */
  function Settle(p: Program, callers: seq<Frame>, s: Stepped): (r: Config)
    ensures r.left <= s.left
  {
    match s.flow
    case Next(pc) => Running(callers + [s.frame.(pc := pc)], s.store, s.left)
    case Jump(pc) => Running(callers + [s.frame.(pc := pc)], s.store, s.left)
    case Ret(v) => ReturnTo(callers, v, s.store, s.left)
    case Raise(ex) => RaiseIn(p, callers + [s.frame.(pending := Some(ex))], None, ex, s.store, s.left)
    case Fail(why) => Halted(Failed(why), s.store, s.left)
    case Call(_, _, _, _, _) => SettleCall(p, callers, DoCall(p, s.frame, s.flow, s.store, s.left))
  }

  function SettleCall(p: Program, callers: seq<Frame>, c: Called): (r: Config)
    ensures r.left <= c.left
  {
    match c
    case Continues(f, h, b) => Running(callers + [f], h, b)
    case Raises(f, ex, h, b) => RaiseIn(p, callers + [f], None, Obj(ex), h, b)
    case Enters(f, callee, h, b) => Running(callers + [f, callee], h, b)
    case CallFails(why, h, b) => Halted(Failed(why), h, b)
  }

  /** The budget after one instruction. */
  function Spend(b: nat): (r: nat)
    requires b > 0
    ensures r < b
  {
    b - 1
  }

  /** One turn of `run_loop`: the innermost frame is the last. */
  function Advance(p: Program, frames: seq<Frame>, h: Store, b: nat): (r: Config)
    requires frames != []
    ensures r.left <= b && (r.Running? ==> r.left < b)
  {
    if b == 0 then Halted(Failed(OutOfBudget), h, 0)
    else
      var n := |frames| - 1;
      Settle(p, frames[..n], Step(p, frames[n], h, Spend(b)))
  }

  /** A whole run. */
  function Run(p: Program, c: Config): (r: Config)
    ensures r.Halted? && r.left <= c.left
    decreases c.left, if c.Running? then 1 else 0
  {
    if c.Halted? then c
    else if c.frames == [] then Halted(Failed(Fault(0)), c.store, c.left)
    else Run(p, Advance(p, c.frames, c.store, c.left))
  }
}
