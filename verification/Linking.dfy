/** The interpreter over the class table: the field slots of new objects, and the exceptions
    a handler catches. */
module Linking {
  import opened Wrappers
  import opened Seqs
  import opened Values
  import opened Heap
  import opened Decoder
  import Interpreter
  import ClassTable
  import Resolution
  import Subtyping
  import Calls

  /** The program asks the table: how many slots a new object gets, where a field is, and
      what is assignable. `keyOf` gives the name and type that a field index stands for. */
  ghost predicate Linked(p: Interpreter.Program, t: Subtyping.Table, keyOf: (nat, nat) -> ClassTable.Key)
    requires t.Valid()
  {
    && (forall c :: 0 <= c < |t.classes| ==> p.slots(c) == |t.classes[c].offsets|)
    && (forall dex, field, c :: 0 <= c < |t.classes|
          ==> p.fieldOf(dex, field, c) == Resolution.FieldOffset(t.classes, c, keyOf(dex, field)))
    && (forall a, b :: 0 <= a < |t.classes| && 0 <= b < |t.classes|
          ==> p.assignable(a, b) == Subtyping.IsAssignable(t, a, b))
  }

  /** Every field that can be found in a class has a slot in the objects new-instance makes
      if and only if no class above it declares a field again. */
  lemma InstanceHoldsFields(src: ClassTable.Source, p: Interpreter.Program, t: Subtyping.Table,
                            keyOf: (nat, nat) -> ClassTable.Key, c: nat)
    requires t.Valid() && Linked(p, t, keyOf) && ClassTable.AllMirror(src, t.classes)
    requires c < |t.classes| && Resolution.PlainChain(t.classes, c)
    ensures (forall k :: Resolution.FieldOffset(t.classes, c, k).Some?
               ==> Resolution.FieldOffset(t.classes, c, k).value < |Interpreter.Nulls(p.slots(c))|)
       <==> Distinct(t.classes[c].fields)
  {
    assert ClassTable.Mirrors(src, t.classes, c);
    ClassTable.NewInstanceFits(t.classes[c].fields);
    forall k
      ensures Resolution.FieldOffset(t.classes, c, k)
           == if k in t.classes[c].offsets then Some(t.classes[c].offsets[k]) else None
    {
      Resolution.OneLookup(src, t.classes, c, k);
    }
    assert p.slots(c) == |t.classes[c].offsets|;
    if Distinct(t.classes[c].fields) {
      forall k | k in t.classes[c].offsets
        ensures t.classes[c].offsets[k] < p.slots(c)
      {
        assert k in ClassTable.LastIndex(t.classes[c].fields);
      }
    } else {
      var k :| k in t.classes[c].offsets && t.classes[c].offsets[k] >= p.slots(c);
      assert Resolution.FieldOffset(t.classes, c, k).Some?;
    }
  }

  /** Then a field access on such an object finds its slot or reports an unresolved field; it
      never reads out of range. */
  lemma NewObjectSafe(src: ClassTable.Source, p: Interpreter.Program, t: Subtyping.Table,
                      keyOf: (nat, nat) -> ClassTable.Key, f: Interpreter.Frame,
                      h: Interpreter.Store, id: nat, c: nat, field: nat)
    requires t.Valid() && Linked(p, t, keyOf) && ClassTable.AllMirror(src, t.classes)
    requires c < |t.classes| && Resolution.PlainChain(t.classes, c) && Distinct(t.classes[c].fields)
    requires id < |h.objects| && h.objects[id].cls == c && |h.objects[id].fields| == p.slots(c)
    ensures Interpreter.FieldSlot(p, f, h, id, field)
         == match Resolution.FieldOffset(t.classes, c, keyOf(f.dex, field))
            case Some(off) => Ok(off)
            case None => Err(Interpreter.Unresolved)
  {
    InstanceHoldsFields(src, p, t, keyOf, c);
  }

  /** A typed handler catches an exception object exactly when the exception's class reaches
      the handler's class over superclass and interface edges, whenever there is an answer; there
      is one in every hierarchy of at most 64 levels. */
  lemma CatchesSubclasses(p: Interpreter.Program, t: Subtyping.Table,
                          keyOf: (nat, nat) -> ClassTable.Key, dex: nat, h: Interpreter.Store,
                          ty: nat, id: nat, handler: nat)
    requires t.Valid() && Linked(p, t, keyOf) && p.classOf(dex, ty) == Some(handler)
    requires id < |h.objects| && h.objects[id].cls < |t.classes| && handler < |t.classes|
    requires Subtyping.PlainAbove(t, h.objects[id].cls)
    ensures Interpreter.Catches(p, dex, h, ty, Obj(id))
         in {Err(Interpreter.Unresolved), Ok(Subtyping.Reaches(t, h.objects[id].cls, handler))}
    ensures Subtyping.Tall(t, h.objects[id].cls) <= Subtyping.LIMIT
        ==> Interpreter.Catches(p, dex, h, ty, Obj(id)) == Ok(Subtyping.Reaches(t, h.objects[id].cls, handler))
  {
    Subtyping.ClassesExact(t, h.objects[id].cls, handler);
    if Subtyping.Tall(t, h.objects[id].cls) <= Subtyping.LIMIT {
      Subtyping.AnswersTo(t, h.objects[id].cls, handler);
    }
  }

  // ---- calls ----

  /** What the machine is told of a resolved call: the number of a host method or of a body,
      whose code is the decoded one, or a failure. */
  ghost predicate Told(p: Interpreter.Program, bodyOf: Resolution.Slot -> nat,
                       r: Result<Resolution.Target, Resolution.ResolveError>, told: Interpreter.Resolution) {
    match r
    case Err(_) => told.ResolveFailed?
    case Ok(NativeTarget(n)) => told.Resolved? && told.target == Interpreter.Host(n)
    case Ok(CodeTarget(at, d)) =>
      && told.Resolved? && told.target == Interpreter.Bytecode(bodyOf(at))
      && bodyOf(at) < |p.bodies| && p.bodies[bodyOf(at)].code == d
  }

  /** How calls are named: the key of a method reference, the class it names, the class a body
      belongs to, and the body of a declaration. */
  datatype Names = Names(key: (nat, nat) -> ClassTable.Key, named: (nat, nat) -> Option<nat>,
                         owner: nat -> nat, bodyOf: Resolution.Slot -> nat)

  /** The program resolves every call in the table, whatever the heap. */
  ghost predicate Resolving(p: Interpreter.Program, t: Subtyping.Table, root: nat,
                            info: (nat, nat) -> Resolution.MethodInfo, names: Names)
    requires t.Valid() && Resolution.ObjectRoot(t.classes, root)
  {
    forall kind, dex, callee, from, recv, h, b ::
      Answered(p, t, root, info, names, kind, dex, callee, from, recv, h,
               p.resolve(kind, dex, callee, from, recv, h, b))
  }

  ghost predicate Answered(p: Interpreter.Program, t: Subtyping.Table, root: nat,
                           info: (nat, nat) -> Resolution.MethodInfo, names: Names, kind: InvokeKind, dex: nat,
                           callee: nat, from: nat, recv: Option<nat>, h: Interpreter.Store,
                           told: Interpreter.Resolution)
    requires t.Valid() && Resolution.ObjectRoot(t.classes, root)
  {
    exists r, at ::
      && Resolution.Resolves(t.classes, root, info,
                             Resolution.StartClass(t.classes, root, h.objects, kind, recv, names.named(dex, callee),
                                                   names.owner(from)),
                             names.key(dex, callee), r, at)
      && Told(p, names.bodyOf, r, told)
  }

  /** After a call of a method: it cannot be used; or its host method has the call; or its
      body, as its code units decode, runs from the beginning with the registers it was handed,
      and the caller waits after the call; or a register that the call names is missing. A
      host method comes before code. */
  ghost predicate Entered(p: Interpreter.Program, m: Resolution.MethodInfo, body: nat, f: Interpreter.Frame,
                          isStatic: bool, args: Args, next: nat, s: Interpreter.Stepped) {
    if m.nativeDecl || (m.native.None? && m.code.None?) || (m.native.None? && Sweep(m.code.value, 0, []).Err?)
    then s.flow == Interpreter.Fail(Interpreter.Unresolved)
    else
      && s.frame == f && s.flow.Call?
      && s.flow.isStatic == isStatic && s.flow.args == args && s.flow.retPc == next
      && if m.native.Some? then s.flow.target == Interpreter.Host(m.native.value)
         else
           && s.flow.target == Interpreter.Bytecode(body) && body < |p.bodies|
           && Sweep(m.code.value, 0, []) == Ok(p.bodies[body].code)
           && Runs(p, body, f, isStatic, args, next, Interpreter.DoCall(p, s.frame, s.flow, s.store, s.left))
  }

  ghost predicate Runs(p: Interpreter.Program, body: nat, f: Interpreter.Frame, isStatic: bool, args: Args, next: nat,
                       c: Interpreter.Called)
    requires body < |p.bodies|
  {
    var b := p.bodies[body];
    if b.ins <= b.registers && Calls.AllNamed(f.regs, args, isStatic, b.params)
    then
      && c.Enters? && c.frame == f.(pc := next)
      && c.callee == Interpreter.Frame(body, b.dex, b.code, b.tries, c.callee.regs, 0, 0, Null, None)
      && Calls.HandsOver(f.regs, args, isStatic, b, c.callee.regs)
    else c.CallFails? && c.why == Interpreter.Panic
  }

  lemma CallEntered(p: Interpreter.Program, m: Resolution.MethodInfo, body: nat, f: Interpreter.Frame,
                    args: Args, next: nat, s: Interpreter.Stepped)
    requires s.flow.Call? && s.frame == f && s.flow.args == args && s.flow.retPc == next
    requires s.flow.target == Interpreter.Bytecode(body) && body < |p.bodies|
    ensures Runs(p, body, f, s.flow.isStatic, args, next, Interpreter.DoCall(p, s.frame, s.flow, s.store, s.left))
  {
    Calls.CodeCalled(p, f, s.flow, s.store, s.left);
  }

  /** What a call comes to whose search starts in class `c`: unresolved when nothing answers
      it, otherwise a selected declaration is entered. */
  ghost predicate GoesTo(p: Interpreter.Program, t: Subtyping.Table, root: nat,
                         info: (nat, nat) -> Resolution.MethodInfo, names: Names, f: Interpreter.Frame,
                         isStatic: bool, callee: nat, args: Args, next: nat, c: nat, s: Interpreter.Stepped)
    requires t.Valid() && Resolution.ObjectRoot(t.classes, root) && c < |t.classes|
  {
    var k := names.key(f.dex, callee);
    if !Resolution.Answers(t.classes, root, c, k) then s.flow == Interpreter.Fail(Interpreter.Unresolved)
    else exists at ::
      && Resolution.Selects(t.classes, root, c, k, at)
      && Entered(p, info(at.owner, at.slot), names.bodyOf(at), f, isStatic, args, next, s)
  }

  lemma ResolvedFrom(p: Interpreter.Program, t: Subtyping.Table, root: nat,
                     info: (nat, nat) -> Resolution.MethodInfo, names: Names,
                     f: Interpreter.Frame, kind: InvokeKind, callee: nat,
                     ref: Interpreter.MethodRef, recv: Option<nat>, args: Args, next: nat,
                     h: Interpreter.Store, b: nat, c: nat)
    requires t.Valid() && Resolution.ObjectRoot(t.classes, root) && Resolving(p, t, root, info, names)
    requires Resolution.StartClass(t.classes, root, h.objects, kind, recv, names.named(f.dex, callee),
                                   names.owner(f.body)) == Ok(c) && c < |t.classes|
    ensures GoesTo(p, t, root, info, names, f, kind == Static, callee, args, next, c,
                   Interpreter.ExecResolve(p, f, kind, callee, ref, recv, args, next, h, b))
  {
    var k := names.key(f.dex, callee);
    var told := p.resolve(kind, f.dex, callee, f.body, recv, h, b);
    var s := Interpreter.ExecResolve(p, f, kind, callee, ref, recv, args, next, h, b);
    assert Answered(p, t, root, info, names, kind, f.dex, callee, f.body, recv, h, told);
    var r, at :| Resolution.Resolves(t.classes, root, info, Ok(c), k, r, at) && Told(p, names.bodyOf, r, told);
    if Resolution.Answers(t.classes, root, c, k) {
      ToldEntered(p, info(at.owner, at.slot), names.bodyOf, f, kind, args, next, r, at, told, s);
    }
  }

  lemma ToldEntered(p: Interpreter.Program, m: Resolution.MethodInfo, bodyOf: Resolution.Slot -> nat,
                    f: Interpreter.Frame, kind: InvokeKind, args: Args, next: nat,
                    r: Result<Resolution.Target, Resolution.ResolveError>, at: Resolution.Slot,
                    told: Interpreter.Resolution, s: Interpreter.Stepped)
    requires r == Resolution.TargetOf(at, m) && Told(p, bodyOf, r, told) && s.frame == f
    requires match told
      case ResolveFailed(_, _) => s.flow == Interpreter.Fail(Interpreter.Unresolved)
      case Resolved(target, _, _) =>
        s.flow.Call? && s.flow.isStatic == (kind == Static) && s.flow.target == target
        && s.flow.args == args && s.flow.retPc == next
    ensures Entered(p, m, bodyOf(at), f, kind == Static, args, next, s)
  {
    if r.Ok? && r.value.CodeTarget? {
      CallEntered(p, m, bodyOf(at), f, args, next, s);
    }
  }

  lemma InvokeResolves(p: Interpreter.Program, f: Interpreter.Frame, kind: InvokeKind, callee: nat,
                       args: Args, id: nat, next: nat, h: Interpreter.Store, b: nat)
    requires kind != Static && p.methodRef(f.dex, callee).Some?
    requires Calls.Names(f.regs, args, 0, Obj(id))
    ensures Interpreter.Exec(p, f, Invoke(kind, callee, args), next, h, b)
         == Interpreter.ExecResolve(p, f, kind, callee, p.methodRef(f.dex, callee).value, Some(id), args, next, h, b)
  {
    Calls.WordNamed(f.regs, args, 0);
  }

  /** A virtual or interface call starts at the class of the receiver, the object in the first
      register it names, whatever class the call names. */
  lemma VirtualEnters(p: Interpreter.Program, t: Subtyping.Table, root: nat,
                      info: (nat, nat) -> Resolution.MethodInfo, names: Names,
                      f: Interpreter.Frame, kind: InvokeKind, callee: nat, args: Args, id: nat, next: nat,
                      h: Interpreter.Store, b: nat)
    requires t.Valid() && Resolution.ObjectRoot(t.classes, root) && Resolving(p, t, root, info, names)
    requires kind in {Virtual, Interface} && p.methodRef(f.dex, callee).Some?
    requires Calls.Names(f.regs, args, 0, Obj(id)) && id < |h.objects| && h.objects[id].cls < |t.classes|
    ensures GoesTo(p, t, root, info, names, f, false, callee, args, next, h.objects[id].cls,
                   Interpreter.Exec(p, f, Invoke(kind, callee, args), next, h, b))
  {
    var ref := p.methodRef(f.dex, callee).value;
    InvokeResolves(p, f, kind, callee, args, id, next, h, b);
    ResolvedFrom(p, t, root, info, names, f, kind, callee, ref, Some(id), args, next, h, b, h.objects[id].cls);
  }

  /** A direct call starts at the class that it names, whatever the receiver is. */
  lemma DirectEnters(p: Interpreter.Program, t: Subtyping.Table, root: nat,
                     info: (nat, nat) -> Resolution.MethodInfo, names: Names,
                     f: Interpreter.Frame, callee: nat, args: Args, id: nat, next: nat,
                     h: Interpreter.Store, b: nat, c: nat)
    requires t.Valid() && Resolution.ObjectRoot(t.classes, root) && Resolving(p, t, root, info, names)
    requires p.methodRef(f.dex, callee).Some? && Calls.Names(f.regs, args, 0, Obj(id))
    requires names.named(f.dex, callee) == Some(c) && c < |t.classes|
    ensures GoesTo(p, t, root, info, names, f, false, callee, args, next, c,
                   Interpreter.Exec(p, f, Invoke(Direct, callee, args), next, h, b))
  {
    var ref := p.methodRef(f.dex, callee).value;
    InvokeResolves(p, f, Direct, callee, args, id, next, h, b);
    ResolvedFrom(p, t, root, info, names, f, Direct, callee, ref, Some(id), args, next, h, b, c);
  }

  /** So does a static call, which has no receiver. */
  lemma StaticEnters(p: Interpreter.Program, t: Subtyping.Table, root: nat,
                     info: (nat, nat) -> Resolution.MethodInfo, names: Names,
                     f: Interpreter.Frame, callee: nat, args: Args, next: nat,
                     h: Interpreter.Store, b: nat, c: nat)
    requires t.Valid() && Resolution.ObjectRoot(t.classes, root) && Resolving(p, t, root, info, names)
    requires p.methodRef(f.dex, callee).Some? && names.named(f.dex, callee) == Some(c) && c < |t.classes|
    ensures GoesTo(p, t, root, info, names, f, true, callee, args, next, c,
                   Interpreter.Exec(p, f, Invoke(Static, callee, args), next, h, b))
  {
    var ref := p.methodRef(f.dex, callee).value;
    ResolvedFrom(p, t, root, info, names, f, Static, callee, ref, None, args, next, h, b, c);
  }

  /** A super call starts above the class of the calling code, or at Object, and enters a class
      loaded before that one, or Object or an interface of Object. */
  lemma SuperEnters(p: Interpreter.Program, t: Subtyping.Table, root: nat,
                    info: (nat, nat) -> Resolution.MethodInfo, names: Names,
                    f: Interpreter.Frame, callee: nat, args: Args, id: nat, next: nat,
                    h: Interpreter.Store, b: nat, current: nat, start: nat)
    requires t.Valid() && Resolution.ObjectRoot(t.classes, root) && Resolving(p, t, root, info, names)
    requires p.methodRef(f.dex, callee).Some? && Calls.Names(f.regs, args, 0, Obj(id))
    requires current == names.owner(f.body) && current < |t.classes|
    requires Some(start) == t.classes[current].superclass || (t.classes[current].superclass.None? && start == root)
    ensures start < |t.classes|
    ensures GoesTo(p, t, root, info, names, f, false, callee, args, next, start,
                   Interpreter.Exec(p, f, Invoke(Super, callee, args), next, h, b))
    ensures forall at :: Resolution.Selects(t.classes, root, start, names.key(f.dex, callee), at) ==>
                           at.owner < current || at.owner == root || Resolution.IfaceReach(t.classes, root, at.owner)
  {
    var ref, k := p.methodRef(f.dex, callee).value, names.key(f.dex, callee);
    assert ClassTable.Descends(t.classes, current);
    forall at | Resolution.Selects(t.classes, root, start, k, at)
      ensures at.owner < current || at.owner == root || Resolution.IfaceReach(t.classes, root, at.owner)
    {
      Resolution.SuperAbove(t.classes, root, current, k, at);
    }
    InvokeResolves(p, f, Super, callee, args, id, next, h, b);
    ResolvedFrom(p, t, root, info, names, f, Super, callee, ref, Some(id), args, next, h, b, start);
  }

  /** The declaration that is selected is the nearest on the chain, where there is one; so an
      override wins over everything it overrides. */
  lemma NearestSelected(t: Subtyping.Table, root: nat, c: nat, k: ClassTable.Key, at: Resolution.Slot, n: nat)
    requires t.Valid() && Resolution.ObjectRoot(t.classes, root) && c < |t.classes|
    requires Resolution.Selects(t.classes, root, c, k, at) && n < |Resolution.Chain(t.classes, root, c)|
    requires Resolution.Declares(t.classes, Resolution.Chain(t.classes, root, c)[n], k)
    requires forall j :: 0 <= j < n ==> !Resolution.Declares(t.classes, Resolution.Chain(t.classes, root, c)[j], k)
    ensures at.owner == Resolution.Chain(t.classes, root, c)[n] && at.slot == t.classes[at.owner].dispatch[k]
  {
    var chain := Resolution.Chain(t.classes, root, c);
    Resolution.FirstOfNearest(t.classes, chain, k);
    var near := Resolution.FirstOf(t.classes, chain, k);
    var m :| 0 <= m < |chain| && chain[m] == near.value.owner && Resolution.Declares(t.classes, chain[m], k)
             && forall j :: 0 <= j < m ==> !Resolution.Declares(t.classes, chain[j], k);
    assert m == n;
  }
}
