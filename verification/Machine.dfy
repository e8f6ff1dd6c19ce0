/** The interpreter's methods over their mutable state: the frame stack, the heap and the
    budget. Each is proved against the transition system or the evaluator. */
module Machine {
  import opened Wrappers
  import opened Seqs
  import opened Values
  import opened Heap
  import opened Decoder
  import opened CodeIndex
  import opened Interpreter
  import opened BigStep
  import opened Calls

  // ---- loops over argument lists and tables ----

  /** `make_regs`. */
  method FillRegs(args: seq<JValue>, ins: nat, registers: nat) returns (r: Option<seq<JValue>>)
    ensures r == MakeRegs(args, ins, registers)
  {
    if ins > registers {
      return None;
    }
    var base := registers - ins;
    var regs := new JValue[registers](_ => Null);
    for i := 0 to |args|
      invariant forall k :: 0 <= k < registers ==>
                  regs[k] == if base <= k < base + i then args[k - base] else Null
    {
      if i < ins {
        regs[base + i] := args[i];
      }
    }
    forall k | 0 <= k < registers
      ensures regs[..][k] == MakeRegs(args, ins, registers).value[k]
    {
      MakeRegsAt(args, ins, registers, k);
    }
    assert regs[..] == MakeRegs(args, ins, registers).value;
    r := Some(regs[..]);
  }

  /** The argument loop of a host call. */
  method GatherHost(regs: seq<JValue>, args: Args, start: nat, params: seq<string>)
    returns (r: Option<seq<JValue>>)
    ensures r == HostArgs(regs, args, start, params)
  {
    var out: seq<JValue> := [];
    var ri: nat := start;
    if HostArgs(regs, args, start, params).Some? {
      Empty(HostArgs(regs, args, start, params).value);
    }
    for k := 0 to |params|
      invariant var rest := HostArgs(regs, args, ri, params[k..]);
        HostArgs(regs, args, start, params) == if rest.None? then None else Some(out + rest.value)
    {
      DropDrop(params, k, 1);
      var v := ArgWord(regs, args, ri);
      if v.None? {
        return None;
      }
      ghost var rest := HostArgs(regs, args, ri + Width(params[k]), params[k + 1..]);
      if rest.Some? {
        Assoc(out, [v.value], rest.value);
      }
      out := out + [v.value];
      ri := ri + Width(params[k]);
    }
    Empty(out);
    r := Some(out);
  }

  /** The argument loop of a bytecode call: a wide value is pushed twice. */
  method GatherCode(regs: seq<JValue>, args: Args, start: nat, params: seq<string>)
    returns (r: Option<seq<JValue>>)
    ensures r == CodeArgs(regs, args, start, params)
  {
    var out: seq<JValue> := [];
    var ri: nat := start;
    if CodeArgs(regs, args, start, params).Some? {
      Empty(CodeArgs(regs, args, start, params).value);
    }
    for k := 0 to |params|
      invariant var rest := CodeArgs(regs, args, ri, params[k..]);
        CodeArgs(regs, args, start, params) == if rest.None? then None else Some(out + rest.value)
    {
      DropDrop(params, k, 1);
      var v := ArgWord(regs, args, ri);
      if v.None? {
        return None;
      }
      ghost var rest := CodeArgs(regs, args, ri + Width(params[k]), params[k + 1..]);
      ghost var one := if IsWide(params[k]) then [v.value, v.value] else [v.value];
      if rest.Some? {
        Assoc(out, one, rest.value);
      }
      ghost var before := out;
      ri := ri + 1;
      if IsWide(params[k]) {
        out := out + [v.value];
        ri := ri + 1;
      }
      out := out + [v.value];
      assert out == before + one;
    }
    Empty(out);
    r := Some(out);
  }

  /** The binary search of a sparse switch. */
  method SearchKeys(keys: seq<I32>, v: I32) returns (r: Option<nat>)
    ensures r == FindKey(keys, v)
  {
    if keys == [] {
      return None;
    }
    var base: nat, size: nat := 0, |keys|;
    while size > 1
      invariant 0 < size && base + size <= |keys|
      invariant Narrow(keys, v, base, size) == Narrow(keys, v, 0, |keys|)
      decreases size
    {
      var half := size / 2;
      var mid := base + half;
      base := if keys[mid] > v then base else mid;
      size := size - half;
    }
    r := if keys[base] == v then Some(base) else None;
  }

  /** The loop over the handlers of one try. */
  method FindHandler(p: Program, dex: nat, h: Store, handlers: seq<Handler>, exc: JValue) returns (r: Search)
    ensures r == SearchHandlers(p, dex, h, handlers, exc)
  {
    for k := 0 to |handlers|
      invariant SearchHandlers(p, dex, h, handlers, exc) == SearchHandlers(p, dex, h, handlers[k..], exc)
    {
      DropDrop(handlers, k, 1);
      var matches := Catches(p, dex, h, handlers[k].ty, exc);
      if matches.Err? {
        return SearchFailed(matches.error);
      }
      if matches.value {
        return Found(handlers[k].addr);
      }
    }
    r := NotFound;
  }

  /** The loop over the try table. */
  method FindTry(p: Program, dex: nat, h: Store, tries: seq<TryItem>, addr: nat, exc: JValue) returns (r: Search)
    ensures r == SearchTries(p, dex, h, tries, addr, exc)
  {
    for k := 0 to |tries|
      invariant SearchTries(p, dex, h, tries, addr, exc) == SearchTries(p, dex, h, tries[k..], addr, exc)
    {
      DropDrop(tries, k, 1);
      var t := tries[k];
      if t.start <= addr < t.start + t.count {
        var found := FindHandler(p, dex, h, t.handlers, exc);
        if found == NotFound && t.catchAll.Some? {
          found := Found(t.catchAll.value);
        }
        if found != NotFound {
          return found;
        }
      }
    }
    r := NotFound;
  }

  lemma StackTop(callers: seq<Frame>, f: Frame)
    ensures var s := callers + [f];
      s != [] && s[..|s| - 1] == callers && s[|s| - 1] == f
  {
  }

  /** The first turn of a run, and the rest of it. */
  lemma RunTurn(p: Program, frames: seq<Frame>, h: Store, b: nat)
    requires frames != []
    ensures Run(p, Running(frames, h, b)) == Run(p, Advance(p, frames, h, b))
  {
  }

  /** What a host can run: a host method, or a method with bytecode. */
  datatype Entry = HostEntry(native: nat) | CodeEntry(body: nat)

  class Vm {
    const prog: Program
    const depthLimit: nat
    var frames: seq<Frame>
    var heap: Store
    var budget: nat
    var recursionDepth: nat

    constructor (prog: Program, depthLimit: nat, heap: Store, budget: nat)
      ensures this.prog == prog && this.depthLimit == depthLimit
      ensures this.heap == heap && this.budget == budget && frames == [] && recursionDepth == 0
    {
      this.prog, this.depthLimit := prog, depthLimit;
      this.heap, this.budget := heap, budget;
      frames, recursionDepth := [], 0;
    }

    /** `step`. */
    method Step(f: Frame) returns (g: Frame, flow: Flow)
      modifies this`heap, this`budget
      ensures Stepped(g, heap, budget, flow) == Interpreter.Step(prog, f, old(heap), old(budget))
    {
      if f.pc >= f.code.words {
        return f, Fail(PastEndOfCode);
      }
      g := f.(errPc := f.pc);
      var i := CodeIndex.Search(f.code.units, f.pc);
      if i >= |f.code.units| {
        return f, Fail(Panic);
      }
      var s := Exec(prog, g, f.code.insns[i], f.pc + f.code.sizes[i], heap, budget);
      heap, budget := s.store, s.left;
      return s.frame, s.flow;
    }

    /** `unwind`. */
    method Unwind() returns (r: Result<bool, Failure>)
      modifies this`frames
      ensures match Interpreter.Unwind(prog, old(frames), heap, None)
        case Caught(fs) => r == Ok(true) && frames == fs
        case Escaped => r == Ok(false)
        case UnwindFailed(why) => r == Err(why)
    {
      var carried: Option<JValue> := None;
      while true
        invariant Interpreter.Unwind(prog, old(frames), heap, None)
               == Interpreter.Unwind(prog, frames, heap, carried)
        decreases |frames|
      {
        if |frames| == 0 {
          return Ok(false);
        }
        var f := frames[|frames| - 1];
        var exc := if f.pending.Some? then f.pending else carried;
        if exc.None? {
          return Err(NoPendingException);
        }
        var i := CodeIndex.Search(f.code.units, f.errPc);
        var addr := if i < |f.code.units| then f.code.units[i] else 0;
        var found := FindTry(prog, f.dex, heap, f.tries, addr, exc.value);
        match found {
          case Found(at) =>
            frames := frames[..|frames| - 1] + [f.(pc := at, pending := exc)];
            return Ok(true);
          case NotFound =>
            carried := exc;
            frames := frames[..|frames| - 1];
          case SearchFailed(why) =>
            return Err(why);
        }
      }
    }
 
    /** The machine is in state `c`: `next` is the running frame, unless the run is done. */
    ghost predicate At(c: Config, next: Frame, done: Option<Outcome>)
      reads this
    {
      match c
      case Running(fs, h, b) => done == None && fs == frames + [next] && h == heap && b == budget
      case Halted(o, h, b) => done == Some(o) && h == heap && b == budget
    }

    /** The exception arms of the loop: the frame goes back on the stack to be unwound. */
    method RaiseFrom(f: Frame, ex: JValue) returns (next: Frame, done: Option<Outcome>)
      modifies this`frames
      ensures At(RaiseIn(prog, old(frames) + [f], None, ex, heap, budget), next, done)
    {
      frames := frames + [f];
      next, done := f, None;
      var caught := Unwind();
      match caught {
        case Err(why) => done := Some(Failed(why));
        case Ok(false) => done := Some(Uncaught(Reported(ex)));
        case Ok(true) =>
          next := frames[|frames| - 1];
          Split(frames, |frames| - 1);
          frames := frames[..|frames| - 1];
      }
    }

    /** The host arm of a call. */
    method InvokeHost(f: Frame, c: Flow, recv: Option<JValue>) returns (next: Frame, done: Option<Outcome>)
      requires c.Call? && c.target.Host?
      modifies this`frames, this`heap, this`budget
      ensures At(SettleCall(prog, old(frames), CallHost(prog, f, c, recv, old(heap), old(budget))), next, done)
    {
      next, done := f, None;
      var args := GatherHost(f.regs, c.args, if recv.Some? then 1 else 0, c.ref.params);
      if args.None? {
        return f, Some(Failed(Panic));
      }
      match prog.host(c.target.native, Prefixed(recv, args.value), heap, budget) {
        case HostOk(v, g, left) =>
          heap, budget := CarryPayload(g, c.ref, recv, v), Clip(left, budget);
          next := f.(result := v, pc := c.retPc);
        case HostThrow(ex, g, left) =>
          heap, budget := g, Clip(left, budget);
          next, done := RaiseFrom(f.(pc := c.retPc, pending := Some(Obj(ex))), Obj(ex));
        case HostFatal(code, g, left) =>
          heap, budget := g, Clip(left, budget);
          done := Some(Failed(Fault(code)));
      }
    }

    /** The bytecode arm of a call: the caller is suspended. */
    method InvokeCode(f: Frame, c: Flow, recv: Option<JValue>) returns (next: Frame, done: Option<Outcome>)
      requires c.Call? && c.target.Bytecode?
      modifies this`frames
      ensures At(SettleCall(prog, old(frames), CallCode(prog, f, c, recv, heap, budget)), next, done)
    {
      next, done := f, Some(Failed(Panic));
      if c.target.body >= |prog.bodies| {
        return;
      }
      var body := prog.bodies[c.target.body];
      var args := GatherCode(f.regs, c.args, if recv.Some? then 1 else 0, body.params);
      if args.None? {
        return;
      }
      var regs := FillRegs(Prefixed(recv, args.value), body.ins, body.registers);
      if regs.None? {
        return;
      }
      var caller := f.(pc := c.retPc);
      assert frames + [caller, Frame(c.target.body, body.dex, body.code, body.tries, regs.value, 0, 0, Null, None)]
          == frames + [caller] + [Frame(c.target.body, body.dex, body.code, body.tries, regs.value, 0, 0, Null, None)];
      frames := frames + [caller];
      next := Frame(c.target.body, body.dex, body.code, body.tries, regs.value, 0, 0, Null, None);
      done := None;
    }

    /** One turn of the loop in `run_loop`, on the running frame. */
    method Turn(f: Frame) returns (next: Frame, done: Option<Outcome>)
      modifies this`frames, this`heap, this`budget
      ensures At(Advance(prog, old(frames) + [f], old(heap), old(budget)), next, done)
    {
      StackTop(frames, f);
      next, done := f, None;
      if budget == 0 {
        return f, Some(Failed(OutOfBudget));
      }
      budget := Spend(budget);
      var g, flow := Step(f);
      match flow {
        case Next(pc) => next := g.(pc := pc);
        case Jump(pc) => next := g.(pc := pc);
        case Ret(v) =>
          if |frames| == 0 {
            done := Some(Returned(v));
          } else {
            next := frames[|frames| - 1].(result := v);
            frames := frames[..|frames| - 1];
          }
        case Raise(ex) => next, done := RaiseFrom(g.(pending := Some(ex)), ex);
        case Fail(why) => done := Some(Failed(why));
        case Call(isStatic, _, target, args, _) =>
          var recv := if isStatic then None else ArgWord(g.regs, args, 0);
          if !isStatic && recv.None? {
            done := Some(Failed(Panic));
          } else if target.Host? {
            next, done := InvokeHost(g, flow, recv);
          } else {
            next, done := InvokeCode(g, flow, recv);
          }
      }
    }

    /** `run_loop`: runs the stack to its end. */
    method RunLoop() returns (r: Outcome)
      modifies this`frames, this`heap, this`budget
      ensures Halted(r, heap, budget) == Run(prog, Running(old(frames), old(heap), old(budget)))
    {
      if |frames| == 0 {
        return Failed(Fault(0));
      }
      Split(frames, |frames| - 1);
      var f := frames[|frames| - 1];
      frames := frames[..|frames| - 1];
      while true
        invariant Run(prog, Running(frames + [f], heap, budget))
               == Run(prog, Running(old(frames), old(heap), old(budget)))
        decreases budget
      {
        RunTurn(prog, frames + [f], heap, budget);
        var next, done := Turn(f);
        if done.Some? {
          return done.value;
        }
        f := next;
      }
    }

    /** `push_frame`. */
    method PushFrame(body: nat, args: seq<JValue>) returns (r: Result<(), Failure>)
      modifies this`frames
      ensures old(|frames|) >= depthLimit ==> r == Err(Fault(1))
      ensures old(|frames|) < depthLimit && NewFrame(prog, body, args).None? ==> r == Err(Panic)
      ensures old(|frames|) < depthLimit && NewFrame(prog, body, args).Some?
          ==> r == Ok(()) && frames == old(frames) + [NewFrame(prog, body, args).value]
      ensures r.Err? ==> frames == old(frames)
    {
      if |frames| >= depthLimit {
        return Err(Fault(1));
      }
      if body >= |prog.bodies| {
        return Err(Panic);
      }
      var b := prog.bodies[body];
      var regs := FillRegs(args, b.ins, b.registers);
      if regs.None? {
        return Err(Panic);
      }
      frames := frames + [Frame(body, b.dex, b.code, b.tries, regs.value, 0, 0, Null, None)];
      r := Ok(());
    }

    /** `run`: enters the interpreter from the host. The frames of an interrupted run are
        put back afterwards, whatever happens; the depth is put back on the bytecode path
        only. A run with bytecode ends as the evaluator says. */
    method RunMethod(entry: Entry, args: seq<JValue>) returns (r: Outcome)
      modifies this`frames, this`heap, this`budget, this`recursionDepth
      ensures frames == old(frames)
      ensures old(recursionDepth) >= depthLimit
          ==> r == Failed(Fault(2)) && heap == old(heap) && budget == old(budget)
      ensures old(recursionDepth) < depthLimit && entry.CodeEntry?
          ==> (match NewFrame(prog, entry.body, args)
               case None => r == Failed(Panic) && heap == old(heap) && budget == old(budget)
               case Some(f) => Halted(r, heap, budget) == Final(Eval(prog, false, f, old(heap), old(budget))))
      ensures old(recursionDepth) < depthLimit && entry.HostEntry?
          ==> (match prog.host(entry.native, args, old(heap), old(budget))
               case HostOk(v, g, left) => r == Returned(v) && heap == g && budget == Clip(left, old(budget))
               case HostThrow(ex, g, left) => r == Uncaught(ex) && heap == g && budget == Clip(left, old(budget))
               case HostFatal(code, g, left) =>
                 r == Failed(Fault(code)) && heap == g && budget == Clip(left, old(budget)))
      ensures recursionDepth == old(recursionDepth)
                             + (if old(recursionDepth) < depthLimit && entry.HostEntry? then 1 else 0)
    {
      if recursionDepth >= depthLimit {
        return Failed(Fault(2));
      }
      recursionDepth := recursionDepth + 1;
      match entry {
        case HostEntry(native) =>
          match prog.host(native, args, heap, budget) {
            case HostOk(v, g, left) =>
              heap, budget := g, Clip(left, budget);
              r := Returned(v);
            case HostThrow(ex, g, left) =>
              heap, budget := g, Clip(left, budget);
              r := Uncaught(ex);
            case HostFatal(code, g, left) =>
              heap, budget := g, Clip(left, budget);
              r := Failed(Fault(code));
          }
        case CodeEntry(body) =>
          var saved := frames;
          frames := [];
          var pushed := PushFrame(body, args);
          if pushed.Err? {
            r := Failed(pushed.error);
          } else {
            RunIsEval(prog, frames[0], heap, budget);
            r := RunLoop();
          }
          frames := saved;
          recursionDepth := recursionDepth - 1;
      }
    }
  }
}
