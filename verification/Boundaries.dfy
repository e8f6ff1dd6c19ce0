/** Every reachable state of a closed program keeps every pc on an instruction boundary. */
module Boundaries {
  import opened Wrappers
  import opened Values
  import opened Heap
  import opened Decoder
  import opened CodeIndex
  import opened Interpreter
  import opened Runs

  // ---- closed programs ----

  /** Whether execution can go on with the instruction that follows. */
  predicate FallsThrough(insn: Insn) {
    !insn.Goto? && !insn.Return? && !insn.ReturnVoid? && !insn.Throw?
  }

  predicate MayJump(insn: Insn, a: nat) {
    match insn
    case Goto(t) => a == t
    case If(_, _, _, t) => a == t
    case IfZ(_, _, t) => a == t
    case PackedSwitch(_, _, _, targets) => exists i :: 0 <= i < |targets| && a == AsAddress(targets[i])
    case SparseSwitch(_, _, _, targets) => exists i :: 0 <= i < |targets| && a == AsAddress(targets[i])
    case _ => false
  }

  /** An address that a try of the table sends exceptions to. */
  predicate HandlerOf(t: TryItem, a: nat) {
    t.catchAll == Some(a) || exists k :: 0 <= k < |t.handlers| && t.handlers[k].addr == a
  }

  predicate HandlerAddr(tries: seq<TryItem>, a: nat) {
    exists k :: 0 <= k < |tries| && HandlerOf(tries[k], a)
  }

  /** The instruction at entry i leads only to entries of the index. */
  ghost predicate ClosedEntry(code: Decoded, i: nat)
    requires code.Parallel() && i < |code.units|
  {
    && (FallsThrough(code.insns[i]) ==> code.units[i] + code.sizes[i] in code.units)
    && forall a: nat {:trigger MayJump(code.insns[i], a)} :: MayJump(code.insns[i], a) ==> a in code.units
  }

  ghost predicate Closed(code: Code, tries: seq<TryItem>) {
    && 0 in code.units
    && (forall i :: 0 <= i < |code.units| ==> code.units[i] < code.words && ClosedEntry(code, i))
    && forall a: nat {:trigger HandlerAddr(tries, a)} :: HandlerAddr(tries, a) ==> a in code.units
  }

  ghost predicate AllClosed(bodies: seq<Body>) {
    bodies == [] ||
    (AllClosed(bodies[..|bodies| - 1]) && Closed(bodies[|bodies| - 1].code, bodies[|bodies| - 1].tries))
  }

  ghost predicate ClosedProgram(p: Program) {
    AllClosed(p.bodies)
  }

  lemma {:induction false} ClosedAt(bodies: seq<Body>, m: nat)
    requires AllClosed(bodies) && m < |bodies|
    ensures Closed(bodies[m].code, bodies[m].tries)
  {
    if m < |bodies| - 1 {
      ClosedAt(bodies[..|bodies| - 1], m);
    }
  }

  /** What the sweep contributes: an index in order, within the code. */
  lemma SweptShape(code: seq<Word>)
    requires Sweep(code, 0, []).Ok?
    ensures var d := Sweep(code, 0, []).value;
      && d.Parallel()
      && Increasing(d.units)
      && forall i :: 0 <= i < |d.units| ==> d.units[i] < d.words
  {
    var d := Sweep(code, 0, []).value;
    SweepFaithful(code, 0, []);
    OrderedIncreasing(code, d, 0);
    forall i | 0 <= i < |d.units|
      ensures d.units[i] < d.words
    {
      assert EntryAt(code, d, 0, i);
    }
  }

  // ---- one instruction ----

  predicate SameCode(f: Frame, g: Frame) {
    f.body == g.body && f.dex == g.dex && f.code == g.code && f.tries == g.tries && f.errPc == g.errPc
  }

  predicate FlowsTo(insn: Insn, next: nat, flow: Flow) {
    match flow
    case Next(pc) => pc == next && FallsThrough(insn)
    case Jump(pc) => MayJump(insn, pc)
    case Call(_, _, _, _, retPc) => retPc == next && FallsThrough(insn)
    case Fail(why) => why != PastEndOfCode
    case _ => true
  }

  lemma SwitchFlows(f: Frame, insn: Insn, next: nat, h: Store, b: nat)
    requires insn.PackedSwitch? || insn.SparseSwitch?
    ensures FlowsTo(insn, next, ExecSwitch(f, insn, next, h, b).flow)
  {
  }

  /** An instruction keeps its frame's code, goes where it says, and touches the pending
      exception only if it is move-exception. */
  lemma ExecFlows(p: Program, f: Frame, insn: Insn, next: nat, h: Store, b: nat)
    ensures var s := Exec(p, f, insn, next, h, b);
      && SameCode(s.frame, f)
      && FlowsTo(insn, next, s.flow)
      && s.frame.pending == (if insn.MoveException? then None else f.pending)
  {
    if insn.PackedSwitch? || insn.SparseSwitch? {
      SwitchFlows(f, insn, next, h, b);
    }
  }

  ghost predicate Belongs(p: Program, f: Frame) {
    && f.body < |p.bodies|
    && f.code == p.bodies[f.body].code
    && f.tries == p.bodies[f.body].tries
  }

  ghost predicate OnBoundary(p: Program, f: Frame) {
    Belongs(p, f) && f.pc in f.code.units
  }

  /** On a boundary the search of `step` is exact. */
  lemma ExactStep(p: Program, f: Frame)
    requires ClosedProgram(p) && OnBoundary(p, f)
    ensures f.pc < f.code.words
    ensures var i := IndexOf(f.code.units, f.pc); i < |f.code.units| && f.code.units[i] == f.pc
  {
    ClosedAt(p.bodies, f.body);
    var i :| 0 <= i < |f.code.units| && f.code.units[i] == f.pc;
    IndexExact(f.code.units, i);
  }

  ghost predicate GoesOn(code: Decoded, flow: Flow) {
    match flow
    case Next(pc) => pc in code.units
    case Jump(pc) => pc in code.units
    case Call(_, _, _, _, retPc) => retPc in code.units
    case Fail(why) => why != PastEndOfCode
    case _ => true
  }

  lemma EntryFlows(code: Decoded, i: nat, flow: Flow)
    requires code.Parallel() && i < |code.units| && ClosedEntry(code, i)
    requires FlowsTo(code.insns[i], code.units[i] + code.sizes[i], flow)
    ensures GoesOn(code, flow)
  {
  }

  lemma StepFlows(p: Program, f: Frame, i: nat, h: Store, b: nat)
    requires f.pc < f.code.words && i == IndexOf(f.code.units, f.pc)
    requires i < |f.code.units|
    ensures var s := Step(p, f, h, b);
      && SameCode(s.frame, f.(errPc := f.pc))
      && FlowsTo(f.code.insns[i], f.pc + f.code.sizes[i], s.flow)
      && s.frame.pending == (if f.code.insns[i].MoveException? then None else f.pending)
  {
    ExecFlows(p, f.(errPc := f.pc), f.code.insns[i], f.pc + f.code.sizes[i], h, b);
  }

  ghost predicate SteppedOn(p: Program, s: Stepped) {
    Belongs(p, s.frame) && GoesOn(s.frame.code, s.flow)
  }

  lemma FlowsOn(p: Program, f: Frame, i: nat, s: Stepped)
    requires ClosedProgram(p) && Belongs(p, f) && i < |f.code.units| && f.code.units[i] == f.pc
    requires SameCode(s.frame, f.(errPc := f.pc))
    requires FlowsTo(f.code.insns[i], f.pc + f.code.sizes[i], s.flow)
    ensures SteppedOn(p, s)
  {
    ClosedAt(p.bodies, f.body);
    EntryFlows(f.code, i, s.flow);
  }

  lemma StepOn(p: Program, f: Frame, h: Store, b: nat)
    ensures ClosedProgram(p) && OnBoundary(p, f) ==> SteppedOn(p, Step(p, f, h, b))
  {
    if ClosedProgram(p) && OnBoundary(p, f) {
      ExactStep(p, f);
      var i := IndexOf(f.code.units, f.pc);
      ClosedAt(p.bodies, f.body);
      StepFlows(p, f, i, h, b);
      FlowsOn(p, f, i, Step(p, f, h, b));
    }
  }

  // ---- the stack ----

  ghost predicate AllOn(p: Program, frames: seq<Frame>) {
    frames == [] || (AllOn(p, frames[..|frames| - 1]) && OnBoundary(p, frames[|frames| - 1]))
  }

  lemma Pushed(p: Program, callers: seq<Frame>, f: Frame)
    requires AllOn(p, callers) && OnBoundary(p, f)
    ensures AllOn(p, callers + [f])
  {
    assert (callers + [f])[..|callers|] == callers;
  }

  function FramesOf(c: Config): seq<Frame> {
    if c.Running? then c.frames else []
  }

  predicate FellOff(c: Config) {
    c.Halted? && c.outcome == Failed(PastEndOfCode)
  }

  ghost predicate ConfigOn(p: Program, c: Config) {
    AllOn(p, FramesOf(c)) && !FellOff(c)
  }

  lemma {:induction false} FoundHandler(p: Program, dex: nat, h: Store, handlers: seq<Handler>, exc: JValue)
    requires SearchHandlers(p, dex, h, handlers, exc).Found?
    ensures exists k :: 0 <= k < |handlers|
              && handlers[k].addr == SearchHandlers(p, dex, h, handlers, exc).addr
  {
    var tail := handlers[1..];
    if Catches(p, dex, h, handlers[0].ty, exc) == Ok(false) {
      FoundHandler(p, dex, h, tail, exc);
      var k :| 0 <= k < |tail| && tail[k].addr == SearchHandlers(p, dex, h, tail, exc).addr;
      assert handlers[k + 1] == tail[k];
    }
  }

  lemma {:induction false} FoundAddr(p: Program, dex: nat, h: Store, tries: seq<TryItem>, addr: nat, exc: JValue)
    requires SearchTries(p, dex, h, tries, addr, exc).Found?
    ensures HandlerAddr(tries, SearchTries(p, dex, h, tries, addr, exc).addr)
  {
    var at := SearchTries(p, dex, h, tries, addr, exc);
    var here := SearchTry(p, dex, h, tries[0], exc);
    if tries[0].Covers(addr) && here != NotFound {
      if SearchHandlers(p, dex, h, tries[0].handlers, exc).Found? {
        FoundHandler(p, dex, h, tries[0].handlers, exc);
      }
      assert HandlerOf(tries[0], at.addr);
    } else {
      FoundAddr(p, dex, h, tries[1..], addr, exc);
      var k :| 0 <= k < |tries| - 1 && HandlerOf(tries[1..][k], at.addr);
      assert tries[k + 1] == tries[1..][k];
    }
  }

  lemma {:induction false} SearchFailsSafely(p: Program, dex: nat, h: Store, handlers: seq<Handler>, exc: JValue)
    ensures SearchHandlers(p, dex, h, handlers, exc) != SearchFailed(PastEndOfCode)
  {
    if handlers != [] {
      SearchFailsSafely(p, dex, h, handlers[1..], exc);
    }
  }

  lemma {:induction false} TriesFailSafely(p: Program, dex: nat, h: Store, tries: seq<TryItem>, addr: nat, exc: JValue)
    ensures SearchTries(p, dex, h, tries, addr, exc) != SearchFailed(PastEndOfCode)
  {
    if tries != [] {
      SearchFailsSafely(p, dex, h, tries[0].handlers, exc);
      TriesFailSafely(p, dex, h, tries[1..], addr, exc);
    }
  }

  /** Unwinding leaves all frames on boundaries: the innermost one at a handler. Only the
      code of the innermost frame needs to belong to the program before. */
  lemma {:induction false} UnwindOn(p: Program, frames: seq<Frame>, h: Store, carried: Option<JValue>)
    requires ClosedProgram(p)
    requires frames != [] ==> AllOn(p, frames[..|frames| - 1]) && Belongs(p, frames[|frames| - 1])
    ensures match Unwind(p, frames, h, carried)
      case Caught(fs) => AllOn(p, fs)
      case Escaped => true
      case UnwindFailed(why) => why != PastEndOfCode
    decreases |frames|
  {
    if frames != [] {
      var n := |frames| - 1;
      var f := frames[n];
      var exc := Delivered(f, carried);
      if exc.Some? {
        TriesFailSafely(p, f.dex, h, f.tries, RaisedAt(f), exc.value);
        if HandlerIn(p, f, h, exc.value).Found? {
          var at := HandlerIn(p, f, h, exc.value).addr;
          FoundAddr(p, f.dex, h, f.tries, RaisedAt(f), exc.value);
          ClosedAt(p.bodies, f.body);
          Pushed(p, frames[..n], f.(pc := at, pending := exc));
        } else {
          UnwindOn(p, frames[..n], h, exc);
        }
      }
    }
  }

  lemma NewFrameOn(p: Program, body: nat, args: seq<JValue>)
    requires ClosedProgram(p) && NewFrame(p, body, args).Some?
    ensures OnBoundary(p, NewFrame(p, body, args).value)
  {
    ClosedAt(p.bodies, body);
  }

  ghost predicate CalledOn(p: Program, c: Called) {
    match c
    case Continues(f, _, _) => OnBoundary(p, f)
    case Raises(f, _, _, _) => Belongs(p, f)
    case Enters(f, callee, _, _) => OnBoundary(p, f) && OnBoundary(p, callee)
    case CallFails(why, _, _) => why != PastEndOfCode
  }

  lemma CallOn(p: Program, f: Frame, c: Flow, h: Store, b: nat)
    requires ClosedProgram(p) && Belongs(p, f) && c.Call? && c.retPc in f.code.units
    ensures CalledOn(p, DoCall(p, f, c, h, b))
  {
    var recv := if c.isStatic then None else ArgWord(f.regs, c.args, 0);
    if c.target.Bytecode? && c.target.body < |p.bodies| {
      var args := CodeArgs(f.regs, c.args, if recv.Some? then 1 else 0, p.bodies[c.target.body].params);
      if args.Some? && NewFrame(p, c.target.body, Prefixed(recv, args.value)).Some? {
        NewFrameOn(p, c.target.body, Prefixed(recv, args.value));
      }
    }
  }

  lemma RaiseOn(p: Program, callers: seq<Frame>, f: Frame, first: JValue, h: Store, b: nat)
    requires ClosedProgram(p) && AllOn(p, callers) && Belongs(p, f)
    ensures ConfigOn(p, RaiseIn(p, callers + [f], None, first, h, b))
  {
    assert (callers + [f])[..|callers|] == callers;
    UnwindOn(p, callers + [f], h, None);
  }

  lemma {:induction false} SettleCallOn(p: Program, callers: seq<Frame>, c: Called)
    requires ClosedProgram(p) && AllOn(p, callers) && CalledOn(p, c)
    ensures ConfigOn(p, SettleCall(p, callers, c))
  {
    match c {
      case Continues(f, _, _) => Pushed(p, callers, f);
      case Raises(f, ex, h, b) => RaiseOn(p, callers, f, Obj(ex), h, b);
      case Enters(f, callee, _, _) =>
        Pushed(p, callers, f);
        Pushed(p, callers + [f], callee);
        assert callers + [f, callee] == (callers + [f]) + [callee];
      case CallFails(_, _, _) =>
    }
  }

  lemma ReturnOn(p: Program, callers: seq<Frame>, v: JValue, h: Store, b: nat)
    requires AllOn(p, callers)
    ensures ConfigOn(p, ReturnTo(callers, v, h, b))
  {
    if callers != [] {
      var n := |callers| - 1;
      Pushed(p, callers[..n], callers[n].(result := v));
    }
  }

  lemma SettleOn(p: Program, callers: seq<Frame>, s: Stepped)
    ensures ClosedProgram(p) && AllOn(p, callers) && SteppedOn(p, s) ==> ConfigOn(p, Settle(p, callers, s))
  {
    if ClosedProgram(p) && AllOn(p, callers) && SteppedOn(p, s) {
      match s.flow {
        case Next(pc) => Pushed(p, callers, s.frame.(pc := pc));
        case Jump(pc) => Pushed(p, callers, s.frame.(pc := pc));
        case Ret(v) => ReturnOn(p, callers, v, s.store, s.left);
        case Raise(ex) => RaiseOn(p, callers, s.frame.(pending := Some(ex)), ex, s.store, s.left);
        case Fail(_) =>
        case Call(_, _, _, _, _) =>
          CallOn(p, s.frame, s.flow, s.store, s.left);
          SettleCallOn(p, callers, DoCall(p, s.frame, s.flow, s.store, s.left));
      }
    }
  }

  /** One turn of the machine keeps every frame on a boundary. */
  lemma AdvanceOn(p: Program, frames: seq<Frame>, h: Store, b: nat)
    requires ClosedProgram(p) && AllOn(p, frames) && frames != []
    ensures ConfigOn(p, Advance(p, frames, h, b))
  {
    if b > 0 {
      var n := |frames| - 1;
      StepOn(p, frames[n], h, Spend(b));
      SettleOn(p, frames[..n], Step(p, frames[n], h, Spend(b)));
    }
  }

  // ---- whole runs ----

  /** One turn leads from one state to the next. */
  predicate Turn(p: Program, c: Config, d: Config) {
    c.Running? && c.frames != [] && d == Advance(p, c.frames, c.store, c.left)
  }

  function TurnOf(p: Program): (Config, Config) -> bool {
    (c, d) => Turn(p, c, d)
  }

  ghost function OnOf(p: Program): Config -> bool {
    c => ConfigOn(p, c)
  }

  lemma TurnOn(p: Program, c: Config, d: Config)
    ensures ClosedProgram(p) && OnOf(p)(c) && TurnOf(p)(c, d) ==> OnOf(p)(d)
  {
    if ClosedProgram(p) && ConfigOn(p, c) && Turn(p, c, d) {
      AdvanceOn(p, c.frames, c.store, c.left);
    }
  }

  /** In a closed program every pc of every frame stays on a boundary, in every state of
      every run that starts on boundaries. */
  lemma RunOn(p: Program, cs: seq<Config>, i: nat)
    requires ClosedProgram(p) && IsRun(TurnOf(p), cs) && ConfigOn(p, cs[0]) && i < |cs|
    ensures ConfigOn(p, cs[i])
  {
    forall c, d
      ensures OnOf(p)(c) && TurnOf(p)(c, d) ==> OnOf(p)(d)
    {
      TurnOn(p, c, d);
    }
    Invariance(TurnOf(p), OnOf(p), cs, i);
  }

  /** So no run of a closed program falls off the end of its code. */
  lemma {:induction false} NeverPastEnd(p: Program, c: Config)
    requires ClosedProgram(p) && ConfigOn(p, c)
    ensures Run(p, c).outcome != Failed(PastEndOfCode)
    decreases c.left, if c.Running? then 1 else 0
  {
    if c.Running? && c.frames != [] {
      AdvanceOn(p, c.frames, c.store, c.left);
      NeverPastEnd(p, Advance(p, c.frames, c.store, c.left));
    }
  }
}
