/** Programs whose handlers begin with move-exception: in them no suspended frame holds an
    exception, and so every handler receives the exception that was thrown. */
module Discipline {
  import opened Wrappers
  import opened Values
  import opened Heap
  import opened Decoder
  import opened CodeIndex
  import opened Interpreter
  import opened Runs
  import opened Boundaries
  import opened BigStep

  predicate AtMoveException(code: Code, addr: nat) {
    var i := IndexOf(code.units, addr);
    addr < code.words && i < |code.units| && code.insns[i].MoveException?
  }

  ghost predicate HandlersMove(code: Code, tries: seq<TryItem>) {
    forall a: nat {:trigger HandlerAddr(tries, a)} :: HandlerAddr(tries, a) ==> AtMoveException(code, a)
  }

  ghost predicate AllMove(bodies: seq<Body>) {
    bodies == [] ||
    (AllMove(bodies[..|bodies| - 1]) && HandlersMove(bodies[|bodies| - 1].code, bodies[|bodies| - 1].tries))
  }

  ghost predicate Disciplined(p: Program) {
    AllMove(p.bodies)
  }

  lemma {:induction false} MoveAt(bodies: seq<Body>, m: nat)
    requires AllMove(bodies) && m < |bodies|
    ensures HandlersMove(bodies[m].code, bodies[m].tries)
  {
    if m < |bodies| - 1 {
      MoveAt(bodies[..|bodies| - 1], m);
    }
  }

  /** An exception is pending only on entry to a handler that will fetch it. */
  ghost predicate Clean(p: Program, f: Frame) {
    Belongs(p, f) && (f.pending.Some? ==> AtMoveException(f.code, f.pc))
  }

  ghost predicate Spent(p: Program, s: Stepped) {
    Belongs(p, s.frame) && (s.flow.Fail? || s.frame.pending == None)
  }

  /** After an instruction of a clean frame nothing is pending. */
  lemma StepClean(p: Program, f: Frame, h: Store, b: nat)
    ensures Clean(p, f) ==> Spent(p, Step(p, f, h, b))
  {
    var i := IndexOf(f.code.units, f.pc);
    if f.pc < f.code.words && i < |f.code.units| {
      StepFlows(p, f, i, h, b);
    }
  }

  ghost predicate CalledClean(p: Program, c: Called) {
    match c
    case Continues(f, _, _) => Clean(p, f)
    case Raises(f, _, _, _) => Belongs(p, f)
    case Enters(f, callee, _, _) => Clean(p, f) && f.pending == None && Clean(p, callee)
    case CallFails(_, _, _) => true
  }

  lemma CallClean(p: Program, f: Frame, c: Flow, h: Store, b: nat)
    requires c.Call?
    ensures Belongs(p, f) && f.pending == None ==> CalledClean(p, DoCall(p, f, c, h, b))
  {
  }

  /** A frame that catches an exception is clean in its handler. */
  lemma CaughtClean(p: Program, f: Frame, exc: JValue, h: Store)
    requires Disciplined(p) && Belongs(p, f) && HandlerIn(p, f, h, exc).Found?
    ensures Clean(p, f.(pc := HandlerIn(p, f, h, exc).addr, pending := Some(exc)))
  {
    FoundAddr(p, f.dex, h, f.tries, RaisedAt(f), exc);
    MoveAt(p.bodies, f.body);
  }

  // ---- the evaluator that always delivers what was thrown ----

  lemma EvalSame(p: Program, f: Frame, h: Store, b: nat)
    requires Disciplined(p) && Clean(p, f)
    ensures Eval(p, true, f, h, b) == Eval(p, false, f, h, b)
    decreases b, 1
  {
    if b > 0 {
      StepClean(p, f, h, Spend(b));
      FinishSame(p, Step(p, f, h, Spend(b)));
    }
  }

  lemma FinishSame(p: Program, s: Stepped)
    requires Disciplined(p) && Spent(p, s)
    ensures Finish(p, true, s) == Finish(p, false, s)
    decreases s.left, 5
  {
    match s.flow {
      case Next(pc) => EvalSame(p, s.frame.(pc := pc), s.store, s.left);
      case Jump(pc) => EvalSame(p, s.frame.(pc := pc), s.store, s.left);
      case Raise(ex) => HandleSame(p, s.frame, ex, ex, s.store, s.left);
      case Call(_, _, _, _, _) =>
        CallClean(p, s.frame, s.flow, s.store, s.left);
        FinishCallSame(p, DoCall(p, s.frame, s.flow, s.store, s.left));
      case _ =>
    }
  }

  lemma FinishCallSame(p: Program, c: Called)
    requires Disciplined(p) && CalledClean(p, c)
    ensures FinishCall(p, true, c) == FinishCall(p, false, c)
    decreases c.left, 4
  {
    match c {
      case Continues(f, h, b) => EvalSame(p, f, h, b);
      case Raises(f, ex, h, b) => HandleSame(p, f, Obj(ex), Obj(ex), h, b);
      case CallFails(_, _, _) =>
      case Enters(f, callee, h, b) =>
        EvalSame(p, callee, h, b);
        BackSame(p, f, Eval(p, false, callee, h, b));
    }
  }

  lemma BackSame(p: Program, f: Frame, r: Ending)
    requires Disciplined(p) && Clean(p, f) && f.pending == None
    ensures Back(p, true, f, r) == Back(p, false, f, r)
    decreases r.left, 3
  {
    match r {
      case Value(v, h, b) => EvalSame(p, f.(result := v), h, b);
      case Thrown(exc, first, h, b) => HandleSame(p, f, exc, first, h, b);
      case Stopped(_, _, _) =>
    }
  }

  lemma HandleSame(p: Program, f: Frame, exc: JValue, first: JValue, h: Store, b: nat)
    requires Disciplined(p) && Belongs(p, f)
    ensures Handle(p, true, f, exc, first, h, b) == Handle(p, false, f, exc, first, h, b)
    decreases b, 2
  {
    if HandlerIn(p, f, h, exc).Found? {
      CaughtClean(p, f, exc, h);
      EvalSame(p, f.(pc := HandlerIn(p, f, h, exc).addr, pending := Some(exc)), h, b);
    }
  }

  /** In a disciplined program the machine computes what the evaluator computes that never
      looks at a caller's pending exception. */
  lemma RunIsStrict(p: Program, f: Frame, h: Store, b: nat)
    requires Disciplined(p) && Clean(p, f)
    ensures Run(p, Running([f], h, b)) == Final(Eval(p, true, f, h, b))
  {
    RunIsEval(p, f, h, b);
    EvalSame(p, f, h, b);
  }

  // ---- what leaves a method is what was thrown in it ----

  lemma EvalThrows(p: Program, f: Frame, h: Store, b: nat)
    ensures var r := Eval(p, true, f, h, b); r.Thrown? ==> r.exc == r.first
    decreases b, 1
  {
    if b > 0 {
      FinishThrows(p, Step(p, f, h, Spend(b)));
    }
  }

  lemma FinishThrows(p: Program, s: Stepped)
    ensures var r := Finish(p, true, s); r.Thrown? ==> r.exc == r.first
    decreases s.left, 5
  {
    match s.flow {
      case Next(pc) => EvalThrows(p, s.frame.(pc := pc), s.store, s.left);
      case Jump(pc) => EvalThrows(p, s.frame.(pc := pc), s.store, s.left);
      case Raise(ex) => HandleThrows(p, s.frame, ex, s.store, s.left);
      case Call(_, _, _, _, _) => FinishCallThrows(p, DoCall(p, s.frame, s.flow, s.store, s.left));
      case _ =>
    }
  }

  lemma FinishCallThrows(p: Program, c: Called)
    ensures var r := FinishCall(p, true, c); r.Thrown? ==> r.exc == r.first
    decreases c.left, 4
  {
    match c {
      case Continues(f, h, b) => EvalThrows(p, f, h, b);
      case Raises(f, ex, h, b) => HandleThrows(p, f, Obj(ex), h, b);
      case CallFails(_, _, _) =>
      case Enters(f, callee, h, b) =>
        EvalThrows(p, callee, h, b);
        BackThrows(p, f, Eval(p, true, callee, h, b));
    }
  }

  lemma BackThrows(p: Program, f: Frame, r: Ending)
    requires r.Thrown? ==> r.exc == r.first
    ensures var q := Back(p, true, f, r); q.Thrown? ==> q.exc == q.first
    decreases r.left, 3
  {
    match r {
      case Value(v, h, b) => EvalThrows(p, f.(result := v), h, b);
      case Thrown(exc, first, h, b) => HandleThrows(p, f, exc, h, b);
      case Stopped(_, _, _) =>
    }
  }

  lemma HandleThrows(p: Program, f: Frame, exc: JValue, h: Store, b: nat)
    ensures var r := Handle(p, true, f, exc, exc, h, b); r.Thrown? ==> r.exc == r.first
    decreases b, 2
  {
    if HandlerIn(p, f, h, exc).Found? {
      EvalThrows(p, f.(pc := HandlerIn(p, f, h, exc).addr, pending := Some(exc)), h, b);
    }
  }

  /** An uncaught exception of a disciplined run is reported by the id of the very object
      that left the outermost method. */
  lemma UncaughtIsThrown(p: Program, f: Frame, h: Store, b: nat)
    requires Disciplined(p) && Clean(p, f) && Eval(p, false, f, h, b).Thrown?
    ensures Run(p, Running([f], h, b)).outcome == Uncaught(Reported(Eval(p, false, f, h, b).exc))
  {
    RunIsEval(p, f, h, b);
    EvalSame(p, f, h, b);
    EvalThrows(p, f, h, b);
  }

  // ---- no suspended frame holds an exception ----

  ghost predicate AllQuiet(p: Program, frames: seq<Frame>) {
    frames == [] ||
    (var f := frames[|frames| - 1];
     AllQuiet(p, frames[..|frames| - 1]) && Belongs(p, f) && f.pending == None)
  }

  ghost predicate StackClean(p: Program, c: Config) {
    var frames := FramesOf(c);
    frames == [] || (AllQuiet(p, frames[..|frames| - 1]) && Clean(p, frames[|frames| - 1]))
  }

  lemma PushedQuiet(p: Program, callers: seq<Frame>, f: Frame)
    requires AllQuiet(p, callers) && Belongs(p, f) && f.pending == None
    ensures AllQuiet(p, callers + [f])
  {
    assert (callers + [f])[..|callers|] == callers;
  }

  lemma PushedClean(p: Program, callers: seq<Frame>, f: Frame, h: Store, b: nat)
    requires AllQuiet(p, callers) && Clean(p, f)
    ensures StackClean(p, Running(callers + [f], h, b))
  {
    assert (callers + [f])[..|callers|] == callers;
  }

  lemma {:induction false} UnwindClean(p: Program, frames: seq<Frame>, h: Store, carried: Option<JValue>, b: nat)
    requires Disciplined(p)
    requires frames != [] ==> AllQuiet(p, frames[..|frames| - 1]) && Belongs(p, frames[|frames| - 1])
    ensures var r := Unwind(p, frames, h, carried);
      r.Caught? ==> StackClean(p, Running(r.frames, h, b))
    decreases |frames|
  {
    if frames != [] {
      var n := |frames| - 1;
      var f := frames[n];
      var exc := Delivered(f, carried);
      if exc.Some? {
        var found := HandlerIn(p, f, h, exc.value);
        if found.Found? {
          CaughtClean(p, f, exc.value, h);
          PushedClean(p, frames[..n], f.(pc := found.addr, pending := exc), h, b);
        } else {
          UnwindClean(p, frames[..n], h, exc, b);
        }
      }
    }
  }

  lemma RaiseClean(p: Program, callers: seq<Frame>, f: Frame, first: JValue, h: Store, b: nat)
    requires Disciplined(p) && AllQuiet(p, callers) && Belongs(p, f)
    ensures StackClean(p, RaiseIn(p, callers + [f], None, first, h, b))
  {
    assert (callers + [f])[..|callers|] == callers;
    UnwindClean(p, callers + [f], h, None, b);
  }

  lemma ReturnClean(p: Program, callers: seq<Frame>, v: JValue, h: Store, b: nat)
    requires AllQuiet(p, callers)
    ensures StackClean(p, ReturnTo(callers, v, h, b))
  {
    if callers != [] {
      var n := |callers| - 1;
      PushedClean(p, callers[..n], callers[n].(result := v), h, b);
    }
  }

  lemma EntersClean(p: Program, callers: seq<Frame>, f: Frame, callee: Frame, h: Store, b: nat)
    requires AllQuiet(p, callers) && Belongs(p, f) && f.pending == None && Clean(p, callee)
    ensures StackClean(p, Running(callers + [f, callee], h, b))
  {
    PushedQuiet(p, callers, f);
    PushedClean(p, callers + [f], callee, h, b);
    assert callers + [f, callee] == (callers + [f]) + [callee];
  }

  lemma SettleCallClean(p: Program, callers: seq<Frame>, c: Called)
    requires Disciplined(p) && AllQuiet(p, callers) && CalledClean(p, c)
    ensures StackClean(p, SettleCall(p, callers, c))
  {
    match c {
      case Continues(f, h, b) => PushedClean(p, callers, f, h, b);
      case Raises(f, ex, h, b) => RaiseClean(p, callers, f, Obj(ex), h, b);
      case Enters(f, callee, h, b) => EntersClean(p, callers, f, callee, h, b);
      case CallFails(_, _, _) =>
    }
  }

  lemma SettleClean(p: Program, callers: seq<Frame>, s: Stepped)
    ensures Disciplined(p) && AllQuiet(p, callers) && Spent(p, s) ==> StackClean(p, Settle(p, callers, s))
  {
    if Disciplined(p) && AllQuiet(p, callers) && Spent(p, s) {
      match s.flow {
        case Next(pc) => PushedClean(p, callers, s.frame.(pc := pc), s.store, s.left);
        case Jump(pc) => PushedClean(p, callers, s.frame.(pc := pc), s.store, s.left);
        case Ret(v) => ReturnClean(p, callers, v, s.store, s.left);
        case Raise(ex) => RaiseClean(p, callers, s.frame.(pending := Some(ex)), ex, s.store, s.left);
        case Fail(_) =>
        case Call(_, _, _, _, _) =>
          CallClean(p, s.frame, s.flow, s.store, s.left);
          SettleCallClean(p, callers, DoCall(p, s.frame, s.flow, s.store, s.left));
      }
    }
  }

  lemma AdvanceClean(p: Program, frames: seq<Frame>, h: Store, b: nat)
    requires Disciplined(p) && frames != []
    requires AllQuiet(p, frames[..|frames| - 1]) && Clean(p, frames[|frames| - 1])
    ensures StackClean(p, Advance(p, frames, h, b))
  {
    if b > 0 {
      var n := |frames| - 1;
      StepClean(p, frames[n], h, Spend(b));
      SettleClean(p, frames[..n], Step(p, frames[n], h, Spend(b)));
    }
  }

  ghost function CleanOf(p: Program): Config -> bool {
    c => StackClean(p, c)
  }

  lemma TurnClean(p: Program, c: Config, d: Config)
    ensures Disciplined(p) && CleanOf(p)(c) && TurnOf(p)(c, d) ==> CleanOf(p)(d)
  {
    if Disciplined(p) && StackClean(p, c) && Turn(p, c, d) {
      AdvanceClean(p, c.frames, c.store, c.left);
    }
  }

  /** In every state of every run of a disciplined program, no suspended frame holds a
      pending exception. */
  lemma RunClean(p: Program, cs: seq<Config>, i: nat)
    requires Disciplined(p) && IsRun(TurnOf(p), cs) && StackClean(p, cs[0]) && i < |cs|
    ensures StackClean(p, cs[i])
  {
    forall c, d
      ensures CleanOf(p)(c) && TurnOf(p)(c, d) ==> CleanOf(p)(d)
    {
      TurnClean(p, c, d);
    }
    Invariance(TurnOf(p), CleanOf(p), cs, i);
  }
}
