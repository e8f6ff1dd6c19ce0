/** A recursive evaluator of method bodies, and the proof that the machine with its
    explicit stack computes the same. */
module BigStep {
  import opened Wrappers
  import opened Values
  import opened Heap
  import opened Decoder
  import opened CodeIndex
  import opened Interpreter

  /** How a method body ends. A thrown exception remembers the one first raised, which is
      what the machine reports when nothing catches it. */
  datatype Ending =
    | Value(v: JValue, store: Store, left: nat)
    | Thrown(exc: JValue, first: JValue, store: Store, left: nat)
    | Stopped(why: Failure, store: Store, left: nat)

  /** Evaluates a frame to the end of its method. A call evaluates the callee first. With
      `strict` off, a frame that still holds a pending exception prefers it to the one its
      callee threw, as the machine does. */
  function Eval(p: Program, strict: bool, f: Frame, h: Store, b: nat): (r: Ending)
    ensures r.left <= b
    decreases b, 1
  {
    if b == 0 then Stopped(OutOfBudget, h, 0)
    else Finish(p, strict, Step(p, f, h, Spend(b)))
  }

  /** The rest of a method, after an instruction of it has been executed. */
  function Finish(p: Program, strict: bool, s: Stepped): (r: Ending)
    ensures r.left <= s.left
    decreases s.left, 5
  {
    match s.flow
    case Next(pc) => Eval(p, strict, s.frame.(pc := pc), s.store, s.left)
    case Jump(pc) => Eval(p, strict, s.frame.(pc := pc), s.store, s.left)
    case Ret(v) => Value(v, s.store, s.left)
    case Raise(ex) => Handle(p, strict, s.frame, ex, ex, s.store, s.left)
    case Fail(why) => Stopped(why, s.store, s.left)
    case Call(_, _, _, _, _) => FinishCall(p, strict, DoCall(p, s.frame, s.flow, s.store, s.left))
  }

  function FinishCall(p: Program, strict: bool, c: Called): (r: Ending)
    ensures r.left <= c.left
    decreases c.left, 4
  {
    match c
    case Continues(f, h, b) => Eval(p, strict, f, h, b)
    case Raises(f, ex, h, b) => Handle(p, strict, f, Obj(ex), Obj(ex), h, b)
    case CallFails(why, h, b) => Stopped(why, h, b)
    case Enters(f, callee, h, b) => Back(p, strict, f, Eval(p, strict, callee, h, b))
  }

  /** The caller goes on with what its callee came to. */
  function Back(p: Program, strict: bool, f: Frame, r: Ending): (q: Ending)
    ensures q.left <= r.left
    decreases r.left, 3
  {
    match r
    case Value(v, h, left) => Eval(p, strict, f.(result := v), h, left)
    case Stopped(why, h, left) => Stopped(why, h, left)
    case Thrown(exc, first, h, left) => Handle(p, strict, f, Received(strict, f, exc), first, h, left)
  }

  function Received(strict: bool, f: Frame, exc: JValue): JValue {
    if !strict && f.pending.Some? then f.pending.value else exc
  }

  /** An exception arrives in a frame: the frame goes on in its handler, or ends. */
  function Handle(p: Program, strict: bool, f: Frame, exc: JValue, first: JValue, h: Store, b: nat): (r: Ending)
    ensures r.left <= b
    decreases b, 2
  {
    match HandlerIn(p, f, h, exc)
    case Found(addr) => Eval(p, strict, f.(pc := addr, pending := Some(exc)), h, b)
    case NotFound => Thrown(exc, first, h, b)
    case SearchFailed(why) => Stopped(why, h, b)
  }

  // ---- the machine does the same ----

  /** What the machine still does once the innermost frame has ended with `r`. */
  function Resume(p: Program, callers: seq<Frame>, r: Ending): (c: Config)
    ensures c.left <= r.left
  {
    match r
    case Value(v, h, b) => ReturnTo(callers, v, h, b)
    case Thrown(exc, first, h, b) => RaiseIn(p, callers, Some(exc), first, h, b)
    case Stopped(why, h, b) => Halted(Failed(why), h, b)
  }

  lemma Top(callers: seq<Frame>, f: Frame)
    ensures var s := callers + [f];
      s != [] && |s| - 1 == |callers| && s[..|callers|] == callers && s[|callers|] == f
  {
  }

  /** One turn of the unwinding loop, on the innermost frame. */
  lemma RaiseInTop(p: Program, callers: seq<Frame>, f: Frame, carried: Option<JValue>,
                   exc: JValue, first: JValue, h: Store, b: nat)
    requires Delivered(f, carried) == Some(exc)
    ensures RaiseIn(p, callers + [f], carried, first, h, b)
         == match HandlerIn(p, f, h, exc)
            case Found(addr) => Running(callers + [f.(pc := addr, pending := Some(exc))], h, b)
            case NotFound => RaiseIn(p, callers, Some(exc), first, h, b)
            case SearchFailed(why) => Halted(Failed(why), h, b)
  {
    Top(callers, f);
  }

  /** The machine started on a frame, with callers waiting below it, computes what the
      evaluator computes for the frame, and then resumes the callers with the result. */
  lemma Refines(p: Program, callers: seq<Frame>, f: Frame, h: Store, b: nat)
    ensures Run(p, Running(callers + [f], h, b)) == Run(p, Resume(p, callers, Eval(p, false, f, h, b)))
    decreases b, 1
  {
    Top(callers, f);
    if b > 0 {
      RefinesStep(p, callers, Step(p, f, h, Spend(b)));
    }
  }

  lemma RefinesStep(p: Program, callers: seq<Frame>, s: Stepped)
    ensures Run(p, Settle(p, callers, s)) == Run(p, Resume(p, callers, Finish(p, false, s)))
    decreases s.left, 5
  {
    match s.flow {
      case Next(pc) => Refines(p, callers, s.frame.(pc := pc), s.store, s.left);
      case Jump(pc) => Refines(p, callers, s.frame.(pc := pc), s.store, s.left);
      case Raise(ex) => RefinesRaise(p, callers, s.frame, ex, s.store, s.left);
      case Call(_, _, _, _, _) => RefinesCall(p, callers, DoCall(p, s.frame, s.flow, s.store, s.left));
      case _ =>
    }
  }

  lemma RefinesCall(p: Program, callers: seq<Frame>, c: Called)
    requires c.Raises? ==> c.frame.pending == Some(Obj(c.ex))
    ensures Run(p, SettleCall(p, callers, c)) == Run(p, Resume(p, callers, FinishCall(p, false, c)))
    decreases c.left, 4
  {
    match c {
      case Continues(f, h, b) => Refines(p, callers, f, h, b);
      case Raises(f, ex, h, b) => RefinesHandle(p, callers, f, None, Obj(ex), Obj(ex), h, b);
      case CallFails(_, _, _) =>
      case Enters(f, callee, h, b) =>
        assert callers + [f, callee] == (callers + [f]) + [callee];
        Refines(p, callers + [f], callee, h, b);
        RefinesBack(p, callers, f, Eval(p, false, callee, h, b));
    }
  }

  lemma RefinesBack(p: Program, callers: seq<Frame>, f: Frame, r: Ending)
    ensures Run(p, Resume(p, callers + [f], r)) == Run(p, Resume(p, callers, Back(p, false, f, r)))
    decreases r.left, 3
  {
    Top(callers, f);
    match r {
      case Value(v, h, b) => Refines(p, callers, f.(result := v), h, b);
      case Stopped(_, _, _) =>
      case Thrown(exc, first, h, b) =>
        RefinesHandle(p, callers, f, Some(exc), Received(false, f, exc), first, h, b);
    }
  }

  lemma RefinesRaise(p: Program, callers: seq<Frame>, f: Frame, ex: JValue, h: Store, b: nat)
    ensures Run(p, RaiseIn(p, callers + [f.(pending := Some(ex))], None, ex, h, b))
         == Run(p, Resume(p, callers, Handle(p, false, f, ex, ex, h, b)))
    decreases b, 3
  {
    RefinesHandle(p, callers, f.(pending := Some(ex)), None, ex, ex, h, b);
    assert HandlerIn(p, f.(pending := Some(ex)), h, ex) == HandlerIn(p, f, h, ex);
    assert forall addr :: f.(pending := Some(ex)).(pc := addr, pending := Some(ex))
                       == f.(pc := addr, pending := Some(ex));
  }

  lemma RefinesHandle(p: Program, callers: seq<Frame>, f: Frame, carried: Option<JValue>,
                      exc: JValue, first: JValue, h: Store, b: nat)
    requires Delivered(f, carried) == Some(exc)
    ensures Run(p, RaiseIn(p, callers + [f], carried, first, h, b))
         == Run(p, Resume(p, callers, Handle(p, false, f, exc, first, h, b)))
    decreases b, 2
  {
    RaiseInTop(p, callers, f, carried, exc, first, h, b);
    match HandlerIn(p, f, h, exc) {
      case Found(addr) => Refines(p, callers, f.(pc := addr, pending := Some(exc)), h, b);
      case _ =>
    }
  }

  function Final(r: Ending): Config {
    match r
    case Value(v, h, b) => Halted(Returned(v), h, b)
    case Thrown(_, first, h, b) => Halted(Uncaught(Reported(first)), h, b)
    case Stopped(why, h, b) => Halted(Failed(why), h, b)
  }

  /** A run that starts with one frame ends exactly as the evaluator says: same value, same
      uncaught exception or same failure, same heap, same budget left. */
  lemma RunIsEval(p: Program, f: Frame, h: Store, b: nat)
    ensures Run(p, Running([f], h, b)) == Final(Eval(p, false, f, h, b))
  {
    Refines(p, [], f, h, b);
    assert [] + [f] == [f];
  }

  // ---- budget ----

  /** The number of instructions a run executes. */
  function Turns(p: Program, c: Config): nat
    decreases c.left, if c.Running? then 1 else 0
  {
    if c.Halted? || c.frames == [] || c.left == 0 then 0
    else 1 + Turns(p, Advance(p, c.frames, c.store, c.left))
  }

  /** Nothing outside the engine spends budget. */
  ghost predicate Thrifty(p: Program) {
    && (forall k, d, m, f, r, h, b :: p.resolve(k, d, m, f, r, h, b).left >= b)
    && (forall n, args, h, b :: p.host(n, args, h, b).left >= b)
    && (forall i, d, regs, v, h, b :: p.other(i, d, regs, v, h, b).left >= b)
  }

  lemma StepSpends(p: Program, f: Frame, h: Store, b: nat)
    requires Thrifty(p)
    ensures Step(p, f, h, b).left == b
  {
  }

  lemma SettleSpends(p: Program, callers: seq<Frame>, s: Stepped)
    requires Thrifty(p)
    ensures Settle(p, callers, s).left == s.left
  {
  }

  lemma AdvanceSpends(p: Program, frames: seq<Frame>, h: Store, b: nat)
    requires frames != [] && b > 0
    requires Step(p, frames[|frames| - 1], h, Spend(b)).left == Spend(b)
    requires var s := Step(p, frames[|frames| - 1], h, Spend(b));
      Settle(p, frames[..|frames| - 1], s).left == s.left
    ensures Advance(p, frames, h, b).left == Spend(b)
  {
  }

  lemma TurnSpends(p: Program, frames: seq<Frame>, h: Store, b: nat)
    requires Thrifty(p) && frames != [] && b > 0
    ensures Advance(p, frames, h, b).left == Spend(b)
  {
    var n := |frames| - 1;
    StepSpends(p, frames[n], h, Spend(b));
    SettleSpends(p, frames[..n], Step(p, frames[n], h, Spend(b)));
    AdvanceSpends(p, frames, h, b);
  }

  /** Every instruction costs one unit of budget, and nothing else in the engine does; so a
      run never executes more instructions than its budget. */
  lemma {:induction false} RunSpends(p: Program, c: Config)
    ensures Turns(p, c) + Run(p, c).left <= c.left
    ensures Thrifty(p) ==> Turns(p, c) + Run(p, c).left == c.left
    decreases c.left, if c.Running? then 1 else 0
  {
    if c.Running? && c.frames != [] && c.left > 0 {
      RunSpends(p, Advance(p, c.frames, c.store, c.left));
      if Thrifty(p) {
        TurnSpends(p, c.frames, c.store, c.left);
      }
    }
  }
}
