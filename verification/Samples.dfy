/** Programs of the instruction set, from their code units to what every run of them comes
    to. */
module Samples {
  import opened Wrappers
  import opened Values
  import opened Heap
  import opened Decoder
  import opened CodeIndex
  import opened Arithmetic
  import opened Interpreter
  import opened BigStep
  import Programs
  import Calls

  // ---- one instruction of an evaluation ----

  /** The frame is about to execute instruction i. */
  predicate Before(f: Frame, i: nat, insn: Insn) {
    i < |f.code.insns| && f.pc == f.code.units[i] && f.pc < f.code.words && f.code.insns[i] == insn
  }

  /** The frame after instruction i. */
  function After(f: Frame, i: nat, regs: seq<JValue>): Frame
    requires i < |f.code.insns|
  {
    f.(errPc := f.pc, regs := regs, pc := f.pc + f.code.sizes[i])
  }

  lemma StepAt(p: Program, f: Frame, i: nat, insn: Insn, h: Store, b: nat)
    requires Before(f, i, insn)
    ensures Step(p, f, h, b) == Exec(p, f.(errPc := f.pc), insn, f.pc + f.code.sizes[i], h, b)
  {
    IndexExact(f.code.units, i);
  }

  /** A step that only moves the frame on, to g, whatever the heap and the budget. */
  ghost predicate Quiet(p: Program, f: Frame, g: Frame) {
    forall h: Store, b: nat :: Moves(Step(p, f, h, b), g, h, b)
  }

  predicate Moves(s: Stepped, g: Frame, h: Store, b: nat) {
    s.store == h && s.left == b && (s.flow.Next? || s.flow.Jump?) && g == s.frame.(pc := s.flow.pc)
  }

  lemma QuietEval(p: Program, f: Frame, g: Frame, h: Store, b: nat)
    requires b > 0 && Moves(Step(p, f, h, Spend(b)), g, h, Spend(b))
    ensures Eval(p, false, f, h, b) == Eval(p, false, g, h, Spend(b))
  {
  }

  /** An evaluation from f is one from g, n instructions later. */
  ghost predicate Reaches(p: Program, f: Frame, g: Frame, n: nat) {
    forall h: Store, b: nat :: Goes(p, f, g, n, h, b)
  }

  predicate Goes(p: Program, f: Frame, g: Frame, n: nat, h: Store, b: nat) {
    Eval(p, false, f, h, b) == if b >= n then Eval(p, false, g, h, b - n) else Stopped(OutOfBudget, h, 0)
  }

  /** From f the method returns v after n instructions, and leaves the heap alone. */
  ghost predicate Yields(p: Program, f: Frame, v: JValue, n: nat) {
    forall h: Store, b: nat :: Gives(p, f, v, n, h, b)
  }

  predicate Gives(p: Program, f: Frame, v: JValue, n: nat, h: Store, b: nat) {
    Eval(p, false, f, h, b) == if b >= n then BigStep.Value(v, h, b - n) else Stopped(OutOfBudget, h, 0)
  }

  lemma ReachesStep(p: Program, f: Frame, g: Frame)
    requires Quiet(p, f, g)
    ensures Reaches(p, f, g, 1)
  {
    forall h: Store, b: nat
      ensures Goes(p, f, g, 1, h, b)
    {
      if b > 0 {
        assert Moves(Step(p, f, h, Spend(b)), g, h, Spend(b));
        QuietEval(p, f, g, h, b);
      }
    }
  }

  lemma GoesOn(p: Program, f: Frame, g: Frame, k: Frame, m: nat, n: nat, h: Store, b: nat)
    requires Goes(p, f, g, m, h, b) && (b >= m ==> Goes(p, g, k, n, h, b - m))
    ensures Goes(p, f, k, m + n, h, b)
  {
  }

  lemma GivesOn(p: Program, f: Frame, g: Frame, v: JValue, m: nat, n: nat, h: Store, b: nat)
    requires Goes(p, f, g, m, h, b) && (b >= m ==> Gives(p, g, v, n, h, b - m))
    ensures Gives(p, f, v, m + n, h, b)
  {
  }

  lemma ReachesOn(p: Program, f: Frame, g: Frame, k: Frame, m: nat, n: nat, all: nat)
    requires Reaches(p, f, g, m) && Reaches(p, g, k, n) && all == m + n
    ensures Reaches(p, f, k, all)
  {
    forall h: Store, b: nat
      ensures Goes(p, f, k, all, h, b)
    {
      assert Goes(p, f, g, m, h, b);
      if b >= m {
        assert Goes(p, g, k, n, h, b - m);
      }
      GoesOn(p, f, g, k, m, n, h, b);
    }
  }

  lemma YieldsOn(p: Program, f: Frame, g: Frame, v: JValue, m: nat, n: nat, all: nat)
    requires Reaches(p, f, g, m) && Yields(p, g, v, n) && all == m + n
    ensures Yields(p, f, v, all)
  {
    forall h: Store, b: nat
      ensures Gives(p, f, v, all, h, b)
    {
      assert Goes(p, f, g, m, h, b);
      if b >= m {
        assert Gives(p, g, v, n, h, b - m);
      }
      GivesOn(p, f, g, v, m, n, h, b);
    }
  }

  lemma DoConst(p: Program, f: Frame, i: nat, d: nat, lit: I32)
    requires Before(f, i, Const(d, lit)) && d < |f.regs|
    ensures Reaches(p, f, After(f, i, f.regs[d := Int(lit)]), 1)
  {
    forall h: Store, b: nat
      ensures Moves(Step(p, f, h, b), After(f, i, f.regs[d := Int(lit)]), h, b)
    {
      StepAt(p, f, i, Const(d, lit), h, b);
    }
    ReachesStep(p, f, After(f, i, f.regs[d := Int(lit)]));
  }

  /** An instruction that only changes registers, whatever the heap and the budget. */
  lemma DoWrite(p: Program, f: Frame, i: nat, insn: Insn, regs: seq<JValue>)
    requires Before(f, i, insn)
    requires forall h: Store, b: nat :: Rewrites(p, f, i, insn, h, b, regs)
    ensures Reaches(p, f, After(f, i, regs), 1)
  {
    forall h: Store, b: nat
      ensures Moves(Step(p, f, h, b), After(f, i, regs), h, b)
    {
      StepAt(p, f, i, insn, h, b);
      assert Rewrites(p, f, i, insn, h, b, regs);
    }
    ReachesStep(p, f, After(f, i, regs));
  }

  predicate Rewrites(p: Program, f: Frame, i: nat, insn: Insn, h: Store, b: nat, regs: seq<JValue>)
    requires i < |f.code.sizes|
  {
    var next := f.pc + f.code.sizes[i];
    Exec(p, f.(errPc := f.pc), insn, next, h, b) == Stepped(f.(errPc := f.pc, regs := regs), h, b, Next(next))
  }

  lemma DoAdd(p: Program, f: Frame, i: nat, insn: Insn, h: Store, b: nat, d: nat, a: nat, c: nat, x: I32, y: I32)
    requires i < |f.code.sizes| && insn == BinOp(Add, d, a, c) && d < |f.regs| && a < |f.regs| && c < |f.regs|
    requires f.regs[a] == Int(x) && f.regs[c] == Int(y)
    ensures Rewrites(p, f, i, insn, h, b, f.regs[d := Int(Wrap32(x + y))])
  {
  }

  lemma DoAddLit(p: Program, f: Frame, i: nat, insn: Insn, h: Store, b: nat, d: nat, a: nat, x: I32, lit: I32)
    requires i < |f.code.sizes| && insn == BinopLit(Bin(Add), d, a, lit)
    requires d < |f.regs| && a < |f.regs| && f.regs[a] == Int(x)
    ensures Rewrites(p, f, i, insn, h, b, f.regs[d := Int(Wrap32(x + lit))])
  {
  }

  lemma DoSub(p: Program, f: Frame, i: nat, insn: Insn, h: Store, b: nat, d: nat, a: nat, c: nat, x: I32, y: I32)
    requires i < |f.code.sizes| && insn == BinOp(Sub, d, a, c) && d < |f.regs| && a < |f.regs| && c < |f.regs|
    requires f.regs[a] == Int(x) && f.regs[c] == Int(y)
    ensures Rewrites(p, f, i, insn, h, b, f.regs[d := Int(Wrap32(x - y))])
  {
  }

  lemma DoMul(p: Program, f: Frame, i: nat, insn: Insn, h: Store, b: nat, d: nat, a: nat, c: nat, x: I32, y: I32)
    requires i < |f.code.sizes| && insn == BinOp(Mul, d, a, c) && d < |f.regs| && a < |f.regs| && c < |f.regs|
    requires f.regs[a] == Int(x) && f.regs[c] == Int(y)
    ensures Rewrites(p, f, i, insn, h, b, f.regs[d := Int(Wrap32(x * y))])
  {
  }

  lemma DoMoveResult(p: Program, f: Frame, i: nat, d: nat)
    requires Before(f, i, MoveResult(d)) && d < |f.regs|
    ensures Reaches(p, f, After(f, i, f.regs[d := f.result]), 1)
  {
    forall h: Store, b: nat
      ensures Moves(Step(p, f, h, b), After(f, i, f.regs[d := f.result]), h, b)
    {
      StepAt(p, f, i, MoveResult(d), h, b);
    }
    ReachesStep(p, f, After(f, i, f.regs[d := f.result]));
  }

  /** The frame after a test. */
  function Tested(f: Frame, i: nat, taken: bool, t: nat): Frame
    requires i < |f.code.insns|
  {
    if taken then After(f, i, f.regs).(pc := t) else After(f, i, f.regs)
  }

  lemma DoTest(p: Program, f: Frame, i: nat, op: IfOp, a: nat, t: nat)
    requires Before(f, i, IfZ(op, a, t)) && a < |f.regs|
    ensures Reaches(p, f, Tested(f, i, ComparesZero(op, f.regs[a]), t), 1)
  {
    forall h: Store, b: nat
      ensures Moves(Step(p, f, h, b), Tested(f, i, ComparesZero(op, f.regs[a]), t), h, b)
    {
      StepAt(p, f, i, IfZ(op, a, t), h, b);
    }
    ReachesStep(p, f, Tested(f, i, ComparesZero(op, f.regs[a]), t));
  }

  lemma DoGoto(p: Program, f: Frame, i: nat, t: nat)
    requires Before(f, i, Goto(t))
    ensures Reaches(p, f, After(f, i, f.regs).(pc := t), 1)
  {
    forall h: Store, b: nat
      ensures Moves(Step(p, f, h, b), After(f, i, f.regs).(pc := t), h, b)
    {
      StepAt(p, f, i, Goto(t), h, b);
    }
    ReachesStep(p, f, After(f, i, f.regs).(pc := t));
  }

  lemma DoReturn(p: Program, f: Frame, i: nat, v: nat)
    requires Before(f, i, Return(v)) && v < |f.regs|
    ensures Yields(p, f, f.regs[v], 1)
  {
    forall h: Store, b: nat
      ensures Gives(p, f, f.regs[v], 1, h, b)
    {
      if b > 0 {
        StepAt(p, f, i, Return(v), h, Spend(b));
      }
    }
  }

  // ---- sweeping a listing ----

  predicate Listing(units: seq<Word>, c: Code) {
    && |c.insns| == |c.units| == |c.sizes| && c.words == |units|
    && AddressOf(c, 0) == 0
    && forall k :: 0 <= k < |c.insns| ==> c.units[k] + c.sizes[k] == AddressOf(c, k + 1)
  }

  function AddressOf(c: Code, k: nat): nat
    requires k <= |c.units|
  {
    if k < |c.units| then c.units[k] else c.words
  }

  predicate Takes(units: seq<Word>, c: Code, k: nat)
    requires k < |c.insns| == |c.units| == |c.sizes|
  {
    && c.units[k] < |units|
    && Decode(units, c.units[k]) == Ok((c.insns[k], c.units[k] + c.sizes[k]))
    && PayloadSpan(c.insns[k]) == None
  }

  /** What is left of the code from instruction k on. */
  function From(c: Code, k: nat): Code
    requires k <= |c.insns| == |c.units| == |c.sizes|
  {
    Decoded(c.insns[k..], c.units[k..], c.sizes[k..], c.words)
  }

  lemma FromNext(c: Code, k: nat)
    requires k < |c.insns| == |c.units| == |c.sizes|
    ensures var whole, rest := From(c, k), From(c, k + 1);
      && whole.insns == [c.insns[k]] + rest.insns && whole.units == [c.units[k]] + rest.units
      && whole.sizes == [c.sizes[k]] + rest.sizes && whole.words == rest.words
  {
  }

  lemma AddressNext(units: seq<Word>, c: Code, k: nat)
    requires Listing(units, c) && k < |c.insns|
    ensures AddressOf(c, k) == c.units[k] && AddressOf(c, k + 1) == c.units[k] + c.sizes[k]
  {
  }

  lemma SweepAt(units: seq<Word>, c: Code, k: nat)
    requires k < |c.insns| == |c.units| == |c.sizes| && Takes(units, c, k)
    requires Sweep(units, c.units[k] + c.sizes[k], []) == Ok(From(c, k + 1))
    ensures Sweep(units, c.units[k], []) == Ok(From(c, k))
  {
    FromNext(c, k);
    Programs.SweepNext(units, c.units[k], c.insns[k], c.units[k] + c.sizes[k], From(c, k + 1), From(c, k));
  }

  lemma {:induction false} SweepFrom(units: seq<Word>, c: Code, k: nat)
    requires Listing(units, c) && k <= |c.insns|
    requires forall i :: k <= i < |c.insns| ==> Takes(units, c, i)
    ensures Sweep(units, AddressOf(c, k), []) == Ok(From(c, k))
    decreases |c.insns| - k
  {
    if k == |c.insns| {
      Programs.SweepEnd(units);
    } else {
      SweepFrom(units, c, k + 1);
      AddressNext(units, c, k);
      SweepAt(units, c, k);
    }
  }

  /** The sweep of code without inline data, whose instructions decode one after another. */
  lemma SweepList(units: seq<Word>, c: Code)
    requires Listing(units, c) && forall k :: 0 <= k < |c.insns| ==> Takes(units, c, k)
    ensures Sweep(units, 0, []) == Ok(c)
  {
    SweepFrom(units, c, 0);
    assert From(c, 0) == c;
  }

  predicate Holds(c: Code, k: nat, insn: Insn, at: nat, size: nat)
    requires k < |c.insns| == |c.units| == |c.sizes|
  {
    c.insns[k] == insn && c.units[k] == at && c.sizes[k] == size
  }

  lemma TakesOne(units: seq<Word>, c: Code, k: nat, w: Word)
    requires k < |c.insns| == |c.units| == |c.sizes| && c.sizes[k] == 1
    requires c.units[k] < |units| && units[c.units[k]] == w && Size(Op(w)) == Some(1)
    requires c.insns[k] == Operands1(c.units[k], w, Op(w)) && PayloadSpan(c.insns[k]) == None
    ensures Takes(units, c, k)
  {
    Programs.DecodeOne(units, c.units[k], w);
  }

  lemma TakesTwo(units: seq<Word>, c: Code, k: nat, w: Word, v: Word)
    requires k < |c.insns| == |c.units| == |c.sizes| && c.sizes[k] == 2
    requires c.units[k] + 1 < |units| && units[c.units[k]] == w && units[c.units[k] + 1] == v
    requires Size(Op(w)) == Some(2)
    requires c.insns[k] == Operands2(c.units[k], w, v, Op(w)) && PayloadSpan(c.insns[k]) == None
    ensures Takes(units, c, k)
  {
    Programs.DecodeTwo(units, c.units[k], w, v);
  }

  // ---- a loop: the sum of the numbers up to n ----

  /** const/4 v0, 0; const/4 v1, 1; if-lez v2 to the end; add-int/2addr v0, v2;
      sub-int/2addr v2, v1; goto the test; return v0. */
  function SumUnits(): seq<Word> {
    [0x0012, 0x1112, 0x023d, 0x0005, 0x20b0, 0x12b1, 0xfc28, 0x000f]
  }

  function SumCode(): Code {
    Decoded([Const(0, 0), Const(1, 1), IfZ(Le, 2, 7), BinOp(Add, 0, 0, 2), BinOp(Sub, 2, 2, 1), Goto(2), Return(0)],
            [0, 1, 2, 4, 5, 6, 7], [1, 1, 2, 1, 1, 1, 1], 8)
  }

  /** The same listing, instruction by instruction. */
  predicate IsSum(c: Code) {
    && |c.insns| == |c.units| == |c.sizes| == 7 && c.words == 8
    && forall k :: 0 <= k < 7 ==> SumAt(c, k)
  }

  predicate SumAt(c: Code, k: nat)
    requires k < |c.insns| == |c.units| == |c.sizes|
  {
    if k == 0 then Holds(c, k, Const(0, 0), 0, 1)
    else if k == 1 then Holds(c, k, Const(1, 1), 1, 1)
    else if k == 2 then Holds(c, k, IfZ(Le, 2, 7), 2, 2)
    else if k == 3 then Holds(c, k, BinOp(Add, 0, 0, 2), 4, 1)
    else if k == 4 then Holds(c, k, BinOp(Sub, 2, 2, 1), 5, 1)
    else if k == 5 then Holds(c, k, Goto(2), 6, 1)
    else Holds(c, k, Return(0), 7, 1)
  }

  lemma SumHeld(units: seq<Word>)
    requires units == SumUnits()
    ensures |units| == 8 && units[0] == 0x0012 && units[1] == 0x1112 && units[2] == 0x023d
    ensures units[3] == 0x0005 && units[4] == 0x20b0 && units[5] == 0x12b1
    ensures units[6] == 0xfc28 && units[7] == 0x000f
  {
  }

  lemma SumTakesRest(units: seq<Word>, c: Code, k: nat)
    requires units == SumUnits() && IsSum(c) && 4 <= k < 7
    ensures Takes(units, c, k)
  {
    SumHeld(units);
    assert SumAt(c, k);
    if k == 4 {
      TakesOne(units, c, 4, 0x12b1);
    } else if k == 5 {
      TakesOne(units, c, 5, 0xfc28);
    } else {
      TakesOne(units, c, 6, 0x000f);
    }
  }

  lemma SumTakesTest(units: seq<Word>, c: Code)
    requires |units| == 8 && units[2] == 0x023d && units[3] == 0x0005 && IsSum(c)
    ensures Takes(units, c, 2)
  {
    assert SumAt(c, 2);
    TakesTwo(units, c, 2, 0x023d, 0x0005);
  }

  lemma SumTakes(units: seq<Word>, c: Code, k: nat)
    requires units == SumUnits() && IsSum(c) && k < 7
    ensures Takes(units, c, k)
  {
    SumHeld(units);
    assert SumAt(c, k);
    if k == 0 {
      TakesOne(units, c, 0, 0x0012);
    } else if k == 1 {
      TakesOne(units, c, 1, 0x1112);
    } else if k == 2 {
      SumTakesTest(units, c);
    } else if k == 3 {
      TakesOne(units, c, 3, 0x20b0);
    } else {
      SumTakesRest(units, c, k);
    }
  }

  lemma SumListed(units: seq<Word>, c: Code)
    requires |units| == 8 && IsSum(c)
    ensures Listing(units, c)
  {
    assert SumAt(c, 0);
    forall k | 0 <= k < 7
      ensures c.units[k] + c.sizes[k] == AddressOf(c, k + 1)
    {
      assert SumAt(c, k) && (k < 6 ==> SumAt(c, k + 1));
    }
  }

  lemma SumSwept(units: seq<Word>, s: Code)
    requires units == SumUnits() && IsSum(s)
    ensures Sweep(units, 0, []) == Ok(s)
  {
    forall k | 0 <= k < 7
      ensures Takes(units, s, k)
    {
      SumTakes(units, s, k);
    }
    SumHeld(units);
    SumListed(units, s);
    SweepList(units, s);
  }

  lemma SumListing()
    ensures IsSum(SumCode())
  {
  }

  lemma SumDecodes(units: seq<Word>, c: Code)
    requires units == SumUnits() && Sweep(units, 0, []) == Ok(c)
    ensures IsSum(c)
  {
    SumListing();
    SumSwept(units, SumCode());
  }

  function Triangle(n: int): nat
    decreases if n > 0 then n else 0
  {
    if n <= 0 then 0 else n + Triangle(n - 1)
  }

  lemma {:induction false} TwiceTriangle(n: nat)
    ensures 2 * Triangle(n) == n * (n + 1)
  {
    if n > 0 {
      TwiceTriangle(n - 1);
      assert n * (n + 1) == (n - 1) * n + 2 * n;
    }
  }

  function Rounds(n: int): nat {
    if n > 0 then n else 0
  }

  predicate InSum(c: Code, f: Frame, pc: nat, acc: I32, n: I32) {
    f.code == c && f.pc == pc && f.regs == [Int(acc), Int(1), Int(n)]
  }

  /** What the loop adds up to. */
  function SumFrom(acc: I32, n: int): I32
    decreases Rounds(n)
  {
    if n <= 0 then acc else SumFrom(Wrap32(acc + n), n - 1)
  }

  /** Adding to a wrapped number and wrapping again is wrapping once. */
  lemma WrapSum(x: int, y: int)
    ensures Wrap32(Wrap32(x) + y) == Wrap32(x + y)
  {
  }

  lemma {:induction false} SumFromTriangle(acc: I32, n: int)
    ensures SumFrom(acc, n) == Wrap32(acc + Triangle(n))
    decreases Rounds(n)
  {
    if n > 0 {
      SumFromTriangle(Wrap32(acc + n), n - 1);
      WrapSum(acc + n, Triangle(n - 1));
    }
  }

  lemma SumTested(c: Code, f: Frame, acc: I32, n: I32)
    requires IsSum(c) && InSum(c, f, 2, acc, n)
    ensures ComparesZero(Le, f.regs[2]) <==> n <= 0
    ensures InSum(c, Tested(f, 2, n <= 0, 7), if n > 0 then 4 else 7, acc, n)
  {
    assert SumAt(c, 2);
  }

  lemma SumTest(p: Program, c: Code, f: Frame, acc: I32, n: I32) returns (g: Frame)
    requires IsSum(c) && InSum(c, f, 2, acc, n)
    ensures Reaches(p, f, g, 1) && InSum(c, g, if n > 0 then 4 else 7, acc, n)
  {
    assert SumAt(c, 2);
    SumTested(c, f, acc, n);
    DoTest(p, f, 2, Le, 2, 7);
    g := Tested(f, 2, ComparesZero(Le, f.regs[2]), 7);
  }

  lemma SumAdd(p: Program, c: Code, f: Frame, acc: I32, n: I32) returns (g: Frame)
    requires IsSum(c) && InSum(c, f, 4, acc, n)
    ensures Reaches(p, f, g, 1) && InSum(c, g, 5, Wrap32(acc + n), n)
  {
    assert SumAt(c, 3);
    g := After(f, 3, f.regs[0 := Int(Wrap32(acc + n))]);
    forall h: Store, b: nat
      ensures Rewrites(p, f, 3, BinOp(Add, 0, 0, 2), h, b, g.regs)
    {
      DoAdd(p, f, 3, BinOp(Add, 0, 0, 2), h, b, 0, 0, 2, acc, n);
    }
    DoWrite(p, f, 3, BinOp(Add, 0, 0, 2), g.regs);
  }

  lemma SumSub(p: Program, c: Code, f: Frame, acc: I32, n: I32) returns (g: Frame)
    requires IsSum(c) && InSum(c, f, 5, acc, n) && n > 0
    ensures Reaches(p, f, g, 1) && InSum(c, g, 6, acc, n - 1)
  {
    assert SumAt(c, 4);
    g := After(f, 4, f.regs[2 := Int(n - 1)]);
    forall h: Store, b: nat
      ensures Rewrites(p, f, 4, BinOp(Sub, 2, 2, 1), h, b, g.regs)
    {
      DoSub(p, f, 4, BinOp(Sub, 2, 2, 1), h, b, 2, 2, 1, n, 1);
    }
    DoWrite(p, f, 4, BinOp(Sub, 2, 2, 1), g.regs);
  }

  lemma SumGoto(p: Program, c: Code, f: Frame, acc: I32, n: I32) returns (g: Frame)
    requires IsSum(c) && InSum(c, f, 6, acc, n)
    ensures Reaches(p, f, g, 1) && InSum(c, g, 2, acc, n)
  {
    assert SumAt(c, 5);
    g := After(f, 5, f.regs).(pc := 2);
    DoGoto(p, f, 5, 2);
  }

  lemma SumReturn(p: Program, c: Code, f: Frame, acc: I32, n: I32)
    requires IsSum(c) && InSum(c, f, 7, acc, n)
    ensures Yields(p, f, Int(acc), 1)
  {
    assert SumAt(c, 6);
    DoReturn(p, f, 6, 0);
  }

  /** One round of the loop. */
  lemma SumRound(p: Program, c: Code, f: Frame, acc: I32, n: I32) returns (g: Frame, sum: I32)
    requires IsSum(c) && InSum(c, f, 2, acc, n) && n > 0
    ensures sum == Wrap32(acc + n) && Reaches(p, f, g, 4) && InSum(c, g, 2, sum, n - 1)
  {
    sum := Wrap32(acc + n);
    var f1 := SumTest(p, c, f, acc, n);
    var f2 := SumAdd(p, c, f1, acc, n);
    var f3 := SumSub(p, c, f2, sum, n);
    g := SumGoto(p, c, f3, sum, n - 1);
    ReachesOn(p, f, f1, f2, 1, 1, 2);
    ReachesOn(p, f2, f3, g, 1, 1, 2);
    ReachesOn(p, f, f2, g, 2, 2, 4);
  }

  /** The last turn. */
  lemma SumEnds(p: Program, c: Code, f: Frame, acc: I32, n: I32)
    requires IsSum(c) && InSum(c, f, 2, acc, n) && n <= 0
    ensures Yields(p, f, Int(SumFrom(acc, n)), Turns(n))
  {
    var g := SumTest(p, c, f, acc, n);
    SumReturn(p, c, g, acc, n);
    YieldsOn(p, f, g, Int(acc), 1, 1, 2);
  }

  function Turns(n: int): nat {
    4 * Rounds(n) + 2
  }

  lemma SumFromOn(acc: I32, n: I32)
    requires n > 0
    ensures SumFrom(acc, n) == SumFrom(Wrap32(acc + n), n - 1) && Turns(n) == 4 + Turns(n - 1)
  {
  }

  lemma SumOn(p: Program, f: Frame, g: Frame, acc: I32, n: I32, sum: I32)
    requires n > 0 && sum == Wrap32(acc + n)
    requires Reaches(p, f, g, 4) && Yields(p, g, Int(SumFrom(sum, n - 1)), Turns(n - 1))
    ensures Yields(p, f, Int(SumFrom(acc, n)), Turns(n))
  {
    SumFromOn(acc, n);
    YieldsOn(p, f, g, Int(SumFrom(acc, n)), 4, Turns(n - 1), Turns(n));
  }

  lemma {:induction false} SumLoop(p: Program, c: Code, f: Frame, acc: I32, n: I32)
    requires IsSum(c) && InSum(c, f, 2, acc, n)
    ensures Yields(p, f, Int(SumFrom(acc, n)), Turns(n))
    decreases Rounds(n)
  {
    if n <= 0 {
      SumEnds(p, c, f, acc, n);
    } else {
      var g, sum := SumRound(p, c, f, acc, n);
      SumLoop(p, c, g, sum, n - 1);
      SumOn(p, f, g, acc, n, sum);
    }
  }

  lemma SumZero(p: Program, c: Code, f: Frame, n: I32) returns (g: Frame)
    requires IsSum(c) && f.code == c && f.pc == 0 && f.regs == [Null, Null, Int(n)]
    ensures Reaches(p, f, g, 1) && g.code == c && g.pc == 1 && g.regs == [Int(0), Null, Int(n)]
  {
    assert SumAt(c, 0);
    g := After(f, 0, f.regs[0 := Int(0)]);
    DoConst(p, f, 0, 0, 0);
  }

  lemma SumOne(p: Program, c: Code, f: Frame, n: I32) returns (g: Frame)
    requires IsSum(c) && f.code == c && f.pc == 1 && f.regs == [Int(0), Null, Int(n)]
    ensures Reaches(p, f, g, 1) && InSum(c, g, 2, 0, n)
  {
    assert SumAt(c, 1);
    g := After(f, 1, f.regs[1 := Int(1)]);
    DoConst(p, f, 1, 1, 1);
  }

  lemma SumConsts(p: Program, c: Code, f: Frame, n: I32) returns (g: Frame)
    requires IsSum(c) && f.code == c && f.pc == 0 && f.regs == [Null, Null, Int(n)]
    ensures Reaches(p, f, g, 2) && InSum(c, g, 2, 0, n)
  {
    var f1 := SumZero(p, c, f, n);
    g := SumOne(p, c, f1, n);
    ReachesOn(p, f, f1, g, 1, 1, 2);
  }

  lemma SumYields(p: Program, c: Code, f: Frame, n: I32)
    requires IsSum(c) && f.code == c && f.pc == 0 && f.regs == [Null, Null, Int(n)]
    ensures Yields(p, f, Int(SumFrom(0, n)), 4 * Rounds(n) + 4)
  {
    var g := SumConsts(p, c, f, n);
    SumLoop(p, c, g, 0, n);
    YieldsOn(p, f, g, Int(SumFrom(0, n)), 2, Turns(n), 4 * Rounds(n) + 4);
  }

  /** A run that returns v after n instructions, if the budget allows them, and leaves the
      heap alone. */
  function Comes(v: JValue, n: nat, h: Store, b: nat): Config {
    if b >= n then Halted(Returned(v), h, b - n) else Halted(Failed(OutOfBudget), h, 0)
  }

  /** A run that begins with a method that yields a value. */
  lemma YieldsRun(p: Program, f: Frame, v: JValue, n: nat, h: Store, b: nat)
    requires Yields(p, f, v, n)
    ensures Run(p, Running([f], h, b)) == Comes(v, n, h, b)
  {
    assert Gives(p, f, v, n, h, b);
    RunIsEval(p, f, h, b);
  }

  /** The frame of a method that takes one int in its last register. */
  lemma Started(p: Program, k: nat, n: I32) returns (f: Frame)
    requires k < |p.bodies| && p.bodies[k].registers == 3 && p.bodies[k].ins == 1
    ensures NewFrame(p, k, [Int(n)]) == Some(f) && f.code == p.bodies[k].code
    ensures f.pc == 0 && f.regs == [Null, Null, Int(n)]
  {
    Calls.MakeRegsAt([Int(n)], 1, 3, 2);
    f := NewFrame(p, k, [Int(n)]).value;
  }

  lemma SumValue(n: I32, sum: nat)
    requires if n <= 0 then sum == 0 else 2 * sum == n * (n + 1)
    ensures SumFrom(0, n) == Wrap32(sum)
  {
    SumFromTriangle(0, n);
    if n > 0 {
      TwiceTriangle(n);
    }
  }

  /** For every program, heap, number and budget: called with n, the method returns the sum of
      the numbers from 1 to n, which is n (n + 1) / 2, modulo 2^32, and leaves the heap alone,
      if and only if the budget allows four instructions for each number and four more. */
  lemma SumRuns(p: Program, units: seq<Word>, k: nat, n: I32, sum: nat, h: Store, b: nat)
    requires k < |p.bodies| && p.bodies[k].registers == 3 && p.bodies[k].ins == 1
    requires units == SumUnits() && Ok(p.bodies[k].code) == Sweep(units, 0, [])
    requires if n <= 0 then sum == 0 else 2 * sum == n * (n + 1)
    ensures NewFrame(p, k, [Int(n)]).Some?
    ensures Run(p, Running([NewFrame(p, k, [Int(n)]).value], h, b))
         == Comes(Int(Wrap32(sum)), 4 * Rounds(n) + 4, h, b)
  {
    SumDecodes(units, p.bodies[k].code);
    SumValue(n, sum);
    var f := Started(p, k, n);
    SumYields(p, p.bodies[k].code, f, n);
    YieldsRun(p, f, Int(SumFrom(0, n)), 4 * Rounds(n) + 4, h, b);
  }

  // ---- a recursive method: the factorial of n ----

  /** if-gtz v2 to the call; const/4 v0, 1; return v0; add-int/lit8 v1, v2, -1;
      invoke-static {v1}, method 0; move-result v1; mul-int/2addr v1, v2; return v1. */
  function FactUnits(): seq<Word> {
    [0x023c, 0x0004, 0x1012, 0x000f, 0x01d8, 0xff02, 0x1071, 0x0000, 0x0001, 0x010a, 0x21b2, 0x010f]
  }

  function FactCall(): Insn {
    Invoke(Static, 0, Args(1, [1, 0, 0, 0, 0], false, 0))
  }

  function FactCode(): Code {
    Decoded([IfZ(Gt, 2, 4), Const(0, 1), Return(0), BinopLit(Bin(Add), 1, 2, -1), FactCall(), MoveResult(1),
             BinOp(Mul, 1, 1, 2), Return(1)],
            [0, 2, 3, 4, 6, 9, 10, 11], [2, 1, 1, 2, 3, 1, 1, 1], 12)
  }

  /** The same listing, instruction by instruction. */
  predicate IsFact(c: Code) {
    && |c.insns| == |c.units| == |c.sizes| == 8 && c.words == 12
    && forall k :: 0 <= k < 8 ==> FactAt(c, k)
  }

  predicate FactAt(c: Code, k: nat)
    requires k < |c.insns| == |c.units| == |c.sizes|
  {
    if k == 0 then Holds(c, k, IfZ(Gt, 2, 4), 0, 2)
    else if k == 1 then Holds(c, k, Const(0, 1), 2, 1)
    else if k == 2 then Holds(c, k, Return(0), 3, 1)
    else if k == 3 then Holds(c, k, BinopLit(Bin(Add), 1, 2, -1), 4, 2)
    else if k == 4 then Holds(c, k, FactCall(), 6, 3)
    else if k == 5 then Holds(c, k, MoveResult(1), 9, 1)
    else if k == 6 then Holds(c, k, BinOp(Mul, 1, 1, 2), 10, 1)
    else Holds(c, k, Return(1), 11, 1)
  }

  lemma FactHeld(units: seq<Word>)
    requires units == FactUnits()
    ensures |units| == 12 && units[0] == 0x023c && units[1] == 0x0004 && units[2] == 0x1012
    ensures units[3] == 0x000f && units[4] == 0x01d8 && units[5] == 0xff02 && units[6] == 0x1071
    ensures units[7] == 0 && units[8] == 1 && units[9] == 0x010a && units[10] == 0x21b2 && units[11] == 0x010f
  {
  }

  lemma FactCallTaken(units: seq<Word>, c: Code)
    requires |units| == 12 && units[6] == 0x1071 && units[7] == 0 && units[8] == 1 && IsFact(c)
    ensures Takes(units, c, 4)
  {
    assert FactAt(c, 4);
    var at: nat := 6;
    Programs.DecodeThree(units, at, 0x1071, 0, 1, FactCall());
  }

  lemma FactTakesRest(units: seq<Word>, c: Code, k: nat)
    requires units == FactUnits() && IsFact(c) && 4 <= k < 8
    ensures Takes(units, c, k)
  {
    FactHeld(units);
    assert FactAt(c, k);
    if k == 4 {
      FactCallTaken(units, c);
    } else if k == 5 {
      TakesOne(units, c, 5, 0x010a);
    } else if k == 6 {
      TakesOne(units, c, 6, 0x21b2);
    } else {
      TakesOne(units, c, 7, 0x010f);
    }
  }

  lemma FactTakesTest(units: seq<Word>, c: Code)
    requires |units| == 12 && units[0] == 0x023c && units[1] == 0x0004 && IsFact(c)
    ensures Takes(units, c, 0)
  {
    assert FactAt(c, 0);
    TakesTwo(units, c, 0, 0x023c, 0x0004);
  }

  lemma FactTakes(units: seq<Word>, c: Code, k: nat)
    requires units == FactUnits() && IsFact(c) && k < 8
    ensures Takes(units, c, k)
  {
    FactHeld(units);
    assert FactAt(c, k);
    if k == 0 {
      FactTakesTest(units, c);
    } else if k == 1 {
      TakesOne(units, c, 1, 0x1012);
    } else if k == 2 {
      TakesOne(units, c, 2, 0x000f);
    } else if k == 3 {
      TakesTwo(units, c, 3, 0x01d8, 0xff02);
    } else {
      FactTakesRest(units, c, k);
    }
  }

  lemma FactListed(units: seq<Word>, c: Code)
    requires |units| == 12 && IsFact(c)
    ensures Listing(units, c)
  {
    assert FactAt(c, 0);
    forall k | 0 <= k < 8
      ensures c.units[k] + c.sizes[k] == AddressOf(c, k + 1)
    {
      assert FactAt(c, k) && (k < 7 ==> FactAt(c, k + 1));
    }
  }

  lemma FactSwept(units: seq<Word>, s: Code)
    requires units == FactUnits() && IsFact(s)
    ensures Sweep(units, 0, []) == Ok(s)
  {
    forall k | 0 <= k < 8
      ensures Takes(units, s, k)
    {
      FactTakes(units, s, k);
    }
    FactHeld(units);
    FactListed(units, s);
    SweepList(units, s);
  }

  lemma FactListing()
    ensures IsFact(FactCode())
  {
  }

  lemma FactDecodes(units: seq<Word>, c: Code)
    requires units == FactUnits() && Sweep(units, 0, []) == Ok(c)
    ensures IsFact(c)
  {
    FactListing();
    FactSwept(units, FactCode());
  }

  function Factorial(n: int): nat
    decreases Rounds(n)
  {
    if n <= 0 then 1 else n * Factorial(n - 1)
  }

  /** What the method computes, wrapping in every call. */
  function FactFrom(n: int): I32
    decreases Rounds(n)
  {
    if n <= 0 then 1 else Wrap32(FactFrom(n - 1) * n)
  }

  lemma {:induction false} FactWraps(n: int)
    ensures FactFrom(n) == Wrap32(Factorial(n))
    decreases Rounds(n)
  {
    if n > 0 {
      FactWraps(n - 1);
      WrapProduct(Factorial(n - 1), n);
    }
  }

  /** Multiplying a wrapped number and wrapping again is wrapping once. */
  lemma WrapProduct(x: int, y: int)
    ensures Wrap32(Wrap32(x) * y) == Wrap32(y * x)
  {
    var k := (Wrap32(x) - x) / 0x1_0000_0000;
    Multiple(x);
    Distributes(x, k, y);
    WrapShift(y * x, k * y);
  }

  lemma Multiple(x: int)
    ensures Wrap32(x) == x + 0x1_0000_0000 * ((Wrap32(x) - x) / 0x1_0000_0000)
  {
  }

  lemma Distributes(x: int, k: int, y: int)
    ensures (x + 0x1_0000_0000 * k) * y == y * x + 0x1_0000_0000 * (k * y)
  {
  }

  lemma WrapShift(x: int, k: int)
    ensures Wrap32(x + 0x1_0000_0000 * k) == Wrap32(x)
  {
  }

  /** Method 0 of the frame's dex file is the recursive method, body k. */
  ghost predicate CallsItself(p: Program, k: nat) {
    && k < |p.bodies| && p.bodies[k].registers == 3 && p.bodies[k].ins == 1 && p.bodies[k].params == ["I"]
    && p.methodRef(p.bodies[k].dex, 0) == Some(MethodRef(["I"], false))
    && forall h: Store, b: nat ::
         p.resolve(Static, p.bodies[k].dex, 0, k, None, h, b) == Resolved(Bytecode(k), h, b)
  }

  /** A call of a static method with one argument, when the callee yields a value. */
  lemma DoStaticCall(p: Program, f: Frame, i: nat, g: Frame, v: JValue, k: nat, n: nat, all: nat)
    requires Before(f, i, FactCall()) && |f.regs| == 3 && f.body == k
    requires CallsItself(p, k) && f.dex == p.bodies[k].dex
    requires NewFrame(p, k, [f.regs[1]]) == Some(g) && Yields(p, g, v, n) && all == n + 1
    ensures Reaches(p, f, After(f, i, f.regs).(result := v), all)
  {
    forall h: Store, b: nat
      ensures Goes(p, f, After(f, i, f.regs).(result := v), all, h, b)
    {
      if b > 0 {
        assert Gives(p, g, v, n, h, Spend(b));
        CallEval(p, f, i, g, k, h, b);
        CallGoes(p, f, After(f, i, f.regs), g, v, n, all, h, b);
      }
    }
  }

  lemma CallGoes(p: Program, f: Frame, back: Frame, g: Frame, v: JValue, n: nat, all: nat, h: Store, b: nat)
    requires b > 0 && Gives(p, g, v, n, h, Spend(b)) && all == n + 1
    requires Eval(p, false, f, h, b) == Back(p, false, back, Eval(p, false, g, h, Spend(b)))
    ensures Goes(p, f, back.(result := v), all, h, b)
  {
    var r := Eval(p, false, g, h, Spend(b));
    if b >= all {
      var left: nat := b - all;
      assert r == BigStep.Value(v, h, left);
      BackValue(p, back, v, h, left);
    } else {
      assert r == Stopped(OutOfBudget, h, 0);
    }
  }

  lemma BackValue(p: Program, back: Frame, v: JValue, h: Store, left: nat)
    ensures Back(p, false, back, BigStep.Value(v, h, left)) == Eval(p, false, back.(result := v), h, left)
  {
  }

  lemma CallEval(p: Program, f: Frame, i: nat, g: Frame, k: nat, h: Store, b: nat)
    requires Before(f, i, FactCall()) && |f.regs| == 3 && f.body == k && b > 0
    requires CallsItself(p, k) && f.dex == p.bodies[k].dex && NewFrame(p, k, [f.regs[1]]) == Some(g)
    ensures Eval(p, false, f, h, b) == Back(p, false, After(f, i, f.regs), Eval(p, false, g, h, Spend(b)))
  {
    var c := Call(true, MethodRef(["I"], false), Bytecode(k), Args(1, [1, 0, 0, 0, 0], false, 0),
                  f.pc + f.code.sizes[i]);
    StepCalls(p, f, i, c, k, h, Spend(b));
    Entered(p, f.(errPc := f.pc), c, g, k, h, Spend(b));
    EvalCall(p, f, c, After(f, i, f.regs), g, h, b);
  }

  lemma StepCalls(p: Program, f: Frame, i: nat, c: Flow, k: nat, h: Store, b: nat)
    requires Before(f, i, FactCall()) && |f.regs| == 3 && f.body == k
    requires CallsItself(p, k) && f.dex == p.bodies[k].dex
    requires c == Call(true, MethodRef(["I"], false), Bytecode(k), Args(1, [1, 0, 0, 0, 0], false, 0),
                       f.pc + f.code.sizes[i])
    ensures Step(p, f, h, b) == Stepped(f.(errPc := f.pc), h, b, c)
  {
    StepAt(p, f, i, FactCall(), h, b);
    assert p.resolve(Static, p.bodies[k].dex, 0, k, None, h, b) == Resolved(Bytecode(k), h, b);
  }

  lemma Entered(p: Program, f: Frame, c: Flow, g: Frame, k: nat, h: Store, b: nat)
    requires c.Call? && c.isStatic && c.target == Bytecode(k) && c.args == Args(1, [1, 0, 0, 0, 0], false, 0)
    requires |f.regs| == 3 && CallsItself(p, k) && NewFrame(p, k, [f.regs[1]]) == Some(g)
    ensures DoCall(p, f, c, h, b) == Enters(f.(pc := c.retPc), g, h, b)
  {
    OneWord(f.regs, c.args);
  }

  lemma LastWord(regs: seq<JValue>, args: Args, params: seq<string>, v: JValue)
    requires |params| == 1 && |params[0]| == 1 && params[0][0] == 'I' && ArgWord(regs, args, 0) == Some(v)
    ensures CodeArgs(regs, args, 0, params) == Some([v])
  {
    var none: seq<string> := [];
    assert "J"[0] != 'I' && "D"[0] != 'I';
    assert !IsWide(params[0]) && params[1..] == none;
    assert CodeArgs(regs, args, 1, none) == Some([]);
    assert [v] + [] == [v];
  }

  lemma OneWord(regs: seq<JValue>, args: Args)
    requires |regs| == 3 && args == Args(1, [1, 0, 0, 0, 0], false, 0)
    ensures CodeArgs(regs, args, 0, ["I"]) == Some([regs[1]]) && Prefixed(None, [regs[1]]) == [regs[1]]
  {
    assert ArgWord(regs, args, 0) == Some(regs[1]);
    LastWord(regs, args, ["I"], regs[1]);
  }

  lemma EvalCall(p: Program, f: Frame, c: Flow, back: Frame, g: Frame, h: Store, b: nat)
    requires b > 0 && c.Call?
    requires Step(p, f, h, Spend(b)) == Stepped(f.(errPc := f.pc), h, Spend(b), c)
    requires DoCall(p, f.(errPc := f.pc), c, h, Spend(b)) == Enters(back, g, h, Spend(b))
    ensures Eval(p, false, f, h, b) == Back(p, false, back, Eval(p, false, g, h, Spend(b)))
  {
    EvalStep(p, f, h, b);
    FinishCalls(p, Stepped(f.(errPc := f.pc), h, Spend(b), c), Enters(back, g, h, Spend(b)));
  }

  lemma EvalStep(p: Program, f: Frame, h: Store, b: nat)
    requires b > 0
    ensures Eval(p, false, f, h, b) == Finish(p, false, Step(p, f, h, Spend(b)))
  {
  }

  lemma FinishCalls(p: Program, s: Stepped, c: Called)
    requires s.flow.Call? && DoCall(p, s.frame, s.flow, s.store, s.left) == c && c.Enters?
    ensures Finish(p, false, s) == Back(p, false, c.frame, Eval(p, false, c.callee, c.store, c.left))
  {
  }

  predicate InFact(p: Program, k: nat, f: Frame, pc: nat, x: JValue, y: JValue, n: I32)
    requires k < |p.bodies|
  {
    && f.code == p.bodies[k].code && f.body == k && f.dex == p.bodies[k].dex
    && f.pc == pc && f.regs == [x, y, Int(n)]
  }

  ghost predicate IsFactorial(p: Program, k: nat) {
    CallsItself(p, k) && IsFact(p.bodies[k].code)
  }

  lemma FactTested(p: Program, k: nat, f: Frame, n: I32)
    requires IsFactorial(p, k) && InFact(p, k, f, 0, Null, Null, n)
    ensures ComparesZero(Gt, f.regs[2]) <==> n > 0
    ensures InFact(p, k, Tested(f, 0, n > 0, 4), if n > 0 then 4 else 2, Null, Null, n)
  {
    assert FactAt(p.bodies[k].code, 0);
  }

  lemma FactTest(p: Program, k: nat, f: Frame, n: I32) returns (g: Frame)
    requires IsFactorial(p, k) && InFact(p, k, f, 0, Null, Null, n)
    ensures Reaches(p, f, g, 1) && InFact(p, k, g, if n > 0 then 4 else 2, Null, Null, n)
  {
    assert FactAt(p.bodies[k].code, 0);
    FactTested(p, k, f, n);
    DoTest(p, f, 0, Gt, 2, 4);
    g := Tested(f, 0, ComparesZero(Gt, f.regs[2]), 4);
  }

  lemma FactOne(p: Program, k: nat, f: Frame, n: I32) returns (g: Frame)
    requires IsFactorial(p, k) && InFact(p, k, f, 2, Null, Null, n)
    ensures Reaches(p, f, g, 1) && InFact(p, k, g, 3, Int(1), Null, n)
  {
    assert FactAt(p.bodies[k].code, 1);
    g := After(f, 1, f.regs[0 := Int(1)]);
    DoConst(p, f, 1, 0, 1);
  }

  lemma FactReturnsOne(p: Program, k: nat, f: Frame, n: I32)
    requires IsFactorial(p, k) && InFact(p, k, f, 3, Int(1), Null, n)
    ensures Yields(p, f, Int(1), 1)
  {
    assert FactAt(p.bodies[k].code, 2);
    DoReturn(p, f, 2, 0);
  }

  lemma FactLess(p: Program, k: nat, f: Frame, n: I32) returns (g: Frame)
    requires IsFactorial(p, k) && InFact(p, k, f, 4, Null, Null, n) && n > 0
    ensures Reaches(p, f, g, 1) && InFact(p, k, g, 6, Null, Int(n - 1), n)
  {
    assert FactAt(p.bodies[k].code, 3);
    g := After(f, 3, f.regs[1 := Int(n - 1)]);
    forall h: Store, b: nat
      ensures Rewrites(p, f, 3, BinopLit(Bin(Add), 1, 2, -1), h, b, g.regs)
    {
      DoAddLit(p, f, 3, BinopLit(Bin(Add), 1, 2, -1), h, b, 1, 2, n, -1);
    }
    DoWrite(p, f, 3, BinopLit(Bin(Add), 1, 2, -1), g.regs);
  }

  lemma FactStarts(p: Program, k: nat, n: I32) returns (f: Frame)
    requires IsFactorial(p, k)
    ensures NewFrame(p, k, [Int(n)]) == Some(f) && InFact(p, k, f, 0, Null, Null, n)
  {
    Calls.MakeRegsAt([Int(n)], 1, 3, 2);
    f := NewFrame(p, k, [Int(n)]).value;
  }

  lemma FactCalls(p: Program, k: nat, f: Frame, n: I32, g: Frame, v: I32, steps: nat, all: nat)
    returns (f': Frame)
    requires IsFactorial(p, k) && n > 0 && InFact(p, k, f, 6, Null, Int(n - 1), n)
    requires NewFrame(p, k, [Int(n - 1)]) == Some(g) && Yields(p, g, Int(v), steps)
    requires all == steps + 1
    ensures Reaches(p, f, f', all) && InFact(p, k, f', 9, Null, Int(n - 1), n) && f'.result == Int(v)
  {
    assert FactAt(p.bodies[k].code, 4);
    f' := After(f, 4, f.regs).(result := Int(v));
    DoStaticCall(p, f, 4, g, Int(v), k, steps, all);
  }

  lemma FactTakesResult(p: Program, k: nat, f: Frame, n: I32, x: I32, v: I32) returns (g: Frame)
    requires IsFactorial(p, k) && InFact(p, k, f, 9, Null, Int(x), n) && f.result == Int(v)
    ensures Reaches(p, f, g, 1) && InFact(p, k, g, 10, Null, Int(v), n)
  {
    assert FactAt(p.bodies[k].code, 5);
    g := After(f, 5, f.regs[1 := Int(v)]);
    DoMoveResult(p, f, 5, 1);
  }

  lemma FactTimes(p: Program, k: nat, f: Frame, n: I32, v: I32) returns (g: Frame)
    requires IsFactorial(p, k) && InFact(p, k, f, 10, Null, Int(v), n)
    ensures Reaches(p, f, g, 1) && InFact(p, k, g, 11, Null, Int(Wrap32(v * n)), n)
  {
    assert FactAt(p.bodies[k].code, 6);
    g := After(f, 6, f.regs[1 := Int(Wrap32(v * n))]);
    forall h: Store, b: nat
      ensures Rewrites(p, f, 6, BinOp(Mul, 1, 1, 2), h, b, g.regs)
    {
      DoMul(p, f, 6, BinOp(Mul, 1, 1, 2), h, b, 1, 1, 2, v, n);
    }
    DoWrite(p, f, 6, BinOp(Mul, 1, 1, 2), g.regs);
  }

  lemma FactReturns(p: Program, k: nat, f: Frame, n: I32, v: I32)
    requires IsFactorial(p, k) && InFact(p, k, f, 11, Null, Int(v), n)
    ensures Yields(p, f, Int(v), 1)
  {
    assert FactAt(p.bodies[k].code, 7);
    DoReturn(p, f, 7, 1);
  }

  lemma FactEnds(p: Program, k: nat, f: Frame, n: I32)
    requires IsFactorial(p, k) && InFact(p, k, f, 0, Null, Null, n) && n <= 0
    ensures Yields(p, f, Int(1), 3)
  {
    var f1 := FactTest(p, k, f, n);
    var f2 := FactOne(p, k, f1, n);
    FactReturnsOne(p, k, f2, n);
    ReachesOn(p, f, f1, f2, 1, 1, 2);
    YieldsOn(p, f, f2, Int(1), 2, 1, 3);
  }

  /** From the call to the end. */
  lemma FactFinishes(p: Program, k: nat, f: Frame, n: I32, x: I32, v: I32) returns (w: I32)
    requires IsFactorial(p, k) && InFact(p, k, f, 9, Null, Int(x), n) && f.result == Int(v)
    ensures w == Wrap32(v * n) && Yields(p, f, Int(w), 3)
  {
    var f1 := FactTakesResult(p, k, f, n, x, v);
    var f2 := FactTimes(p, k, f1, n, v);
    w := Wrap32(v * n);
    FactReturns(p, k, f2, n, w);
    ReachesOn(p, f, f1, f2, 1, 1, 2);
    YieldsOn(p, f, f2, Int(w), 2, 1, 3);
  }

  lemma FactPrepares(p: Program, k: nat, f: Frame, n: I32) returns (g: Frame)
    requires IsFactorial(p, k) && InFact(p, k, f, 0, Null, Null, n) && n > 0
    ensures Reaches(p, f, g, 2) && InFact(p, k, g, 6, Null, Int(n - 1), n)
  {
    var f1 := FactTest(p, k, f, n);
    g := FactLess(p, k, f1, n);
    ReachesOn(p, f, f1, g, 1, 1, 2);
  }

  lemma FactGoes(p: Program, k: nat, f: Frame, n: I32, g: Frame, v: I32, steps: nat)
    requires IsFactorial(p, k) && InFact(p, k, f, 0, Null, Null, n) && n > 0
    requires NewFrame(p, k, [Int(n - 1)]) == Some(g) && Yields(p, g, Int(v), steps)
    ensures Yields(p, f, Int(Wrap32(v * n)), steps + 6)
  {
    var f2 := FactPrepares(p, k, f, n);
    var f3 := FactCalls(p, k, f2, n, g, v, steps, steps + 1);
    var w := FactFinishes(p, k, f3, n, n - 1, v);
    ReachesOn(p, f, f2, f3, 2, steps + 1, steps + 3);
    YieldsOn(p, f, f3, Int(w), steps + 3, 3, steps + 6);
  }

  lemma {:induction false} FactYields(p: Program, k: nat, f: Frame, n: I32)
    requires IsFactorial(p, k) && InFact(p, k, f, 0, Null, Null, n)
    ensures Yields(p, f, Int(FactFrom(n)), 6 * Rounds(n) + 3)
    decreases Rounds(n)
  {
    if n <= 0 {
      FactEnds(p, k, f, n);
    } else {
      var g := FactStarts(p, k, n - 1);
      FactYields(p, k, g, n - 1);
      FactGoes(p, k, f, n, g, FactFrom(n - 1), 6 * Rounds(n - 1) + 3);
    }
  }

  /** For every program in which the method is its own method 0, and for every heap, number and
      budget: called with n, the method returns the factorial of n, modulo 2^32, if and only if
      the budget allows six instructions for each number and three more. Every one of the
      nested calls has its own registers, and the caller finds its own unchanged. */
  lemma FactRuns(p: Program, units: seq<Word>, k: nat, n: I32, h: Store, b: nat)
    requires CallsItself(p, k) && units == FactUnits() && Ok(p.bodies[k].code) == Sweep(units, 0, [])
    ensures NewFrame(p, k, [Int(n)]).Some?
    ensures Run(p, Running([NewFrame(p, k, [Int(n)]).value], h, b))
         == Comes(Int(Wrap32(Factorial(n))), 6 * Rounds(n) + 3, h, b)
  {
    FactDecodes(units, p.bodies[k].code);
    var f := FactStarts(p, k, n);
    FactYields(p, k, f, n);
    FactWraps(n);
    YieldsRun(p, f, Int(FactFrom(n)), 6 * Rounds(n) + 3, h, b);
  }
}
