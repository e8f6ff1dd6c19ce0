/** Arguments keep their alignment when they pass from the caller's registers to the
    callee's. */
module Calls {
  import opened Wrappers
  import opened Values
  import opened Heap
  import opened Decoder
  import opened Interpreter

  /** Long and double values take two registers. */
  predicate TwoWords(desc: string) {
    desc == "J" || desc == "D"
  }

  /** Registers that the parameters before j take. */
  function Offset(params: seq<string>, j: nat): nat
    requires j <= |params|
  {
    if j == 0 then 0 else (if TwoWords(params[0]) then 2 else 1) + Offset(params[1..], j - 1)
  }

  /** Word i of an argument list exists. */
  lemma {:induction false} CodeArgsLength(regs: seq<JValue>, args: Args, i: nat, params: seq<string>)
    requires CodeArgs(regs, args, i, params).Some?
    ensures |CodeArgs(regs, args, i, params).value| == Offset(params, |params|)
    decreases |params|
  {
    if params != [] {
      CodeArgsLength(regs, args, i + Width(params[0]), params[1..]);
    }
  }

  lemma {:induction false} OffsetGrows(params: seq<string>, j: nat)
    requires j < |params|
    ensures Offset(params, j) + Width(params[j]) <= Offset(params, |params|)
    decreases j
  {
    if j > 0 {
      OffsetGrows(params[1..], j - 1);
    }
  }

  /** Parameter j of a bytecode call is the caller's word at the offset of j, and stands at
      the offset of j; a wide one stands there twice. */
  lemma {:induction false} CodeArgsAt(regs: seq<JValue>, args: Args, i: nat, params: seq<string>, j: nat)
    requires CodeArgs(regs, args, i, params).Some? && j < |params|
    ensures var vs := CodeArgs(regs, args, i, params).value;
      var at := Offset(params, j);
      && at + Width(params[j]) <= |vs|
      && Some(vs[at]) == ArgWord(regs, args, i + at)
      && (IsWide(params[j]) ==> vs[at + 1] == vs[at])
    decreases j
  {
    CodeArgsLength(regs, args, i, params);
    OffsetGrows(params, j);
    if j > 0 {
      CodeArgsAt(regs, args, i + Width(params[0]), params[1..], j - 1);
    }
  }

  /** Parameter j of a host call is the same word, once, at position j. */
  lemma {:induction false} HostArgsAt(regs: seq<JValue>, args: Args, i: nat, params: seq<string>, j: nat)
    requires HostArgs(regs, args, i, params).Some? && j < |params|
    ensures var vs := HostArgs(regs, args, i, params).value;
      |vs| == |params| && Some(vs[j]) == ArgWord(regs, args, i + Offset(params, j))
    decreases |params|
  {
    HostArgsLength(regs, args, i, params);
    if j > 0 {
      HostArgsAt(regs, args, i + Width(params[0]), params[1..], j - 1);
    }
  }

  lemma {:induction false} HostArgsLength(regs: seq<JValue>, args: Args, i: nat, params: seq<string>)
    requires HostArgs(regs, args, i, params).Some?
    ensures |HostArgs(regs, args, i, params).value| == |params|
    decreases |params|
  {
    if params != [] {
      HostArgsLength(regs, args, i + Width(params[0]), params[1..]);
    }
  }

  /** Both kinds of call accept the same argument registers. */
  lemma {:induction false} SameWords(regs: seq<JValue>, args: Args, i: nat, params: seq<string>)
    ensures CodeArgs(regs, args, i, params).Some? <==> HostArgs(regs, args, i, params).Some?
    decreases |params|
  {
    if params != [] {
      SameWords(regs, args, i + Width(params[0]), params[1..]);
    }
  }

  /** Argument k is in the k-th of the last `ins` registers; what comes before is null. */
  lemma MakeRegsAt(args: seq<JValue>, ins: nat, registers: nat, k: nat)
    requires ins <= registers && k < registers
    ensures var regs := MakeRegs(args, ins, registers).value;
      regs[k] == if registers - ins <= k < registers - ins + |args|
                 then args[k - (registers - ins)]
                 else Null
  {
  }

  /** Parameter j has its place at the base of the incoming registers, plus the receiver, plus
      the widths of the parameters before it. The place exists exactly when the method
      declares that many incoming words, and then it holds the caller's word at that offset;
      the receiver is at the base. */
  lemma ParameterLands(regs: seq<JValue>, args: Args, recv: Option<JValue>, body: Body, j: nat)
    requires body.ins <= body.registers && j < |body.params|
    requires CodeArgs(regs, args, if recv.Some? then 1 else 0, body.params).Some?
    ensures var r := if recv.Some? then 1 else 0;
      var all := Prefixed(recv, CodeArgs(regs, args, r, body.params).value);
      var made := MakeRegs(all, body.ins, body.registers).value;
      var word := r + Offset(body.params, j);
      var base := body.registers - body.ins;
      && (base + word + Width(body.params[j]) <= |made| <==> word + Width(body.params[j]) <= body.ins)
      && (word + Width(body.params[j]) <= body.ins ==>
            && Some(made[base + word]) == ArgWord(regs, args, word)
            && (IsWide(body.params[j]) ==> made[base + word + 1] == made[base + word]))
      && (recv.Some? && body.ins > 0 ==> made[base] == recv.value)
  {
    var r := if recv.Some? then 1 else 0;
    var vs := CodeArgs(regs, args, r, body.params).value;
    var all := Prefixed(recv, vs);
    var at := Offset(body.params, j);
    var base := body.registers - body.ins;
    CodeArgsAt(regs, args, r, body.params, j);
    assert all[r + at] == vs[at];
    if r + at + Width(body.params[j]) <= body.ins {
      MakeRegsAt(all, body.ins, body.registers, base + r + at);
      if IsWide(body.params[j]) {
        assert all[r + at + 1] == vs[at + 1];
        MakeRegsAt(all, body.ins, body.registers, base + r + at + 1);
      }
    }
    if recv.Some? && body.ins > 0 {
      MakeRegsAt(all, body.ins, body.registers, base);
    }
  }

  /** A host method sees the values a bytecode method would see, once each, in order. */
  lemma HostSeesSame(regs: seq<JValue>, args: Args, i: nat, params: seq<string>, j: nat)
    requires HostArgs(regs, args, i, params).Some? && j < |params|
    ensures CodeArgs(regs, args, i, params).Some?
    ensures |HostArgs(regs, args, i, params).value| == |params|
    ensures Offset(params, j) < |CodeArgs(regs, args, i, params).value|
    ensures HostArgs(regs, args, i, params).value[j] == CodeArgs(regs, args, i, params).value[Offset(params, j)]
  {
    SameWords(regs, args, i, params);
    HostArgsAt(regs, args, i, params, j);
    CodeArgsAt(regs, args, i, params, j);
  }

  lemma {:induction false} OffsetWide(params: seq<string>, j: nat)
    requires j < |params|
    ensures Offset(params, j) >= j
    ensures Offset(params, j) == j <==> forall k :: 0 <= k < j ==> !IsWide(params[k])
    decreases j
  {
    if j > 0 {
      var tail := params[1..];
      OffsetWide(tail, j - 1);
      assert forall k :: 0 <= k < j - 1 ==> tail[k] == params[k + 1];
      if forall k :: 0 <= k < j - 1 ==> !IsWide(tail[k]) {
        forall k | 1 <= k < j
          ensures !IsWide(params[k])
        {
          assert tail[k - 1] == params[k];
        }
      }
    }
  }

  /** What a method entered with these arguments finds where it looks for parameter j. */
  function Sees(args: seq<JValue>, params: seq<string>, ins: nat, registers: nat, j: nat): JValue
    requires ins <= registers && j < |params| && Offset(params, j) < ins
  {
    MakeRegs(args, ins, registers).value[registers - ins + Offset(params, j)]
  }

  lemma HostEntrySees(args: seq<JValue>, params: seq<string>, ins: nat, registers: nat, j: nat)
    requires ins <= registers && j < |params| && Offset(params, j) < ins
    ensures Sees(args, params, ins, registers, j)
         == if Offset(params, j) < |args| then args[Offset(params, j)] else Null
  {
    MakeRegsAt(args, ins, registers, registers - ins + Offset(params, j));
  }

  predicate Finds(args: seq<JValue>, params: seq<string>, ins: nat, registers: nat, j: nat)
    requires ins <= registers && j < |params| && Offset(params, j) < ins
  {
    |args| == |params| ==> Sees(args, params, ins, registers, j) == args[j]
  }

  /** A call from the host passes one value for each parameter, wide or not. Where the method
      looks for parameter j it finds the argument numbered by the offset of j; so it finds
      argument j, whatever the arguments are, exactly when no parameter before it is wide. */
  lemma HostEntryLands(params: seq<string>, ins: nat, registers: nat, j: nat)
    requires ins <= registers && j < |params| && Offset(params, j) < ins
    ensures (forall args :: Finds(args, params, ins, registers, j)) <==> forall k :: 0 <= k < j ==> !IsWide(params[k])
  {
    OffsetWide(params, j);
    if Offset(params, j) == j {
      forall args
        ensures Finds(args, params, ins, registers, j)
      {
        HostEntrySees(args, params, ins, registers, j);
      }
    } else {
      var one := Nulls(|params|)[j := Int(1)];
      HostEntrySees(one, params, ins, registers, j);
      assert !Finds(one, params, ins, registers, j);
    }
  }

  // ---- what a call hands over ----

  /** The value is in the register that a call instruction names for argument word i. */
  predicate Names(regs: seq<JValue>, args: Args, i: nat, v: JValue) {
    if args.range then args.base + i < |regs| && regs[args.base + i] == v
    else i < |args.regs| && args.regs[i] < |regs| && regs[args.regs[i]] == v
  }

  predicate Named(regs: seq<JValue>, args: Args, i: nat) {
    if args.range then args.base + i < |regs| else i < |args.regs| && args.regs[i] < |regs|
  }

  function Receivers(isStatic: bool): nat {
    if isStatic then 0 else 1
  }

  /** Parameter j, whose words start at number `at` of the incoming ones, is the value in the
      caller's register that the instruction names for that word, twice if it is wide. */
  predicate HandsOne(regs: seq<JValue>, args: Args, desc: string, at: nat, incoming: seq<JValue>) {
    && (at < |incoming| ==> Names(regs, args, at, incoming[at]))
    && (TwoWords(desc) && at + 1 < |incoming| ==> Names(regs, args, at, incoming[at + 1]))
  }

  /** The registers of a method that was called: the last `ins` of them hold the receiver, then
      the parameters in order, each where the ones before it end; the rest is null. */
  predicate HandsOver(regs: seq<JValue>, args: Args, isStatic: bool, body: Body, callee: seq<JValue>) {
    && body.ins <= body.registers && |callee| == body.registers
    && var base := body.registers - body.ins;
       var r := Receivers(isStatic);
       && (!isStatic && body.ins > 0 ==> Names(regs, args, 0, callee[base]))
       && (forall j :: 0 <= j < |body.params| ==>
             HandsOne(regs, args, body.params[j], r + Offset(body.params, j), callee[base..]))
       && forall k :: 0 <= k < body.registers && (k < base || base + r + Offset(body.params, |body.params|) <= k)
            ==> callee[k] == Null
  }

  /** The registers that a call names for the parameters, from word i on, exist. */
  predicate NamedFrom(regs: seq<JValue>, args: Args, i: nat, params: seq<string>) {
    forall j :: 0 <= j < |params| ==> Named(regs, args, i + Offset(params, j))
  }

  /** So does the one for the receiver. */
  predicate AllNamed(regs: seq<JValue>, args: Args, isStatic: bool, params: seq<string>) {
    (isStatic || Named(regs, args, 0)) && NamedFrom(regs, args, Receivers(isStatic), params)
  }

  lemma WordNamed(regs: seq<JValue>, args: Args, i: nat)
    ensures ArgWord(regs, args, i).Some? <==> Named(regs, args, i)
    ensures forall v :: ArgWord(regs, args, i) == Some(v) <==> Names(regs, args, i, v)
  {
  }

  lemma NamedSplit(regs: seq<JValue>, args: Args, i: nat, params: seq<string>)
    requires params != []
    ensures NamedFrom(regs, args, i, params)
       <==> Named(regs, args, i) && NamedFrom(regs, args, i + Width(params[0]), params[1..])
  {
    var tail, next := params[1..], i + Width(params[0]);
    assert Offset(params, 0) == 0;
    if NamedFrom(regs, args, i, params) {
      forall j | 0 <= j < |tail|
        ensures Named(regs, args, next + Offset(tail, j))
      {
        assert Named(regs, args, i + Offset(params, j + 1));
      }
    }
    if Named(regs, args, i) && NamedFrom(regs, args, next, tail) {
      forall j | 0 <= j < |params|
        ensures Named(regs, args, i + Offset(params, j))
      {
        if j > 0 {
          assert Named(regs, args, next + Offset(tail, j - 1));
        }
      }
    }
  }

  lemma {:induction false} CodeArgsNamed(regs: seq<JValue>, args: Args, i: nat, params: seq<string>)
    ensures CodeArgs(regs, args, i, params).Some? <==> NamedFrom(regs, args, i, params)
    decreases |params|
  {
    if params != [] {
      WordNamed(regs, args, i);
      NamedSplit(regs, args, i, params);
      CodeArgsNamed(regs, args, i + Width(params[0]), params[1..]);
    }
  }

  lemma HandsOverParameter(regs: seq<JValue>, args: Args, recv: Option<JValue>, body: Body, j: nat)
    requires body.ins <= body.registers && j < |body.params|
    requires CodeArgs(regs, args, if recv.Some? then 1 else 0, body.params).Some?
    ensures var r := if recv.Some? then 1 else 0;
      var made := MakeRegs(Prefixed(recv, CodeArgs(regs, args, r, body.params).value), body.ins, body.registers).value;
      HandsOne(regs, args, body.params[j], r + Offset(body.params, j), made[body.registers - body.ins..])
  {
    var r := if recv.Some? then 1 else 0;
    var vs := CodeArgs(regs, args, r, body.params).value;
    var all := Prefixed(recv, vs);
    var base, at := body.registers - body.ins, Offset(body.params, j);
    CodeArgsAt(regs, args, r, body.params, j);
    WordNamed(regs, args, r + at);
    assert all[r + at] == vs[at];
    if r + at < body.ins {
      MakeRegsAt(all, body.ins, body.registers, base + r + at);
    }
    if TwoWords(body.params[j]) && r + at + 1 < body.ins {
      assert all[r + at + 1] == vs[at + 1];
      MakeRegsAt(all, body.ins, body.registers, base + r + at + 1);
    }
  }

  lemma HandsOverParameters(regs: seq<JValue>, args: Args, recv: Option<JValue>, body: Body, vs: seq<JValue>,
                            made: seq<JValue>)
    requires body.ins <= body.registers
    requires CodeArgs(regs, args, if recv.Some? then 1 else 0, body.params) == Some(vs)
    requires Some(made) == MakeRegs(Prefixed(recv, vs), body.ins, body.registers)
    ensures var r, incoming := if recv.Some? then 1 else 0, made[body.registers - body.ins..];
      forall j :: 0 <= j < |body.params| ==>
        HandsOne(regs, args, body.params[j], r + Offset(body.params, j), incoming)
  {
    var r := if recv.Some? then 1 else 0;
    forall j | 0 <= j < |body.params|
      ensures HandsOne(regs, args, body.params[j], r + Offset(body.params, j), made[body.registers - body.ins..])
    {
      HandsOverParameter(regs, args, recv, body, j);
    }
  }

  lemma RestIsNull(all: seq<JValue>, ins: nat, registers: nat)
    requires ins <= registers
    ensures var made, base := MakeRegs(all, ins, registers).value, registers - ins;
      forall k :: 0 <= k < registers && (k < base || base + |all| <= k) ==> made[k] == Null
  {
    forall k | 0 <= k < registers && (k < registers - ins || registers - ins + |all| <= k)
      ensures MakeRegs(all, ins, registers).value[k] == Null
    {
      MakeRegsAt(all, ins, registers, k);
    }
  }

  lemma HandsOverAll(regs: seq<JValue>, args: Args, recv: Option<JValue>, body: Body, vs: seq<JValue>,
                     made: seq<JValue>)
    requires body.ins <= body.registers && (recv.Some? ==> Names(regs, args, 0, recv.value))
    requires CodeArgs(regs, args, if recv.Some? then 1 else 0, body.params) == Some(vs)
    requires Some(made) == MakeRegs(Prefixed(recv, vs), body.ins, body.registers)
    ensures HandsOver(regs, args, recv.None?, body, made)
  {
    var r := if recv.Some? then 1 else 0;
    var base := body.registers - body.ins;
    CodeArgsLength(regs, args, r, body.params);
    HandsOverParameters(regs, args, recv, body, vs, made);
    RestIsNull(Prefixed(recv, vs), body.ins, body.registers);
    if recv.Some? && body.ins > 0 {
      MakeRegsAt(Prefixed(recv, vs), body.ins, body.registers, base);
    }
  }

  /** A bytecode call, told by the caller's registers and the instruction alone. The callee
      starts at its beginning with the registers it was handed; the caller waits after the
      call. The call fails exactly when the method, a register that the instruction names, or
      room for the incoming words is missing. */
  lemma CodeCalled(p: Program, f: Frame, c: Flow, h: Store, b: nat)
    requires c.Call? && c.target.Bytecode?
    ensures var n := c.target.body;
      var r := DoCall(p, f, c, h, b);
      if n < |p.bodies| && p.bodies[n].ins <= p.bodies[n].registers
         && AllNamed(f.regs, c.args, c.isStatic, p.bodies[n].params)
      then
        && r.Enters? && r.frame == f.(pc := c.retPc) && r.store == h && r.left == b
        && r.callee == Frame(n, p.bodies[n].dex, p.bodies[n].code, p.bodies[n].tries, r.callee.regs, 0, 0, Null, None)
        && HandsOver(f.regs, c.args, c.isStatic, p.bodies[n], r.callee.regs)
      else r == CallFails(Panic, h, b)
  {
    var n := c.target.body;
    WordNamed(f.regs, c.args, 0);
    if n < |p.bodies| {
      var body := p.bodies[n];
      CodeArgsNamed(f.regs, c.args, Receivers(c.isStatic), body.params);
      if body.ins <= body.registers && AllNamed(f.regs, c.args, c.isStatic, body.params) {
        var recv := if c.isStatic then None else ArgWord(f.regs, c.args, 0);
        var vs := CodeArgs(f.regs, c.args, Receivers(c.isStatic), body.params).value;
        HandsOverAll(f.regs, c.args, recv, body, vs, MakeRegs(Prefixed(recv, vs), body.ins, body.registers).value);
      }
    }
  }

  /** What a host method is given: the receiver, then one value for each parameter. */
  predicate Given(regs: seq<JValue>, args: Args, isStatic: bool, params: seq<string>, vs: seq<JValue>) {
    var r := Receivers(isStatic);
    && |vs| == r + |params|
    && (!isStatic ==> Names(regs, args, 0, vs[0]))
    && forall j :: 0 <= j < |params| ==> Names(regs, args, r + Offset(params, j), vs[r + j])
  }

  /** After a host method: a constructor that returns an object with a payload has lent it to
      the receiver; otherwise nothing has changed. */
  predicate Lent(isInit: bool, receiver: Option<JValue>, v: JValue, g: Store, after: Store) {
    && after.free == g.free && after.tables == g.tables && |after.objects| == |g.objects|
    && forall i :: 0 <= i < |g.objects| ==>
         after.objects[i] == if isInit && receiver == Some(Obj(i)) && v.Obj? && v.id < |g.objects|
                                && g.objects[v.id].native.Some?
                             then JObject(g.objects[i].cls, g.objects[i].fields, g.objects[v.id].native)
                             else g.objects[i]
  }

  /** A host call, told the same way: the method gets the named values, and its outcome is the
      caller's: the value in the result register, its exception pending, or the end. */
  lemma HostCalled(p: Program, f: Frame, c: Flow, h: Store, b: nat) returns (vs: seq<JValue>)
    requires c.Call? && c.target.Host?
    ensures !AllNamed(f.regs, c.args, c.isStatic, c.ref.params) ==> DoCall(p, f, c, h, b) == CallFails(Panic, h, b)
    ensures AllNamed(f.regs, c.args, c.isStatic, c.ref.params) ==>
      && Given(f.regs, c.args, c.isStatic, c.ref.params, vs)
      && var r := DoCall(p, f, c, h, b);
         match p.host(c.target.native, vs, h, b)
         case HostOk(v, g, left) =>
           && r.Continues? && r.frame == f.(result := v, pc := c.retPc) && r.left == Clip(left, b)
           && Lent(c.ref.isInit, if c.isStatic then None else Some(vs[0]), v, g, r.store)
         case HostThrow(ex, g, left) =>
           r == Raises(f.(pc := c.retPc, pending := Some(Obj(ex))), ex, g, Clip(left, b))
         case HostFatal(code, g, left) => r == CallFails(Fault(code), g, Clip(left, b))
  {
    var r := Receivers(c.isStatic);
    vs := [];
    WordNamed(f.regs, c.args, 0);
    CodeArgsNamed(f.regs, c.args, r, c.ref.params);
    SameWords(f.regs, c.args, r, c.ref.params);
    if AllNamed(f.regs, c.args, c.isStatic, c.ref.params) {
      var recv := if c.isStatic then None else ArgWord(f.regs, c.args, 0);
      var gathered := HostArgs(f.regs, c.args, r, c.ref.params).value;
      vs := Prefixed(recv, gathered);
      GivenAll(f.regs, c.args, recv, c.ref.params, gathered);
    }
  }

  lemma GivenAll(regs: seq<JValue>, args: Args, recv: Option<JValue>, params: seq<string>, gathered: seq<JValue>)
    requires recv.Some? ==> Names(regs, args, 0, recv.value)
    requires HostArgs(regs, args, if recv.Some? then 1 else 0, params) == Some(gathered)
    ensures Given(regs, args, recv.None?, params, Prefixed(recv, gathered))
  {
    var r := if recv.Some? then 1 else 0;
    var vs := Prefixed(recv, gathered);
    HostArgsLength(regs, args, r, params);
    forall j | 0 <= j < |params|
      ensures Names(regs, args, r + Offset(params, j), vs[r + j])
    {
      HostArgsAt(regs, args, r, params, j);
      WordNamed(regs, args, r + Offset(params, j));
    }
  }
}
