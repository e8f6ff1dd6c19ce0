/** Which handler an exception reaches, and when it escapes. */
module Unwinding {
  import opened Wrappers
  import opened Values
  import opened Heap
  import opened Decoder
  import opened CodeIndex
  import opened Interpreter
  import Assembler
  import Programs

  // ---- within a frame ----

  /** Handler k is the first of a try whose type catches the exception. */
  predicate FirstCatch(p: Program, dex: nat, h: Store, handlers: seq<Handler>, exc: JValue, k: nat) {
    && k < |handlers|
    && Catches(p, dex, h, handlers[k].ty, exc) == Ok(true)
    && Passed(p, dex, h, handlers, exc, k)
  }

  /** None of the first k handlers catches the exception. */
  predicate Passed(p: Program, dex: nat, h: Store, handlers: seq<Handler>, exc: JValue, k: nat) {
    k <= |handlers| && forall j :: 0 <= j < k ==> Catches(p, dex, h, handlers[j].ty, exc) == Ok(false)
  }

  lemma PassedTail(p: Program, dex: nat, h: Store, handlers: seq<Handler>, exc: JValue, k: nat)
    requires handlers != [] && k > 0
    ensures Passed(p, dex, h, handlers, exc, k)
       <==> Catches(p, dex, h, handlers[0].ty, exc) == Ok(false) && Passed(p, dex, h, handlers[1..], exc, k - 1)
  {
    if Passed(p, dex, h, handlers[1..], exc, k - 1) {
      assert forall j :: 1 <= j < k ==> handlers[j] == handlers[1..][j - 1];
    }
  }

  /** A typed handler is found exactly when it is the first in the list that catches the
      exception; none is found exactly when all pass. */
  lemma {:induction false} HandlersExact(p: Program, dex: nat, h: Store, handlers: seq<Handler>, exc: JValue, addr: nat)
    ensures SearchHandlers(p, dex, h, handlers, exc) == Found(addr)
       <==> exists k: nat :: FirstCatch(p, dex, h, handlers, exc, k) && handlers[k].addr == addr
    ensures SearchHandlers(p, dex, h, handlers, exc) == NotFound
       <==> Passed(p, dex, h, handlers, exc, |handlers|)
  {
    if handlers != [] {
      var tail := handlers[1..];
      HandlersExact(p, dex, h, tail, exc, addr);
      PassedTail(p, dex, h, handlers, exc, |handlers|);
      if k: nat :| FirstCatch(p, dex, h, tail, exc, k) && tail[k].addr == addr {
        PassedTail(p, dex, h, handlers, exc, k + 1);
        if Catches(p, dex, h, handlers[0].ty, exc) == Ok(false) {
          assert FirstCatch(p, dex, h, handlers, exc, k + 1) && handlers[k + 1].addr == addr;
        }
      }
      if k: nat :| FirstCatch(p, dex, h, handlers, exc, k) && handlers[k].addr == addr {
        if k > 0 {
          PassedTail(p, dex, h, handlers, exc, k);
          assert FirstCatch(p, dex, h, tail, exc, k - 1) && tail[k - 1].addr == addr;
        }
      }
      if Catches(p, dex, h, handlers[0].ty, exc) == Ok(true) && handlers[0].addr == addr {
        assert FirstCatch(p, dex, h, handlers, exc, 0);
      }
    }
  }

  /** Whether a handler catches an exception: its class is looked up first, whatever was thrown;
      then the class of the exception decides, if it is an object. */
  lemma CatchesExact(p: Program, dex: nat, h: Store, ty: nat, exc: JValue)
    ensures p.classOf(dex, ty) == None ==> Catches(p, dex, h, ty, exc) == Err(Unresolved)
    ensures p.classOf(dex, ty) != None && !exc.Obj? ==> Catches(p, dex, h, ty, exc) == Ok(false)
    ensures p.classOf(dex, ty) != None && exc.Obj? ==>
      if exc.id >= |h.objects| then Catches(p, dex, h, ty, exc) == Err(Panic)
      else if p.assignable(h.objects[exc.id].cls, p.classOf(dex, ty).value) == None
      then Catches(p, dex, h, ty, exc) == Err(Unresolved)
      else Catches(p, dex, h, ty, exc) == Ok(p.assignable(h.objects[exc.id].cls, p.classOf(dex, ty).value).value)
  {
  }

  /** The search among the handlers cannot go on: the class of one, before which all pass,
      cannot be resolved, or the check against it has no answer. */
  predicate Stuck(p: Program, dex: nat, h: Store, handlers: seq<Handler>, exc: JValue, k: nat, why: Failure) {
    && k < |handlers|
    && Catches(p, dex, h, handlers[k].ty, exc) == Err(why)
    && Passed(p, dex, h, handlers, exc, k)
  }

  lemma {:induction false} HandlersStuck(p: Program, dex: nat, h: Store, handlers: seq<Handler>, exc: JValue,
                                         why: Failure)
    ensures SearchHandlers(p, dex, h, handlers, exc) == SearchFailed(why)
       <==> exists k: nat :: Stuck(p, dex, h, handlers, exc, k, why)
  {
    if handlers != [] {
      var tail := handlers[1..];
      HandlersStuck(p, dex, h, tail, exc, why);
      if k: nat :| Stuck(p, dex, h, tail, exc, k, why) {
        PassedTail(p, dex, h, handlers, exc, k + 1);
        if Catches(p, dex, h, handlers[0].ty, exc) == Ok(false) {
          assert Stuck(p, dex, h, handlers, exc, k + 1, why);
        }
      }
      if k: nat :| Stuck(p, dex, h, handlers, exc, k, why) {
        if k > 0 {
          PassedTail(p, dex, h, handlers, exc, k);
          assert Stuck(p, dex, h, tail, exc, k - 1, why);
        }
      }
      if Catches(p, dex, h, handlers[0].ty, exc) == Err(why) {
        assert Stuck(p, dex, h, handlers, exc, 0, why);
      }
    }
  }

  /** A try offers the address `at`: the address of its first typed handler that catches the
      exception, or that of its catch-all when all typed ones pass. */
  ghost predicate Offers(p: Program, dex: nat, h: Store, t: TryItem, exc: JValue, at: nat) {
    || (exists k: nat :: FirstCatch(p, dex, h, t.handlers, exc, k) && t.handlers[k].addr == at)
    || (Passed(p, dex, h, t.handlers, exc, |t.handlers|) && t.catchAll == Some(at))
  }

  /** It offers nothing: all typed handlers pass, and there is no catch-all. */
  predicate Declines(p: Program, dex: nat, h: Store, t: TryItem, exc: JValue) {
    Passed(p, dex, h, t.handlers, exc, |t.handlers|) && t.catchAll == None
  }

  ghost predicate Fails(p: Program, dex: nat, h: Store, t: TryItem, exc: JValue, why: Failure) {
    exists k: nat :: Stuck(p, dex, h, t.handlers, exc, k, why)
  }

  lemma TryExact(p: Program, dex: nat, h: Store, t: TryItem, exc: JValue, at: nat, why: Failure)
    ensures SearchTry(p, dex, h, t, exc) == Found(at) <==> Offers(p, dex, h, t, exc, at)
    ensures SearchTry(p, dex, h, t, exc) == NotFound <==> Declines(p, dex, h, t, exc)
    ensures SearchTry(p, dex, h, t, exc) == SearchFailed(why) <==> Fails(p, dex, h, t, exc, why)
  {
    HandlersExact(p, dex, h, t.handlers, exc, at);
    HandlersStuck(p, dex, h, t.handlers, exc, why);
  }

  /** Every try among the first k that covers the address declines. */
  predicate TriesPassed(p: Program, dex: nat, h: Store, tries: seq<TryItem>, addr: nat, exc: JValue, k: nat) {
    && k <= |tries|
    && forall j :: 0 <= j < k && tries[j].start <= addr < tries[j].start + tries[j].count
         ==> Declines(p, dex, h, tries[j], exc)
  }

  /** Try k is the first, in table order, that covers the address and does not decline. */
  predicate FirstTry(p: Program, dex: nat, h: Store, tries: seq<TryItem>, addr: nat, exc: JValue, k: nat) {
    && k < |tries|
    && tries[k].start <= addr < tries[k].start + tries[k].count
    && TriesPassed(p, dex, h, tries, addr, exc, k)
  }

  lemma TriesPassedTail(p: Program, dex: nat, h: Store, tries: seq<TryItem>, addr: nat,
                        exc: JValue, k: nat)
    requires tries != [] && k > 0
    ensures TriesPassed(p, dex, h, tries, addr, exc, k)
       <==> (tries[0].start <= addr < tries[0].start + tries[0].count ==> Declines(p, dex, h, tries[0], exc))
            && TriesPassed(p, dex, h, tries[1..], addr, exc, k - 1)
  {
    if TriesPassed(p, dex, h, tries[1..], addr, exc, k - 1) {
      assert forall j :: 1 <= j < k ==> tries[j] == tries[1..][j - 1];
    }
    if TriesPassed(p, dex, h, tries, addr, exc, k) {
      assert forall j :: 0 <= j < k - 1 ==> tries[1..][j] == tries[j + 1];
    }
  }

  /** Try k answers the search with the address `at`. */
  ghost predicate Answers(p: Program, dex: nat, h: Store, tries: seq<TryItem>, addr: nat, exc: JValue, k: nat, at: nat)
  {
    FirstTry(p, dex, h, tries, addr, exc, k) && Offers(p, dex, h, tries[k], exc, at)
  }

  ghost predicate Hinders(p: Program, dex: nat, h: Store, tries: seq<TryItem>, addr: nat, exc: JValue, k: nat,
                          why: Failure)
  {
    FirstTry(p, dex, h, tries, addr, exc, k) && Fails(p, dex, h, tries[k], exc, why)
  }

  /** The search goes on after a first try that does not cover the address or declines. */
  lemma AnswersTail(p: Program, dex: nat, h: Store, tries: seq<TryItem>, addr: nat, exc: JValue, k: nat, at: nat,
                    why: Failure)
    requires tries != [] && k > 0
    requires tries[0].start <= addr < tries[0].start + tries[0].count ==> Declines(p, dex, h, tries[0], exc)
    ensures Answers(p, dex, h, tries, addr, exc, k, at) <==> Answers(p, dex, h, tries[1..], addr, exc, k - 1, at)
    ensures Hinders(p, dex, h, tries, addr, exc, k, why) <==> Hinders(p, dex, h, tries[1..], addr, exc, k - 1, why)
  {
    TriesPassedTail(p, dex, h, tries, addr, exc, k);
  }

  /** At the first try the search ends, unless it goes on there. */
  lemma AnswersHead(p: Program, dex: nat, h: Store, tries: seq<TryItem>, addr: nat, exc: JValue, k: nat, at: nat,
                    why: Failure)
    requires tries != [] && tries[0].start <= addr < tries[0].start + tries[0].count
    ensures !Declines(p, dex, h, tries[0], exc) ==>
      && (Answers(p, dex, h, tries, addr, exc, k, at) <==> k == 0 && Offers(p, dex, h, tries[0], exc, at))
      && (Hinders(p, dex, h, tries, addr, exc, k, why) <==> k == 0 && Fails(p, dex, h, tries[0], exc, why))
  {
    if k > 0 {
      TriesPassedTail(p, dex, h, tries, addr, exc, k);
    }
  }

  /** The search of the try table ends in a handler exactly when the first try in table order
      that covers the address and does not decline offers it; it finds none exactly when all
      that cover it decline, and fails exactly when that first try cannot be searched. */
  lemma {:induction false} TriesExact(p: Program, dex: nat, h: Store, tries: seq<TryItem>, addr: nat, exc: JValue,
                                      at: nat, why: Failure)
    ensures SearchTries(p, dex, h, tries, addr, exc) == Found(at)
       <==> exists k: nat :: Answers(p, dex, h, tries, addr, exc, k, at)
    ensures SearchTries(p, dex, h, tries, addr, exc) == NotFound
       <==> TriesPassed(p, dex, h, tries, addr, exc, |tries|)
    ensures SearchTries(p, dex, h, tries, addr, exc) == SearchFailed(why)
       <==> exists k: nat :: Hinders(p, dex, h, tries, addr, exc, k, why)
  {
    if tries != [] {
      var tail := tries[1..];
      var covers := tries[0].start <= addr < tries[0].start + tries[0].count;
      TriesExact(p, dex, h, tail, addr, exc, at, why);
      TryExact(p, dex, h, tries[0], exc, at, why);
      TriesPassedTail(p, dex, h, tries, addr, exc, |tries|);
      if covers && !Declines(p, dex, h, tries[0], exc) {
        HeadOnly(p, dex, h, tries, addr, exc, at, why);
      } else {
        TriesGoOn(p, dex, h, tries, addr, exc, at, why);
      }
    }
  }

  lemma HeadOnly(p: Program, dex: nat, h: Store, tries: seq<TryItem>, addr: nat, exc: JValue, at: nat, why: Failure)
    requires tries != [] && tries[0].start <= addr < tries[0].start + tries[0].count
    requires !Declines(p, dex, h, tries[0], exc)
    ensures (exists k: nat :: Answers(p, dex, h, tries, addr, exc, k, at)) <==> Offers(p, dex, h, tries[0], exc, at)
    ensures (exists k: nat :: Hinders(p, dex, h, tries, addr, exc, k, why)) <==> Fails(p, dex, h, tries[0], exc, why)
    ensures !TriesPassed(p, dex, h, tries, addr, exc, |tries|)
  {
    forall k: nat
      ensures Answers(p, dex, h, tries, addr, exc, k, at) <==> k == 0 && Offers(p, dex, h, tries[0], exc, at)
      ensures Hinders(p, dex, h, tries, addr, exc, k, why) <==> k == 0 && Fails(p, dex, h, tries[0], exc, why)
    {
      AnswersHead(p, dex, h, tries, addr, exc, k, at, why);
    }
    assert Answers(p, dex, h, tries, addr, exc, 0, at) <==> Offers(p, dex, h, tries[0], exc, at);
    assert Hinders(p, dex, h, tries, addr, exc, 0, why) <==> Fails(p, dex, h, tries[0], exc, why);
  }

  lemma TriesGoOn(p: Program, dex: nat, h: Store, tries: seq<TryItem>, addr: nat, exc: JValue, at: nat, why: Failure)
    requires tries != []
    requires tries[0].start <= addr < tries[0].start + tries[0].count ==> Declines(p, dex, h, tries[0], exc)
    ensures (exists k: nat :: Answers(p, dex, h, tries, addr, exc, k, at))
       <==> exists k: nat :: Answers(p, dex, h, tries[1..], addr, exc, k, at)
    ensures (exists k: nat :: Hinders(p, dex, h, tries, addr, exc, k, why))
       <==> exists k: nat :: Hinders(p, dex, h, tries[1..], addr, exc, k, why)
  {
    NoAnswerThere(p, dex, h, tries, addr, exc, at, why);
    forall k: nat | k > 0
      ensures Answers(p, dex, h, tries, addr, exc, k, at) <==> Answers(p, dex, h, tries[1..], addr, exc, k - 1, at)
      ensures Hinders(p, dex, h, tries, addr, exc, k, why) <==> Hinders(p, dex, h, tries[1..], addr, exc, k - 1, why)
    {
      AnswersTail(p, dex, h, tries, addr, exc, k, at, why);
    }
    if k: nat :| Answers(p, dex, h, tries[1..], addr, exc, k, at) {
      assert Answers(p, dex, h, tries, addr, exc, k + 1, at);
    }
    if k: nat :| Hinders(p, dex, h, tries[1..], addr, exc, k, why) {
      assert Hinders(p, dex, h, tries, addr, exc, k + 1, why);
    }
  }

  /** A try that declines offers nothing and does not fail. */
  lemma NoAnswerThere(p: Program, dex: nat, h: Store, tries: seq<TryItem>, addr: nat, exc: JValue, at: nat,
                      why: Failure)
    requires tries != []
    requires tries[0].start <= addr < tries[0].start + tries[0].count ==> Declines(p, dex, h, tries[0], exc)
    ensures !Answers(p, dex, h, tries, addr, exc, 0, at) && !Hinders(p, dex, h, tries, addr, exc, 0, why)
  {
  }

  // ---- where a frame raised ----

  /** The address that the try table is searched for: that of the instruction that was being
      executed, which is the last one that does not begin after `errPc`. */
  lemma RaisedAtExact(f: Frame, i: nat)
    requires i < |f.code.units| && f.code.units[i] <= f.errPc
    requires i + 1 < |f.code.units| ==> f.errPc < f.code.units[i + 1]
    ensures RaisedAt(f) == f.code.units[i]
  {
    IndexInside(f.code.units, i, f.errPc);
  }

  /** Frame f handles the exception at `addr`. */
  ghost predicate Handles(p: Program, f: Frame, h: Store, exc: JValue, addr: nat) {
    exists k: nat :: Answers(p, f.dex, h, f.tries, RaisedAt(f), exc, k, addr)
  }

  predicate Ignores(p: Program, f: Frame, h: Store, exc: JValue) {
    TriesPassed(p, f.dex, h, f.tries, RaisedAt(f), exc, |f.tries|)
  }

  ghost predicate Gives(p: Program, f: Frame, h: Store, exc: JValue, why: Failure) {
    exists k: nat :: Hinders(p, f.dex, h, f.tries, RaisedAt(f), exc, k, why)
  }

  lemma HandlerExact(p: Program, f: Frame, h: Store, exc: JValue)
    ensures HandlerIn(p, f, h, exc) == NotFound <==> Ignores(p, f, h, exc)
    ensures forall at :: HandlerIn(p, f, h, exc) == Found(at) <==> Handles(p, f, h, exc, at)
    ensures forall why :: HandlerIn(p, f, h, exc) == SearchFailed(why) <==> Gives(p, f, h, exc, why)
  {
    TriesExact(p, f.dex, h, f.tries, RaisedAt(f), exc, 0, Panic);
    forall at
      ensures HandlerIn(p, f, h, exc) == Found(at) <==> Handles(p, f, h, exc, at)
    {
      TriesExact(p, f.dex, h, f.tries, RaisedAt(f), exc, at, Panic);
    }
    forall why
      ensures HandlerIn(p, f, h, exc) == SearchFailed(why) <==> Gives(p, f, h, exc, why)
    {
      TriesExact(p, f.dex, h, f.tries, RaisedAt(f), exc, 0, why);
    }
  }

  // ---- over the stack ----

  /** What frame k has to deal with: the exception it holds itself, otherwise what arrives
      from the frame above it; the top frame gets what is carried. */
  function Arrives(frames: seq<Frame>, carried: Option<JValue>, k: nat): Option<JValue>
    decreases |frames| - k
  {
    if k >= |frames| then carried
    else if frames[k].pending.Some? then frames[k].pending
    else Arrives(frames, carried, k + 1)
  }

  /** Frame k finds no handler for what arrives at it. */
  predicate Misses(p: Program, frames: seq<Frame>, h: Store, carried: Option<JValue>, k: nat)
    requires k < |frames|
  {
    var exc := Arrives(frames, carried, k);
    exc.Some? && Ignores(p, frames[k], h, exc.value)
  }

  /** No frame from k upward handles what arrives at it. */
  predicate Unhandled(p: Program, frames: seq<Frame>, h: Store, carried: Option<JValue>, k: nat) {
    forall i :: k <= i < |frames| ==> Misses(p, frames, h, carried, i)
  }

  /** Frame k is the innermost that handles what arrives at it, at `addr`. */
  ghost predicate Innermost(p: Program, frames: seq<Frame>, h: Store, carried: Option<JValue>, k: nat, addr: nat) {
    && k < |frames|
    && Arrives(frames, carried, k).Some?
    && Handles(p, frames[k], h, Arrives(frames, carried, k).value, addr)
    && Unhandled(p, frames, h, carried, k + 1)
  }

  /** The search ends at frame k: nothing arrives there, or its handlers cannot be searched. */
  ghost predicate Breaks(p: Program, frames: seq<Frame>, h: Store, carried: Option<JValue>, k: nat, why: Failure) {
    && k < |frames|
    && Unhandled(p, frames, h, carried, k + 1)
    && match Arrives(frames, carried, k)
       case None => why == NoPendingException
       case Some(exc) => Gives(p, frames[k], h, exc, why)
  }

  /** Frame k enters its handler with the exception pending; the frames above are gone. */
  function Entered(frames: seq<Frame>, k: nat, addr: nat, exc: JValue): seq<Frame>
    requires k < |frames|
  {
    frames[..k] + [frames[k].(pc := addr, pending := Some(exc))]
  }

  lemma {:induction false} ArrivesBelow(frames: seq<Frame>, carried: Option<JValue>, k: nat)
    requires frames != [] && k < |frames|
    ensures var n := |frames| - 1;
      Arrives(frames, carried, k) == Arrives(frames[..n], Delivered(frames[n], carried), k)
    decreases |frames| - k
  {
    if k < |frames| - 1 {
      ArrivesBelow(frames, carried, k + 1);
    } else {
      assert Arrives(frames, carried, k + 1) == carried;
    }
  }

  lemma ArrivesOnTop(frames: seq<Frame>, carried: Option<JValue>)
    requires frames != []
    ensures Arrives(frames, carried, |frames| - 1) == Delivered(frames[|frames| - 1], carried)
  {
    assert Arrives(frames, carried, |frames|) == carried;
  }

  /** When the top frame does not miss, the search ends there. */
  lemma EndsOnTop(p: Program, frames: seq<Frame>, h: Store, carried: Option<JValue>, k: nat)
    requires frames != [] && !Misses(p, frames, h, carried, |frames| - 1)
    ensures Unhandled(p, frames, h, carried, k) <==> k >= |frames|
  {
  }

  lemma UnhandledBelow(p: Program, frames: seq<Frame>, h: Store, carried: Option<JValue>, k: nat)
    requires frames != [] && Misses(p, frames, h, carried, |frames| - 1)
    ensures Unhandled(p, frames, h, carried, k)
       <==> Unhandled(p, frames[..|frames| - 1], h, Delivered(frames[|frames| - 1], carried), k)
  {
    var n := |frames| - 1;
    var rest, on := frames[..n], Delivered(frames[n], carried);
    forall i | k <= i < n
      ensures Misses(p, frames, h, carried, i) <==> Misses(p, rest, h, on, i)
    {
      ArrivesBelow(frames, carried, i);
      assert rest[i] == frames[i];
    }
    if Unhandled(p, rest, h, on, k) {
      forall i | k <= i < |frames|
        ensures Misses(p, frames, h, carried, i)
      {
        if i < n {
          assert Misses(p, rest, h, on, i);
        }
      }
    }
  }

  lemma InnermostBelow(p: Program, frames: seq<Frame>, h: Store, carried: Option<JValue>,
                       k: nat, addr: nat, why: Failure)
    requires frames != [] && Misses(p, frames, h, carried, |frames| - 1)
    ensures var rest, on := frames[..|frames| - 1], Delivered(frames[|frames| - 1], carried);
      && (Innermost(p, frames, h, carried, k, addr) <==> Innermost(p, rest, h, on, k, addr))
      && (Breaks(p, frames, h, carried, k, why) <==> Breaks(p, rest, h, on, k, why))
      && (k < |rest| ==>
            && Arrives(frames, carried, k) == Arrives(rest, on, k)
            && forall exc :: Entered(frames, k, addr, exc) == Entered(rest, k, addr, exc))
  {
    UnhandledBelow(p, frames, h, carried, k + 1);
    if k < |frames| - 1 {
      ArrivesBelow(frames, carried, k);
      assert frames[..|frames| - 1][..k] == frames[..k];
    }
  }

  /** For every stack: the unwinding is caught exactly by the innermost frame that handles what
      arrives at it. Exactly the frames above it are popped, and what arrived there is
      delivered. */
  lemma {:induction false} CaughtExact(p: Program, frames: seq<Frame>, h: Store, carried: Option<JValue>,
                                       fs: seq<Frame>)
    ensures Unwind(p, frames, h, carried) == Caught(fs)
       <==> exists k: nat, addr ::
              && Innermost(p, frames, h, carried, k, addr)
              && fs == Entered(frames, k, addr, Arrives(frames, carried, k).value)
    decreases |frames|
  {
    if frames != [] {
      var n := |frames| - 1;
      var rest, on := frames[..n], Delivered(frames[n], carried);
      ArrivesOnTop(frames, carried);
      if on.Some? {
        HandlerExact(p, frames[n], h, on.value);
      }
      if Misses(p, frames, h, carried, n) {
        CaughtExact(p, rest, h, on, fs);
        forall k: nat, addr
          ensures Innermost(p, frames, h, carried, k, addr) <==> Innermost(p, rest, h, on, k, addr)
          ensures k < n ==> Arrives(frames, carried, k) == Arrives(rest, on, k)
          ensures k < n ==> forall exc :: Entered(frames, k, addr, exc) == Entered(rest, k, addr, exc)
        {
          InnermostBelow(p, frames, h, carried, k, addr, Panic);
        }
      } else {
        forall k: nat
          ensures Unhandled(p, frames, h, carried, k) <==> k > n
        {
          EndsOnTop(p, frames, h, carried, k);
        }
        if on.Some? && HandlerIn(p, frames[n], h, on.value).Found? {
          assert Innermost(p, frames, h, carried, n, HandlerIn(p, frames[n], h, on.value).addr);
        }
      }
    }
  }

  /** It escapes exactly when no frame handles what arrives at it, and it fails exactly where
      nothing arrives or a handler's class cannot be resolved. */
  lemma {:induction false} EscapedExact(p: Program, frames: seq<Frame>, h: Store, carried: Option<JValue>,
                                        why: Failure)
    ensures Unwind(p, frames, h, carried) == Escaped <==> Unhandled(p, frames, h, carried, 0)
    ensures Unwind(p, frames, h, carried) == UnwindFailed(why)
       <==> exists k: nat :: Breaks(p, frames, h, carried, k, why)
    decreases |frames|
  {
    if frames != [] {
      var n := |frames| - 1;
      var rest, on := frames[..n], Delivered(frames[n], carried);
      ArrivesOnTop(frames, carried);
      if on.Some? {
        HandlerExact(p, frames[n], h, on.value);
      }
      if Misses(p, frames, h, carried, n) {
        EscapedExact(p, rest, h, on, why);
        UnhandledBelow(p, frames, h, carried, 0);
        forall k: nat
          ensures Breaks(p, frames, h, carried, k, why) <==> Breaks(p, rest, h, on, k, why)
        {
          InnermostBelow(p, frames, h, carried, k, 0, why);
        }
      } else {
        EndsOnTop(p, frames, h, carried, 0);
        forall k: nat
          ensures Unhandled(p, frames, h, carried, k) <==> k > n
        {
          EndsOnTop(p, frames, h, carried, k);
        }
        if Unwind(p, frames, h, carried) == UnwindFailed(why) {
          assert Breaks(p, frames, h, carried, n, why);
        }
      }
    }
  }

  /** What arrives at a frame is what the nearest frame from there upward holds. */
  lemma {:induction false} ArrivesFrom(frames: seq<Frame>, carried: Option<JValue>, k: nat, j: nat)
    requires k <= j < |frames| && frames[j].pending.Some?
    requires forall i :: k <= i < j ==> frames[i].pending == None
    ensures Arrives(frames, carried, k) == frames[j].pending
    decreases j - k
  {
    if k < j {
      ArrivesFrom(frames, carried, k + 1, j);
    }
  }

  /** The exception that was thrown is the one delivered exactly when it is what arrives at
      the frame that handles it. */
  lemma DeliveredExact(p: Program, frames: seq<Frame>, h: Store, thrown: JValue, k: nat, addr: nat)
    requires k < |frames|
    ensures Unwind(p, frames, h, None) == Caught(Entered(frames, k, addr, thrown))
       <==> Innermost(p, frames, h, None, k, addr) && Arrives(frames, None, k) == Some(thrown)
  {
    var fs := Entered(frames, k, addr, thrown);
    CaughtExact(p, frames, h, None, fs);
    if j: nat, at :| Innermost(p, frames, h, None, j, at)
                     && fs == Entered(frames, j, at, Arrives(frames, None, j).value) {
      var there := Entered(frames, j, at, Arrives(frames, None, j).value);
      assert |fs| == k + 1 && |there| == j + 1;
      assert fs[k] == there[k];
    }
  }

  // ---- a program in which another exception is delivered ----

  /** A method that throws and has a handler around that; the handler calls a method that
      throws in turn, before it fetches what it was entered with. A second handler, around the
      call, returns the exception it is given. */
  function Caller(): Body {
    var insns := [Throw(0), Invoke(Static, 0, Args(0, [0, 0, 0, 0, 0], false, 0)), MoveException(0), Return(0)];
    Body(0, 1, 0, [], Decoded(insns, [0, 1, 4, 5], [1, 3, 1, 1], 6),
         [TryItem(0, 1, [], Some(1)), TryItem(1, 3, [], Some(4))])
  }

  function Callee(): Body {
    Body(0, 1, 0, [], Decoded([Throw(0)], [0], [1], 1), [])
  }

  /** The code units of the caller. */
  function CallerUnits(): seq<Word> {
    [0x27, 0x71, 0, 0, 0x0d, 0x0f]
  }

  lemma CallDecodes(units: seq<Word>)
    requires units == CallerUnits()
    ensures Decode(units, 1) == Ok((Invoke(Static, 0, Args(0, [0, 0, 0, 0, 0], false, 0)), 4))
  {
    assert Args35c(0x71, 0) == Args(0, [0, 0, 0, 0, 0], false, 0);
    Programs.DecodeThree(units, 1, 0x71, 0, 0, Invoke(Static, 0, Args35c(0x71, 0)));
  }

  lemma CallerDecodes(units: seq<Word>)
    requires units == CallerUnits()
    ensures Decode(units, 0) == Ok((Throw(0), 1))
    ensures Decode(units, 4) == Ok((MoveException(0), 5))
    ensures Decode(units, 5) == Ok((Return(0), 6))
  {
    Programs.DecodeOne(units, 0, 0x27);
    Programs.DecodeOne(units, 4, 0x0d);
    Programs.DecodeOne(units, 5, 0x0f);
  }

  /** Both methods are what the sweep makes of their code units. */
  lemma StaleDecodes()
    ensures Sweep(CallerUnits(), 0, []) == Ok(Caller().code)
    ensures Sweep([0x27], 0, []) == Ok(Callee().code)
  {
    var units, call := CallerUnits(), Invoke(Static, 0, Args(0, [0, 0, 0, 0, 0], false, 0));
    var d3, d2 := Decoded([Return(0)], [5], [1], 6), Decoded([MoveException(0), Return(0)], [4, 5], [1, 1], 6);
    var d1 := Decoded([call, MoveException(0), Return(0)], [1, 4, 5], [3, 1, 1], 6);
    CallerDecodes(units);
    CallDecodes(units);
    Programs.SweepEnd(units);
    Programs.SweepNext(units, 5, Return(0), 6, Decoded([], [], [], 6), d3);
    Programs.SweepNext(units, 4, MoveException(0), 5, d3, d2);
    Programs.SweepNext(units, 1, call, 4, d2, d1);
    Programs.SweepNext(units, 0, Throw(0), 1, d1, Caller().code);
    CalleeDecodes();
  }

  lemma CalleeDecodes()
    ensures Sweep([0x27], 0, []) == Ok(Callee().code)
  {
    Programs.SweepEnd([0x27]);
    Programs.SweepNext([0x27], 0, Throw(0), 1, Decoded([], [], [], 1), Callee().code);
  }

  /** Throwing null raises a new exception object. */
  function Stale(p: Program): Program {
    p.(bodies := [Caller(), Callee()],
       methodRef := (dex: nat, callee: nat) => Some(MethodRef([], false)),
       resolve := (kind: InvokeKind, dex: nat, callee: nat, from: nat, recv: Option<nat>, h: Store, b: nat)
         => Resolved(Bytecode(1), h, b))
  }

  function Started(b: Body, body: nat): Frame {
    Frame(body, b.dex, b.code, b.tries, [Null], 0, 0, Null, None)
  }

  function NullThrown(p: Program, t: Tables, n: nat): Store {
    var cls := p.classByDesc(NPE);
    var o := JObject(if cls.Some? then cls.value else 0, [], Some(Throwable("", Null)));
    Memory(if n == 0 then [] else if n == 1 then [o] else [o, o], [], t)
  }

  /** The frame of the caller in its first handler, with the first exception pending. */
  function InHandler(): Frame {
    Started(Caller(), 0).(pc := 1, pending := Some(Obj(0)))
  }

  /** The caller while its callee runs. */
  function Suspended(): Frame {
    InHandler().(pc := 4, errPc := 1)
  }

  lemma FirstStep(p: Program, t: Tables, b: nat)
    ensures Step(Stale(p), Started(Caller(), 0), NullThrown(p, t, 0), b)
         == Stepped(Started(Caller(), 0), NullThrown(p, t, 1), b, Raise(Obj(0)))
  {
    IndexExact(Caller().code.units, 0);
  }

  lemma FirstCaught(p: Program, h: Store)
    ensures Unwind(Stale(p), [Started(Caller(), 0).(pending := Some(Obj(0)))], h, None) == Caught([InHandler()])
  {
    var raising := Started(Caller(), 0).(pending := Some(Obj(0)));
    var none: seq<Frame> := [];
    IndexExact(Caller().code.units, 0);
    assert [raising][..0] == none && none + [InHandler()] == [InHandler()];
    assert HandlerIn(Stale(p), raising, h, Obj(0)) == Found(1);
  }

  lemma FirstThrow(p: Program, t: Tables, b: nat)
    requires b > 0
    ensures Advance(Stale(p), [Started(Caller(), 0)], NullThrown(p, t, 0), b)
         == Running([InHandler()], NullThrown(p, t, 1), Spend(b))
  {
    var f := Started(Caller(), 0);
    var none: seq<Frame> := [];
    FirstStep(p, t, Spend(b));
    FirstCaught(p, NullThrown(p, t, 1));
    assert [f][..0] == none && none + [f.(pending := Some(Obj(0)))] == [f.(pending := Some(Obj(0)))];
  }

  lemma CallFromHandler(p: Program, t: Tables, b: nat)
    requires b > 0
    ensures Advance(Stale(p), [InHandler()], NullThrown(p, t, 1), b)
         == Running([Suspended(), Started(Callee(), 1)], NullThrown(p, t, 1), Spend(b))
  {
    IndexExact(Caller().code.units, 1);
    var none: seq<JValue> := [];
    assert Nulls(1) == [Null] && Nulls(0) == none;
    assert none[..0] == none && [Null] + none + none == [Null];
    assert MakeRegs(none, 0, 1) == Some([Null]);
    assert NewFrame(Stale(p), 1, []) == Some(Started(Callee(), 1));
  }

  /** The callee throws object 1. */
  lemma SecondStep(p: Program, t: Tables, b: nat)
    ensures Step(Stale(p), Started(Callee(), 1), NullThrown(p, t, 1), b)
         == Stepped(Started(Callee(), 1), NullThrown(p, t, 2), b, Raise(Obj(1)))
  {
    IndexExact(Callee().code.units, 0);
  }

  lemma SuspendedCatches(p: Program, h: Store)
    ensures HandlerIn(Stale(p), Suspended(), h, Obj(0)) == Found(4)
  {
    IndexExact(Caller().code.units, 1);
    assert Caller().tries[1..] == [TryItem(1, 3, [], Some(4))];
    assert RaisedAt(Suspended()) == 1 && !Caller().tries[0].Covers(1);
    assert SearchTry(Stale(p), 0, h, TryItem(1, 3, [], Some(4)), Obj(0)) == Found(4);
    assert SearchTries(Stale(p), 0, h, Caller().tries[1..], 1, Obj(0)) == Found(4);
  }

  /** Object 1 is thrown through a caller that still holds object 0. */
  lemma SecondCaught(p: Program, h: Store)
    ensures Unwind(Stale(p), [Suspended(), Started(Callee(), 1).(pending := Some(Obj(1)))], h, None)
         == Caught([Suspended().(pending := Some(Obj(0)))])
  {
    var raising := Started(Callee(), 1).(pending := Some(Obj(1)));
    var there := Suspended().(pending := Some(Obj(0)));
    var none: seq<Frame> := [];
    SuspendedCatches(p, h);
    assert HandlerIn(Stale(p), raising, h, Obj(1)) == NotFound;
    assert [Suspended()][..0] == none && none + [there] == [there];
    assert Unwind(Stale(p), [Suspended()], h, Some(Obj(1))) == Caught([there]);
    assert [Suspended(), raising][..1] == [Suspended()];
  }

  /** So the caller's second handler is entered with object 0. */
  lemma SecondThrow(p: Program, t: Tables, b: nat)
    requires b > 0
    ensures Advance(Stale(p), [Suspended(), Started(Callee(), 1)], NullThrown(p, t, 1), b)
         == Running([Suspended().(pc := 4, pending := Some(Obj(0)))], NullThrown(p, t, 2), Spend(b))
  {
    var stack := [Suspended(), Started(Callee(), 1)];
    var raising := Started(Callee(), 1).(pending := Some(Obj(1)));
    SecondStep(p, t, Spend(b));
    SecondCaught(p, NullThrown(p, t, 2));
    assert stack[..1] == [Suspended()] && stack[..1] + [raising] == [Suspended(), raising];
  }

  lemma Fetched(p: Program, t: Tables, b: nat)
    requires b > 0
    ensures var f := Suspended().(pending := Some(Obj(0)));
      Advance(Stale(p), [f], NullThrown(p, t, 2), b)
         == Running([f.(pending := None, pc := 5, errPc := 4, regs := [Obj(0)])], NullThrown(p, t, 2), Spend(b))
  {
    IndexExact(Caller().code.units, 2);
    assert [Null][0 := Obj(0)] == [Obj(0)];
  }

  lemma GivenBack(p: Program, t: Tables, f: Frame, b: nat)
    requires b > 0 && f.code == Caller().code && f.pc == 5 && f.regs == [Obj(0)]
    ensures Advance(Stale(p), [f], NullThrown(p, t, 2), b) == Halted(Returned(Obj(0)), NullThrown(p, t, 2), Spend(b))
  {
    IndexExact(Caller().code.units, 3);
  }

  /** So the run returns object 0, and object 1, which the call threw, has been lost. */
  lemma StaleRun(p: Program, t: Tables, b: nat)
    requires b >= 5
    ensures Run(Stale(p), Running([Started(Caller(), 0)], NullThrown(p, t, 0), b))
         == Halted(Returned(Obj(0)), NullThrown(p, t, 2), b - 5)
  {
    var b1 := Spend(b);
    var b2 := Spend(b1);
    var b3 := Spend(b2);
    var b4 := Spend(b3);
    FirstThrow(p, t, b);
    CallFromHandler(p, t, b1);
    SecondThrow(p, t, b2);
    Fetched(p, t, b3);
    var f := Suspended().(pending := None, pc := 5, errPc := 4, regs := [Obj(0)]);
    GivenBack(p, t, f, b4);
    RunStep(Stale(p), [f], NullThrown(p, t, 2), b4);
    RunStep(Stale(p), [Suspended().(pending := Some(Obj(0)))], NullThrown(p, t, 2), b3);
    RunStep(Stale(p), [Suspended(), Started(Callee(), 1)], NullThrown(p, t, 1), b2);
    RunStep(Stale(p), [InHandler()], NullThrown(p, t, 1), b1);
    RunStep(Stale(p), [Started(Caller(), 0)], NullThrown(p, t, 0), b);
  }

  lemma RunStep(p: Program, frames: seq<Frame>, h: Store, b: nat)
    requires frames != []
    ensures Run(p, Running(frames, h, b)) == Run(p, Advance(p, frames, h, b))
  {
  }
}
