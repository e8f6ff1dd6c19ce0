/** What the linear sweep leaves behind: an index of the code by address, and the binary
    search the interpreter runs on it at every step. */
module CodeIndex {
  import opened Wrappers
  import opened Seqs
  import opened Decoder

  // ---- the index ----

  /** Every entry is the instruction that decodes at its address, and entries follow each
      other without overlap. */
  ghost predicate Faithful(code: seq<Word>, d: Decoded, pc: nat) {
    && d.Parallel()
    && d.words == |code|
    && (forall i :: 0 <= i < |d.units| ==> EntryAt(code, d, pc, i))
    && Ordered(d)
  }

  predicate EntryAt(code: seq<Word>, d: Decoded, pc: nat, i: nat)
    requires |d.insns| == |d.units| == |d.sizes| && i < |d.units|
  {
    && pc <= d.units[i]
    && d.sizes[i] >= 1
    && d.units[i] + d.sizes[i] <= |code|
    && Decode(code, d.units[i]) == Ok((d.insns[i], d.units[i] + d.sizes[i]))
  }

  ghost predicate Ordered(d: Decoded) {
    && d.Parallel()
    && forall i, j :: 0 <= i < j < |d.units| ==> d.units[i] + d.sizes[i] <= d.units[j]
  }

  lemma EntryFirst(code: seq<Word>, d: Decoded, pc: nat, insn: Insn, next: nat)
    requires pc < next <= |code| && Decode(code, pc) == Ok((insn, next)) && d.Parallel()
    ensures EntryAt(code, Prepend(insn, pc, next - pc, d), pc, 0)
  {
  }

  lemma EntryLater(code: seq<Word>, d: Decoded, pc: nat, insn: Insn, next: nat, i: nat)
    requires pc < next && d.Parallel() && i < |d.units| && EntryAt(code, d, next, i)
    ensures EntryAt(code, Prepend(insn, pc, next - pc, d), pc, i + 1)
  {
    var e := Prepend(insn, pc, next - pc, d);
    assert e.units[i + 1] == d.units[i] && e.sizes[i + 1] == d.sizes[i] && e.insns[i + 1] == d.insns[i];
  }

  lemma OrderedPrepend(code: seq<Word>, d: Decoded, pc: nat, insn: Insn, next: nat)
    requires pc < next && Ordered(d) && (d.units != [] ==> next <= d.units[0])
    ensures Ordered(Prepend(insn, pc, next - pc, d))
  {
    var e := Prepend(insn, pc, next - pc, d);
    forall i, j | 0 <= i < j < |e.units|
      ensures e.units[i] + e.sizes[i] <= e.units[j]
    {
      assert e.units[j] == d.units[j - 1];
      if i > 0 {
        assert d.units[i - 1] + d.sizes[i - 1] <= d.units[j - 1];
      } else if j > 1 {
        assert d.units[0] + d.sizes[0] <= d.units[j - 1];
      }
    }
  }

  lemma FaithfulPrepend(code: seq<Word>, d: Decoded, pc: nat, insn: Insn, next: nat)
    requires pc < next <= |code| && Decode(code, pc) == Ok((insn, next))
    requires Faithful(code, d, next)
    ensures Faithful(code, Prepend(insn, pc, next - pc, d), pc)
  {
    var e := Prepend(insn, pc, next - pc, d);
    forall i | 0 <= i < |e.units|
      ensures EntryAt(code, e, pc, i)
    {
      if i == 0 {
        EntryFirst(code, d, pc, insn, next);
      } else {
        assert EntryAt(code, d, next, i - 1);
        EntryLater(code, d, pc, insn, next, i - 1);
      }
    }
    if d.units != [] {
      assert EntryAt(code, d, next, 0);
    }
    OrderedPrepend(code, d, pc, insn, next);
  }

  lemma FaithfulEarlier(code: seq<Word>, d: Decoded, pc: nat, from: nat)
    requires pc <= from && Faithful(code, d, from)
    ensures Faithful(code, d, pc)
  {
    forall i | 0 <= i < |d.units|
      ensures EntryAt(code, d, pc, i)
    {
      assert EntryAt(code, d, from, i);
    }
  }

  /** The sweep of an accepted code item is faithful. */
  lemma {:induction false} SweepFaithful(code: seq<Word>, pc: nat, skips: seq<Span>)
    requires Forward(skips) && Sweep(code, pc, skips).Ok?
    ensures Faithful(code, Sweep(code, pc, skips).value, pc)
    decreases |code| - pc
  {
    if pc < |code| {
      var skip := SkipAt(skips, pc);
      if skip.Some? {
        SweepFaithful(code, skip.value.1, skips);
        FaithfulEarlier(code, Sweep(code, pc, skips).value, pc, skip.value.1);
      } else {
        var (insn, next) := Decode(code, pc).value;
        RecordedForward(code, pc, skips);
        SweepFaithful(code, next, Recorded(skips, insn));
        FaithfulPrepend(code, Sweep(code, next, Recorded(skips, insn)).value, pc, insn, next);
      }
    }
  }

  // ---- what lies between the entries ----

  predicate InInsn(d: Decoded, u: nat) {
    exists i :: 0 <= i < |d.units| && i < |d.sizes| && d.units[i] <= u < d.units[i] + d.sizes[i]
  }

  /** `u` belongs to the payload of an instruction at `unit`, which comes before it. */
  predicate Owns(insn: Insn, unit: nat, u: nat) {
    var span := PayloadSpan(insn);
    span.Some? && unit < span.value.0 <= u < span.value.1
  }

  predicate InPayload(d: Decoded, u: nat) {
    exists k :: 0 <= k < |d.insns| && k < |d.units| && Owns(d.insns[k], d.units[k], u)
  }

  predicate InSkip(skips: seq<Span>, pc: nat, u: nat) {
    exists k :: 0 <= k < |skips| && pc <= skips[k].0 <= u < skips[k].1
  }

  lemma PrependKeeps(insn: Insn, unit: nat, size: nat, d: Decoded, u: nat)
    requires d.Parallel()
    ensures InInsn(d, u) ==> InInsn(Prepend(insn, unit, size, d), u)
    ensures InPayload(d, u) ==> InPayload(Prepend(insn, unit, size, d), u)
  {
    var e := Prepend(insn, unit, size, d);
    if InInsn(d, u) {
      var i :| 0 <= i < |d.units| && d.units[i] <= u < d.units[i] + d.sizes[i];
      assert e.units[i + 1] == d.units[i] && e.sizes[i + 1] == d.sizes[i];
    }
    if InPayload(d, u) {
      var k :| 0 <= k < |d.insns| && k < |d.units| && Owns(d.insns[k], d.units[k], u);
      assert e.insns[k + 1] == d.insns[k] && e.units[k + 1] == d.units[k];
    }
  }

  /** A span recorded for the instruction at `pc`, or recorded before it. */
  lemma RecordedSkip(skips: seq<Span>, insn: Insn, pc: nat, next: nat, u: nat, d: Decoded)
    requires pc < next && InSkip(Recorded(skips, insn), next, u)
    ensures InSkip(skips, pc, u) || InPayload(Prepend(insn, pc, next - pc, d), u)
  {
    var all := Recorded(skips, insn);
    var k :| 0 <= k < |all| && next <= all[k].0 <= u < all[k].1;
    if k < |skips| {
      assert all[k] == skips[k];
    } else {
      var e := Prepend(insn, pc, next - pc, d);
      assert Owns(e.insns[0], e.units[0], u);
    }
  }

  lemma {:induction false} SweepCoversFrom(code: seq<Word>, pc: nat, skips: seq<Span>, u: nat)
    requires Forward(skips) && Sweep(code, pc, skips).Ok? && pc <= u < |code|
    ensures var d := Sweep(code, pc, skips).value;
      InInsn(d, u) || InPayload(d, u) || InSkip(skips, pc, u)
    decreases |code| - pc
  {
    var skip := SkipAt(skips, pc);
    if skip.Some? {
      if u < skip.value.1 {
        var k :| 0 <= k < |skips| && skips[k] == skip.value;
        assert pc <= skips[k].0 <= u < skips[k].1;
      } else {
        SweepCoversFrom(code, skip.value.1, skips, u);
        if InSkip(skips, skip.value.1, u) {
          var k :| 0 <= k < |skips| && skip.value.1 <= skips[k].0 <= u < skips[k].1;
          assert pc <= skips[k].0;
        }
      }
    } else {
      var (insn, next) := Decode(code, pc).value;
      RecordedForward(code, pc, skips);
      var rest := Sweep(code, next, Recorded(skips, insn)).value;
      if u < next {
        var d := Prepend(insn, pc, next - pc, rest);
        assert d.units[0] == pc && d.sizes[0] == next - pc;
      } else {
        SweepCoversFrom(code, next, Recorded(skips, insn), u);
        PrependKeeps(insn, pc, next - pc, rest, u);
        if InSkip(Recorded(skips, insn), next, u) {
          RecordedSkip(skips, insn, pc, next, u, rest);
        }
      }
    }
  }

  /** In an accepted code item, every code unit is part of an instruction, or of the inline
      data of an instruction that comes before it. */
  lemma SweepCovers(code: seq<Word>, u: nat)
    ensures Sweep(code, 0, []).Ok? && u < |code|
        ==> InInsn(Sweep(code, 0, []).value, u) || InPayload(Sweep(code, 0, []).value, u)
  {
    if Sweep(code, 0, []).Ok? && u < |code| {
      SweepCoversFrom(code, 0, [], u);
    }
  }

  /** The sweep fails only where decoding fails, with the same error. */
  lemma {:induction false} SweepFails(code: seq<Word>, pc: nat, skips: seq<Span>) returns (at: nat)
    requires Forward(skips) && Sweep(code, pc, skips).Err?
    ensures pc <= at < |code| && Decode(code, at) == Err(Sweep(code, pc, skips).error)
    decreases |code| - pc
  {
    var skip := SkipAt(skips, pc);
    if skip.Some? {
      at := SweepFails(code, skip.value.1, skips);
    } else if Decode(code, pc).Err? {
      at := pc;
    } else {
      var (insn, next) := Decode(code, pc).value;
      RecordedForward(code, pc, skips);
      at := SweepFails(code, next, Recorded(skips, insn));
    }
  }

  // ---- searching the index ----

  predicate Increasing(units: seq<nat>) {
    forall i, j :: 0 <= i < j < |units| ==> units[i] < units[j]
  }

  /** The number of entries below an address. */
  function Below(units: seq<nat>, x: nat): (n: nat)
    ensures n <= |units|
  {
    if units == [] || units[0] >= x then 0 else 1 + Below(units[1..], x)
  }

  /** The entry at an address, otherwise the last one before it, otherwise the first. */
  function IndexOf(units: seq<nat>, x: nat): (i: nat)
    ensures units != [] ==> i < |units|
  {
    var n := Below(units, x);
    if (n < |units| && units[n] == x) || n == 0 then n else n - 1
  }

  lemma {:induction false} BelowExact(units: seq<nat>, x: nat, n: nat)
    requires Increasing(units) && n <= |units|
    requires forall i :: 0 <= i < n ==> units[i] < x
    requires n < |units| ==> units[n] >= x
    ensures Below(units, x) == n
  {
    if n > 0 {
      BelowExact(units[1..], x, n - 1);
    }
  }

  /** The binary search; an address that is not in the index goes to the entry before it. */
  method Search(units: seq<nat>, x: nat) returns (i: nat)
    requires Increasing(units)
    ensures i == IndexOf(units, x)
  {
    var lo, hi := 0, |units|;
    while lo < hi
      invariant lo <= hi <= |units|
      invariant forall k :: 0 <= k < lo ==> units[k] < x
      invariant forall k :: hi <= k < |units| ==> units[k] > x
    {
      var mid := (lo + hi) / 2;
      if units[mid] == x {
        BelowExact(units, x, mid);
        return mid;
      } else if units[mid] < x {
        lo := mid + 1;
      } else {
        hi := mid;
      }
    }
    BelowExact(units, x, lo);
    i := if lo == 0 then 0 else lo - 1;
  }

  lemma OrderedIncreasing(code: seq<Word>, d: Decoded, pc: nat)
    requires Faithful(code, d, pc)
    ensures Increasing(d.units)
  {
    forall i, j | 0 <= i < j < |d.units|
      ensures d.units[i] < d.units[j]
    {
      assert EntryAt(code, d, pc, i);
    }
  }

  /** The search is exact at the address of an instruction. */
  lemma IndexExact(units: seq<nat>, i: nat)
    requires Increasing(units) && i < |units|
    ensures IndexOf(units, units[i]) == i
  {
    BelowExact(units, units[i], i);
  }

  /** Inside an instruction the search finds that instruction. */
  lemma IndexInside(units: seq<nat>, i: nat, x: nat)
    requires Increasing(units) && i < |units| && units[i] <= x
    requires i + 1 < |units| ==> x < units[i + 1]
    ensures IndexOf(units, x) == i
  {
    if x == units[i] {
      IndexExact(units, i);
    } else {
      assert forall k :: 0 <= k <= i ==> units[k] <= units[i];
      BelowExact(units, x, i + 1);
    }
  }

  /** For every address inside an instruction of a faithful index, the search gives the
      instruction that covers it. */
  lemma SearchCovers(code: seq<Word>, d: Decoded, i: nat, x: nat)
    requires Faithful(code, d, 0) && i < |d.units|
    requires d.units[i] <= x < d.units[i] + d.sizes[i]
    ensures IndexOf(d.units, x) == i
  {
    OrderedIncreasing(code, d, 0);
    IndexInside(d.units, i, x);
  }
}
