/** The VM's heap tables and `gc`, the mark-sweep collector. */
module Collector {
  import opened Wrappers
  import opened Seqs
  import opened Values
  import opened Heap

  // ---- reachability ----

  /** A path of references through existing slots. */
  ghost predicate IsPath(objects: seq<JObject>, p: seq<nat>) {
    && p != []
    && p[0] < |objects|
    && (|p| > 1 ==> p[1] in Refs(objects[p[0]]) && IsPath(objects, p[1..]))
  }

  ghost predicate Reachable(objects: seq<JObject>, roots: set<nat>, id: nat) {
    exists p :: IsPath(objects, p) && p[0] in roots && p[|p| - 1] == id
  }

  lemma {:induction false} PathAppend(objects: seq<JObject>, p: seq<nat>, id: nat)
    requires IsPath(objects, p) && id < |objects|
    requires p[|p| - 1] < |objects| && id in Refs(objects[p[|p| - 1]])
    ensures IsPath(objects, p + [id])
  {
    if |p| == 1 {
      assert (p + [id])[1..] == [id];
    } else {
      assert (p + [id])[1..] == p[1..] + [id];
      PathAppend(objects, p[1..], id);
    }
  }

  lemma {:induction false} PathEnds(objects: seq<JObject>, p: seq<nat>)
    requires IsPath(objects, p)
    ensures p[|p| - 1] < |objects|
  {
    if |p| > 1 {
      PathEnds(objects, p[1..]);
    }
  }

  lemma RootReachable(objects: seq<JObject>, roots: set<nat>, id: nat)
    requires id in roots && id < |objects|
    ensures Reachable(objects, roots, id)
  {
    assert IsPath(objects, [id]);
  }

  lemma RefReachable(objects: seq<JObject>, roots: set<nat>, a: nat, b: nat)
    requires Reachable(objects, roots, a) && b < |objects|
    requires a < |objects| && b in Refs(objects[a])
    ensures Reachable(objects, roots, b)
  {
    var p :| IsPath(objects, p) && p[0] in roots && p[|p| - 1] == a;
    PathAppend(objects, p, b);
    assert (p + [b])[0] == p[0] && (p + [b])[|p|] == b;
  }

  // ---- the marks ----

  predicate Marked(m: seq<bool>, id: nat) {
    id < |m| && m[id]
  }

  /** All references of object `i` that name a slot are marked. */
  ghost predicate Scanned(objects: seq<JObject>, m: seq<bool>, i: nat)
    requires |m| == |objects| && i < |objects|
  {
    forall r :: r in Refs(objects[i]) && r < |m| ==> m[r]
  }

  /** The invariant of the worklist: what is on it is marked, what is marked is reachable,
      and what is marked but no longer on it has been scanned (object `current` apart). */
  ghost predicate Marking(objects: seq<JObject>, roots: set<nat>, m: seq<bool>, stack: seq<nat>,
                          current: set<nat>) {
    && |m| == |objects|
    && (forall k :: 0 <= k < |stack| ==> Marked(m, stack[k]))
    && (forall i :: 0 <= i < |m| && m[i] ==> Reachable(objects, roots, i))
    && (forall i :: 0 <= i < |m| && m[i] && i !in stack && i !in current ==> Scanned(objects, m, i))
  }

  ghost predicate Grown(before: seq<bool>, after: seq<bool>) {
    |before| == |after| && forall i :: 0 <= i < |before| && before[i] ==> after[i]
  }

  function Unmarked(m: seq<bool>): nat {
    if m == [] then 0 else Unmarked(m[..|m| - 1]) + (if m[|m| - 1] then 0 else 1)
  }

  lemma {:induction false} MarkOne(m: seq<bool>, id: nat)
    requires id < |m| && !m[id]
    ensures Unmarked(m[id := true]) == Unmarked(m) - 1
  {
    var n := |m| - 1;
    if id == n {
      assert m[id := true][..n] == m[..n];
    } else {
      assert m[id := true][..n] == m[..n][id := true];
      MarkOne(m[..n], id);
    }
  }

  /** Scanned for a path from a marked root leads to a marked end: marking is complete. */
  lemma {:induction false} PathMarked(objects: seq<JObject>, m: seq<bool>, p: seq<nat>)
    requires IsPath(objects, p) && |m| == |objects| && m[p[0]]
    requires forall i :: 0 <= i < |m| && m[i] ==> Scanned(objects, m, i)
    ensures Marked(m, p[|p| - 1])
  {
    if |p| > 1 {
      assert Scanned(objects, m, p[0]);
      PathMarked(objects, m, p[1..]);
    }
  }

  /** When the worklist is empty and all roots are marked, the marked set is exactly the
      set of reachable slots. */
  lemma MarksExact(objects: seq<JObject>, roots: set<nat>, m: seq<bool>)
    requires Marking(objects, roots, m, [], {})
    requires forall r :: r in roots && r < |m| ==> m[r]
    ensures forall id: nat :: Marked(m, id) <==> Reachable(objects, roots, id)
  {
    forall id: nat | Reachable(objects, roots, id)
      ensures Marked(m, id)
    {
      var p :| IsPath(objects, p) && p[0] in roots && p[|p| - 1] == id;
      PathMarked(objects, m, p);
    }
  }

  // ---- the dead ----

  ghost function Survivors(objects: seq<JObject>, roots: set<nat>): set<nat> {
    set id | 0 <= id < |objects| && Reachable(objects, roots, id)
  }

  /** The numbers below n outside a set, in ascending order. */
  function Sift(kept: set<nat>, n: nat): seq<nat> {
    if n == 0 then [] else Sift(kept, n - 1) + (if n - 1 in kept then [] else [n - 1])
  }

  /** The unreachable slots, in ascending order. */
  ghost function Dead(objects: seq<JObject>, roots: set<nat>): seq<nat> {
    Sift(Survivors(objects, roots), |objects|)
  }

  lemma {:induction false} SiftMember(kept: set<nat>, n: nat, id: nat)
    ensures id in Sift(kept, n) <==> id < n && id !in kept
  {
    if n > 0 {
      SiftMember(kept, n - 1, id);
    }
  }

  lemma {:induction false} SiftNoDup(kept: set<nat>, n: nat)
    ensures Distinct(Sift(kept, n))
  {
    if n > 0 {
      var before := Sift(kept, n - 1);
      SiftNoDup(kept, n - 1);
      SiftMember(kept, n - 1, n - 1);
      Snoc(before, n - 1);
      Empty(before);
    }
  }

  lemma DeadMember(objects: seq<JObject>, roots: set<nat>, id: nat)
    ensures id in Dead(objects, roots) <==> id < |objects| && !Reachable(objects, roots, id)
  {
    SiftMember(Survivors(objects, roots), |objects|, id);
  }

  /** The ids in the static fields of all classes. */
  function IdsOfAll(statics: seq<seq<JValue>>): set<nat> {
    if statics == [] then {}
    else IdsOfAll(statics[..|statics| - 1]) + SetOf<nat>(Ids(statics[|statics| - 1]))
  }

  lemma {:induction false} IdsExact(vs: seq<JValue>, id: nat)
    ensures id in Ids(vs) <==> exists i :: 0 <= i < |vs| && vs[i] == Obj(id)
  {
    if vs != [] {
      var n := |vs| - 1;
      IdsExact(vs[..n], id);
      assert forall i :: 0 <= i < n ==> vs[..n][i] == vs[i];
    }
  }

  /** What an object refers to: the objects in its fields, and those among the values of its
      payload that the scan looks at. */
  lemma RefsExact(o: JObject, id: nat)
    ensures id in Refs(o) <==> Obj(id) in o.fields || (o.native.Some? && Obj(id) in Held(o.native.value))
  {
    IdsExact(o.fields, id);
    if o.native.Some? {
      IdsExact(Held(o.native.value), id);
    }
  }

  lemma {:induction false} StaticsExact(statics: seq<seq<JValue>>, id: nat)
    ensures id in IdsOfAll(statics)
       <==> exists c, i :: 0 <= c < |statics| && 0 <= i < |statics[c]| && statics[c][i] == Obj(id)
  {
    if statics != [] {
      var n := |statics| - 1;
      StaticsExact(statics[..n], id);
      IdsExact(statics[n], id);
      assert forall c :: 0 <= c < n ==> statics[..n][c] == statics[c];
    }
  }

  /** The free list names slots, and every interned string is a live object that holds that
      string. */
  ghost predicate ValidHeap(h: State, strings: map<string, nat>, hot: nat) {
    && h.InRange()
    && forall s :: s in strings ==> h.Live(strings[s]) && h.objects[strings[s]] == StringObject(hot, s)
  }

  class Vm {
    const arena: Arena
    /** Pooled dex strings, by dex and string index. */
    var stringObjs: map<(nat, nat), nat>
    /** Interned strings. */
    var runtimeStrings: map<string, nat>
    /** The static fields of every class. */
    var statics: seq<seq<JValue>>
    /** Held monitors and their counts. */
    var monitors: map<nat, nat>
    /** Loaded classes by descriptor, and the class of strings. */
    var classByDesc: map<string, nat>
    var hotString: nat

    constructor (hotString: nat)
      ensures fresh(arena) && arena.View() == State([], [])
      ensures stringObjs == map[] && runtimeStrings == map[] && statics == [] && monitors == map[]
      ensures classByDesc == map[] && this.hotString == hotString && Sound()
    {
      arena := new Arena();
      stringObjs, runtimeStrings, statics, monitors := map[], map[], [], map[];
      classByDesc := map[];
      this.hotString := hotString;
    }

    ghost predicate Valid()
      reads this, arena
    {
      ValidHeap(arena.View(), runtimeStrings, hotString)
    }

    /** Besides, the free list has no duplicate: what building a graph needs. */
    ghost predicate Sound()
      reads this, arena
    {
      Valid() && Distinct(arena.free)
    }

    /** A new object takes a slot that was not live; all live objects stay as they are. */
    method AllocObject(cls: nat, native: Native) returns (id: nat)
      requires Valid()
      modifies arena
      ensures Valid() && Extends(old(arena.View()), arena.View())
      ensures id < |arena.objects| && arena.objects[id] == JObject(cls, [], Some(native))
      ensures !old(arena.View()).Live(id)
      ensures old(Sound()) ==> Sound() && arena.View().Live(id)
    {
      AllocExtends(arena.View(), JObject(cls, [], Some(native)));
      id := arena.Alloc(cls, [], Some(native));
    }

    /** `alloc_string`: interned, so equal strings share one object. */
    method AllocString(s: string) returns (v: JValue)
      requires Sound()
      modifies this`runtimeStrings, arena
      ensures Sound() && Extends(old(arena.View()), arena.View())
      ensures v.Obj? && runtimeStrings == old(runtimeStrings)[s := v.id]
      ensures s in old(runtimeStrings) ==> v.id == old(runtimeStrings)[s]
      ensures s in old(runtimeStrings) ==> arena.View() == old(arena.View())
    {
      if s in runtimeStrings {
        assert runtimeStrings[s := runtimeStrings[s]] == runtimeStrings;
        return Obj(runtimeStrings[s]);
      }
      var id := AllocObject(hotString, Str(s));
      runtimeStrings := runtimeStrings[s := id];
      v := Obj(id);
    }

    /** `throwable_of`: a missing class falls back to class 0. */
    method ThrowableOf(desc: string, message: string) returns (id: nat)
      requires Valid()
      modifies arena
      ensures Valid() && Extends(old(arena.View()), arena.View())
      ensures id < |arena.objects| && !old(arena.View()).Live(id)
      ensures old(Sound()) ==> Sound() && arena.View().Live(id)
      ensures arena.objects[id] == JObject(if desc in classByDesc then classByDesc[desc] else 0, [],
                                           Some(Throwable(message, Null)))
    {
      var cls := if desc in classByDesc then classByDesc[desc] else 0;
      id := AllocObject(cls, Throwable(message, Null));
    }

    ghost function Roots(extra: seq<nat>): set<nat>
      reads this
    {
      stringObjs.Values + runtimeStrings.Values + IdsOfAll(statics) + monitors.Keys
      + SetOf<nat>(extra)
    }

    /** The roots, told one by one: whatever the string tables name, every object in a static
        field of any class, every held monitor, what the caller adds; and nothing else. */
    lemma RootsExact(extra: seq<nat>, id: nat)
      ensures id in Roots(extra)
         <==> || (exists k :: k in stringObjs && stringObjs[k] == id)
              || (exists s :: s in runtimeStrings && runtimeStrings[s] == id)
              || (exists c, i :: 0 <= c < |statics| && 0 <= i < |statics[c]| && statics[c][i] == Obj(id))
              || id in monitors || id in extra
    {
      StaticsExact(statics, id);
    }

    /** Frees every object that cannot be reached from the roots; `monitors.retain`
        drops nothing, because a held monitor is itself a root. The machine stays sound
        exactly when every slot that was free before is named by something reachable. */
    method Gc(extra: seq<nat>) returns (freed: nat)
      requires forall id :: id in monitors ==> id < |arena.objects|
      modifies this`monitors, arena`free
      ensures arena.free == old(arena.free) + Dead(arena.objects, old(Roots(extra)))
      ensures freed == |Dead(arena.objects, old(Roots(extra)))|
      ensures monitors == old(monitors)
      ensures old(Valid()) ==> Valid()
      ensures old(Sound())
          ==> (Sound() <==> forall id :: id in old(arena.free) ==> Reachable(arena.objects, old(Roots(extra)), id))
    {
      var n := |arena.objects|;
      ghost var h, roots := arena.View(), Roots(extra);
      CollectedValid(h, roots, runtimeStrings, hotString);
      if n == 0 {
        Empty(arena.free);
        return 0;
      }
      var marks := new bool[n](_ => false);
      var stack := SeedRoots(marks, extra);
      Mark(arena.objects, roots, marks, stack);
      MarksExact(arena.objects, roots, marks[..]);
      freed := Sweep(marks, roots);
      MonitorsMarked(arena.objects, roots, marks[..], monitors.Keys);
      RetainAll(monitors, marks[..]);
      monitors := Retain(monitors, marks[..]);
    }

    /** The sweep: every unmarked slot goes to the free list, in ascending order. */
    method Sweep(marks: array<bool>, ghost roots: set<nat>) returns (freed: nat)
      requires marks.Length == |arena.objects|
      requires forall id: nat :: Marked(marks[..], id) <==> Reachable(arena.objects, roots, id)
      modifies arena`free
      ensures arena.free == old(arena.free) + Dead(arena.objects, roots)
      ensures freed == |Dead(arena.objects, roots)|
    {
      freed := 0;
      ghost var kept := Survivors(arena.objects, roots);
      for id := 0 to marks.Length
        invariant arena.objects == old(arena.objects)
        invariant arena.free == old(arena.free) + Sift(kept, id)
        invariant freed == |Sift(kept, id)|
      {
        assert Marked(marks[..], id) == marks[id];
        ghost var before := Sift(kept, id);
        if !marks[id] {
          Assoc(old(arena.free), before, [id]);
          arena.Reclaim(id);
          freed := freed + 1;
        } else {
          Empty(before);
        }
      }
    }

    /** The five seeding loops. */
    method SeedRoots(marks: array<bool>, extra: seq<nat>) returns (stack: seq<nat>)
      requires marks.Length == |arena.objects|
      requires forall i :: 0 <= i < marks.Length ==> !marks[i]
      modifies marks
      ensures Marking(arena.objects, Roots(extra), marks[..], stack, {})
      ensures AllMarked(Roots(extra), marks[..])
    {
      ghost var objects, roots := arena.objects, Roots(extra);
      stack := [];
      stack := SeedMap(objects, roots, stringObjs, marks, stack);
      ghost var m1 := marks[..];
      stack := SeedMap(objects, roots, runtimeStrings, marks, stack);
      ghost var m2 := marks[..];
      stack := SeedStatics(objects, roots, statics, marks, stack);
      ghost var m3 := marks[..];
      var held := Identity(monitors.Keys);
      stack := SeedMap(objects, roots, held, marks, stack);
      ghost var m4 := marks[..];
      stack := SeedAll(objects, roots, extra, marks, stack, {});
      StillMarked(stringObjs.Values, m1, m2);
      StillMarked(stringObjs.Values + runtimeStrings.Values, m2, m3);
      StillMarked(stringObjs.Values + runtimeStrings.Values + IdsOfAll(statics), m3, m4);
      StillMarked(stringObjs.Values + runtimeStrings.Values + IdsOfAll(statics) + monitors.Keys,
                  m4, marks[..]);
    }
  }

  function Identity(ids: set<nat>): (m: map<nat, nat>)
    ensures m.Values == ids
  {
    var m := map id | id in ids :: id;
    assert forall id :: id in ids ==> m[id] in m.Values;
    m
  }

  lemma StillMarked(ids: set<nat>, before: seq<bool>, after: seq<bool>)
    requires AllMarked(ids, before) && Grown(before, after)
    ensures AllMarked(ids, after)
  {
  }

  method SeedStatics(ghost objects: seq<JObject>, ghost roots: set<nat>, statics: seq<seq<JValue>>,
                     marks: array<bool>, stack: seq<nat>)
    returns (r: seq<nat>)
    requires Marking(objects, roots, marks[..], stack, {})
    requires IdsOfAll(statics) <= roots
    modifies marks
    ensures Marking(objects, roots, marks[..], r, {})
    ensures Grown(old(marks[..]), marks[..])
    ensures AllMarked(IdsOfAll(statics), marks[..])
  {
    r := stack;
    for c := 0 to |statics|
      invariant Marking(objects, roots, marks[..], r, {})
      invariant Grown(old(marks[..]), marks[..])
      invariant AllMarked(IdsOfAll(statics[..c]), marks[..])
    {
      ghost var before := marks[..];
      IdsOfPrefix(statics, c + 1);
      assert statics[..c + 1][..c] == statics[..c];
      assert forall id :: id in Ids(statics[c]) ==> id in SetOf<nat>(Ids(statics[c]));
      r := SeedAll(objects, roots, Ids(statics[c]), marks, r, {});
      StillMarked(IdsOfAll(statics[..c]), before, marks[..]);
    }
    assert statics[..|statics|] == statics;
  }

  lemma {:induction false} IdsOfPrefix(statics: seq<seq<JValue>>, c: nat)
    requires c <= |statics|
    ensures IdsOfAll(statics[..c]) <= IdsOfAll(statics)
    decreases |statics| - c
  {
    if c == |statics| {
      assert statics[..c] == statics;
    } else {
      IdsOfPrefix(statics, c + 1);
      assert statics[..c + 1][..c] == statics[..c];
    }
  }

  /** `retain`: the entries whose key is marked. */
  function Retain(m: map<nat, nat>, marks: seq<bool>): map<nat, nat>
    requires forall id :: id in m ==> id < |marks|
  {
    map id | id in m && marks[id] :: m[id]
  }

  lemma RetainAll(m: map<nat, nat>, marks: seq<bool>)
    requires forall id :: id in m ==> id < |marks| && marks[id]
    ensures Retain(m, marks) == m
  {
  }

  ghost predicate AllMarked(ids: set<nat>, m: seq<bool>) {
    forall id :: id in ids && id < |m| ==> m[id]
  }

  /** A held monitor is a root, so it stays marked. */
  lemma MonitorsMarked(objects: seq<JObject>, roots: set<nat>, m: seq<bool>,
                       held: set<nat>)
    requires held <= roots
    requires forall id :: id in held ==> id < |objects|
    requires forall id: nat :: Marked(m, id) <==> Reachable(objects, roots, id)
    ensures forall id :: id in held ==> id < |m| && m[id]
  {
    forall id | id in held
      ensures Marked(m, id)
    {
      RootReachable(objects, roots, id);
    }
  }

  /** The closure `seed`: marks a slot and puts it on the worklist, once. */
  method Seed(id: nat, marks: array<bool>, stack: seq<nat>) returns (r: seq<nat>)
    modifies marks
    ensures if id < marks.Length && !old(marks[..])[id]
            then marks[..] == old(marks[..])[id := true] && r == stack + [id]
            else marks[..] == old(marks[..]) && r == stack
  {
    r := stack;
    if id < marks.Length && !marks[id] {
      marks[id] := true;
      r := r + [id];
    }
  }

  method SeedAll(ghost objects: seq<JObject>, ghost roots: set<nat>, ids: seq<nat>,
                 marks: array<bool>, stack: seq<nat>, ghost current: set<nat>)
    returns (r: seq<nat>)
    requires Marking(objects, roots, marks[..], stack, current)
    requires forall k :: 0 <= k < |ids| && ids[k] < |objects| ==> Reachable(objects, roots, ids[k]) || ids[k] in roots
    modifies marks
    ensures Marking(objects, roots, marks[..], r, current)
    ensures Grown(old(marks[..]), marks[..])
    ensures AllMarked(SetOf<nat>(ids), marks[..])
    ensures Unmarked(marks[..]) + |r| == old(Unmarked(marks[..])) + |stack|
  {
    r := stack;
    for k := 0 to |ids|
      invariant Marking(objects, roots, marks[..], r, current)
      invariant Grown(old(marks[..]), marks[..])
      invariant forall j :: 0 <= j < k && ids[j] < marks.Length ==> marks[..][ids[j]]
      invariant Unmarked(marks[..]) + |r| == old(Unmarked(marks[..])) + |stack|
    {
      ghost var before, was := marks[..], r;
      if ids[k] in roots && ids[k] < |objects| {
        RootReachable(objects, roots, ids[k]);
      }
      r := Seed(ids[k], marks, r);
      SeedKeeps(objects, roots, before, was, ids[k], current);
    }
  }

  lemma SeedKeeps(objects: seq<JObject>, roots: set<nat>, m: seq<bool>,
                  stack: seq<nat>, id: nat, current: set<nat>)
    requires Marking(objects, roots, m, stack, current)
    requires id < |objects| ==> Reachable(objects, roots, id)
    ensures id < |m| && !m[id] ==>
              Marking(objects, roots, m[id := true], stack + [id], current)
              && Unmarked(m[id := true]) == Unmarked(m) - 1
  {
    if id < |m| && !m[id] {
      MarkOne(m, id);
      var n := m[id := true];
      forall i | 0 <= i < |n| && n[i] && i !in stack + [id] && i !in current
        ensures Scanned(objects, n, i)
      {
        assert i != id && i !in stack;
        assert Scanned(objects, m, i);
      }
    }
  }

  /** Seeding from a hash map; the order of its values is arbitrary. */
  method SeedMap<K>(ghost objects: seq<JObject>, ghost roots: set<nat>, m: map<K, nat>,
                        marks: array<bool>, stack: seq<nat>)
    returns (r: seq<nat>)
    requires Marking(objects, roots, marks[..], stack, {})
    requires forall k :: k in m ==> m[k] in roots
    modifies marks
    ensures Marking(objects, roots, marks[..], r, {})
    ensures Grown(old(marks[..]), marks[..])
    ensures AllMarked(m.Values, marks[..])
  {
    r := stack;
    var keys := m.Keys;
    while keys != {}
      invariant keys <= m.Keys
      invariant Marking(objects, roots, marks[..], r, {})
      invariant Grown(old(marks[..]), marks[..])
      invariant forall k :: k in m && k !in keys && m[k] < marks.Length ==> marks[m[k]]
      decreases |keys|
    {
      var k :| k in keys;
      keys := keys - {k};
      ghost var before := marks[..];
      r := SeedAll(objects, roots, [m[k]], marks, r, {});
      assert m[k] in SetOf<nat>([m[k]]);
    }
  }

  /** The worklist loop: it ends because every turn removes one entry from the sum of the
      unmarked slots and the worklist. */
  method Mark(objects: seq<JObject>, ghost roots: set<nat>, marks: array<bool>, start: seq<nat>)
    requires Marking(objects, roots, marks[..], start, {})
    modifies marks
    ensures Marking(objects, roots, marks[..], [], {})
    ensures Grown(old(marks[..]), marks[..])
  {
    var stack := start;
    while |stack| > 0
      invariant Marking(objects, roots, marks[..], stack, {})
      invariant Grown(old(marks[..]), marks[..])
      decreases Unmarked(marks[..]) + |stack|
    {
      var id := stack[|stack| - 1];
      ghost var before := stack;
      stack := stack[..|stack| - 1];
      var refs := CollectRefs(objects[id], []);
      assert refs == Refs(objects[id]);
      forall k | 0 <= k < |refs| && refs[k] < |objects|
        ensures Reachable(objects, roots, refs[k])
      {
        RefReachable(objects, roots, id, refs[k]);
      }
      assert forall i :: i in before ==> i in stack || i == id;
      stack := SeedAll(objects, roots, refs, marks, stack, {id});
      assert Scanned(objects, marks[..], id);
    }
  }

  // ---- what a collection leaves behind ----

  /** The arena after a collection with the given roots. */
  ghost function Collected(h: State, roots: set<nat>): State {
    State(h.objects, h.free + Dead(h.objects, roots))
  }

  /** The free list is free of duplicates after a collection exactly when it was before
      and every id on it names a reachable slot. */
  lemma CollectedNoDup(h: State, roots: set<nat>)
    requires h.InRange()
    ensures Distinct(Collected(h, roots).free)
       <==> Distinct(h.free) && forall id :: id in h.free ==> Reachable(h.objects, roots, id)
  {
    SiftNoDup(Survivors(h.objects, roots), |h.objects|);
    NoDupAppend(h.free, Dead(h.objects, roots));
    forall id | id in h.free
      ensures id !in Dead(h.objects, roots) <==> Reachable(h.objects, roots, id)
    {
      DeadMember(h.objects, roots, id);
    }
  }

  /** Interned strings are roots, so a machine stays valid over every collection; whether it
      stays sound depends on the free list alone. */
  lemma CollectedValid(h: State, roots: set<nat>, strings: map<string, nat>, hot: nat)
    requires strings.Values <= roots
    ensures ValidHeap(h, strings, hot) ==> ValidHeap(Collected(h, roots), strings, hot)
    ensures ValidHeap(h, strings, hot) && Distinct(h.free)
        ==> (Distinct(Collected(h, roots).free)
             <==> forall id :: id in h.free ==> Reachable(h.objects, roots, id))
  {
    if ValidHeap(h, strings, hot) {
      CollectedNoDup(h, roots);
      CollectedInRange(h, roots);
      forall s | s in strings
        ensures Collected(h, roots).Live(strings[s])
      {
        assert strings[s] in strings.Values;
        RootReachable(h.objects, roots, strings[s]);
        ReachableLive(h, roots, strings[s]);
      }
    }
  }

  /** In a heap whose free slots are garbage, as a first collection leaves it, the next
      collection is safe to allocate from exactly when the free list has been used up. */
  lemma CollectAgain(h: State, roots: set<nat>)
    requires h.InRange() && Distinct(h.free)
    requires forall id :: id in h.free ==> !Reachable(h.objects, roots, id)
    ensures Distinct(Collected(h, roots).free) <==> h.free == []
  {
    CollectedNoDup(h, roots);
    if h.free != [] {
      assert h.free[0] in h.free;
    }
  }

  /** Two collections of a heap with one dead object: the next two allocations are given
      the same slot. */
  lemma SlotTwice(o: JObject)
    ensures var h := Collected(Collected(State([o], []), {}), {});
      h.Slot(0) == h.Slot(1) == 0
  {
    assert !Reachable([o], {}, 0);
    assert Survivors([o], {}) == {};
    assert Sift({}, 1) == Sift({}, 0) + [0];
  }

  /** The arena after n collections with nothing in between. */
  ghost function CollectedTimes(h: State, roots: set<nat>, n: nat): (g: State)
    ensures g.objects == h.objects
    decreases n
  {
    if n == 0 then h else Collected(CollectedTimes(h, roots, n - 1), roots)
  }

  lemma CollectedInRange(h: State, roots: set<nat>)
    requires h.InRange()
    ensures Collected(h, roots).InRange()
  {
    var g := Collected(h, roots);
    forall i | 0 <= i < |g.free|
      ensures g.free[i] < |g.objects|
    {
      if i >= |h.free| {
        var id := g.free[i];
        assert id == Dead(h.objects, roots)[i - |h.free|];
        assert id in Dead(h.objects, roots);
        DeadMember(h.objects, roots, id);
      }
    }
  }

  function Repeated(d: seq<nat>, n: nat): (r: seq<nat>)
    ensures |r| == n * |d| && (d != [] ==> |r| >= n)
    ensures forall id :: id in r <==> n > 0 && id in d
  {
    if n == 0 then []
    else
      assert n * |d| == (n - 1) * |d| + |d|;
      Repeated(d, n - 1) + d
  }

  lemma {:induction false} TimesFree(h: State, roots: set<nat>, n: nat)
    ensures CollectedTimes(h, roots, n) == State(h.objects, h.free + Repeated(Dead(h.objects, roots), n))
    decreases n
  {
    var dead := Dead(h.objects, roots);
    if n == 0 {
      Empty(h.free);
    } else {
      TimesFree(h, roots, n - 1);
      Assoc(h.free, Repeated(dead, n - 1), dead);
    }
  }

  /** A nonempty list is repeated without a duplicate at most once. */
  lemma RepeatedDistinct(d: seq<nat>, n: nat)
    requires Distinct(d)
    ensures Distinct(Repeated(d, n)) <==> n <= 1 || d == []
  {
    if n > 0 {
      var before := Repeated(d, n - 1);
      NoDupAppend(before, d);
      Empty(d);
      if d != [] {
        assert d[0] in d;
      }
    }
  }

  lemma DeadDistinct(objects: seq<JObject>, roots: set<nat>, n: nat)
    ensures var dead := Dead(objects, roots);
      && Distinct(dead)
      && State(objects, Repeated(dead, n)).InRange()
  {
    var free := Repeated(Dead(objects, roots), n);
    SiftNoDup(Survivors(objects, roots), |objects|);
    forall i | 0 <= i < |free|
      ensures free[i] < |objects|
    {
      DeadMember(objects, roots, free[i]);
    }
  }

  /** Every collection subtracts the garbage from the live count once more. So from an empty
      free list the count is right after n collections exactly when there is no garbage or at
      most one collection; and where there is garbage, it underflows in the end. */
  lemma CountDrops(h: State, roots: set<nat>, n: nat)
    ensures var g := CollectedTimes(h, roots, n);
      && g.LiveCount() == h.LiveCount() - n * |Dead(h.objects, roots)|
      && (h.free == [] ==> (g.LiveCount() == |g.LiveSlots()| <==> n <= 1 || Dead(h.objects, roots) == []))
      && (n > h.LiveCount() && Dead(h.objects, roots) != [] ==> g.LiveCount() < 0)
  {
    var dead := Dead(h.objects, roots);
    TimesFree(h, roots, n);
    if h.free == [] {
      Empty(Repeated(dead, n));
      DeadDistinct(h.objects, roots, n);
      RepeatedDistinct(dead, n);
      CountExact(State(h.objects, Repeated(dead, n)));
    }
  }

  /** What is reachable and not already free stays out of every later allocation. */
  lemma ReachableLive(h: State, roots: set<nat>, id: nat)
    requires Reachable(h.objects, roots, id) && id !in h.free
    ensures Collected(h, roots).Live(id)
  {
    ReachableInRange(h.objects, roots, id);
    DeadMember(h.objects, roots, id);
  }

  /** After a collection that began with an empty free list, the allocations up to the
      next one take pairwise distinct slots, none of them a reachable object's, and keep
      the live count exact. */
  lemma AllocationSafe(h: State, roots: set<nat>, os: seq<JObject>)
    requires h.free == []
    ensures var g := Collected(h, roots);
      && g.InRange()
      && (forall j: nat, k: nat :: j < k ==> g.Slot(j) != g.Slot(k))
      && AllocAll(g, os).LiveCount() == |h.objects| - |Dead(h.objects, roots)| + |os|
  {
    CollectedInRange(h, roots);
    CollectedNoDup(h, roots);
    SlotsDistinct(Collected(h, roots));
    AllocRun(Collected(h, roots), os);
  }

  /** After any collection, of however damaged a free list, every object that was live and
      reachable is still there, unchanged, when any run of allocations is done. */
  lemma ReachableKept(h: State, roots: set<nat>, os: seq<JObject>, id: nat)
    requires h.InRange() && id !in h.free && Reachable(h.objects, roots, id)
    ensures Collected(h, roots).InRange()
    ensures AllocAll(Collected(h, roots), os).Live(id) && id < |h.objects|
    ensures AllocAll(Collected(h, roots), os).objects[id] == h.objects[id]
    ensures forall k: nat :: Collected(h, roots).Slot(k) != id
  {
    CollectedInRange(h, roots);
    ReachableLive(h, roots, id);
    LiveKept(Collected(h, roots), os, id);
  }

  lemma ReachableInRange(objects: seq<JObject>, roots: set<nat>, id: nat)
    requires Reachable(objects, roots, id)
    ensures id < |objects|
  {
    var p :| IsPath(objects, p) && p[0] in roots && p[|p| - 1] == id;
    PathEnds(objects, p);
  }

  // ---- values that a collection leaves dangling ----

  /** The object stores the value, in a field or anywhere in its payload. */
  predicate Keeps(o: JObject, v: JValue) {
    v in o.fields || (o.native.Some? && Stores(o.native.value, v))
  }

  function PassedOver(o: JObject): seq<JValue> {
    if o.native.Some? then Skipped(o.native.value) else []
  }

  /** The value names no slot that a collection frees. */
  ghost predicate Spared(h: State, roots: set<nat>, v: JValue) {
    v.Obj? && h.Live(v.id) ==> Collected(h, roots).Live(v.id)
  }

  /** No object that survives stores a value whose slot is freed. */
  ghost predicate NoneDangles(h: State, roots: set<nat>) {
    forall id: nat, v :: id < |h.objects| && Reachable(h.objects, roots, id) && Keeps(h.objects[id], v)
      ==> Spared(h, roots, v)
  }

  /** Every live object named by a value that the scan passes over in a reachable object is
      reachable itself. */
  ghost predicate PassedReachable(h: State, roots: set<nat>) {
    forall id: nat, v :: id < |h.objects| && Reachable(h.objects, roots, id) && v in PassedOver(h.objects[id])
      ==> v.Obj? && h.Live(v.id) ==> Reachable(h.objects, roots, v.id)
  }

  /** A collection frees exactly the live slots that cannot be reached. */
  lemma SparedReachable(h: State, roots: set<nat>, v: JValue)
    ensures Spared(h, roots, v) <==> (v.Obj? && h.Live(v.id) ==> Reachable(h.objects, roots, v.id))
  {
    if v.Obj? {
      DeadMember(h.objects, roots, v.id);
    }
  }

  lemma RefSpared(h: State, roots: set<nat>, id: nat, v: JValue)
    requires id < |h.objects| && Reachable(h.objects, roots, id) && Keeps(h.objects[id], v)
    ensures v in PassedOver(h.objects[id]) || Spared(h, roots, v)
  {
    var o := h.objects[id];
    if v.Obj? && h.Live(v.id) && v !in PassedOver(o) {
      if o.native.Some? {
        CarriedSplit(o.native.value, v);
      }
      if v in o.fields {
        var k :| 0 <= k < |o.fields| && o.fields[k] == v;
        IdsHas(o.fields, k);
      } else {
        var held := Held(o.native.value);
        var k :| 0 <= k < |held| && held[k] == v;
        IdsHas(held, k);
      }
      RefReachable(h.objects, roots, id, v.id);
      ReachableLive(h, roots, v.id);
    }
  }

  /** A collection leaves no surviving object with a dangling value exactly when what the scan
      passes over in the reachable objects is reachable some other way. */
  lemma DanglesExactly(h: State, roots: set<nat>)
    ensures NoneDangles(h, roots) <==> PassedReachable(h, roots)
  {
    if NoneDangles(h, roots) {
      forall id: nat, v | id < |h.objects| && Reachable(h.objects, roots, id) && v in PassedOver(h.objects[id])
        ensures v.Obj? && h.Live(v.id) ==> Reachable(h.objects, roots, v.id)
      {
        PassedKept(h.objects[id], v);
        SparedReachable(h, roots, v);
      }
    }
    if PassedReachable(h, roots) {
      forall id: nat, v | id < |h.objects| && Reachable(h.objects, roots, id) && Keeps(h.objects[id], v)
        ensures Spared(h, roots, v)
      {
        RefSpared(h, roots, id, v);
        SparedReachable(h, roots, v);
      }
    }
  }

  lemma PassedKept(o: JObject, v: JValue)
    requires v in PassedOver(o)
    ensures Keeps(o, v)
  {
    CarriedSplit(o.native.value, v);
  }

  /** It does not always: the earlier response of a redirect is freed while the later one,
      which a root holds, still names it, and the next allocation takes its slot. */
  lemma PriorDangles(o: JObject, request: JValue, next: JObject)
    requires request.Obj? ==> request.id == 0
    ensures var later := Redirected(request);
      && Reachable([later, o], {0}, 0) && Keeps(later, Obj(1))
      && Collected(State([later, o], []), {0}) == State([later, o], [1])
      && State([later, o], [1]).Alloc(next) == State([later, next], [])
  {
    RedirectedRefs(request);
    SecondFreed(Redirected(request), o);
    RootReachable([Redirected(request), o], {0}, 0);
  }

  lemma RedirectedRefs(request: JValue)
    requires request.Obj? ==> request.id == 0
    ensures forall id :: id in Refs(Redirected(request)) ==> id == 0
    ensures Keeps(Redirected(request), Obj(1))
  {
    assert Refs(Redirected(request)) == Ids([]) + Ids([request]);
  }

  /** A response that was reached from the response in slot 1. */
  function Redirected(request: JValue): JObject {
    JObject(0, [], Some(Host(Response(request, Obj(1)))))
  }

  lemma SecondFreed(first: JObject, second: JObject)
    requires forall id :: id in Refs(first) ==> id == 0
    ensures Collected(State([first, second], []), {0}) == State([first, second], [1])
  {
    var objects := [first, second];
    OnlyFirst(objects, {0});
    assert Survivors(objects, {0}) == {0};
    assert Sift({0}, 1) == Sift({0}, 0);
    assert Sift({0}, 2) == Sift({0}, 1) + [1];
  }

  lemma OnlyFirst(objects: seq<JObject>, roots: set<nat>)
    requires roots == {0} && objects != []
    requires forall id :: id in Refs(objects[0]) ==> id == 0
    ensures forall id: nat :: Reachable(objects, roots, id) <==> id == 0
  {
    RootReachable(objects, roots, 0);
    forall id: nat | Reachable(objects, roots, id)
      ensures id == 0
    {
      var p :| IsPath(objects, p) && p[0] in roots && p[|p| - 1] == id;
      StaysFirst(objects, p);
    }
  }

  lemma {:induction false} StaysFirst(objects: seq<JObject>, p: seq<nat>)
    requires IsPath(objects, p) && p[0] == 0
    requires forall id :: id in Refs(objects[0]) ==> id == 0
    ensures p[|p| - 1] == 0
  {
    if |p| > 1 {
      StaysFirst(objects, p[1..]);
    }
  }
}
