/** Lookups along the class hierarchy: fields, and the method a call reaches. */
module Resolution {
  import opened Wrappers
  import opened Seqs
  import opened Heap
  import opened ClassTable
  import opened Decoder

  /** Parents have smaller ids throughout, as loading leaves the table. */
  ghost predicate Acyclic(classes: seq<Class>) {
    forall c :: 0 <= c < |classes| ==> Descends(classes, c)
  }

  lemma LoadedAcyclic(src: Source, classes: seq<Class>)
    requires AllMirror(src, classes)
    ensures Acyclic(classes)
  {
    forall c | 0 <= c < |classes|
      ensures Descends(classes, c)
    {
      assert Mirrors(src, classes, c);
    }
  }

  // ---- fields ----

  /** The offset that the walk up the superclass chain finds. */
  function FieldOffset(classes: seq<Class>, c: nat, k: Key): Option<nat>
    requires Acyclic(classes) && c < |classes|
    decreases c
  {
    if k in classes[c].offsets then Some(classes[c].offsets[k])
    else if classes[c].superclass.Some? then
      assert Descends(classes, c);
      FieldOffset(classes, classes[c].superclass.value, k)
    else None
  }

  /** The class n superclasses up, if there is one. */
  function Up(classes: seq<Class>, c: nat, n: nat): Option<nat>
    decreases n
  {
    if n == 0 then Some(c)
    else if c < |classes| && classes[c].superclass.Some? then Up(classes, classes[c].superclass.value, n - 1)
    else None
  }

  /** Class d is n superclasses up and has an offset for the field. */
  predicate HasUp(classes: seq<Class>, c: nat, k: Key, n: nat) {
    Up(classes, c, n).Some? && Up(classes, c, n).value < |classes| && k in classes[Up(classes, c, n).value].offsets
  }

  /** The walk finds the offset in the nearest class of the chain that has one. */
  lemma {:induction false} OffsetNearest(classes: seq<Class>, c: nat, k: Key)
    requires Acyclic(classes) && c < |classes|
    ensures FieldOffset(classes, c, k) == None <==> forall n: nat :: !HasUp(classes, c, k, n)
    ensures forall off :: FieldOffset(classes, c, k) == Some(off) ==>
              exists n: nat :: HasUp(classes, c, k, n) && classes[Up(classes, c, n).value].offsets[k] == off
                               && forall m: nat :: m < n ==> !HasUp(classes, c, k, m)
    decreases c
  {
    assert HasUp(classes, c, k, 0) <==> k in classes[c].offsets;
    assert Descends(classes, c);
    if k !in classes[c].offsets && classes[c].superclass.Some? {
      var s := classes[c].superclass.value;
      OffsetNearest(classes, s, k);
      forall n: nat
        ensures HasUp(classes, c, k, n + 1) <==> HasUp(classes, s, k, n)
        ensures Up(classes, c, n + 1) == Up(classes, s, n)
      {
      }
      if FieldOffset(classes, s, k).Some? {
        var off := FieldOffset(classes, s, k).value;
        var n: nat :| HasUp(classes, s, k, n) && classes[Up(classes, s, n).value].offsets[k] == off
                      && forall m: nat :: m < n ==> !HasUp(classes, s, k, m);
        forall m: nat | m < n + 1
          ensures !HasUp(classes, c, k, m)
        {
          assert m > 0 ==> !HasUp(classes, s, k, m - 1);
        }
        assert HasUp(classes, c, k, n + 1);
      } else {
        forall n: nat
          ensures !HasUp(classes, c, k, n)
        {
          assert n > 0 ==> !HasUp(classes, s, k, n - 1);
        }
      }
    }
  }

  /** `field_offset`. */
  method FindOffset(classes: seq<Class>, c: nat, k: Key) returns (r: Option<nat>)
    requires Acyclic(classes) && c < |classes|
    ensures r == FieldOffset(classes, c, k)
  {
    var cc: nat := c;
    while true
      invariant cc < |classes| && FieldOffset(classes, c, k) == FieldOffset(classes, cc, k)
      decreases cc
    {
      if k in classes[cc].offsets {
        return Some(classes[cc].offsets[k]);
      }
      assert Descends(classes, cc);
      if classes[cc].superclass.None? {
        return None;
      }
      cc := classes[cc].superclass.value;
    }
  }

  /** No class on the superclass chain is an array: arrays do not copy the fields of Object. */
  predicate PlainChain(classes: seq<Class>, c: nat)
    requires c < |classes|
    decreases c
  {
    && !IsArray(classes[c].desc)
    && (classes[c].superclass.Some? && classes[c].superclass.value < c
        ==> PlainChain(classes, classes[c].superclass.value))
  }

  /** A subclass's field list begins with its superclass's, and fields that it does not
      declare again keep their offsets. */
  lemma FieldsInherited(src: Source, classes: seq<Class>, c: nat, k: Key)
    requires AllMirror(src, classes) && c < |classes| && !IsArray(classes[c].desc)
    requires classes[c].superclass.Some?
    ensures var s := classes[c].superclass.value;
      && s < c && Known(src, classes[c].desc)
      && classes[s].fields <= classes[c].fields
      && (k in classes[s].offsets ==>
            k in classes[c].offsets
            && (k !in OwnFields(src, classes[c].desc) ==> classes[c].offsets[k] == classes[s].offsets[k])
            && (k in OwnFields(src, classes[c].desc) ==> classes[c].offsets[k] >= |classes[s].fields|))
  {
    assert Mirrors(src, classes, c);
    var s := classes[c].superclass.value;
    assert Mirrors(src, classes, s);
    LastIndexSound(classes[s].fields, k);
    if k in classes[s].fields {
      Inherited(classes[s].fields, OwnFields(src, classes[c].desc), k);
    }
  }

  /** The walk finds what one lookup in the class itself finds. */
  lemma {:induction false} OneLookup(src: Source, classes: seq<Class>, c: nat, k: Key)
    requires AllMirror(src, classes) && Acyclic(classes) && c < |classes| && PlainChain(classes, c)
    ensures FieldOffset(classes, c, k)
         == (if k in classes[c].offsets then Some(classes[c].offsets[k]) else None)
    decreases c
  {
    if k !in classes[c].offsets && classes[c].superclass.Some? {
      FieldsInherited(src, classes, c, k);
      OneLookup(src, classes, classes[c].superclass.value, k);
    }
  }

  /** Every offset that is found lies within the fields of an object that `alloc_instance`
      makes, and is the last declaration of that key. */
  lemma OffsetInBounds(src: Source, classes: seq<Class>, c: nat, k: Key)
    requires AllMirror(src, classes) && Acyclic(classes) && c < |classes| && PlainChain(classes, c)
    requires FieldOffset(classes, c, k).Some?
    ensures var off := FieldOffset(classes, c, k).value;
      && off < |classes[c].fields| && classes[c].fields[off] == k
      && forall j :: off < j < |classes[c].fields| ==> classes[c].fields[j] != k
  {
    OneLookup(src, classes, c, k);
    assert Mirrors(src, classes, c);
    LastIndexSound(classes[c].fields, k);
  }

  // ---- methods ----

  datatype Slot = Slot(owner: nat, slot: nat)

  predicate Declares(classes: seq<Class>, c: nat, k: Key) {
    c < |classes| && k in classes[c].dispatch
  }

  /** Object ends every superclass chain. */
  predicate ObjectRoot(classes: seq<Class>, root: nat) {
    root < |classes| && classes[root].superclass == None && !classes[root].isInterface
  }

  /** The classes searched first: the superclass chain, and Object after an interface that
      has no superclass. */
  function Chain(classes: seq<Class>, root: nat, c: nat): (r: seq<nat>)
    requires Acyclic(classes) && ObjectRoot(classes, root) && c < |classes|
    ensures forall j :: 0 <= j < |r| ==> r[j] < |classes|
    decreases c
  {
    if classes[c].superclass.Some? then
      assert Descends(classes, c);
      [c] + Chain(classes, root, classes[c].superclass.value)
    else if classes[c].isInterface then [c, root]
    else [c]
  }

  /** The chain begins with the class itself; after a class comes its superclass; after an
      interface that has none comes Object; and it ends with a class that has none. */
  lemma {:induction false} ChainExact(classes: seq<Class>, root: nat, c: nat, n: nat)
    requires Acyclic(classes) && ObjectRoot(classes, root) && c < |classes|
    ensures var chain := Chain(classes, root, c);
      && chain != [] && chain[0] == c
      && (n < |chain| ==>
            var d := classes[chain[n]];
            if d.superclass.Some? then n + 1 < |chain| && chain[n + 1] == d.superclass.value
            else if d.isInterface then n + 1 < |chain| && chain[n + 1] == root
            else n + 1 == |chain|)
    decreases c
  {
    assert Descends(classes, c);
    if classes[c].superclass.Some? {
      var up := classes[c].superclass.value;
      ChainExact(classes, root, up, if n > 0 then n - 1 else 0);
      assert Chain(classes, root, c) == [c] + Chain(classes, root, up);
    }
  }

  /** The first class of a list that declares a method. */
  function FirstOf(classes: seq<Class>, cs: seq<nat>, k: Key): (r: Option<Slot>)
    requires forall j :: 0 <= j < |cs| ==> cs[j] < |classes|
  {
    if cs == [] then None
    else if k in classes[cs[0]].dispatch then Some(Slot(cs[0], classes[cs[0]].dispatch[k]))
    else FirstOf(classes, cs[1..], k)
  }

  /** The nearest declaration: it is on the list and nothing before it declares the method;
      none is found exactly when no class of the list declares it. */
  lemma {:induction false} FirstOfNearest(classes: seq<Class>, cs: seq<nat>, k: Key)
    requires forall j :: 0 <= j < |cs| ==> cs[j] < |classes|
    ensures var r := FirstOf(classes, cs, k);
      && (r.Some? ==> exists n :: 0 <= n < |cs| && cs[n] == r.value.owner
                        && Declares(classes, cs[n], k) && classes[cs[n]].dispatch[k] == r.value.slot
                        && forall j :: 0 <= j < n ==> !Declares(classes, cs[j], k))
      && (r.None? <==> forall j :: 0 <= j < |cs| ==> !Declares(classes, cs[j], k))
  {
    if cs != [] {
      var tail := cs[1..];
      FirstOfNearest(classes, tail, k);
      assert forall j :: 0 <= j < |tail| ==> tail[j] == cs[j + 1];
      assert forall j :: 1 <= j < |cs| ==> cs[j] == tail[j - 1];
      if k in classes[cs[0]].dispatch {
        assert Declares(classes, cs[0], k);
      } else if FirstOf(classes, tail, k).Some? {
        var r := FirstOf(classes, tail, k).value;
        var n :| 0 <= n < |tail| && tail[n] == r.owner && Declares(classes, tail[n], k)
                 && classes[tail[n]].dispatch[k] == r.slot
                 && forall j :: 0 <= j < n ==> !Declares(classes, tail[j], k);
        assert cs[n + 1] == tail[n];
      }
    }
  }

  /** Interface i is named by class c, or by an interface that is. */
  ghost predicate IfaceReach(classes: seq<Class>, c: nat, i: nat)
    requires Acyclic(classes)
    decreases c
  {
    c < |classes| &&
    (assert Descends(classes, c);
     exists n :: 0 <= n < |classes[c].interfaces|
       && (classes[c].interfaces[n] == i || IfaceReach(classes, classes[c].interfaces[n], i)))
  }

  /** Each entry but the first is an interface that the one before it names. */
  predicate NamesNext(classes: seq<Class>, path: seq<nat>) {
    forall n :: 0 <= n < |path| - 1 ==> path[n] < |classes| && path[n + 1] in classes[path[n]].interfaces
  }

  lemma NamesNextFrom(classes: seq<Class>, c: nat, path: seq<nat>)
    requires path != [] && NamesNext(classes, path) && c < |classes| && path[0] in classes[c].interfaces
    ensures NamesNext(classes, [c] + path)
  {
    var all := [c] + path;
    forall n | 0 <= n < |all| - 1
      ensures all[n] < |classes| && all[n + 1] in classes[all[n]].interfaces
    {
      if n > 0 {
        assert all[n] == path[n - 1] && all[n + 1] == path[n];
      }
    }
  }

  lemma {:induction false} InterfacePath(classes: seq<Class>, c: nat, i: nat) returns (path: seq<nat>)
    requires Acyclic(classes) && IfaceReach(classes, c, i)
    ensures |path| > 1 && path[0] == c && path[|path| - 1] == i && NamesNext(classes, path)
    decreases c
  {
    assert Descends(classes, c);
    var n :| 0 <= n < |classes[c].interfaces|
             && (classes[c].interfaces[n] == i || IfaceReach(classes, classes[c].interfaces[n], i));
    if classes[c].interfaces[n] == i {
      path := [c, i];
    } else {
      path := InterfacePath(classes, classes[c].interfaces[n], i);
      NamesNextFrom(classes, c, path);
      path := [c] + path;
    }
  }

  lemma {:induction false} PathIsReach(classes: seq<Class>, path: seq<nat>)
    requires Acyclic(classes) && |path| > 1 && NamesNext(classes, path)
    ensures IfaceReach(classes, path[0], path[|path| - 1])
    decreases |path|
  {
    var c := path[0];
    assert path[1] in classes[c].interfaces;
    var n :| 0 <= n < |classes[c].interfaces| && classes[c].interfaces[n] == path[1];
    if |path| > 2 {
      var rest := path[1..];
      assert forall m :: 0 <= m < |rest| ==> rest[m] == path[m + 1];
      PathIsReach(classes, rest);
    }
  }

  /** Reaching an interface is a path of at least one edge, each to an interface that is named. */
  lemma ReachByPath(classes: seq<Class>, c: nat, i: nat)
    requires Acyclic(classes)
    ensures IfaceReach(classes, c, i)
       <==> exists path :: |path| > 1 && path[0] == c && path[|path| - 1] == i && NamesNext(classes, path)
  {
    if IfaceReach(classes, c, i) {
      var path := InterfacePath(classes, c, i);
    }
    if path :| |path| > 1 && path[0] == c && path[|path| - 1] == i && NamesNext(classes, path) {
      PathIsReach(classes, path);
    }
  }

  ghost predicate InterfacesIn(classes: seq<Class>, c: nat, found: set<nat>)
    requires c < |classes|
  {
    forall n :: 0 <= n < |classes[c].interfaces| ==> classes[c].interfaces[n] in found
  }

  /** A set that holds the interfaces of `c`, and of each of its own members, holds all that
      can be reached from `c`. */
  lemma {:induction false} ClosedHolds(classes: seq<Class>, c: nat, found: set<nat>, i: nat)
    requires Acyclic(classes) && IfaceReach(classes, c, i) && InterfacesIn(classes, c, found)
    requires forall j :: j in found && j < |classes| ==> InterfacesIn(classes, j, found)
    ensures i in found
    decreases c
  {
    assert Descends(classes, c);
    var n :| 0 <= n < |classes[c].interfaces|
             && (classes[c].interfaces[n] == i || IfaceReach(classes, classes[c].interfaces[n], i));
    if classes[c].interfaces[n] != i {
      ClosedHolds(classes, classes[c].interfaces[n], found, i);
    }
  }

  lemma {:induction false} ReachStep(classes: seq<Class>, c: nat, i: nat, j: nat)
    requires Acyclic(classes) && IfaceReach(classes, c, i) && i < |classes| && j in classes[i].interfaces
    ensures IfaceReach(classes, c, j)
    decreases c
  {
    assert Descends(classes, c);
    var n :| 0 <= n < |classes[c].interfaces|
             && (classes[c].interfaces[n] == i || IfaceReach(classes, classes[c].interfaces[n], i));
    var d := classes[c].interfaces[n];
    if d == i {
      var m :| 0 <= m < |classes[i].interfaces| && classes[i].interfaces[m] == j;
      assert IfaceReach(classes, i, j);
    } else {
      ReachStep(classes, d, i, j);
    }
    assert IfaceReach(classes, d, j);
  }

  /** The classes that a search has not seen yet. */
  function Unseen(classes: seq<Class>, seen: seq<nat>): set<nat> {
    set i | 0 <= i < |classes| && i !in seen
  }

  lemma UnseenShrinks(classes: seq<Class>, seen: seq<nat>, i: nat)
    requires i < |classes| && i !in seen
    ensures |Unseen(classes, seen + [i])| < |Unseen(classes, seen)|
  {
    assert Unseen(classes, seen + [i]) == Unseen(classes, seen) - {i};
  }

  /** The state of the search: what has been seen and what is queued can be reached; what
      has been seen declares nothing, and its interfaces are seen or queued. */
  ghost predicate Searching(classes: seq<Class>, c: nat, k: Key, queue: seq<nat>, seen: seq<nat>)
    requires Acyclic(classes) && c < |classes|
  {
    var found := SetOf<nat>(seen) + SetOf<nat>(queue);
    && (forall i :: i in found ==> i < |classes| && IfaceReach(classes, c, i))
    && (forall i :: i in seen ==> !Declares(classes, i, k))
    && InterfacesIn(classes, c, found)
    && forall i :: i in seen ==> i < |classes| && InterfacesIn(classes, i, found)
  }

  lemma SearchStarts(classes: seq<Class>, c: nat, k: Key)
    requires Acyclic(classes) && c < |classes|
    ensures Searching(classes, c, k, classes[c].interfaces, [])
  {
    assert Descends(classes, c);
    forall i | i in SetOf<nat>(classes[c].interfaces)
      ensures i < |classes| && IfaceReach(classes, c, i)
    {
      var n :| 0 <= n < |classes[c].interfaces| && classes[c].interfaces[n] == i;
    }
  }

  /** The last of the queue has been seen before. */
  lemma SearchSkips(classes: seq<Class>, c: nat, k: Key, queue: seq<nat>, seen: seq<nat>)
    requires Acyclic(classes) && c < |classes| && Searching(classes, c, k, queue, seen)
    requires queue != [] && queue[|queue| - 1] in seen
    ensures Searching(classes, c, k, queue[..|queue| - 1], seen)
  {
    var rest := queue[..|queue| - 1];
    assert queue == rest + [queue[|queue| - 1]];
    assert SetOf<nat>(seen) + SetOf<nat>(rest) == SetOf<nat>(seen) + SetOf<nat>(queue);
  }

  lemma SearchVisits(classes: seq<Class>, c: nat, k: Key, queue: seq<nat>, seen: seq<nat>)
    requires Acyclic(classes) && c < |classes| && Searching(classes, c, k, queue, seen) && queue != []
    requires !Declares(classes, queue[|queue| - 1], k)
    ensures var i := queue[|queue| - 1];
      && i < |classes|
      && Searching(classes, c, k, queue[..|queue| - 1] + classes[i].interfaces, seen + [i])
  {
    var i := queue[|queue| - 1];
    var rest := queue[..|queue| - 1];
    var found := SetOf<nat>(seen) + SetOf<nat>(queue);
    assert queue == rest + [i];
    assert i in found;
    var queue2, seen2 := rest + classes[i].interfaces, seen + [i];
    var found2 := SetOf<nat>(seen2) + SetOf<nat>(queue2);
    assert found2 == found + SetOf<nat>(classes[i].interfaces);
    forall j | j in found2
      ensures j < |classes| && IfaceReach(classes, c, j)
    {
      if j !in found {
        assert Descends(classes, i);
        ReachStep(classes, c, i, j);
      }
    }
    assert InterfacesIn(classes, i, found2);
  }

  /** `search_interfaces`: finds a declaration in an interface reachable from the class
      itself, if there is one. */
  method SearchInterfaces(classes: seq<Class>, c: nat, k: Key) returns (r: Option<Slot>)
    requires Acyclic(classes) && c < |classes|
    ensures r.Some? ==> IfaceReach(classes, c, r.value.owner) && Declares(classes, r.value.owner, k)
    ensures r.Some? ==> classes[r.value.owner].dispatch[k] == r.value.slot
    ensures r.None? ==> forall i :: IfaceReach(classes, c, i) ==> !Declares(classes, i, k)
  {
    var queue: seq<nat>, seen: seq<nat> := classes[c].interfaces, [];
    SearchStarts(classes, c, k);
    while |queue| > 0
      invariant Searching(classes, c, k, queue, seen)
      decreases |Unseen(classes, seen)|, |queue|
    {
      var i := queue[|queue| - 1];
      assert i in SetOf<nat>(seen) + SetOf<nat>(queue);
      if i in seen {
        SearchSkips(classes, c, k, queue, seen);
        queue := queue[..|queue| - 1];
      } else {
        UnseenShrinks(classes, seen, i);
        if k in classes[i].dispatch {
          return Some(Slot(i, classes[i].dispatch[k]));
        }
        SearchVisits(classes, c, k, queue, seen);
        queue, seen := queue[..|queue| - 1] + classes[i].interfaces, seen + [i];
      }
    }
    forall i | IfaceReach(classes, c, i)
      ensures !Declares(classes, i, k)
    {
      ClosedHolds(classes, c, SetOf<nat>(seen) + SetOf<nat>(queue), i);
    }
    r := None;
  }

  /** The walk of `resolve_target` up the superclass chain. */
  method WalkChain(classes: seq<Class>, root: nat, c: nat, k: Key) returns (r: Option<Slot>)
    requires Acyclic(classes) && ObjectRoot(classes, root) && c < |classes|
    ensures r == FirstOf(classes, Chain(classes, root, c), k)
  {
    var cc: nat := c;
    ghost var hopped := false;
    while true
      invariant cc < |classes|
      invariant FirstOf(classes, Chain(classes, root, c), k) == FirstOf(classes, Chain(classes, root, cc), k)
      invariant hopped ==> cc == root
      decreases if hopped then 0 else 1, cc
    {
      if k in classes[cc].dispatch {
        return Some(Slot(cc, classes[cc].dispatch[k]));
      }
      assert Descends(classes, cc);
      assert Chain(classes, root, cc)[1..]
          == if classes[cc].superclass.Some? then Chain(classes, root, classes[cc].superclass.value)
             else if classes[cc].isInterface then [root]
             else [];
      if classes[cc].superclass.Some? {
        cc := classes[cc].superclass.value;
      } else if classes[cc].isInterface {
        cc, hopped := root, true;
      } else {
        return None;
      }
    }
  }

  /** Whether a call can reach a declaration: on the chain, or in an interface reachable
      from the class where the search starts. */
  ghost predicate Answers(classes: seq<Class>, root: nat, c: nat, k: Key)
    requires Acyclic(classes) && ObjectRoot(classes, root) && c < |classes|
  {
    || (exists n :: 0 <= n < |Chain(classes, root, c)| && Declares(classes, Chain(classes, root, c)[n], k))
    || (exists i :: IfaceReach(classes, c, i) && Declares(classes, i, k))
  }

  /** The search of `resolve_target`: the nearest declaration on the chain, otherwise one in
      a reachable interface; it fails exactly when there is neither. */
  method Resolve(classes: seq<Class>, root: nat, c: nat, k: Key) returns (r: Option<Slot>)
    requires Acyclic(classes) && ObjectRoot(classes, root) && c < |classes|
    ensures r.Some? <==> Answers(classes, root, c, k)
    ensures r.Some? ==> Declares(classes, r.value.owner, k) && classes[r.value.owner].dispatch[k] == r.value.slot
    ensures var near := FirstOf(classes, Chain(classes, root, c), k);
      if near.Some? then r == near else r.Some? ==> IfaceReach(classes, c, r.value.owner)
  {
    FirstOfNearest(classes, Chain(classes, root, c), k);
    r := WalkChain(classes, root, c, k);
    if r.None? {
      r := SearchInterfaces(classes, c, k);
    }
  }

  // ---- the target of a call ----

  /** What the table keeps for a method besides its key. */
  datatype MethodInfo = MethodInfo(nativeDecl: bool, native: Option<nat>, code: Option<seq<Word>>)

  datatype ResolveError =
    | NullReceiver
    | NotLoadable
    | MissingClass(c: nat)
    | NoSuchMethod
    | NoBridge
    | NoCode
    | BadCode(error: DexError)

  datatype Target = NativeTarget(native: nat) | CodeTarget(at: Slot, decoded: Decoded)

  /** What a method that has been found is good for. A host key comes before code; a method
      with neither, or with code that cannot be decoded, is an error. */
  function TargetOf(at: Slot, m: MethodInfo): Result<Target, ResolveError> {
    if m.nativeDecl then Err(NoBridge)
    else if m.native.Some? then Ok(NativeTarget(m.native.value))
    else if m.code.None? then Err(NoCode)
    else
      match Sweep(m.code.value, 0, [])
      case Ok(d) => Ok(CodeTarget(at, d))
      case Err(e) => Err(BadCode(e))
  }

  /** The class where the search starts: for a virtual or interface call the class of the
      receiver, for a static or direct one the class the reference names, if it can be
      loaded, for a super call the class above the one whose code makes it. */
  function StartClass(classes: seq<Class>, root: nat, objects: seq<JObject>, kind: InvokeKind, receiver: Option<nat>,
                      named: Option<nat>, current: nat): Result<nat, ResolveError> {
    match kind
    case Virtual => ReceiverClass(objects, receiver)
    case Interface => ReceiverClass(objects, receiver)
    case Static => if named.Some? then Ok(named.value) else Err(NotLoadable)
    case Direct => if named.Some? then Ok(named.value) else Err(NotLoadable)
    case Super => Ok(SuperStart(classes, root, current))
  }

  function ReceiverClass(objects: seq<JObject>, receiver: Option<nat>): Result<nat, ResolveError> {
    if receiver.Some? && receiver.value < |objects| then Ok(objects[receiver.value].cls) else Err(NullReceiver)
  }

  function SuperStart(classes: seq<Class>, root: nat, current: nat): nat {
    if current < |classes| && classes[current].superclass.Some? then classes[current].superclass.value else root
  }

  /** The declaration a search from `c` may end at: the nearest on the chain; without one, any
      in an interface reachable from `c`. */
  ghost predicate Selects(classes: seq<Class>, root: nat, c: nat, k: Key, at: Slot)
    requires Acyclic(classes) && ObjectRoot(classes, root) && c < |classes|
  {
    && Declares(classes, at.owner, k) && classes[at.owner].dispatch[k] == at.slot
    && var near := FirstOf(classes, Chain(classes, root, c), k);
       if near.Some? then near.value == at else IfaceReach(classes, c, at.owner)
  }

  /** What a call comes to from a start: an unusable start is reported as such; otherwise no
      method is found exactly when nothing answers the call, and what is found is the selected
      declaration `at`, put to use as far as it can be. */
  ghost predicate Resolves(classes: seq<Class>, root: nat, info: (nat, nat) -> MethodInfo,
                           start: Result<nat, ResolveError>, k: Key, r: Result<Target, ResolveError>, at: Slot)
    requires Acyclic(classes) && ObjectRoot(classes, root)
  {
    match start
    case Err(e) => r == Err(e)
    case Ok(c) =>
      if c >= |classes| then r == Err(MissingClass(c))
      else if !Answers(classes, root, c, k) then r == Err(NoSuchMethod)
      else Selects(classes, root, c, k, at) && r == TargetOf(at, info(at.owner, at.slot))
  }

  /** `resolve_target`. */
  method ResolveTarget(classes: seq<Class>, root: nat, info: (nat, nat) -> MethodInfo, objects: seq<JObject>,
                       kind: InvokeKind, receiver: Option<nat>, named: Option<nat>, current: nat, k: Key)
    returns (r: Result<Target, ResolveError>, ghost at: Slot)
    requires Acyclic(classes) && ObjectRoot(classes, root)
    ensures Resolves(classes, root, info, StartClass(classes, root, objects, kind, receiver, named, current), k, r, at)
  {
    at := Slot(0, 0);
    var c: nat;
    match kind {
      case Virtual =>
        if receiver.None? || receiver.value >= |objects| {
          r := Err(NullReceiver);
          return;
        }
        c := objects[receiver.value].cls;
      case Interface =>
        if receiver.None? || receiver.value >= |objects| {
          r := Err(NullReceiver);
          return;
        }
        c := objects[receiver.value].cls;
      case Static =>
        if named.None? {
          r := Err(NotLoadable);
          return;
        }
        c := named.value;
      case Direct =>
        if named.None? {
          r := Err(NotLoadable);
          return;
        }
        c := named.value;
      case Super =>
        var above := if current < |classes| then classes[current].superclass else None;
        c := if above.Some? then above.value else root;
    }
    if c >= |classes| {
      r := Err(MissingClass(c));
      return;
    }
    var slot := Resolve(classes, root, c, k);
    if slot.None? {
      r := Err(NoSuchMethod);
      return;
    }
    at := slot.value;
    r := UseMethod(slot.value, info(slot.value.owner, slot.value.slot));
  }

  /** The tail of `resolve_target`. */
  method UseMethod(at: Slot, m: MethodInfo) returns (r: Result<Target, ResolveError>)
    ensures r == TargetOf(at, m)
  {
    if m.nativeDecl {
      return Err(NoBridge);
    }
    if m.native.Some? {
      return Ok(NativeTarget(m.native.value));
    }
    if m.code.None? {
      return Err(NoCode);
    }
    var d := DecodeAll(m.code.value);
    r := if d.Ok? then Ok(CodeTarget(at, d.value)) else Err(BadCode(d.error));
  }

  /** A class's own declaration comes before every inherited one; a class that does not declare
      the method takes over what its superclass selects on the chain. */
  lemma OverrideWins(classes: seq<Class>, root: nat, c: nat, k: Key, at: Slot)
    requires Acyclic(classes) && ObjectRoot(classes, root) && c < |classes| && Selects(classes, root, c, k, at)
    ensures Declares(classes, c, k) ==> at == Slot(c, classes[c].dispatch[k])
    ensures classes[c].superclass.Some? ==> classes[c].superclass.value < c
    ensures !Declares(classes, c, k) && classes[c].superclass.Some?
        && FirstOf(classes, Chain(classes, root, c), k).Some?
        ==> Selects(classes, root, classes[c].superclass.value, k, at)
  {
    assert Descends(classes, c);
    if classes[c].superclass.Some? {
      assert Chain(classes, root, c)[1..] == Chain(classes, root, classes[c].superclass.value);
    }
  }

  lemma {:induction false} ChainBelow(classes: seq<Class>, root: nat, c: nat)
    requires Acyclic(classes) && ObjectRoot(classes, root) && c < |classes|
    ensures forall n :: 0 <= n < |Chain(classes, root, c)|
              ==> Chain(classes, root, c)[n] <= c || Chain(classes, root, c)[n] == root
    decreases c
  {
    assert Descends(classes, c);
    if classes[c].superclass.Some? {
      ChainBelow(classes, root, classes[c].superclass.value);
    }
  }

  lemma {:induction false} ReachBelow(classes: seq<Class>, c: nat, i: nat)
    requires Acyclic(classes) && IfaceReach(classes, c, i)
    ensures i < c
    decreases c
  {
    assert Descends(classes, c);
    var n :| 0 <= n < |classes[c].interfaces|
             && (classes[c].interfaces[n] == i || IfaceReach(classes, classes[c].interfaces[n], i));
    if classes[c].interfaces[n] != i {
      ReachBelow(classes, classes[c].interfaces[n], i);
    }
  }

  /** Whatever declaration a super call ends at, on the chain or in an interface, belongs to a
      class loaded before the one that makes the call, or to Object or an interface of
      Object: never to the calling class or a class below it. */
  lemma SuperAbove(classes: seq<Class>, root: nat, current: nat, k: Key, at: Slot)
    requires Acyclic(classes) && ObjectRoot(classes, root) && current < |classes|
    ensures SuperStart(classes, root, current) < |classes|
    ensures Selects(classes, root, SuperStart(classes, root, current), k, at)
        ==> at.owner < current || at.owner == root || IfaceReach(classes, root, at.owner)
  {
    assert Descends(classes, current);
    var start := SuperStart(classes, root, current);
    if Selects(classes, root, start, k, at) {
      var near := FirstOf(classes, Chain(classes, root, start), k);
      if near.Some? {
        ChainBelow(classes, root, start);
        FirstOfNearest(classes, Chain(classes, root, start), k);
        assert Chain(classes, root, root) == [root];
      } else {
        ReachBelow(classes, start, at.owner);
      }
    }
  }

  // ---- interface methods that are inherited ----

  /** A class of the list declares the method. */
  ghost predicate OnChain(classes: seq<Class>, cs: seq<nat>, k: Key) {
    exists n :: 0 <= n < |cs| && Declares(classes, cs[n], k)
  }

  /** An interface that class `c` names, or that such an interface names, declares it. */
  ghost predicate FromInterface(classes: seq<Class>, c: nat, k: Key)
    requires Acyclic(classes)
  {
    exists i :: IfaceReach(classes, c, i) && Declares(classes, i, k)
  }

  /** What inheritance gives a class: the methods of its chain and of every interface of a
      class of its chain. */
  ghost predicate Inherits(classes: seq<Class>, root: nat, c: nat, k: Key)
    requires Acyclic(classes) && ObjectRoot(classes, root) && c < |classes|
  {
    var chain := Chain(classes, root, c);
    OnChain(classes, chain, k) || exists n :: 0 <= n < |chain| && FromInterface(classes, chain[n], k)
  }

  /** A call finds a method only if the class inherits it. It fails to find one that the class
      inherits exactly when no class on the chain declares it, no interface reachable from the
      class itself does, and one reachable from a class further up the chain does. */
  lemma DefaultsLost(classes: seq<Class>, root: nat, c: nat, k: Key)
    requires Acyclic(classes) && ObjectRoot(classes, root) && c < |classes|
    ensures Answers(classes, root, c, k) ==> Inherits(classes, root, c, k)
    ensures var chain := Chain(classes, root, c);
      Inherits(classes, root, c, k) && !Answers(classes, root, c, k)
      <==> !OnChain(classes, chain, k) && !FromInterface(classes, c, k)
           && exists n :: 1 <= n < |chain| && FromInterface(classes, chain[n], k)
  {
    var chain := Chain(classes, root, c);
    assert chain[0] == c;
    assert Answers(classes, root, c, k) <==> OnChain(classes, chain, k) || FromInterface(classes, c, k);
  }

  /** An interface of a superclass is not searched: with Object, an interface that declares a
      method, a class that implements it and a subclass of that class, the search from the
      subclass finds nothing. */
  lemma SuperInterfaceMissed(k: Key)
    ensures var classes := [
        Class(OBJECT, None, [], false, None, [], map[], [], map[]),
        Class("LI;", Some(0), [], true, None, [], map[], [k], map[k := 0]),
        Class("LA;", Some(0), [1], false, None, [], map[], [], map[]),
        Class("LB;", Some(2), [], false, None, [], map[], [], map[])
      ];
      && Acyclic(classes) && ObjectRoot(classes, 0)
      && Answers(classes, 0, 2, k)
      && !Answers(classes, 0, 3, k)
  {
    var o := Class(OBJECT, None, [], false, None, [], map[], [], map[]);
    var i := Class("LI;", Some(0), [], true, None, [], map[], [k], map[k := 0]);
    var a := Class("LA;", Some(0), [1], false, None, [], map[], [], map[]);
    var b := Class("LB;", Some(2), [], false, None, [], map[], [], map[]);
    var classes := [o, i, a, b];
    assert a.interfaces[0] == 1;
    assert IfaceReach(classes, 2, 1) && Declares(classes, 1, k);
    var three := 3;
    assert Chain(classes, 0, 0) == [0];
    assert Chain(classes, 0, 2) == [2] + Chain(classes, 0, 0);
    assert Chain(classes, 0, three) == [3, 2, 0];
  }
}
