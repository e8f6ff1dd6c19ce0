/** Assignability of classes and arrays. */
module Subtyping {
  import opened Wrappers
  import opened Seqs
  import opened ClassTable
  import opened Resolution

  /** The classes loaded so far, and the class of each descriptor that can be resolved. */
  datatype Table = Table(classes: seq<Class>, byDesc: map<string, nat>) {

    ghost predicate Valid() {
      && Acyclic(classes)
      && forall d :: d in byDesc ==> byDesc[d] < |classes|
    }

    predicate IsArrayClass(c: nat)
      requires c < |classes|
    {
      classes[c].elem.Some?
    }
  }

  // ---- what assignability means ----

  /** `target` is `c`, or is reached from `c` over superclass and interface edges. */
  ghost predicate Reaches(t: Table, c: nat, target: nat)
    requires t.Valid() && c < |t.classes|
    decreases c
  {
    || c == target
    || (assert Descends(t.classes, c);
        || (t.classes[c].superclass.Some? && Reaches(t, t.classes[c].superclass.value, target))
        || (exists n :: 0 <= n < |t.classes[c].interfaces| && Reaches(t, t.classes[c].interfaces[n], target)))
  }

  /** Nothing above a class is an array. */
  ghost predicate PlainAbove(t: Table, c: nat)
    requires t.Valid() && c < |t.classes|
    decreases c
  {
    assert Descends(t.classes, c);
    && !t.IsArrayClass(c)
    && (t.classes[c].superclass.Some? ==> PlainAbove(t, t.classes[c].superclass.value))
    && forall n :: 0 <= n < |t.classes[c].interfaces| ==> PlainAbove(t, t.classes[c].interfaces[n])
  }

  lemma {:induction false} ReachesTransitive(t: Table, a: nat, b: nat, c: nat)
    requires t.Valid() && a < |t.classes| && b < |t.classes|
    requires Reaches(t, a, b) && Reaches(t, b, c)
    ensures Reaches(t, a, c)
    decreases a
  {
    if a != b {
      assert Descends(t.classes, a);
      if t.classes[a].superclass.Some? && Reaches(t, t.classes[a].superclass.value, b) {
        ReachesTransitive(t, t.classes[a].superclass.value, b, c);
      } else {
        var n :| 0 <= n < |t.classes[a].interfaces| && Reaches(t, t.classes[a].interfaces[n], b);
        ReachesTransitive(t, t.classes[a].interfaces[n], b, c);
      }
    }
  }

  /** Class d is the superclass of c or one of its interfaces. */
  ghost predicate Above(t: Table, c: nat, d: nat) {
    && c < |t.classes| && d < |t.classes|
    && (t.classes[c].superclass == Some(d) || d in t.classes[c].interfaces)
  }

  ghost predicate UpTo(t: Table, path: seq<nat>, target: nat) {
    && path != [] && path[|path| - 1] == target
    && forall n :: 0 <= n < |path| - 1 ==> Above(t, path[n], path[n + 1])
  }

  lemma UpToFrom(t: Table, c: nat, path: seq<nat>, target: nat)
    requires UpTo(t, path, target) && Above(t, c, path[0])
    ensures UpTo(t, [c] + path, target)
  {
    var all := [c] + path;
    forall n | 0 <= n < |all| - 1
      ensures Above(t, all[n], all[n + 1])
    {
      if n > 0 {
        assert all[n] == path[n - 1] && all[n + 1] == path[n];
      }
    }
  }

  lemma {:induction false} PathTo(t: Table, c: nat, target: nat) returns (path: seq<nat>)
    requires t.Valid() && c < |t.classes| && Reaches(t, c, target)
    ensures UpTo(t, path, target) && path[0] == c
    decreases c
  {
    path := [c];
    if c != target {
      assert Descends(t.classes, c);
      var next: nat;
      if t.classes[c].superclass.Some? && Reaches(t, t.classes[c].superclass.value, target) {
        next := t.classes[c].superclass.value;
      } else {
        var n :| 0 <= n < |t.classes[c].interfaces| && Reaches(t, t.classes[c].interfaces[n], target);
        next := t.classes[c].interfaces[n];
      }
      path := PathTo(t, next, target);
      UpToFrom(t, c, path, target);
      path := [c] + path;
    }
  }

  lemma {:induction false} PathReaches(t: Table, path: seq<nat>, target: nat)
    requires t.Valid() && UpTo(t, path, target) && path[0] < |t.classes|
    ensures Reaches(t, path[0], target)
    decreases |path|
  {
    if |path| > 1 {
      var rest := path[1..];
      assert Above(t, path[0], path[1]);
      assert forall n :: 0 <= n < |rest| - 1 ==> Above(t, rest[n], rest[n + 1]) by {
        assert forall n :: 0 <= n < |rest| ==> rest[n] == path[n + 1];
      }
      PathReaches(t, rest, target);
      assert Descends(t.classes, path[0]);
    }
  }

  /** Reaching is a path of any length over the two kinds of edges. */
  lemma ReachesByPath(t: Table, c: nat, target: nat)
    requires t.Valid() && c < |t.classes|
    ensures Reaches(t, c, target) <==> exists path :: UpTo(t, path, target) && path[0] == c
  {
    if Reaches(t, c, target) {
      var path := PathTo(t, c, target);
    }
    if path :| UpTo(t, path, target) && path[0] == c {
      PathReaches(t, path, target);
    }
  }

  // ---- the check ----

  const LIMIT := 64

  /** Both element types are primitive or one is: only identical ones match. */
  predicate PrimitiveElement(desc: string) {
    |desc| == 1
  }

  /** The answer; none stands for the errors: too deep, or an unknown element type. */
  function Assignable(t: Table, obj: nat, target: nat, depth: nat): (r: Option<bool>)
    requires t.Valid() && obj < |t.classes| && target < |t.classes| && depth <= LIMIT + 1
    decreases LIMIT + 1 - depth, 2, 0, 0
  {
    if obj == target then Some(true)
    else if depth > LIMIT then None
    else Climb(t, obj, target, depth, 0)
  }

  /** The loop up the superclass chain. */
  function Climb(t: Table, c: nat, target: nat, depth: nat, level: nat): (r: Option<bool>)
    requires t.Valid() && c < |t.classes| && target < |t.classes| && depth <= LIMIT && level <= LIMIT + 1
    decreases LIMIT + 1 - depth, 1, LIMIT + 1 - level, 0
  {
    if level > LIMIT then None
    else if c == target then Some(true)
    else if t.IsArrayClass(c) then ArrayAssignable(t, c, target, depth)
    else
      var found := AnyInterface(t, t.classes[c].interfaces, target, depth);
      if found != Some(false) then found
      else if t.classes[c].superclass.None? then Some(false)
      else
        assert Descends(t.classes, c);
        Climb(t, t.classes[c].superclass.value, target, depth, level + 1)
  }

  /** An array: element types decide about another array; besides, an array is only what it
      names itself. */
  function ArrayAssignable(t: Table, c: nat, target: nat, depth: nat): (r: Option<bool>)
    requires t.Valid() && c < |t.classes| && target < |t.classes| && depth <= LIMIT && t.IsArrayClass(c)
    decreases LIMIT + 1 - depth, 0, 0, 0
  {
    if t.IsArrayClass(target) then
      var e, f := t.classes[c].elem.value, t.classes[target].elem.value;
      if e == f then Some(true)
      else if PrimitiveElement(e) || PrimitiveElement(f) then Some(false)
      else if e !in t.byDesc || f !in t.byDesc then None
      else Assignable(t, t.byDesc[e], t.byDesc[f], depth + 1)
    else Some(target in t.classes[c].interfaces)
  }

  function AnyInterface(t: Table, ids: seq<nat>, target: nat, depth: nat): (r: Option<bool>)
    requires t.Valid() && target < |t.classes| && depth <= LIMIT
    decreases LIMIT + 1 - depth, 0, 0, |ids|
  {
    if ids == [] then Some(false)
    else if ids[0] == target then Some(true)
    else if ids[0] >= |t.classes| then None
    else
      var one := Assignable(t, ids[0], target, depth + 1);
      if one != Some(false) then one else AnyInterface(t, ids[1..], target, depth)
  }

  /** `is_assignable_inner`: the loop up the superclass chain, with a loop over the
      interfaces of each class. */
  method Check(t: Table, obj: nat, target: nat, depth: nat) returns (r: Option<bool>)
    requires t.Valid() && obj < |t.classes| && target < |t.classes| && depth <= LIMIT + 1
    ensures r == Assignable(t, obj, target, depth)
    decreases LIMIT + 1 - depth
  {
    if obj == target {
      return Some(true);
    }
    if depth > LIMIT {
      return None;
    }
    var c: nat, level := obj, 0;
    while true
      invariant c < |t.classes| && 0 <= level <= LIMIT + 1
      invariant Assignable(t, obj, target, depth) == Climb(t, c, target, depth, level)
      decreases LIMIT + 1 - level
    {
      if level > LIMIT {
        return None;
      }
      if c == target {
        return Some(true);
      }
      if t.IsArrayClass(c) {
        r := CheckArray(t, c, target, depth);
        return;
      }
      var found := CheckInterfaces(t, t.classes[c].interfaces, target, depth);
      if found != Some(false) {
        return found;
      }
      if t.classes[c].superclass.None? {
        return Some(false);
      }
      assert Descends(t.classes, c);
      c, level := t.classes[c].superclass.value, level + 1;
    }
  }

  method CheckInterfaces(t: Table, ids: seq<nat>, target: nat, depth: nat) returns (r: Option<bool>)
    requires t.Valid() && target < |t.classes| && depth <= LIMIT
    ensures r == AnyInterface(t, ids, target, depth)
    decreases LIMIT + 1 - depth, 0
  {
    for n := 0 to |ids|
      invariant AnyInterface(t, ids, target, depth) == AnyInterface(t, ids[n..], target, depth)
    {
      DropDrop(ids, n, 1);
      if ids[n] == target {
        return Some(true);
      }
      if ids[n] >= |t.classes| {
        return None;
      }
      var one := Check(t, ids[n], target, depth + 1);
      if one != Some(false) {
        return one;
      }
    }
    r := Some(false);
  }

  method CheckArray(t: Table, c: nat, target: nat, depth: nat) returns (r: Option<bool>)
    requires t.Valid() && c < |t.classes| && target < |t.classes| && depth <= LIMIT && t.IsArrayClass(c)
    ensures r == ArrayAssignable(t, c, target, depth)
    decreases LIMIT + 1 - depth, 0
  {
    if t.IsArrayClass(target) {
      var e, f := t.classes[c].elem.value, t.classes[target].elem.value;
      if e == f {
        return Some(true);
      }
      if PrimitiveElement(e) || PrimitiveElement(f) {
        return Some(false);
      }
      if e !in t.byDesc || f !in t.byDesc {
        return None;
      }
      r := Check(t, t.byDesc[e], t.byDesc[f], depth + 1);
      return;
    }
    for n := 0 to |t.classes[c].interfaces|
      invariant target !in t.classes[c].interfaces[..n]
    {
      if t.classes[c].interfaces[n] == target {
        return Some(true);
      }
    }
    r := Some(false);
  }

  // ---- the answers are right ----

  lemma AssignableExact(t: Table, obj: nat, target: nat, depth: nat)
    requires t.Valid() && obj < |t.classes| && target < |t.classes| && depth <= LIMIT + 1
    requires PlainAbove(t, obj) && Assignable(t, obj, target, depth).Some?
    ensures Assignable(t, obj, target, depth).value <==> Reaches(t, obj, target)
    decreases LIMIT + 1 - depth, 2, 0, 0
  {
    if obj != target {
      ClimbExact(t, obj, target, depth, 0);
    }
  }

  lemma {:induction false} ClimbExact(t: Table, c: nat, target: nat, depth: nat, level: nat)
    requires t.Valid() && c < |t.classes| && target < |t.classes| && depth <= LIMIT && level <= LIMIT + 1
    requires PlainAbove(t, c) && Climb(t, c, target, depth, level).Some?
    ensures Climb(t, c, target, depth, level).value <==> Reaches(t, c, target)
    decreases LIMIT + 1 - depth, 1, LIMIT + 1 - level, 0
  {
    if c != target {
      assert Descends(t.classes, c);
      InterfacesExact(t, t.classes[c].interfaces, target, depth);
      if AnyInterface(t, t.classes[c].interfaces, target, depth) == Some(false)
         && t.classes[c].superclass.Some? {
        ClimbExact(t, t.classes[c].superclass.value, target, depth, level + 1);
      }
    }
  }

  lemma {:induction false} InterfacesExact(t: Table, ids: seq<nat>, target: nat, depth: nat)
    requires t.Valid() && target < |t.classes| && depth <= LIMIT
    requires forall n :: 0 <= n < |ids| ==> ids[n] < |t.classes| && PlainAbove(t, ids[n])
    requires AnyInterface(t, ids, target, depth).Some?
    ensures AnyInterface(t, ids, target, depth).value
       <==> exists n :: 0 <= n < |ids| && Reaches(t, ids[n], target)
    decreases LIMIT + 1 - depth, 0, 0, |ids|
  {
    if ids != [] {
      if ids[0] == target {
        assert Reaches(t, ids[0], target);
      } else {
        AssignableExact(t, ids[0], target, depth + 1);
        if Assignable(t, ids[0], target, depth + 1) == Some(false) {
          var tail := ids[1..];
          assert forall n :: 0 <= n < |tail| ==> tail[n] == ids[n + 1];
          InterfacesExact(t, tail, target, depth);
          if n :| 0 <= n < |tail| && Reaches(t, tail[n], target) {
            assert Reaches(t, ids[n + 1], target);
          }
          if n :| 0 <= n < |ids| && Reaches(t, ids[n], target) {
            assert n > 0 && Reaches(t, tail[n - 1], target);
          }
        }
      }
    }
  }

  /** `is_assignable`. */
  function IsAssignable(t: Table, obj: nat, target: nat): Option<bool>
    requires t.Valid() && obj < |t.classes| && target < |t.classes|
  {
    Assignable(t, obj, target, 0)
  }

  /** For a class with no array above it, every answer is reachability over superclass and
      interface edges. */
  lemma ClassesExact(t: Table, obj: nat, target: nat)
    requires t.Valid() && obj < |t.classes| && target < |t.classes| && PlainAbove(t, obj)
    ensures IsAssignable(t, obj, target) in {None, Some(Reaches(t, obj, target))}
  {
    if IsAssignable(t, obj, target).Some? {
      AssignableExact(t, obj, target, 0);
    }
  }

  /** So the answers are a reflexive and transitive relation. */
  lemma AssignableOrder(t: Table, a: nat, b: nat, c: nat)
    requires t.Valid() && a < |t.classes| && b < |t.classes| && c < |t.classes|
    requires PlainAbove(t, a) && PlainAbove(t, b)
    ensures IsAssignable(t, a, a) == Some(true)
    ensures IsAssignable(t, a, b) == Some(true) && IsAssignable(t, b, c) == Some(true)
        ==> IsAssignable(t, a, c) in {None, Some(true)}
  {
    ClassesExact(t, a, b);
    ClassesExact(t, b, c);
    ClassesExact(t, a, c);
    if IsAssignable(t, a, b) == Some(true) && IsAssignable(t, b, c) == Some(true) {
      ReachesTransitive(t, a, b, c);
    }
  }

  // ---- when there is an answer ----

  function Max(a: nat, b: nat): nat {
    if a < b then b else a
  }

  /** The longest way up from a class, over superclass and interface edges. */
  function Tall(t: Table, c: nat): nat
    requires t.Valid() && c < |t.classes|
    decreases c, 1, 0
  {
    assert Descends(t.classes, c);
    Max(if t.classes[c].superclass.Some? then 1 + Tall(t, t.classes[c].superclass.value) else 0,
        TallOf(t, c, t.classes[c].interfaces))
  }

  function TallOf(t: Table, c: nat, ids: seq<nat>): nat
    requires t.Valid() && c < |t.classes| && forall n :: 0 <= n < |ids| ==> ids[n] < c
    decreases c, 0, |ids|
  {
    if ids == [] then 0 else Max(1 + Tall(t, ids[0]), TallOf(t, c, ids[1..]))
  }

  lemma {:induction false} ClimbAnswers(t: Table, c: nat, target: nat, depth: nat, level: nat)
    requires t.Valid() && c < |t.classes| && target < |t.classes| && PlainAbove(t, c)
    requires depth + Tall(t, c) <= LIMIT && level + Tall(t, c) <= LIMIT
    ensures Climb(t, c, target, depth, level).Some?
    decreases c, 1, 0
  {
    assert Descends(t.classes, c);
    InterfacesAnswer(t, c, t.classes[c].interfaces, target, depth);
    if t.classes[c].superclass.Some? {
      ClimbAnswers(t, t.classes[c].superclass.value, target, depth, level + 1);
    }
  }

  lemma {:induction false} InterfacesAnswer(t: Table, c: nat, ids: seq<nat>, target: nat, depth: nat)
    requires t.Valid() && c < |t.classes| && target < |t.classes|
    requires forall n :: 0 <= n < |ids| ==> ids[n] < c && PlainAbove(t, ids[n])
    requires depth + TallOf(t, c, ids) <= LIMIT
    ensures AnyInterface(t, ids, target, depth).Some?
    decreases c, 0, |ids|
  {
    if ids != [] {
      ClimbAnswers(t, ids[0], target, depth + 1, 0);
      InterfacesAnswer(t, c, ids[1..], target, depth);
    }
  }

  /** The limits never show in a hierarchy of at most 64 levels: the check answers, and the
      answer is reachability. */
  lemma AnswersTo(t: Table, obj: nat, target: nat)
    requires t.Valid() && obj < |t.classes| && target < |t.classes| && PlainAbove(t, obj) && Tall(t, obj) <= 64
    ensures IsAssignable(t, obj, target) == Some(Reaches(t, obj, target))
  {
    ClimbAnswers(t, obj, target, 0, 0);
    ClassesExact(t, obj, target);
  }

  /** They do in a longer one: on a chain of more than 64 superclasses without interfaces, a
      check against a class that is not on it has no answer. */
  lemma {:induction false} ChainUnanswered(t: Table, c: nat, target: nat, level: nat)
    requires t.Valid() && c < |t.classes| && target < |t.classes| && level <= LIMIT + 1
    requires Line(t, c) && !Reaches(t, c, target) && level + Tall(t, c) > LIMIT
    ensures Climb(t, c, target, 0, level) == None
    decreases c
  {
    if level <= LIMIT {
      assert Descends(t.classes, c);
      ChainUnanswered(t, t.classes[c].superclass.value, target, level + 1);
    }
  }

  /** No class of the chain is an array or names an interface. */
  predicate Line(t: Table, c: nat)
    requires t.Valid() && c < |t.classes|
    decreases c
  {
    assert Descends(t.classes, c);
    && !t.IsArrayClass(c)
    && t.classes[c].interfaces == []
    && (t.classes[c].superclass.Some? ==> Line(t, t.classes[c].superclass.value))
  }

  /** So on such a chain there is an answer for every class exactly when it has at most 64
      superclasses. */
  lemma LineExact(t: Table, c: nat, target: nat)
    requires t.Valid() && c < |t.classes| && target < |t.classes| && Line(t, c) && !Reaches(t, c, target)
    ensures IsAssignable(t, c, target) == (if Tall(t, c) <= 64 then Some(false) else None)
  {
    if Tall(t, c) <= 64 {
      LinePlain(t, c);
      AnswersTo(t, c, target);
    } else {
      ChainUnanswered(t, c, target, 0);
    }
  }

  lemma {:induction false} LinePlain(t: Table, c: nat)
    requires t.Valid() && c < |t.classes| && Line(t, c)
    ensures PlainAbove(t, c)
    decreases c
  {
    assert Descends(t.classes, c);
    if t.classes[c].superclass.Some? {
      LinePlain(t, t.classes[c].superclass.value);
    }
  }

  // ---- arrays ----

  /** Arrays are named after their element type, and descriptors lead to classes of that
      name; nothing above a class that is not an array is an array. */
  ghost predicate Shaped(t: Table)
    requires t.Valid()
  {
    && (forall d :: d in t.byDesc ==> t.classes[t.byDesc[d]].desc == d)
    && (forall c :: 0 <= c < |t.classes| && t.IsArrayClass(c) ==> t.classes[c].desc == "[" + t.classes[c].elem.value)
    && forall c :: 0 <= c < |t.classes| && !t.IsArrayClass(c) ==> PlainAbove(t, c)
  }

  /** Covariance of element types, all the way down: identical element types, or reference
      element types one of which is below the other. */
  ghost predicate Below(t: Table, c: nat, target: nat)
    requires t.Valid() && Shaped(t) && c < |t.classes| && target < |t.classes|
    decreases |t.classes[c].desc|
  {
    || c == target
    || if t.IsArrayClass(c) then
         if t.IsArrayClass(target) then
           var e, f := t.classes[c].elem.value, t.classes[target].elem.value;
           || e == f
           || (|e| != 1 && |f| != 1 && e in t.byDesc && f in t.byDesc
               && Below(t, t.byDesc[e], t.byDesc[f]))
         else target in t.classes[c].interfaces
       else Reaches(t, c, target)
  }

  /** Every answer, for classes and arrays of any dimension. */
  lemma {:induction false} AnswersExact(t: Table, c: nat, target: nat, depth: nat)
    requires t.Valid() && Shaped(t) && c < |t.classes| && target < |t.classes| && depth <= LIMIT + 1
    requires Assignable(t, c, target, depth).Some?
    ensures Assignable(t, c, target, depth).value <==> Below(t, c, target)
    decreases |t.classes[c].desc|
  {
    if c != target {
      if t.IsArrayClass(c) {
        assert Climb(t, c, target, depth, 0) == ArrayAssignable(t, c, target, depth);
        if t.IsArrayClass(target) {
          var e, f := t.classes[c].elem.value, t.classes[target].elem.value;
          if e != f && !PrimitiveElement(e) && !PrimitiveElement(f) {
            AnswersExact(t, t.byDesc[e], t.byDesc[f], depth + 1);
          }
        }
      } else {
        AssignableExact(t, c, target, depth);
      }
    }
  }

  /** Element types that differ, are not primitive and cannot both be resolved leave the check
      without an answer; a primitive one is an answer. */
  lemma ElementsDecide(t: Table, c: nat, target: nat)
    requires t.Valid() && c < |t.classes| && target < |t.classes| && c != target
    requires t.IsArrayClass(c) && t.IsArrayClass(target)
    ensures var e, f := t.classes[c].elem.value, t.classes[target].elem.value;
      && (e == f ==> IsAssignable(t, c, target) == Some(true))
      && (e != f && (|e| == 1 || |f| == 1) ==> IsAssignable(t, c, target) == Some(false))
      && (e != f && |e| != 1 && |f| != 1 && (e !in t.byDesc || f !in t.byDesc) ==> IsAssignable(t, c, target) == None)
  {
    assert Climb(t, c, target, 0, 0) == ArrayAssignable(t, c, target, 0);
  }

  /** Against a class that is no array, an array answers with what it names itself, whatever
      lies above that. */
  lemma ArrayAgainstClass(t: Table, c: nat, target: nat)
    requires t.Valid() && c < |t.classes| && target < |t.classes|
    requires t.IsArrayClass(c) && !t.IsArrayClass(target)
    ensures IsAssignable(t, c, target) == Some(target in t.classes[c].interfaces)
  {
    assert Climb(t, c, target, 0, 0) == ArrayAssignable(t, c, target, 0);
  }

  /** An array is not assignable to its own superclass, Object, although it reaches it. */
  lemma ArrayNotObject(t: Table, c: nat, o: nat)
    requires t.Valid() && c < |t.classes| && o < |t.classes|
    requires t.IsArrayClass(c) && !t.IsArrayClass(o)
    requires t.classes[c].superclass == Some(o) && o !in t.classes[c].interfaces
    ensures Reaches(t, c, o) && IsAssignable(t, c, o) == Some(false)
  {
    assert Descends(t.classes, c);
    assert Reaches(t, o, o);
    ArrayAgainstClass(t, c, o);
  }

  /** Nothing is above Object, and nothing but Object above the interfaces of arrays. */
  ghost predicate PlainTop(src: Source) {
    && Known(src, OBJECT) && ParentDescs(src, OBJECT) == []
    && forall d :: d in [CLONEABLE, SERIALIZABLE]
         ==> Known(src, d) && forall k :: 0 <= k < |ParentDescs(src, d)| ==> ParentDescs(src, d)[k] == OBJECT
  }

  lemma AboveObject(src: Source, t: Table, c: nat, target: nat)
    requires t.Valid() && AllMirror(src, t.classes) && PlainTop(src)
    requires c < |t.classes| && t.classes[c].desc == OBJECT && Reaches(t, c, target)
    ensures target == c
  {
    assert Mirrors(src, t.classes, c);
  }

  lemma ParentIsObject(src: Source, t: Table, c: nat, n: nat)
    requires t.Valid() && AllMirror(src, t.classes) && PlainTop(src)
    requires c < |t.classes| && t.classes[c].desc in [CLONEABLE, SERIALIZABLE]
    requires n < |Listed(t.classes[c].superclass) + t.classes[c].interfaces|
    ensures var p := (Listed(t.classes[c].superclass) + t.classes[c].interfaces)[n];
      p < c && t.classes[p].desc == OBJECT
  {
    var k := t.classes[c];
    assert Mirrors(src, t.classes, c) && Descends(t.classes, c);
    assert Named(t.classes, Listed(k.superclass) + k.interfaces, ParentDescs(src, k.desc));
  }

  lemma AboveInterface(src: Source, t: Table, c: nat, target: nat)
    requires t.Valid() && AllMirror(src, t.classes) && PlainTop(src)
    requires c < |t.classes| && t.classes[c].desc in [CLONEABLE, SERIALIZABLE] && Reaches(t, c, target)
    ensures target == c || (target < |t.classes| && t.classes[target].desc == OBJECT)
  {
    var k := t.classes[c];
    assert Descends(t.classes, c);
    if k.superclass.Some? && Reaches(t, k.superclass.value, target) {
      ParentIsObject(src, t, c, 0);
      AboveObject(src, t, k.superclass.value, target);
    } else if target != c {
      var n :| 0 <= n < |k.interfaces| && Reaches(t, k.interfaces[n], target);
      ParentIsObject(src, t, c, |Listed(k.superclass)| + n);
      AboveObject(src, t, k.interfaces[n], target);
    }
  }

  /** In a loaded table, where only Object is above the two interfaces, Object is all that an
      array loses: of the classes it reaches, every other one is answered. */
  lemma OnlyObjectLost(src: Source, t: Table, c: nat, target: nat)
    requires t.Valid() && AllMirror(src, t.classes) && PlainTop(src)
    requires c < |t.classes| && target < |t.classes| && t.IsArrayClass(c) && !t.IsArrayClass(target)
    requires Reaches(t, c, target)
    ensures IsAssignable(t, c, target) == Some(t.classes[target].desc != OBJECT)
  {
    var k := t.classes[c];
    assert Mirrors(src, t.classes, c) && Descends(t.classes, c);
    ArrayAgainstClass(t, c, target);
    if Reaches(t, k.superclass.value, target) {
      assert Listed(k.superclass)[0] == k.superclass.value;
      AboveObject(src, t, k.superclass.value, target);
    } else {
      var n :| 0 <= n < |k.interfaces| && Reaches(t, k.interfaces[n], target);
      AboveInterface(src, t, k.interfaces[n], target);
    }
  }

  /** No definition names an array as a parent. */
  ghost predicate NoArrayParents(src: Source) {
    forall d, k :: Known(src, d) && 0 <= k < |ParentDescs(src, d)| ==> !IsArray(ParentDescs(src, d)[k])
  }

  lemma {:induction false} LoadedPlain(src: Source, t: Table, c: nat)
    requires t.Valid() && AllMirror(src, t.classes) && NoArrayParents(src)
    requires c < |t.classes| && !t.IsArrayClass(c)
    ensures PlainAbove(t, c)
    decreases c
  {
    var k := t.classes[c];
    assert Mirrors(src, t.classes, c);
    var ids := Listed(k.superclass) + k.interfaces;
    forall j | 0 <= j < |ids|
      ensures ids[j] < c && PlainAbove(t, ids[j])
    {
      assert ids[j] < c;
      assert t.classes[ids[j]].desc == Needs(src, k.desc)[j];
      assert Mirrors(src, t.classes, ids[j]);
      LoadedPlain(src, t, ids[j]);
    }
    assert k.superclass.Some? ==> ids[0] == k.superclass.value;
    assert forall n :: 0 <= n < |k.interfaces| ==> k.interfaces[n] == ids[|Listed(k.superclass)| + n];
  }

  /** What loading leaves is such a table. */
  lemma LoadedTable(src: Source, classes: seq<Class>, byDesc: map<string, nat>, loading: seq<string>)
    requires AllMirror(src, classes) && NamesOk(src, classes, byDesc, loading) && NoArrayParents(src)
    ensures Table(classes, byDesc).Valid() && Shaped(Table(classes, byDesc))
  {
    LoadedAcyclic(src, classes);
    var t := Table(classes, byDesc);
    forall c | 0 <= c < |classes|
      ensures t.IsArrayClass(c) ==> classes[c].desc == "[" + classes[c].elem.value
      ensures !t.IsArrayClass(c) ==> PlainAbove(t, c)
    {
      assert Mirrors(src, classes, c);
      if !t.IsArrayClass(c) {
        LoadedPlain(src, t, c);
      }
    }
  }
}
